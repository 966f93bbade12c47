/** The GiST index over cubes: search with inner keys, ordering by distance, and page splits. */
module CubeIndex {
  import opened Results
  import opened Cube
  import opened CubeOrder

  // ---------------------------------------------------------------- consistency

  datatype Strategy = Overlaps | Same | ContainsQuery | ContainedBy | Unknown

  /** What the operator means for a stored box. */
  ghost predicate Satisfies(l: Box, q: Box, s: Strategy) {
    match s
    case Overlaps => Overlap(l, q)
    case Same => l.dim == q.dim && forall i | 0 <= i < l.dim :: SameAt(l, q, i)
    case ContainsQuery => Contains(l, q)
    case ContainedBy => Contains(q, l)
    case Unknown => false
  }

  /** `g_cube_leaf_consistent` */
  method LeafConsistent(l: Box, q: Box, s: Strategy) returns (r: bool)
    ensures r <==> Satisfies(l, q, s)
  {
    match s
    case Overlaps => r := OverlapBoxes(l, q);
    case Same =>
      var c := Compare(l, q);
      r := c == 0;
    case ContainsQuery => r := ContainsBox(l, q);
    case ContainedBy => r := ContainsBox(q, l);
    case Unknown => r := false;
  }

  /** What an inner key is asked. */
  ghost predicate MayHold(k: Box, q: Box, s: Strategy) {
    match s
    case Overlaps => Overlap(k, q)
    case Same => Contains(k, q)
    case ContainsQuery => Contains(k, q)
    case ContainedBy => Overlap(k, q)
    case Unknown => false
  }

  /** `g_cube_internal_consistent` */
  method InternalConsistent(k: Box, q: Box, s: Strategy) returns (r: bool)
    ensures r <==> MayHold(k, q, s)
  {
    match s
    case Overlaps => r := OverlapBoxes(k, q);
    case Same => r := ContainsBox(k, q);
    case ContainsQuery => r := ContainsBox(k, q);
    case ContainedBy => r := OverlapBoxes(k, q);
    case Unknown => r := false;
  }

  lemma OverlapGrows(k: Box, l: Box, q: Box)
    requires Covers(k, l) && Overlap(l, q)
    ensures Overlap(k, q)
  {
    forall i: nat ensures MeetAt(k, q, i) { assert Encloses(k, l, i) && MeetAt(l, q, i); }
  }

  lemma ContainsGrows(k: Box, l: Box, q: Box)
    requires Covers(k, l) && Contains(l, q)
    ensures Contains(k, q)
  {
    forall i | 0 <= i < q.dim ensures Encloses(k, q, i) { assert Encloses(k, l, i) && Encloses(l, q, i); }
  }

  /** The extra dimensions of the query around zero. */
  predicate ZeroInside(q: Box, from: nat) { forall i | from <= i < q.dim :: q.Lo(i) <= 0.0 <= q.Hi(i) }

  /** A covering key never rejects a query that the box satisfies, except possibly contained-by with extra dimensions. */
  lemma KeyAdmits(k: Box, l: Box, q: Box, s: Strategy)
    requires Covers(k, l) && Satisfies(l, q, s)
    requires s == ContainedBy ==> ZeroInside(q, l.dim)
    ensures MayHold(k, q, s)
  {
    match s
    case Overlaps => OverlapGrows(k, l, q);
    case Same => forall i | 0 <= i < q.dim ensures Encloses(k, q, i) { assert Encloses(k, l, i) && SameAt(l, q, i); }
    case ContainsQuery => ContainsGrows(k, l, q);
    case ContainedBy =>
      forall i: nat ensures MeetAt(l, q, i) { if i < l.dim { assert Encloses(q, l, i); } }
      OverlapGrows(k, l, q);
  }

  /**
    Contained-by: every key above the box lets the query pass if and only if the query's interval
    contains zero in each dimension that the box lacks.
   */
  lemma ContainedByIff(l: Box, q: Box)
    requires Satisfies(l, q, ContainedBy)
    ensures (forall k: Box | Covers(k, l) :: MayHold(k, q, ContainedBy)) <==> ZeroInside(q, l.dim)
  {
    if ZeroInside(q, l.dim) {
      forall k: Box | Covers(k, l) ensures MayHold(k, q, ContainedBy) { KeyAdmits(k, l, q, ContainedBy); }
    } else {
      var i :| l.dim <= i < q.dim && !(q.Lo(i) <= 0.0 <= q.Hi(i));
      assert forall j: nat :: Encloses(l, l, j);
      assert Covers(l, l);
      assert !MeetAt(l, q, i);
    }
  }

  /** A one-dimensional box inside a query that starts above zero in dimension two: its own key rejects the query. */
  lemma ContainedByFails(l: Box, q: Box)
    requires l == NDBOX(1, true, [1.0]) && q == NDBOX(2, false, [0.0, 3.0, 2.0, 4.0])
    ensures Satisfies(l, q, ContainedBy) && Covers(l, l) && !MayHold(l, q, ContainedBy)
  {
    assert Encloses(q, l, 0);
    assert forall j: nat :: Encloses(l, l, j);
    assert !MeetAt(l, q, 1);
  }

  // ---------------------------------------------------------------- trees

  datatype Tree = Leaf(box: Box) | Node(key: Box, children: seq<Tree>) {
    function Key(): Box { if Leaf? then box else key }
  }

  /** Inner keys cover the keys below, as unions and splits make them. */
  ghost predicate Valid(t: Tree) {
    t.Node? ==> forall i | 0 <= i < |t.children| :: Valid(t.children[i]) && Covers(t.key, t.children[i].Key())
  }

  ghost predicate Below(t: Tree, l: Box) {
    match t
    case Leaf(box) => box == l
    case Node(_, children) => exists i | 0 <= i < |children| :: Below(children[i], l)
  }

  /** Through any number of unions every key covers the boxes below it. */
  lemma {:induction false} TreeCovers(t: Tree, l: Box)
    requires Valid(t) && Below(t, l)
    ensures Covers(t.Key(), l)
  {
    match t
    case Leaf(box) => assert forall i: nat :: Encloses(box, box, i);
    case Node(key, children) =>
      var i :| 0 <= i < |children| && Below(children[i], l);
      TreeCovers(children[i], l);
      CoversTransitive(key, children[i].Key(), l);
  }

  /** No key above a box that satisfies the query rejects it; contained-by needs zero inside, as above. */
  lemma TreeAdmits(t: Tree, l: Box, q: Box, s: Strategy)
    requires Valid(t) && Below(t, l) && Satisfies(l, q, s)
    requires s == ContainedBy ==> ZeroInside(q, l.dim)
    ensures MayHold(t.Key(), q, s)
  {
    TreeCovers(t, l);
    KeyAdmits(t.Key(), l, q, s);
  }

  function KeysOf(page: seq<Tree>): (ks: seq<Box>)
    ensures |ks| == |page| && forall i | 0 <= i < |page| :: ks[i] == page[i].Key()
  {
    seq(|page|, i requires 0 <= i < |page| => page[i].Key())
  }

  ghost predicate AllValid(page: seq<Tree>) { forall i | 0 <= i < |page| :: Valid(page[i]) }

  /** A node over some trees gets the union of their keys, and is valid. */
  method UnionNode(children: seq<Tree>) returns (t: Tree)
    requires |children| >= 2 && AllValid(children)
    ensures t == Node(t.Key(), children) && Valid(t)
    ensures forall k: Box :: Valid(Node(k, children)) ==> Covers(k, t.Key())
  {
    var key := UnionAll(KeysOf(children));
    forall j | 0 <= j < |children| ensures Covers(key, children[j].Key()) { assert Covers(key, KeysOf(children)[j]); }
    t := Node(key, children);
    forall k: Box | Valid(Node(k, children)) ensures Covers(k, key) {
      forall j | 0 <= j < |children| ensures Covers(k, KeysOf(children)[j]) { assert Covers(k, children[j].Key()); }
    }
  }

  /** One entry more under a node: its key becomes the union of its key and the key of the entry. */
  method InsertNode(t: Tree, c: Tree) returns (r: Tree)
    requires t.Node? && Valid(t) && Valid(c)
    ensures r == Node(r.Key(), t.children + [c]) && Valid(r)
    ensures forall k: Box | Covers(k, t.Key()) && Covers(k, c.Key()) :: Covers(k, r.Key())
  {
    var both := [t.key, c.Key()];
    var key := UnionAll(both);
    var more := t.children + [c];
    assert Covers(key, both[0]) && Covers(key, both[1]);
    forall i | 0 <= i < |more| ensures Valid(more[i]) && Covers(key, more[i].Key()) {
      if i < |t.children| { CoversTransitive(key, t.key, t.children[i].Key()); }
    }
    r := Node(key, more);
  }

  // ---------------------------------------------------------------- search

  /** The boxes below a page, from left to right. */
  function Stored(page: seq<Tree>): seq<Box> {
    if page == [] then []
    else (match page[0] case Leaf(box) => [box] case Node(_, children) => Stored(children)) + Stored(page[1..])
  }

  /** A search follows the entries that the query is consistent with. */
  ghost function Search(page: seq<Tree>, q: Box, s: Strategy): seq<Box> {
    if page == [] then []
    else
      var first := match page[0]
        case Leaf(box) => if Satisfies(box, q, s) then [box] else []
        case Node(key, children) => if MayHold(key, q, s) then Search(children, q, s) else [];
      first + Search(page[1..], q, s)
  }

  ghost function Wanted(q: Box, s: Strategy): Box -> bool { (l: Box) => Satisfies(l, q, s) }

  lemma {:induction false} StoredIsBelow(page: seq<Tree>, l: Box)
    requires l in Stored(page)
    ensures exists i | 0 <= i < |page| :: Below(page[i], l)
  {
    if l in Stored(page[1..]) {
      StoredIsBelow(page[1..], l);
      var i :| 0 <= i < |page[1..]| && Below(page[1..][i], l);
      assert Below(page[i + 1], l);
    } else {
      if page[0].Node? { StoredIsBelow(page[0].children, l); }
      assert Below(page[0], l);
    }
  }

  /** No box that the query finds is out of reach of inner keys; only contained-by needs this. */
  ghost predicate WithinReach(boxes: seq<Box>, q: Box, s: Strategy) {
    s == ContainedBy ==> forall l | l in boxes && Satisfies(l, q, s) :: ZeroInside(q, l.dim)
  }

  /** Search returns exactly the stored boxes that satisfy the query, in order. */
  lemma {:induction false} SearchIsExact(page: seq<Tree>, q: Box, s: Strategy)
    requires AllValid(page) && WithinReach(Stored(page), q, s)
    ensures Search(page, q, s) == Filter(Wanted(q, s), Stored(page))
  {
    if page != [] {
      var t := page[0];
      var mine := match t case Leaf(box) => [box] case Node(_, children) => Stored(children);
      SearchIsExact(page[1..], q, s);
      FilterJoin(Wanted(q, s), mine, Stored(page[1..]));
      if t.Node? {
        if MayHold(t.key, q, s) {
          SearchIsExact(t.children, q, s);
        } else {
          forall l | l in mine ensures !Satisfies(l, q, s) {
            StoredIsBelow(t.children, l);
            if Satisfies(l, q, s) { TreeAdmits(t, l, q, s); }
          }
          FilterNone(Wanted(q, s), mine);
        }
      }
    }
  }

  /** Every box on a page of its own. */
  function Wrapped(boxes: seq<Box>): seq<Tree> {
    if boxes == [] then [] else [Node(boxes[0], [Leaf(boxes[0])])] + Wrapped(boxes[1..])
  }

  lemma {:induction false} WrappedHolds(boxes: seq<Box>)
    ensures AllValid(Wrapped(boxes)) && Stored(Wrapped(boxes)) == boxes
  {
    if boxes != [] {
      var l, t := boxes[0], Node(boxes[0], [Leaf(boxes[0])]);
      WrappedHolds(boxes[1..]);
      assert forall i: nat :: Encloses(l, l, i);
      assert Covers(l, l) && Valid(Leaf(l));
      assert forall i | 0 <= i < |t.children| :: t.children[i] == Leaf(l);
      assert Valid(t);
      assert Wrapped(boxes)[0] == t && Wrapped(boxes)[1..] == Wrapped(boxes[1..]);
      assert [Leaf(l)][1..] == [] && Stored([Leaf(l)]) == [l];
    }
  }

  /** Its own key keeps a box with no zero inside from a contained-by query. */
  lemma OwnKeyRejects(l: Box, q: Box)
    requires !ZeroInside(q, l.dim)
    ensures !MayHold(l, q, ContainedBy)
  {
    var i :| l.dim <= i < q.dim && !(q.Lo(i) <= 0.0 <= q.Hi(i));
    assert !MeetAt(l, q, i);
  }

  lemma {:induction false} WrappedMisses(boxes: seq<Box>, q: Box)
    ensures |Search(Wrapped(boxes), q, ContainedBy)| <= |Filter(Wanted(q, ContainedBy), boxes)|
    ensures !WithinReach(boxes, q, ContainedBy) ==>
      |Search(Wrapped(boxes), q, ContainedBy)| < |Filter(Wanted(q, ContainedBy), boxes)|
  {
    if boxes != [] {
      var l := boxes[0];
      WrappedMisses(boxes[1..], q);
      assert Wrapped(boxes)[1..] == Wrapped(boxes[1..]);
      assert [Leaf(l)][1..] == [] && Search([Leaf(l)], q, ContainedBy) == if Satisfies(l, q, ContainedBy) then [l] else [];
      if Satisfies(l, q, ContainedBy) && !ZeroInside(q, l.dim) { OwnKeyRejects(l, q); }
    }
  }

  /** Search is exact on all trees over given boxes if and only if these are within reach of inner keys. */
  lemma SearchIsExactIff(boxes: seq<Box>, q: Box, s: Strategy)
    ensures WithinReach(boxes, q, s) <==>
      forall page | AllValid(page) && Stored(page) == boxes :: Search(page, q, s) == Filter(Wanted(q, s), boxes)
  {
    if WithinReach(boxes, q, s) {
      forall page | AllValid(page) && Stored(page) == boxes ensures Search(page, q, s) == Filter(Wanted(q, s), boxes) {
        SearchIsExact(page, q, s);
      }
    } else {
      WrappedHolds(boxes);
      WrappedMisses(boxes, q);
    }
  }

  // ---------------------------------------------------------------- distances

  /** `distance_1D` */
  function Distance1D(a1: real, a2: real, b1: real, b2: real): real {
    if a1 <= b1 && a2 <= b1 && a1 <= b2 && a2 <= b2 then Min(b1, b2) - Max(a1, a2)
    else if a1 > b1 && a2 > b1 && a1 > b2 && a2 > b2 then Min(a1, a2) - Max(b1, b2)
    else 0.0
  }

  /** The gap between the intervals of dimension `i`. */
  function Gap(a: Box, b: Box, i: nat): (g: real)
    ensures g >= 0.0
  {
    if b.Lo(i) > a.Hi(i) then b.Lo(i) - a.Hi(i) else if a.Lo(i) > b.Hi(i) then a.Lo(i) - b.Hi(i) else 0.0
  }

  lemma CommonGap(a: Box, b: Box, i: nat)
    requires i < a.dim && i < b.dim
    ensures Distance1D(a.LL(i), a.UR(i), b.LL(i), b.UR(i)) == Gap(a, b, i) == Gap(b, a, i)
  {
  }

  lemma ExtraGap(a: Box, b: Box, i: nat)
    requires b.dim <= i < a.dim
    ensures Distance1D(a.LL(i), a.UR(i), 0.0, 0.0) == Gap(a, b, i) == Gap(b, a, i)
  {
  }

  function Abs(r: real): real { if r < 0.0 then -r else r }

  datatype Metric = Taxicab | Chebyshev | SquaredEuclid

  /** One dimension more in a distance. */
  function Add(m: Metric, distance: real, d: real): real {
    match m
    case Taxicab => distance + Abs(d)
    case Chebyshev => if Abs(d) > distance then Abs(d) else distance
    case SquaredEuclid => distance + d * d
  }

  /** The distance over the first `n` dimensions. */
  function DistanceTo(m: Metric, a: Box, b: Box, n: nat): real {
    if n == 0 then 0.0 else Add(m, DistanceTo(m, a, b, n - 1), Gap(a, b, n - 1))
  }

  /** The distance of two boxes. */
  function Distance(m: Metric, a: Box, b: Box): real { DistanceTo(m, a, b, MaxNat(a.dim, b.dim)) }

  /** `distance_taxicab`, `distance_chebyshev` and the sum under the root of `cube_distance` */
  method BoxDistance(m: Metric, a0: Box, b0: Box) returns (distance: real)
    ensures distance == Distance(m, a0, b0)
  {
    var a, b := a0, b0;
    if a.dim < b.dim { a, b := b0, a0; }
    distance := 0.0;
    for i := 0 to b.dim
      invariant distance == DistanceTo(m, a0, b0, i)
    {
      CommonGap(a, b, i);
      distance := Add(m, distance, Distance1D(a.LL(i), a.UR(i), b.LL(i), b.UR(i)));
    }
    for i := b.dim to a.dim
      invariant distance == DistanceTo(m, a0, b0, i)
    {
      ExtraGap(a, b, i);
      distance := Add(m, distance, Distance1D(a.LL(i), a.UR(i), 0.0, 0.0));
    }
  }

  lemma GapShrinks(k: Box, l: Box, q: Box, i: nat)
    requires Encloses(k, l, i)
    ensures Gap(k, q, i) <= Gap(l, q, i)
  {
  }

  lemma AddMonotone(m: Metric, d1: real, d2: real, g1: real, g2: real)
    requires d1 <= d2 && 0.0 <= g1 <= g2
    ensures Add(m, d1, g1) <= Add(m, d2, g2)
  {
    if m.SquaredEuclid? { assert g1 * g1 <= g2 * g2; }
  }

  lemma {:induction false} DistanceShrinks(m: Metric, k: Box, l: Box, q: Box, n: nat)
    requires Covers(k, l)
    ensures DistanceTo(m, k, q, n) <= DistanceTo(m, l, q, n)
  {
    if n > 0 {
      DistanceShrinks(m, k, l, q, n - 1);
      assert Encloses(k, l, n - 1);
      GapShrinks(k, l, q, n - 1);
      AddMonotone(m, DistanceTo(m, k, q, n - 1), DistanceTo(m, l, q, n - 1), Gap(k, q, n - 1), Gap(l, q, n - 1));
    }
  }

  lemma {:induction false} DistanceStable(m: Metric, a: Box, b: Box, n: nat)
    requires n >= MaxNat(a.dim, b.dim)
    ensures DistanceTo(m, a, b, n) == Distance(m, a, b) && Distance(m, a, b) >= 0.0
  {
    DistanceNonNegative(m, a, b, n);
    if n > MaxNat(a.dim, b.dim) {
      DistanceStable(m, a, b, n - 1);
      assert Gap(a, b, n - 1) == 0.0;
    }
  }

  lemma {:induction false} DistanceNonNegative(m: Metric, a: Box, b: Box, n: nat)
    ensures DistanceTo(m, a, b, n) >= 0.0
  {
    if n > 0 {
      DistanceNonNegative(m, a, b, n - 1);
      var g := Gap(a, b, n - 1);
      assert g * g >= 0.0;
    }
  }

  /** The distance to an inner key is a lower bound for the distance to every box below it. */
  lemma KeyDistanceIsBound(m: Metric, t: Tree, l: Box, q: Box)
    requires Valid(t) && Below(t, l)
    ensures Distance(m, t.Key(), q) <= Distance(m, l, q)
  {
    var k := t.Key();
    TreeCovers(t, l);
    var n := MaxNat(k.dim, q.dim);
    DistanceShrinks(m, k, l, q, n);
    DistanceStable(m, l, q, n);
  }

  // ---------------------------------------------------------------- ordering by a coordinate

  datatype Error = ZeroIndex

  /** `cube_coord_llur`: odd numbers are lower bounds, even ones upper bounds, negative ones are negated. */
  function Coordinate(b: Box, coord: int): Result<real, Error> {
    if coord == 0 then Err(ZeroIndex)
    else
      var c := if coord < 0 then -coord else coord;
      var v := if (c - 1) % 2 == 1 then b.Hi((c - 1) / 2) else b.Lo((c - 1) / 2);
      Ok(if coord < 0 then -v else v)
  }

  /** The branch of `g_cube_distance` for coordinates; with `isLeaf` it is also the body of `cube_coord_llur`. */
  method CoordinateValue(b: Box, coord0: int, isLeaf: bool) returns (r: Result<real, Error>)
    ensures r.Err? <==> coord0 == 0
    ensures isLeaf ==> r == Coordinate(b, coord0)
    ensures !isLeaf && coord0 > 0 ==> r == Ok(b.Lo((coord0 - 1) / 2))
    ensures !isLeaf && coord0 < 0 ==> r == Ok(-b.Hi((-coord0 - 1) / 2))
  {
    var coord, inverse := coord0, false;
    if coord == 0 { return Err(ZeroIndex); }
    if coord < 0 { coord, inverse := -coord, true; }
    var retval := 0.0;
    if coord <= 2 * b.dim {
      var index := (coord - 1) / 2;
      var upper := (coord - 1) % 2 == 1;
      if b.point {
        retval := b.x[index];
      } else if isLeaf {
        retval := if upper then Max(b.x[index], b.x[index + b.dim]) else Min(b.x[index], b.x[index + b.dim]);
      } else {
        retval := if !inverse then Min(b.x[index], b.x[index + b.dim]) else Max(b.x[index], b.x[index + b.dim]);
      }
    }
    return Ok(if inverse then -retval else retval);
  }

  /** What an inner key answers is a lower bound for the coordinate of every box below it. */
  lemma KeyCoordinateIsBound(t: Tree, l: Box, coord: int)
    requires Valid(t) && Below(t, l) && coord != 0
    ensures coord > 0 ==> t.Key().Lo((coord - 1) / 2) <= Coordinate(l, coord).value
    ensures coord < 0 ==> -t.Key().Hi((-coord - 1) / 2) <= Coordinate(l, coord).value
  {
    TreeCovers(t, l);
    var i := ((if coord < 0 then -coord else coord) - 1) / 2;
    assert Encloses(t.Key(), l, i);
    assert l.Lo(i) <= l.Hi(i);
  }
}

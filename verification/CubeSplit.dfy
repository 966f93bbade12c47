/** The page split of the GiST index over cubes (Guttman's polynomial time algorithm). */
module CubeSplit {
  import opened Cube
  import opened CubeIndex
  import opened SplitVector

  function Abs(r: real): real { if r < 0.0 then -r else r }

  /** The volume over the first `n` dimensions. */
  function Volume(b: Box, n: nat): real
    requires n <= b.dim
  {
    if n == 0 then 1.0 else Volume(b, n - 1) * Abs(b.UR(n - 1) - b.LL(n - 1))
  }

  /** `rt_cube_size` */
  function Size(b: Box): real { if b.point || b.dim == 0 then 0.0 else Volume(b, b.dim) }

  /** The size of `cube_inter`, over the first `n` dimensions. */
  function InterVolume(a: Box, b: Box, n: nat): real {
    if n == 0 then 1.0
    else InterVolume(a, b, n - 1) * Abs(Min(a.Hi(n - 1), b.Hi(n - 1)) - Max(a.Lo(n - 1), b.Lo(n - 1)))
  }

  function InterSize(a: Box, b: Box): real {
    var n := MaxNat(a.dim, b.dim);
    if n == 0 then 0.0 else InterVolume(a, b, n)
  }

  /** The two seeds: the pair that wastes most space, by the loops of the source; the last entry takes no part. */
  method Seeds(entries: seq<Box>) returns (seed1: nat, seed2: nat)
    requires |entries| >= 3
    ensures 1 <= seed1 < seed2 < |entries|
  {
    var maxoff := |entries| - 2;
    seed1, seed2 := 1, 2;
    var firsttime, waste := true, 0.0;
    var i := 1;
    while i < maxoff
      invariant 1 <= i && 1 <= seed1 < seed2 < |entries|
    {
      var j := i + 1;
      while j <= maxoff
        invariant i < j && 1 <= seed1 < seed2 < |entries|
      {
        var u := Union(entries[i], entries[j], false);
        var sizeWaste := Size(u) - InterSize(entries[i], entries[j]);
        if sizeWaste > waste || firsttime { waste, seed1, seed2, firsttime := sizeWaste, i, j, false; }
        j := j + 1;
      }
      i := i + 1;
    }
  }

  /** The datum covers the seed and all entries of the side, and lies in every box that does. */
  ghost predicate SideOk(entries: seq<Box>, side: seq<nat>, seed: nat, datum: Box) {
    && seed < |entries| && (forall j | 0 <= j < |side| :: side[j] < |entries|)
    && Covers(datum, entries[seed]) && (forall j | 0 <= j < |side| :: Covers(datum, entries[side[j]]))
    && forall k: Box :: CoversSide(k, entries, side, seed) ==> Covers(k, datum)
  }

  ghost predicate CoversSide(k: Box, entries: seq<Box>, side: seq<nat>, seed: nat)
    requires seed < |entries| && forall j | 0 <= j < |side| :: side[j] < |entries|
  {
    Covers(k, entries[seed]) && forall j | 0 <= j < |side| :: Covers(k, entries[side[j]])
  }

  lemma SideGrows(entries: seq<Box>, side: seq<nat>, seed: nat, datum: Box, j: nat, after: Box)
    requires SideOk(entries, side, seed, datum) && j < |entries|
    requires IsUnion(after, datum, entries[j]) || (after == datum && j == seed)
    ensures SideOk(entries, side + [j], seed, after)
  {
    var more := side + [j];
    if !(after == datum && j == seed) { UnionCovers(after, datum, entries[j]); CoversTransitive(after, datum, entries[seed]); }
    forall m | 0 <= m < |more| ensures Covers(after, entries[more[m]]) {
      if m < |side| && after != datum { CoversTransitive(after, datum, entries[side[m]]); }
    }
    forall k: Box | CoversSide(k, entries, more, seed) ensures Covers(k, after) {
      assert forall m | 0 <= m < |side| :: more[m] == side[m];
      assert more[|side|] == j;
      assert CoversSide(k, entries, side, seed);
      if !(after == datum && j == seed) { UnionIsLeast(after, datum, entries[j], k); }
    }
  }

  /** The body of the last loop: seeds go to their own side, others where the box grows less. */
  method Place(entries: seq<Box>, i: nat, seed1: nat, seed2: nat, datumL: Box, datumR: Box, left: seq<nat>, right: seq<nat>)
    returns (left2: seq<nat>, right2: seq<nat>, l: Box, r: Box)
    requires i < |entries| && seed1 != seed2
    requires SideOk(entries, left, seed1, datumL) && SideOk(entries, right, seed2, datumR)
    ensures SideOk(entries, left2, seed1, l) && SideOk(entries, right2, seed2, r)
    ensures || (left2 == left + [i] && right2 == right && i != seed2)
            || (left2 == left && right2 == right + [i] && i != seed1)
  {
    left2, right2, l, r := left, right, datumL, datumR;
    if i == seed1 {
      SideGrows(entries, left, seed1, l, i, l);
      left2 := left + [i];
    } else if i == seed2 {
      SideGrows(entries, right, seed2, r, i, r);
      right2 := right + [i];
    } else {
      var unionL := Union(datumL, entries[i], false);
      var unionR := Union(datumR, entries[i], false);
      if Size(unionL) - Size(datumL) < Size(unionR) - Size(datumR) {
        SideGrows(entries, left, seed1, l, i, unionL);
        l, left2 := unionL, left + [i];
      } else {
        SideGrows(entries, right, seed2, r, i, unionR);
        r, right2 := unionR, right + [i];
      }
    }
  }

  /** The key of a side covers its entries and lies in every box that does. */
  ghost predicate IsHull(datum: Box, entries: seq<Box>, side: seq<nat>)
    requires forall j | 0 <= j < |side| :: side[j] < |entries|
  {
    && (forall j | 0 <= j < |side| :: Covers(datum, entries[side[j]]))
    && (forall k: Box :: (forall j | 0 <= j < |side| :: Covers(k, entries[side[j]])) ==> Covers(k, datum))
  }

  lemma SideComplete(entries: seq<Box>, side: seq<nat>, seed: nat, datum: Box)
    requires SideOk(entries, side, seed, datum) && seed in side
    ensures IsHull(datum, entries, side)
  {
  }

  /** The datum of a side that has nothing but its seed. */
  method Start(entries: seq<Box>, seed: nat) returns (datum: Box)
    requires seed < |entries|
    ensures SideOk(entries, [], seed, datum)
  {
    var e := entries[seed];
    datum := Union(e, e, true);
    UnionCovers(datum, e, e);
    forall k: Box | CoversSide(k, entries, [], seed) ensures Covers(k, datum) { UnionIsLeast(datum, e, e, k); }
  }

  /** The first `k` entries are placed, and both keys are as they should be. */
  ghost predicate Filled(
    entries: seq<Box>, order: seq<nat>, k: nat, seed1: nat, seed2: nat, left: seq<nat>, right: seq<nat>, l: Box, r: Box)
  {
    && k <= |order| && Placed(order, k, left, right, seed1, seed2)
    && SideOk(entries, left, seed1, l) && SideOk(entries, right, seed2, r)
  }

  method PlaceNext(entries: seq<Box>, ghost order: seq<nat>, i: nat, seed1: nat, seed2: nat, datumL: Box, datumR: Box,
                   left: seq<nat>, right: seq<nat>)
    returns (left2: seq<nat>, right2: seq<nat>, l: Box, r: Box)
    requires 1 <= i < |entries| && seed1 != seed2 && i <= |order| && order[i - 1] == i
    requires Filled(entries, order, i - 1, seed1, seed2, left, right, datumL, datumR)
    ensures Filled(entries, order, i, seed1, seed2, left2, right2, l, r)
  {
    PlaceOne(order, i - 1, left, right, seed1, seed2);
    left2, right2, l, r := Place(entries, i, seed1, seed2, datumL, datumR, left, right);
  }

  /** The last loop of the split: all entries in the order of their numbers. */
  method PlaceAll(entries: seq<Box>, ghost order: seq<nat>, seed1: nat, seed2: nat)
    returns (left: seq<nat>, right: seq<nat>, datumL: Box, datumR: Box)
    requires |order| == |entries| - 1 && forall i | 0 <= i < |order| :: order[i] == i + 1
    requires 1 <= seed1 < |entries| && 1 <= seed2 < |entries| && seed1 != seed2
    ensures Filled(entries, order, |order|, seed1, seed2, left, right, datumL, datumR)
  {
    datumL := Start(entries, seed1);
    datumR := Start(entries, seed2);
    left, right := [], [];
    for i := 1 to |entries|
      invariant Filled(entries, order, i - 1, seed1, seed2, left, right, datumL, datumR)
    {
      left, right, datumL, datumR := PlaceNext(entries, order, i, seed1, seed2, datumL, datumR, left, right);
    }
  }

  /**
    `g_cube_picksplit`: whatever the sizes decide, every entry goes to exactly one side, neither
    side is empty, and the key of a side is the smallest box around its entries.
   */
  method PickSplit(entries: seq<Box>) returns (left: seq<nat>, right: seq<nat>, datumL: Box, datumR: Box)
    requires |entries| >= 3
    ensures IsSplit(left, right, |entries|)
    ensures (forall j | 0 <= j < |left| :: left[j] < |entries|) && IsHull(datumL, entries, left)
    ensures (forall j | 0 <= j < |right| :: right[j] < |entries|) && IsHull(datumR, entries, right)
  {
    var seed1, seed2 := Seeds(entries);
    left, right, datumL, datumR := PlaceAll(entries, Numbers(|entries|), seed1, seed2);
    AllPlaced(Numbers(|entries|), left, right, seed1, seed2, |entries|);
    SideComplete(entries, left, seed1, datumL);
    SideComplete(entries, right, seed2, datumR);
  }

  // ---------------------------------------------------------------- splitting a node

  lemma SideIsValid(children: seq<Tree>, entries: seq<Box>, side: seq<nat>, k: Box)
    requires AllValid(children) && Numbered(side, |children|)
    requires |entries| == |children| + 1 && entries[1..] == KeysOf(children) && IsHull(k, entries, side)
    ensures Valid(Node(k, Pick(children, side)))
  {
    var picked := Pick(children, side);
    forall j | 0 <= j < |picked| ensures Valid(picked[j]) && Covers(k, picked[j].Key()) {
      assert entries[side[j]] == entries[1..][side[j] - 1] == picked[j].Key();
    }
  }

  /** A full node becomes two: both are valid, and every child goes to exactly one of them. */
  method SplitNode(children: seq<Tree>) returns (l: Tree, r: Tree, left: seq<nat>, right: seq<nat>)
    requires |children| >= 2 && AllValid(children)
    ensures IsSplit(left, right, |children| + 1) && Numbered(left, |children|) && Numbered(right, |children|)
    ensures l == Node(l.Key(), Pick(children, left)) && Valid(l)
    ensures r == Node(r.Key(), Pick(children, right)) && Valid(r)
  {
    var entries := [children[0].Key()] + KeysOf(children);
    var ldatum, rdatum;
    left, right, ldatum, rdatum := PickSplit(entries);
    SplitIsNumbered(left, right, |children|);
    SideIsValid(children, entries, left, ldatum);
    SideIsValid(children, entries, right, rdatum);
    l, r := Node(ldatum, Pick(children, left)), Node(rdatum, Pick(children, right));
  }
}

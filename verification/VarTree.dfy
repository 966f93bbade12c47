/** Trees of cut byte-string keys: search through any number of levels, and page splits. */
module VarTree {
  import opened Results
  import opened ByteOrder
  import opened VarKey
  import opened VarSplit

  /**
    How a key came about: from one value, by `gbt_var_union` over other keys (on any level, also
    when an insertion enlarges a parent key), or by `gbt_var_picksplit` over leaf entries or over
    inner ones.
   */
  datatype Source =
    | OfValue(value: Bytes)
    | OfUnion(parts: seq<Source>)
    | OfLeafSplit(values: seq<Bytes>, cpfLength: nat)
    | OfInnerSplit(parts: seq<Source>, cpfLength: nat)
  {
    /**
      Unions are not empty, and a split cuts no shorter than past its own common prefix.  A split of
      inner entries is one of those that lose nothing.
     */
    predicate Valid()
      decreases this, 0
    {
      match this
      case OfValue(_) => true
      case OfUnion(parts) => parts != [] && forall i | 0 <= i < |parts| :: parts[i].Valid()
      case OfLeafSplit(values, n) => values != [] && n >= NodePrefix(Bounds(LeafKeys(values))) + 1
      case OfInnerSplit(parts, n) =>
        && parts != [] && (forall i | 0 <= i < |parts| :: parts[i].Valid())
        && n >= NodePrefix(Bounds(Keys(parts))) + 1 && !LosesValues(Keys(parts), n)
    }

    function Key(): VarKey
      requires Valid()
      decreases this, 1
    {
      match this
      case OfValue(v) => LeafKey(v)
      case OfUnion(parts) => Union(Keys(parts))
      case OfLeafSplit(values, n) => Truncate(Bounds(LeafKeys(values)), n)
      case OfInnerSplit(parts, n) => Truncate(Bounds(Keys(parts)), n)
    }

    /** The value is one of those that the key was made for. */
    predicate Has(v: Bytes) {
      match this
      case OfValue(value) => v == value
      case OfUnion(parts) => exists i | 0 <= i < |parts| :: parts[i].Has(v)
      case OfLeafSplit(values, _) => v in values
      case OfInnerSplit(parts, _) => exists i | 0 <= i < |parts| :: parts[i].Has(v)
    }
  }

  function LeafKeys(values: seq<Bytes>): (r: seq<VarKey>)
    ensures |r| == |values| && forall i | 0 <= i < |r| :: r[i] == LeafKey(values[i])
  {
    seq(|values|, i requires 0 <= i < |values| => LeafKey(values[i]))
  }

  function Keys(parts: seq<Source>): (r: seq<VarKey>)
    requires forall i | 0 <= i < |parts| :: parts[i].Valid()
    ensures |r| == |parts| && forall i | 0 <= i < |r| :: r[i] == parts[i].Key()
    decreases parts, 1
  {
    if parts == [] then [] else [parts[0].Key()] + Keys(parts[1..])
  }

  /** The bounds of a key are in order. */
  lemma {:induction false} KeyOrdered(s: Source)
    requires s.Valid()
    ensures Leq(s.Key().lower, s.Key().upper)
  {
    match s
    case OfValue(v) => CompareTotal(v, v);
    case OfLeafSplit(values, n) =>
      assert LeafKeys(values) != [];
      forall i | 0 <= i < |values| ensures Leq(LeafKeys(values)[i].lower, LeafKeys(values)[i].upper) {
        CompareTotal(values[i], values[i]);
      }
      BoundsOrdered(LeafKeys(values), 0);
      TruncateKeepsPrefix(Bounds(LeafKeys(values)), n);
    case OfUnion(parts) =>
      PartsOrdered(parts);
      BoundsOrdered(Keys(parts), 0);
      TruncateKeepsPrefix(Bounds(Keys(parts)), NodePrefix(Bounds(Keys(parts))) + 1);
    case OfInnerSplit(parts, n) =>
      PartsOrdered(parts);
      BoundsOrdered(Keys(parts), 0);
      TruncateKeepsPrefix(Bounds(Keys(parts)), n);
  }

  lemma {:induction false} PartsOrdered(parts: seq<Source>)
    requires forall i | 0 <= i < |parts| :: parts[i].Valid()
    ensures AllOrdered(Keys(parts))
  {
    forall i | 0 <= i < |parts| ensures Leq(Keys(parts)[i].lower, Keys(parts)[i].upper) { KeyOrdered(parts[i]); }
  }

  lemma LeafSplitKeyCovers(values: seq<Bytes>, n: nat, i: nat)
    requires i < |values| && n >= NodePrefix(Bounds(LeafKeys(values))) + 1
    ensures Covers(Truncate(Bounds(LeafKeys(values)), n), values[i]) && Leq(values[i], Bounds(LeafKeys(values)).upper)
  {
    var b, v := Bounds(LeafKeys(values)), values[i];
    BoundsContain(LeafKeys(values), i);
    LessTransitive(b.lower, v, b.upper);
    TruncateCovers(b, n, v);
  }

  /** A key stands for every value it was made for, through any number of levels, unions and splits. */
  lemma {:induction false} KeyStands(s: Source, v: Bytes)
    requires s.Valid() && s.Has(v)
    ensures Stands(s.Key(), v)
  {
    match s
    case OfValue(value) => CompareTotal(v, v);
    case OfUnion(parts) =>
      var i :| 0 <= i < |parts| && parts[i].Has(v);
      var b := Bounds(Keys(parts));
      KeyStands(parts[i], v);
      UnionStands(Keys(parts), i, v);
      CoversStands(b, NodePrefix(b) + 1, v);
    case OfLeafSplit(values, n) =>
      var i :| 0 <= i < |values| && values[i] == v;
      LeafSplitKeyCovers(values, n, i);
      CoversStands(Bounds(LeafKeys(values)), n, v);
    case OfInnerSplit(parts, n) =>
      var i :| 0 <= i < |parts| && parts[i].Has(v);
      KeyStands(parts[i], v);
      PartsOrdered(parts);
      KeepsValues(Keys(parts), n, i, v);
  }

  // ---------------------------------------------------------------- what can be below a key

  /** A cut far enough out changes nothing. */
  lemma NoCut(k: VarKey, n: nat)
    requires n >= |k.lower| + |k.upper|
    ensures Truncate(k, n) == k && n >= NodePrefix(k)
  {
  }

  lemma BoundsOfPair(a: VarKey, b: VarKey)
    ensures Bounds([a, b]) == BinUnion(a, b)
  {
    assert [a, b][..1] == [a];
  }

  /** An inner entry over a leaf page with one value has that value as both bounds. */
  lemma OneValue(v: Bytes) returns (s: Source)
    ensures s.Valid() && s.Key() == VarKey(v, v)
  {
    s := OfUnion([OfValue(v)]);
    assert Keys(s.parts) == [LeafKey(v)];
    CommonPrefixIs(v, v, |v|);
  }

  /** A value between the bounds. */
  lemma RealizedInside(e: VarKey, v: Bytes) returns (s: Source)
    requires Leq(e.lower, v) && Leq(v, e.upper)
    ensures s.Valid() && s.Key() == e && s.Has(v)
  {
    var values, n := [e.lower, v, e.upper], |e.lower| + |e.upper| + 1;
    var ks := LeafKeys(values);
    assert ks[..2] == [LeafKey(e.lower), LeafKey(v)];
    BoundsOfPair(LeafKey(e.lower), LeafKey(v));
    LessTransitive(e.lower, v, e.upper);
    CompareTotal(v, e.lower);
    CompareTotal(v, e.upper);
    CompareTotal(e.lower, e.upper);
    assert Bounds(ks) == e;
    NoCut(e, n);
    assert values[1] == v;
    s := OfLeafSplit(values, n);
  }

  /** A value past the upper bound of a key whose lower bound is a prefix of the upper one. */
  lemma RealizedNested(e: VarKey, v: Bytes) returns (s: Source)
    requires Stands(e, v) && !Leq(v, e.upper) && Nested(e)
    ensures s.Valid() && s.Key() == e && s.Has(v)
  {
    var c, n := e.upper[..Kept(e)], |e.lower| + |e.upper| + 1;
    CoreIsOpen(e);
    var low := NestedUnion(e, v);
    var up := OneValue(e.upper);
    CompareTotal(e.lower, e.upper);
    CompareTotal(c, e.upper);
    BoundsOfPair(VarKey(e.lower, c), VarKey(e.upper, e.upper));
    s := PairSplit(low, up, e, v, n);
  }

  /** A split side of two entries that is not cut. */
  lemma PairSplit(low: Source, up: Source, e: VarKey, v: Bytes, n: nat) returns (s: Source)
    requires low.Valid() && up.Valid() && (low.Has(v) || up.Has(v)) && n > |e.lower| + |e.upper|
    requires Bounds([low.Key(), up.Key()]) == e && !LosesValues([low.Key(), up.Key()], n)
    ensures s.Valid() && s.Key() == e && s.Has(v)
  {
    var parts := [low, up];
    assert Keys(parts) == [low.Key(), up.Key()];
    NoCut(e, n);
    assert parts[0].Has(v) || parts[1].Has(v);
    s := OfInnerSplit(parts, n);
  }

  /** A union of two leaves, the first of them a prefix of the second. */
  lemma NestedUnion(e: VarKey, v: Bytes) returns (s: Source)
    requires Stands(e, v) && !Leq(v, e.upper) && Nested(e)
    ensures s.Valid() && s.Key() == VarKey(e.lower, e.upper[..Kept(e)]) && s.Has(v)
  {
    var parts, c := [OfValue(e.lower), OfValue(v)], e.upper[..Kept(e)];
    s := OfUnion(parts);
    assert parts[1].Has(v);
    assert Keys(parts) == [LeafKey(e.lower), LeafKey(v)];
    BoundsOfPair(LeafKey(e.lower), LeafKey(v));
    PrefixLeq(e.lower, e.upper);
    assert c[..|e.lower|] == e.lower && v[..|c|] == c;
    PrefixOfPrefix(e.lower, c, v);
    PrefixLeq(e.lower, v);
    CompareTotal(e.lower, v);
    assert Bounds(Keys(parts)) == VarKey(e.lower, v);
  }

  /** A value past the upper bound of any other key. */
  lemma RealizedPast(e: VarKey, v: Bytes) returns (s: Source)
    requires Stands(e, v) && !Leq(v, e.upper) && !Nested(e)
    ensures s.Valid() && s.Key() == e && s.Has(v)
  {
    var n := |e.lower| + |e.upper| + 1;
    WitnessParts(e);
    var low := OneValue(e.lower);
    var up := CutAt(Witness(e), e.upper, v);
    PastBounds(e, Witness(e), n);
    s := PairSplit(low, up, e, v, n);
  }

  lemma PastBounds(e: VarKey, w: Bytes, n: nat)
    requires Open(e) && !Nested(e) && w == Witness(e) && n > |e.lower| + |e.upper|
    ensures var side := [VarKey(e.lower, e.lower), VarKey(w, e.upper)]; Bounds(side) == e && !LosesValues(side, n)
  {
    var side := [VarKey(e.lower, e.lower), VarKey(w, e.upper)];
    WitnessParts(e);
    BoundsOfPair(side[0], side[1]);
    CompareTotal(e.lower, w);
    CompareTotal(e.lower, e.upper);
    NoCut(e, n);
    CommonPrefixIs(e.lower, e.lower, |e.lower|);
    NotOverrun(side[1]);
  }

  /** A split of two leaves that is cut where the bound ends. */
  lemma CutAt(w: Bytes, u: Bytes, v: Bytes) returns (s: Source)
    requires PartsFrom(w, u) && IsPrefix(u, v)
    ensures s.Valid() && s.Key() == VarKey(w, u) && s.Has(v)
  {
    var ks := LeafKeys([w, v]);
    assert ks == [LeafKey(w), LeafKey(v)];
    BoundsOfPair(LeafKey(w), LeafKey(v));
    PartsFromLonger(w, u, v);
    CompareTotal(w, v);
    assert Bounds(ks) == VarKey(w, v);
    s := OfLeafSplit([w, v], |u| - 1);
    assert s.values[1] == v;
  }

  lemma NotOverrun(e: VarKey)
    requires !IsPrefix(e.lower, e.upper) || |e.lower| + 2 == |e.upper|
    ensures !Overruns(e, e.upper)
  {
    if Nested(e) { PrefixLeq(e.lower, e.upper); }
  }

  /**
    The values that a key stands for are exactly those that can be below it: by some unions and
    splits that lose nothing there is that very key, made for that value.
   */
  lemma StandsIff(e: VarKey, v: Bytes)
    ensures Stands(e, v) <==> exists s: Source :: s.Valid() && s.Key() == e && s.Has(v)
  {
    if Stands(e, v) {
      var s := Realized(e, v);
      assert s.Valid() && s.Key() == e && s.Has(v);
    } else if s: Source :| s.Valid() && s.Key() == e && s.Has(v) {
      KeyStands(s, v);
    }
  }

  lemma Realized(e: VarKey, v: Bytes) returns (s: Source)
    requires Stands(e, v)
    ensures s.Valid() && s.Key() == e && s.Has(v)
  {
    if Leq(v, e.upper) { s := RealizedInside(e, v); }
    else if Nested(e) { s := RealizedNested(e, v); }
    else { s := RealizedPast(e, v); }
  }

  /** A query that the value satisfies, and the source of an entry that has it. */
  ghost predicate Asks(s: Source, e: VarKey, v: Bytes, query: Bytes, strategy: Strategy) {
    s.Valid() && s.Key() == e && s.Has(v) && Satisfies(v, strategy, query)
  }

  /**
    A split of inner entries: whatever is below them, no query loses a value by the new key, if and
    only if no entry is overrun.
   */
  lemma InnerSplitIff(side: seq<VarKey>, n: nat)
    requires side != [] && AllOrdered(side) && n >= NodePrefix(Bounds(side)) + 1
    ensures !LosesValues(side, n) <==>
      (forall i, s, v, query, strategy | 0 <= i < |side| && Asks(s, side[i], v, query, strategy) ::
        Consistent(Truncate(Bounds(side), n), query, strategy, false))
  {
    SplitIsSoundIff(side, n);
    if LosesValues(side, n) {
      var i :| 0 <= i < |side| && Overruns(side[i], Truncate(Bounds(side), n).upper);
      var v := LostValue(side, n, i);
      var s := Realized(side[i], v);
      assert Asks(s, side[i], v, v, Equal);
    } else {
      forall i, s, v, query, strategy | 0 <= i < |side| && Asks(s, side[i], v, query, strategy)
        ensures Consistent(Truncate(Bounds(side), n), query, strategy, false)
      {
        KeyStands(s, v);
      }
    }
  }

  // ---------------------------------------------------------------- search

  datatype Tree = Leaf(value: Bytes) | Inner(source: Source, children: seq<Tree>) {
    /** Every inner key was made for at least the values below it. */
    predicate Valid() {
      Inner? ==>
        && source.Valid()
        && (forall i | 0 <= i < |children| :: children[i].Valid())
        && (forall v | v in Values(children) :: source.Has(v))
    }
  }

  /** The values below a page, from left to right. */
  function Values(page: seq<Tree>): seq<Bytes> {
    if page == [] then []
    else (match page[0] case Leaf(v) => [v] case Inner(_, children) => Values(children)) + Values(page[1..])
  }

  /** A search that follows the entries that are consistent with the query. */
  function Search(page: seq<Tree>, query: Bytes, strategy: Strategy): seq<Bytes>
    requires forall i | 0 <= i < |page| :: page[i].Valid()
  {
    if page == [] then []
    else
      assert page[0].Valid();
      var first := match page[0]
        case Leaf(v) => if Consistent(LeafKey(v), query, strategy, true) then [v] else []
        case Inner(source, children) =>
          if Consistent(source.Key(), query, strategy, false) then Search(children, query, strategy) else [];
      first + Search(page[1..], query, strategy)
  }

  function Wanted(query: Bytes, strategy: Strategy): Bytes -> bool { v => Satisfies(v, strategy, query) }

  /** Search returns exactly the stored values that satisfy the query, in order. */
  lemma {:induction false} SearchIsExact(page: seq<Tree>, query: Bytes, strategy: Strategy)
    requires forall i | 0 <= i < |page| :: page[i].Valid()
    ensures Search(page, query, strategy) == Filter(Wanted(query, strategy), Values(page))
  {
    if page != [] {
      var rest := Values(page[1..]);
      assert page[0].Valid();
      SearchIsExact(page[1..], query, strategy);
      match page[0]
      case Leaf(v) =>
        LeafIsExact(v, query, strategy);
        FilterJoin(Wanted(query, strategy), [v], rest);
      case Inner(source, children) =>
        FilterJoin(Wanted(query, strategy), Values(children), rest);
        if Consistent(source.Key(), query, strategy, false) {
          SearchIsExact(children, query, strategy);
        } else {
          forall v | v in Values(children) ensures !Satisfies(v, strategy, query) {
            KeyStands(source, v);
            StandsAdmits(source.Key(), v);
            if Satisfies(v, strategy, query) { ConsistentIsSound(source.Key(), v, query, strategy); }
          }
          FilterNone(Wanted(query, strategy), Values(children));
        }
    }
  }

  // ---------------------------------------------------------------- page splits

  function Pick(entries: seq<VarKey>, order: seq<nat>): (r: seq<VarKey>)
    requires forall i | 0 <= i < |order| :: order[i] < |entries|
    ensures |r| == |order| && forall i | 0 <= i < |r| :: r[i] == entries[order[i]]
  {
    seq(|order|, i requires 0 <= i < |order| => entries[order[i]])
  }

  /** The bounds over the entries picked so far, as `gbt_var_bin_union` keeps them. */
  method BoundPicked(entries: seq<VarKey>, order: seq<nat>) returns (b: VarKey)
    requires order != [] && forall i | 0 <= i < |order| :: order[i] < |entries|
    ensures b == Bounds(Pick(entries, order))
  {
    b := BoundKeys(Pick(entries, order));
  }

  /**
    `gbt_var_picksplit`.  `order` is the sorted order of the entries.  Both keys are cut at the
    larger of the two common prefix lengths.
   */
  method PickSplit(entries: seq<VarKey>, order: seq<nat>)
    returns (left: seq<nat>, right: seq<nat>, lkey: VarKey, rkey: VarKey, cpfLength: nat)
    requires |entries| >= 2 && |order| == |entries|
    requires forall i | 0 <= i < |order| :: order[i] < |entries|
    requires multiset(order) == multiset(seq(|entries|, i => i))
    ensures left != [] && right != [] && left + right == order
    ensures multiset(left) + multiset(right) == multiset(seq(|entries|, i => i))
    ensures forall i | 0 <= i < |left| :: left[i] < |entries|
    ensures forall i | 0 <= i < |right| :: right[i] < |entries|
    ensures cpfLength == Max(NodePrefix(Bounds(Pick(entries, left))), NodePrefix(Bounds(Pick(entries, right)))) + 1
    ensures lkey == Truncate(Bounds(Pick(entries, left)), cpfLength)
    ensures rkey == Truncate(Bounds(Pick(entries, right)), cpfLength)
  {
    left, right := [], [];
    var n := |order|;
    for i := 0 to n
      invariant left == order[..Min(i, n / 2)] && right == order[n / 2..Max(i, n / 2)]
    {
      if i + 1 <= n / 2 { left := left + [order[i]]; } else { right := right + [order[i]]; }
    }
    assert left + right == order;
    var lb := BoundPicked(entries, left);
    var rb := BoundPicked(entries, right);
    var ll := NodeCommonPrefix(lb);
    var lr := NodeCommonPrefix(rb);
    cpfLength := Max(ll, lr) + 1;
    lkey, rkey := Truncate(lb, cpfLength), Truncate(rb, cpfLength);
  }

  /** Both keys of a split over leaf entries cover the leaves of their side. */
  lemma LeafSplitCovers(values: seq<Bytes>, side: seq<nat>, cpfLength: nat, i: nat)
    requires i < |side| && (forall j | 0 <= j < |side| :: side[j] < |values|)
    requires cpfLength >= NodePrefix(Bounds(Pick(LeafKeys(values), side))) + 1
    ensures Covers(Truncate(Bounds(Pick(LeafKeys(values), side)), cpfLength), values[side[i]])
  {
    var picked := seq(|side|, j requires 0 <= j < |side| => values[side[j]]);
    assert Pick(LeafKeys(values), side) == LeafKeys(picked);
    LeafSplitKeyCovers(picked, cpfLength, i);
  }

  /** The key of a side of inner entries that loses nothing is the key of a source with all that the side has. */
  lemma InnerSplitSource(parts: seq<Source>, side: seq<nat>, n: nat) returns (s: Source)
    requires (forall i | 0 <= i < |parts| :: parts[i].Valid()) && side != [] && forall j | 0 <= j < |side| :: side[j] < |parts|
    requires n >= NodePrefix(Bounds(Pick(Keys(parts), side))) + 1 && !LosesValues(Pick(Keys(parts), side), n)
    ensures s.Valid() && s.Key() == Truncate(Bounds(Pick(Keys(parts), side)), n)
    ensures forall j, v | 0 <= j < |side| && parts[side[j]].Has(v) :: s.Has(v)
  {
    var picked := Picked(parts, side);
    s := OfInnerSplit(picked, n);
    forall j, v | 0 <= j < |side| && parts[side[j]].Has(v) ensures s.Has(v) { assert picked[j].Has(v); }
  }

  /** The sources of the entries on a side. */
  function Picked(parts: seq<Source>, side: seq<nat>): (r: seq<Source>)
    requires (forall i | 0 <= i < |parts| :: parts[i].Valid()) && forall j | 0 <= j < |side| :: side[j] < |parts|
    ensures |r| == |side| && (forall j | 0 <= j < |r| :: r[j] == parts[side[j]]) && Keys(r) == Pick(Keys(parts), side)
  {
    seq(|side|, j requires 0 <= j < |side| => parts[side[j]])
  }
}

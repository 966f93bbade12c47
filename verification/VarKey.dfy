/**
  Index keys over byte strings whose bounds are cut to a prefix (btree_gist, type bytea).  A cut
  upper bound is smaller than values it covers, so search relies on the prefix-match rule.
 */
module VarKey {
  import opened ByteOrder

  datatype VarKey = VarKey(lower: Bytes, upper: Bytes)

  function LeafKey(v: Bytes): VarKey { VarKey(v, v) }

  function Min(a: nat, b: nat): nat { if a < b then a else b }

  function Max(a: nat, b: nat): nat { if a < b then b else a }

  /** `gbt_var_node_truncate`: bounds are cut to `cpfLength + 1` bytes. */
  function Truncate(k: VarKey, cpfLength: nat): VarKey {
    VarKey(k.lower[..Min(|k.lower|, cpfLength + 1)], k.upper[..Min(|k.upper|, cpfLength + 1)])
  }

  /** `gbt_var_bin_union` on two keys */
  function BinUnion(u: VarKey, e: VarKey): VarKey {
    VarKey(if Compare(u.lower, e.lower) > 0 then e.lower else u.lower,
           if Compare(u.upper, e.upper) < 0 then e.upper else u.upper)
  }

  /** The bounds of all entries, before they are cut. */
  function Bounds(entries: seq<VarKey>): VarKey
    requires entries != []
  {
    var n := |entries| - 1;
    if n == 0 then entries[0] else BinUnion(Bounds(entries[..n]), entries[n])
  }

  function NodePrefix(k: VarKey): nat { CommonPrefix(k.lower, k.upper) }

  /** What `gbt_var_union` computes: the bounds, cut two bytes past their common prefix. */
  function Union(entries: seq<VarKey>): VarKey
    requires entries != []
  {
    var b := Bounds(entries);
    Truncate(b, NodePrefix(b) + 1)
  }

  // ---------------------------------------------------------------- the loops of the source

  /** `gbt_var_node_cp_len` for single-byte characters */
  method NodeCommonPrefix(k: VarKey) returns (len: nat)
    ensures len == NodePrefix(k)
  {
    var ml := Min(|k.lower|, |k.upper|);
    if ml == 0 {
      CommonPrefixIs(k.lower, k.upper, 0);
      return 0;
    }
    var i := 0;
    while i < ml
      invariant 0 <= i <= ml && k.lower[..i] == k.upper[..i]
    {
      if k.lower[i] != k.upper[i] {
        CommonPrefixIs(k.lower, k.upper, i);
        return i;
      }
      i := i + 1;
    }
    CommonPrefixIs(k.lower, k.upper, ml);
    return ml;
  }

  /** `gbt_var_union` */
  method UnionKeys(entries: seq<VarKey>) returns (out: VarKey)
    requires entries != []
    ensures out == Union(entries)
  {
    out := BoundKeys(entries);
    var plen := NodeCommonPrefix(out);
    out := Truncate(out, plen + 1);
  }

  method BoundKeys(entries: seq<VarKey>) returns (out: VarKey)
    requires entries != []
    ensures out == Bounds(entries)
  {
    out := entries[0];
    assert entries[..1] == [entries[0]];
    for i := 1 to |entries|
      invariant out == Bounds(entries[..i])
    {
      BoundsExtend(entries, i);
      out := BinUnion(out, entries[i]);
    }
    assert entries[..|entries|] == entries;
  }

  lemma BoundsExtend(entries: seq<VarKey>, i: nat)
    requires 0 < i < |entries|
    ensures Bounds(entries[..i + 1]) == BinUnion(Bounds(entries[..i]), entries[i])
  {
    assert entries[..i + 1][..i] == entries[..i];
  }

  // ---------------------------------------------------------------- consistency

  datatype Strategy = LessThan | AtMost | Equal | AtLeast | GreaterThan | NotEqual | Unknown

  /** What the query operator means for a stored value. */
  predicate Satisfies(v: Bytes, strategy: Strategy, query: Bytes) {
    match strategy
    case LessThan => Less(v, query)
    case AtMost => Leq(v, query)
    case Equal => v == query
    case AtLeast => Leq(query, v)
    case GreaterThan => Less(query, v)
    case NotEqual => v != query
    case Unknown => false
  }

  /** `gbt_var_node_pf_match`: a bound is a prefix of the query. */
  predicate PrefixMatch(k: VarKey, query: Bytes) { IsPrefix(k.lower, query) || IsPrefix(k.upper, query) }

  /** `gbt_var_consistent` */
  predicate Consistent(k: VarKey, query: Bytes, strategy: Strategy, isLeaf: bool) {
    match strategy
    case AtMost =>
      if isLeaf then Compare(query, k.lower) >= 0 else Compare(query, k.lower) >= 0 || PrefixMatch(k, query)
    case LessThan =>
      if isLeaf then Compare(query, k.lower) > 0 else Compare(query, k.lower) >= 0 || PrefixMatch(k, query)
    case Equal =>
      if isLeaf then query == k.lower
      else (Compare(k.lower, query) <= 0 && Compare(query, k.upper) <= 0) || PrefixMatch(k, query)
    case GreaterThan =>
      if isLeaf then Compare(query, k.upper) < 0 else Compare(query, k.upper) <= 0 || PrefixMatch(k, query)
    case AtLeast =>
      if isLeaf then Compare(query, k.upper) <= 0 else Compare(query, k.upper) <= 0 || PrefixMatch(k, query)
    case NotEqual => !(query == k.lower && query == k.upper)
    case Unknown => false
  }

  /** On a leaf key the answer is exact. */
  lemma LeafIsExact(v: Bytes, query: Bytes, strategy: Strategy)
    ensures Consistent(LeafKey(v), query, strategy, true) <==> Satisfies(v, strategy, query)
  {
  }

  /** A value that only the prefix rule reaches: the upper bound was cut, and is a prefix of it. */
  predicate ByPrefix(k: VarKey, v: Bytes) { IsPrefix(k.upper, v) && |k.upper| >= NodePrefix(k) + 2 }

  /** The values that a key made by a union or by a split of leaves stands for. */
  predicate Covers(k: VarKey, v: Bytes) {
    Leq(k.lower, k.upper) && Leq(k.lower, v) && (Leq(v, k.upper) || ByPrefix(k, v))
  }

  /** The lower bound is a proper prefix of the upper one. */
  predicate Nested(k: VarKey) { k.lower != k.upper && IsPrefix(k.lower, k.upper) }

  /**
    A key may stand for values past its upper bound: that bound goes on for two bytes after the
    place where the bounds part, and some string that is no longer than it lies above the lower
    bound and parts from it as early as that.
   */
  predicate Open(k: VarKey) {
    var p := NodePrefix(k);
    && Leq(k.lower, k.upper) && |k.upper| >= p + 2
    && (|k.lower| <= |k.upper| || |k.upper| >= p + 3 || k.lower[p + 1] < 255 || k.lower[p] + 1 < k.upper[p])
  }

  /** How much of the upper bound the values past it have in common with it. */
  function Kept(k: VarKey): nat { if Nested(k) then NodePrefix(k) + 2 else |k.upper| }

  /** The values that a key stands for, however it was made. */
  predicate Stands(k: VarKey, v: Bytes) {
    && Leq(k.lower, k.upper) && Leq(k.lower, v)
    && (Leq(v, k.upper) || (Open(k) && IsPrefix(k.upper[..Kept(k)], v)))
  }

  /** A key whose lower bound is a proper prefix of the upper one admits all extensions of it. */
  predicate Admits(k: VarKey, v: Bytes) {
    Covers(k, v) || (Nested(k) && IsPrefix(k.lower, v))
  }

  lemma StandsAdmits(k: VarKey, v: Bytes)
    requires Stands(k, v)
    ensures Admits(k, v)
  {
    if Nested(k) {
      PrefixLeq(k.lower, k.upper);
      if !Leq(v, k.upper) { assert k.lower == k.upper[..Kept(k)][..|k.lower|]; }
    }
  }

  lemma AdmitsAbove(k: VarKey, v: Bytes, query: Bytes)
    requires Admits(k, v) && Leq(query, v)
    ensures Leq(query, k.upper) || PrefixMatch(k, query)
  {
    CompareTotal(query, k.upper);
    CompareTotal(query, v);
    if !Leq(query, k.upper) {
      if Covers(k, v) && Leq(v, k.upper) {
        LessTransitive(query, v, k.upper);
      } else if ByPrefix(k, v) {
        BetweenHasPrefix(k.upper, query, v);
      } else {
        PrefixLeq(k.lower, k.upper);
        LessTransitive(k.lower, k.upper, query);
        BetweenHasPrefix(k.lower, query, v);
      }
    }
  }

  /** An inner key never rejects a query that a value it stands for satisfies. */
  lemma ConsistentIsSound(k: VarKey, v: Bytes, query: Bytes, strategy: Strategy)
    requires Admits(k, v) && Satisfies(v, strategy, query)
    ensures Consistent(k, query, strategy, false)
  {
    CompareTotal(v, query);
    if IsPrefix(k.lower, v) { PrefixLeq(k.lower, v); }
    assert Leq(k.lower, v);
    CompareTotal(k.lower, query);
    match strategy
    case LessThan => LessTransitive(k.lower, v, query);
    case AtMost => LessTransitive(k.lower, v, query);
    case Equal => AdmitsAbove(k, v, query);
    case AtLeast => AdmitsAbove(k, v, query);
    case GreaterThan => AdmitsAbove(k, v, query);
    case NotEqual =>
      CommonPrefixIs(k.lower, k.lower, |k.lower|);
      CompareTotal(v, k.upper);
  }

  // ---------------------------------------------------------------- what a union covers

  predicate Contains(k: VarKey, e: VarKey) { Leq(k.lower, e.lower) && Leq(e.upper, k.upper) }

  lemma {:induction false} BinUnionContains(u: VarKey, e: VarKey)
    ensures Contains(BinUnion(u, e), u) && Contains(BinUnion(u, e), e)
  {
    CompareTotal(u.lower, e.lower);
    CompareTotal(u.upper, e.upper);
    ContainsItself(u);
    ContainsItself(e);
  }

  lemma ContainsItself(k: VarKey)
    ensures Contains(k, k)
  {
  }

  lemma ContainsTransitive(a: VarKey, b: VarKey, c: VarKey)
    requires Contains(a, b) && Contains(b, c)
    ensures Contains(a, c)
  {
    LessTransitive(a.lower, b.lower, c.lower);
    LessTransitive(c.upper, b.upper, a.upper);
  }

  lemma {:induction false} BoundsContain(entries: seq<VarKey>, i: nat)
    requires i < |entries|
    ensures Contains(Bounds(entries), entries[i])
  {
    var n := |entries| - 1;
    if n == 0 {
      ContainsItself(entries[0]);
    } else {
      var less := Bounds(entries[..n]);
      assert Bounds(entries) == BinUnion(less, entries[n]);
      BinUnionContains(less, entries[n]);
      if i < n {
        BoundsContain(entries[..n], i);
        ContainsTransitive(BinUnion(less, entries[n]), less, entries[i]);
      }
    }
  }

  lemma TruncateKeepsPrefix(k: VarKey, n: nat)
    requires n >= NodePrefix(k)
    ensures NodePrefix(Truncate(k, n)) == NodePrefix(k)
    ensures IsPrefix(Truncate(k, n).lower, k.lower) && IsPrefix(Truncate(k, n).upper, k.upper)
    ensures Leq(Truncate(k, n).lower, k.lower) && Leq(Truncate(k, n).upper, k.upper)
    ensures Leq(k.lower, k.upper) ==> Leq(Truncate(k, n).lower, Truncate(k, n).upper)
  {
    var t, p := Truncate(k, n), NodePrefix(k);
    assert t.lower[..p] == k.lower[..p] && t.upper[..p] == k.upper[..p];
    CommonPrefixIs(t.lower, t.upper, p);
    PrefixLeq(t.lower, k.lower);
    PrefixLeq(t.upper, k.upper);
  }

  /** A value below the uncut upper bound stays covered by any cut past the common prefix. */
  lemma TruncateCovers(k: VarKey, n: nat, v: Bytes)
    requires n >= NodePrefix(k) + 1 && Leq(k.lower, k.upper) && Leq(k.lower, v) && Leq(v, k.upper)
    ensures Covers(Truncate(k, n), v)
  {
    var t := Truncate(k, n);
    TruncateKeepsPrefix(k, n);
    LessTransitive(t.lower, k.lower, v);
    CompareTotal(v, t.upper);
    if !Leq(v, t.upper) {
      BetweenHasPrefix(t.upper, v, k.upper);
      assert t.upper == k.upper ==> Leq(v, t.upper);
    }
  }

  /** When `k` encloses `e` but not a value of `e`, then `e`'s cut upper bound is a prefix of `k`'s. */
  lemma EscapesUpwards(e: VarKey, k: VarKey, v: Bytes)
    requires Covers(e, v) && Leq(k.lower, e.lower) && Leq(e.upper, k.upper) && !Leq(v, k.upper)
    ensures ByPrefix(e, v) && IsPrefix(e.upper, k.upper) && NodePrefix(k) <= NodePrefix(e)
  {
    CompareTotal(v, k.upper);
    if Leq(v, e.upper) {
      LessTransitive(v, e.upper, k.upper);
      assert false;
    }
    BetweenHasPrefix(e.upper, k.upper, v);
    InnerPrefixShrinks(e, k);
  }

  lemma InnerPrefixShrinks(e: VarKey, k: VarKey)
    requires Leq(e.lower, e.upper) && |e.upper| >= NodePrefix(e) + 2
    requires Leq(k.lower, e.lower) && IsPrefix(e.upper, k.upper)
    ensures NodePrefix(k) <= NodePrefix(e)
  {
  }

  /** The key of `gbt_var_union` stands for every value that one of the joined keys stands for. */
  lemma UnionCovers(entries: seq<VarKey>, i: nat, v: Bytes)
    requires i < |entries| && Covers(entries[i], v)
    ensures Covers(Union(entries), v)
  {
    BoundsContain(entries, i);
    CompareTotal(entries[i].upper, entries[i].upper);
    ContainedCovers(entries[i], entries[i], Bounds(entries), v);
  }

  lemma CutIsPrefix(e: VarKey, b: VarKey, v: Bytes)
    requires ByPrefix(e, v) && IsPrefix(e.upper, b.upper) && NodePrefix(b) <= NodePrefix(e)
    requires Leq(b.lower, b.upper) && Leq(b.lower, v)
    ensures Covers(Truncate(b, NodePrefix(b) + 1), v)
  {
    var p := NodePrefix(b);
    var t := Truncate(b, p + 1);
    TruncateKeepsPrefix(b, p + 1);
    assert t.upper == b.upper[..p + 2] == e.upper[..p + 2] == v[..p + 2];
    LessTransitive(t.lower, b.lower, v);
  }

  // ---------------------------------------------------------------- values past the upper bound

  /** The key with no more of the upper bound than those values share. */
  function Core(k: VarKey): VarKey
    requires Open(k)
  {
    VarKey(k.lower, k.upper[..Kept(k)])
  }

  lemma CoreIsOpen(k: VarKey)
    requires Open(k)
    ensures var c := Core(k);
      && Leq(c.lower, c.upper) && NodePrefix(c) == NodePrefix(k) && |c.upper| >= NodePrefix(c) + 2
      && IsPrefix(c.upper, k.upper) && Leq(c.upper, k.upper)
  {
    var c := Core(k);
    assert k.upper[..|k.upper|] == k.upper;
    if Nested(k) {
      PrefixLeq(k.lower, k.upper);
      assert c.upper[..|k.lower|] == k.lower;
      PrefixLeq(k.lower, c.upper);
    }
    PrefixLeq(c.upper, k.upper);
  }

  lemma StandsPast(k: VarKey, v: Bytes)
    requires Stands(k, v) && !Leq(v, k.upper)
    ensures Covers(Core(k), v) && ByPrefix(Core(k), v)
  {
    CoreIsOpen(k);
  }

  /** A union stands for all the values that its entries stand for, however those were made. */
  lemma UnionStands(entries: seq<VarKey>, i: nat, v: Bytes)
    requires i < |entries| && Stands(entries[i], v)
    ensures Covers(Union(entries), v)
  {
    var b, e := Bounds(entries), entries[i];
    if Leq(v, e.upper) {
      UnionCovers(entries, i, v);
    } else {
      StandsPast(e, v);
      CoreIsOpen(e);
      BoundsContain(entries, i);
      ContainedCovers(Core(e), e, b, v);
    }
  }

  /** Whatever contains a key that covers a value covers it too, when cut as a union is. */
  lemma ContainedCovers(c: VarKey, e: VarKey, b: VarKey, v: Bytes)
    requires Covers(c, v) && Contains(b, e) && c.lower == e.lower && Leq(c.upper, e.upper)
    ensures Covers(Truncate(b, NodePrefix(b) + 1), v)
  {
    LessTransitive(b.lower, c.lower, v);
    LessTransitive(b.lower, c.lower, c.upper);
    LessTransitive(c.upper, e.upper, b.upper);
    LessTransitive(b.lower, c.upper, b.upper);
    if Leq(v, b.upper) {
      TruncateCovers(b, NodePrefix(b) + 1, v);
    } else {
      EscapesUpwards(c, b, v);
      CutIsPrefix(c, b, v);
    }
  }

  // ---------------------------------------------------------------- what makes a key open

  /** `w` is no longer than `u`, and parts from it two bytes before its end or earlier. */
  predicate PartsFrom(w: Bytes, u: Bytes) { |w| <= |u| && Leq(w, u) && CommonPrefix(w, u) + 2 <= |u| }

  /** A string between the bounds of an open key, as late as can be. */
  function Witness(k: VarKey): (w: Bytes)
    requires Open(k)
  {
    var p := NodePrefix(k);
    if Nested(k) then k.lower
    else if |k.upper| >= p + 3 then k.upper[..|k.upper| - 2]
    else if |k.lower| <= |k.upper| then k.lower
    else if k.lower[p + 1] < 255 then k.lower[..p + 1] + [k.lower[p + 1] + 1]
    else k.lower[..p] + [k.lower[p] + 1]
  }

  lemma NotNested(k: VarKey)
    requires Leq(k.lower, k.upper) && |k.upper| >= NodePrefix(k) + 2 && !Nested(k)
    ensures NodePrefix(k) < |k.lower| && k.lower[NodePrefix(k)] < k.upper[NodePrefix(k)]
  {
  }

  lemma WitnessParts(k: VarKey)
    requires Open(k)
    ensures Leq(k.lower, Witness(k)) && PartsFrom(Witness(k), k.upper)
    ensures !Nested(k) ==> |Witness(k)| == |k.upper| - 2 || !IsPrefix(Witness(k), k.upper)
  {
    var p, w := NodePrefix(k), Witness(k);
    if Nested(k) {
      PrefixLeq(k.lower, k.upper);
      CompareTotal(k.lower, k.lower);
    } else {
      NotNested(k);
      if |k.upper| >= p + 3 {
        PrefixLeq(w, k.upper);
        assert w[..p] == k.lower[..p];
        FirstDifference(k.lower, w, p);
      } else if |k.lower| <= |k.upper| {
        CompareTotal(w, w);
      } else if k.lower[p + 1] < 255 {
        WitnessDiffers(k.lower, k.upper, w, p, p + 1);
      } else {
        WitnessDiffers(k.lower, k.upper, w, p, p);
      }
    }
  }

  lemma WitnessDiffers(l: Bytes, u: Bytes, w: Bytes, p: nat, q: nat)
    requires p <= q < |l| && p < |u| && |w| == q + 1 && l[..p] == u[..p] && w[..q] == l[..q] && l[q] < w[q] && w[p] < u[p]
    ensures Less(l, w) && Less(w, u) && CommonPrefix(w, u) == p && !IsPrefix(w, u)
  {
    assert w[..p] == w[..q][..p] == l[..q][..p] == l[..p];
    FirstDifference(l, w, q);
    FirstDifference(w, u, p);
    CommonPrefixIs(w, u, p);
    assert w[p] != u[p];
  }

  /** Conversely, any string like that makes a key open. */
  lemma PartingIsOpen(k: VarKey, w: Bytes)
    requires Leq(k.lower, w) && PartsFrom(w, k.upper)
    ensures Open(k)
  {
    var p, q := NodePrefix(k), CommonPrefix(w, k.upper);
    LessTransitive(k.lower, w, k.upper);
  }
}

/**
  Splits of inner pages.  The keys of a split are cut at the larger of the two sides' prefix
  lengths, so a side may be cut later than its own bounds ask for.  That can lose values; here is
  when it does.
 */
module VarSplit {
  import opened ByteOrder
  import opened VarKey

  predicate AllOnes(s: Bytes, from: nat) { forall j | from <= j < |s| :: s[j] == 255 }

  /** The cut upper bound `upper` runs past an open entry, and a byte past it is not 255. */
  predicate Overruns(e: VarKey, upper: Bytes) {
    Open(e) && IsPrefix(Core(e).upper, upper) && !AllOnes(upper, |Core(e).upper|)
  }

  /** What a caller can see before the split: some entry is overrun, and no prefix rule helps. */
  predicate LosesValues(side: seq<VarKey>, n: nat)
    requires side != []
  {
    var b := Bounds(side);
    !IsPrefix(b.lower, b.upper) && exists i | 0 <= i < |side| :: Overruns(side[i], Truncate(b, n).upper)
  }

  predicate AllOrdered(side: seq<VarKey>) { forall i | 0 <= i < |side| :: Leq(side[i].lower, side[i].upper) }

  lemma BoundsOrdered(side: seq<VarKey>, i: nat)
    requires i < |side| && AllOrdered(side)
    ensures Leq(Bounds(side).lower, side[i].upper) && Leq(Bounds(side).lower, Bounds(side).upper)
  {
    var b, e := Bounds(side), side[i];
    BoundsContain(side, i);
    LessTransitive(b.lower, e.lower, e.upper);
    LessTransitive(b.lower, e.upper, b.upper);
  }

  lemma PrefixOfPrefix(a: Bytes, b: Bytes, c: Bytes)
    requires IsPrefix(a, b) && IsPrefix(b, c)
    ensures IsPrefix(a, c)
  {
  }

  lemma ShorterIsPrefix(a: Bytes, b: Bytes, c: Bytes)
    requires IsPrefix(a, c) && IsPrefix(b, c) && |a| <= |b|
    ensures IsPrefix(a, b)
  {
  }

  /** Nothing above a string that ends in bytes 255 from `from` on can differ from it there. */
  lemma AboveOnes(u: Bytes, v: Bytes, from: nat)
    requires AllOnes(u, from) && from <= |u| && from <= |v| && u[..from] == v[..from] && Leq(u, v)
    ensures IsPrefix(u, v)
  {
  }

  /** Without such an entry the key of the side stands for every value of every entry. */
  lemma KeepsValues(side: seq<VarKey>, n: nat, i: nat, v: Bytes)
    requires i < |side| && AllOrdered(side) && n >= NodePrefix(Bounds(side)) + 1
    requires !LosesValues(side, n) && Stands(side[i], v)
    ensures Stands(Truncate(Bounds(side), n), v)
  {
    var b, e := Bounds(side), side[i];
    BoundsContain(side, i);
    BoundsOrdered(side, i);
    LessTransitive(b.lower, e.lower, v);
    if Leq(v, b.upper) {
      TruncateCovers(b, n, v);
      CoversStands(b, n, v);
    } else {
      CompareTotal(v, b.upper);
      if Leq(v, e.upper) { LessTransitive(v, e.upper, b.upper); }
      StandsPast(e, v);
      CoreIsOpen(e);
      LessTransitive(Core(e).upper, e.upper, b.upper);
      EscapesUpwards(Core(e), b, v);
      PastStands(e, b, n, v);
    }
  }

  /** A cut upper bound leaves the key open. */
  lemma CoversStands(b: VarKey, n: nat, v: Bytes)
    requires Covers(Truncate(b, n), v) && n >= NodePrefix(b) + 1 && (Leq(v, b.upper) || n == NodePrefix(b) + 1)
    ensures Stands(Truncate(b, n), v)
  {
    var t := Truncate(b, n);
    TruncateKeepsPrefix(b, n);
    if !Leq(v, t.upper) {
      assert |t.upper| == n + 1 >= |t.lower|;
      PrefixOfPrefix(t.upper[..Kept(t)], t.upper, v);
    }
  }

  /** A value that escapes the bounds: the key of the side still stands for it. */
  lemma PastStands(e: VarKey, b: VarKey, n: nat, v: Bytes)
    requires Open(e) && Contains(b, e) && Leq(b.lower, b.upper) && n >= NodePrefix(b) + 1
    requires ByPrefix(Core(e), v) && IsPrefix(Core(e).upper, b.upper) && NodePrefix(b) <= NodePrefix(Core(e))
    requires Leq(b.lower, v) && !Leq(v, b.upper)
    requires IsPrefix(b.lower, b.upper) || !Overruns(e, Truncate(b, n).upper)
    ensures Stands(Truncate(b, n), v)
  {
    var t, c := Truncate(b, n), Core(e).upper;
    TruncateKeepsPrefix(b, n);
    LessTransitive(t.lower, b.lower, v);
    CutIsOpen(e, b, n);
    if IsPrefix(b.lower, b.upper) {
      NestedKeeps(b, n, c);
      PrefixOfPrefix(t.upper[..Kept(t)], c, v);
    } else {
      assert t.upper[..Kept(t)] == t.upper by { CutIsNotNested(b, n); }
      if |t.upper| <= |c| {
        ShorterIsPrefix(t.upper, c, b.upper);
        PrefixOfPrefix(t.upper, c, v);
      } else {
        ShorterIsPrefix(c, t.upper, b.upper);
        CompareTotal(v, b.upper);
        LessTransitive(t.upper, b.upper, v);
        AboveOnes(t.upper, v, |c|);
      }
    }
  }

  lemma CutIsNotNested(b: VarKey, n: nat)
    requires n >= NodePrefix(b) + 1 && !IsPrefix(b.lower, b.upper)
    ensures !Nested(Truncate(b, n))
  {
    var t, p := Truncate(b, n), NodePrefix(b);
    TruncateKeepsPrefix(b, n);
    if Nested(t) { PrefixLeq(t.lower, t.upper); }
  }

  /** When the lower bound is a prefix of the upper one, what the cut key goes by is left of an entry's bound. */
  lemma NestedKeeps(b: VarKey, n: nat, c: Bytes)
    requires n >= NodePrefix(b) + 1 && IsPrefix(b.lower, b.upper) && IsPrefix(c, b.upper) && |c| >= NodePrefix(b) + 2
    ensures var t := Truncate(b, n); Nested(t) && Kept(t) <= |t.upper| && IsPrefix(t.upper[..Kept(t)], c)
  {
    var t := Truncate(b, n);
    PrefixLeq(b.lower, b.upper);
    TruncateKeepsPrefix(b, n);
    assert t.lower == b.lower;
    ShorterIsPrefix(t.lower, t.upper, b.upper);
    ShorterIsPrefix(t.upper[..Kept(t)], c, b.upper);
  }

  /** A key over an open entry whose bound it goes on from is open. */
  lemma CutIsOpen(e: VarKey, b: VarKey, n: nat)
    requires Open(e) && Contains(b, e) && Leq(b.lower, b.upper) && n >= NodePrefix(b) + 1
    requires IsPrefix(Core(e).upper, b.upper)
    ensures Open(Truncate(b, n))
  {
    var t, c := Truncate(b, n), Core(e).upper;
    CoreIsOpen(e);
    InnerPrefixShrinks(Core(e), b);
    TruncateKeepsPrefix(b, n);
    if |t.lower| > |t.upper| {
      assert t.upper == b.upper;
      var w := Witness(e);
      WitnessParts(e);
      LessTransitive(b.lower, e.lower, w);
      LessTransitive(t.lower, b.lower, w);
      PartsFromCore(e, w);
      PartsFromLonger(w, c, t.upper);
      PartingIsOpen(t, w);
    }
  }

  lemma PartsFromCore(e: VarKey, w: Bytes)
    requires Open(e) && w == Witness(e) && PartsFrom(w, e.upper)
    ensures PartsFrom(w, Core(e).upper)
  {
    var c := Core(e).upper;
    if Nested(e) {
      PrefixLeq(e.lower, e.upper);
      assert c[..|w|] == w;
      PrefixLeq(w, c);
    } else {
      assert c == e.upper;
    }
  }

  lemma PartsFromLonger(w: Bytes, c: Bytes, u: Bytes)
    requires PartsFrom(w, c) && IsPrefix(c, u)
    ensures PartsFrom(w, u) && CommonPrefix(w, u) == CommonPrefix(w, c)
  {
    var q := CommonPrefix(w, c);
    assert c == u[..|c|] && w[..q] == u[..q];
    CommonPrefixIs(w, u, q);
  }

  /** The value that is lost: the overrun bound up to a byte below 255, and then 255. */
  lemma LostValue(side: seq<VarKey>, n: nat, i: nat) returns (v: Bytes)
    requires i < |side| && AllOrdered(side) && n >= NodePrefix(Bounds(side)) + 1
    requires !IsPrefix(Bounds(side).lower, Bounds(side).upper) && Overruns(side[i], Truncate(Bounds(side), n).upper)
    ensures Stands(side[i], v) && !Consistent(Truncate(Bounds(side), n), v, Equal, false)
  {
    var b, e := Bounds(side), side[i];
    var t, c := Truncate(b, n), Core(e);
    var j :| |c.upper| <= j < |t.upper| && t.upper[j] != 255;
    v := t.upper[..j] + [255];
    CoreIsOpen(e);
    StepsOver(c, t.upper, j, v);
    BoundsContain(side, i);
    LessTransitive(c.upper, e.upper, b.upper);
    LowerDiffers(c, b, n, v);
    CompareTotal(t.upper, v);
  }

  lemma StepsOver(c: VarKey, u: Bytes, j: nat, v: Bytes)
    requires Leq(c.lower, c.upper) && IsPrefix(c.upper, u) && |c.upper| <= j < |u| && u[j] != 255 && v == u[..j] + [255]
    ensures Leq(c.lower, v) && IsPrefix(c.upper, v) && Less(u, v) && !IsPrefix(u, v)
  {
    assert c.upper == u[..|c.upper|] == v[..|c.upper|];
    PrefixLeq(c.upper, v);
    LessTransitive(c.lower, c.upper, v);
    assert u[..j] == v[..j];
    FirstDifference(u, v, j);
    assert v[..j + 1][j] == v[j];
  }

  lemma LowerDiffers(c: VarKey, b: VarKey, n: nat, v: Bytes)
    requires Contains(b, c) && Leq(c.lower, c.upper) && |c.upper| >= NodePrefix(c) + 2
    requires n >= NodePrefix(b) + 1 && !IsPrefix(b.lower, b.upper)
    requires IsPrefix(c.upper, Truncate(b, n).upper) && IsPrefix(c.upper, v)
    ensures !IsPrefix(Truncate(b, n).lower, v)
  {
    var t, p := Truncate(b, n), NodePrefix(b);
    TruncateKeepsPrefix(b, n);
    PrefixOfPrefix(c.upper, t.upper, b.upper);
    InnerPrefixShrinks(c, b);
    assert v[p] == c.upper[p] == b.upper[p];
    assert t.lower[p] == b.lower[p];
  }

  /**
    The key that a split gives to a side is consistent with all values of the side's entries, for
    every query strategy, if and only if no entry is overrun.
   */
  lemma SplitIsSoundIff(side: seq<VarKey>, n: nat)
    requires side != [] && AllOrdered(side) && n >= NodePrefix(Bounds(side)) + 1
    ensures !LosesValues(side, n) <==>
      (forall i, v, query, strategy | 0 <= i < |side| && Stands(side[i], v) && Satisfies(v, strategy, query) ::
        Consistent(Truncate(Bounds(side), n), query, strategy, false))
  {
    var t := Truncate(Bounds(side), n);
    if LosesValues(side, n) {
      var i :| 0 <= i < |side| && Overruns(side[i], t.upper);
      var v := LostValue(side, n, i);
      assert Stands(side[i], v) && Satisfies(v, Equal, v);
    } else {
      forall i, v, query, strategy | 0 <= i < |side| && Stands(side[i], v) && Satisfies(v, strategy, query)
        ensures Consistent(t, query, strategy, false)
      {
        KeepsValues(side, n, i, v);
        StandsAdmits(t, v);
        ConsistentIsSound(t, v, query, strategy);
      }
    }
  }

  /** A side whose own prefix is the longer one is cut as a union is, and loses nothing. */
  lemma LongerSideIsSound(side: seq<VarKey>)
    requires side != [] && AllOrdered(side)
    ensures !LosesValues(side, NodePrefix(Bounds(side)) + 1)
  {
    forall i | 0 <= i < |side| ensures !Overruns(side[i], Union(side).upper) {
      BoundsContain(side, i);
      NoOverrun(side[i], Bounds(side));
    }
  }

  lemma NoOverrun(e: VarKey, b: VarKey)
    requires Contains(b, e)
    ensures !Overruns(e, Truncate(b, NodePrefix(b) + 1).upper)
  {
    var t := Truncate(b, NodePrefix(b) + 1);
    if Open(e) && IsPrefix(Core(e).upper, t.upper) {
      CoreIsOpen(e);
      TruncateKeepsPrefix(b, NodePrefix(b) + 1);
      PrefixOfPrefix(Core(e).upper, t.upper, b.upper);
      InnerPrefixShrinks(Core(e), b);
    }
  }

  // ---------------------------------------------------------------- a value that a split loses

  // the bytes of "0", "a", "b", "c", "w", "x", "y", "z"
  const ZERO: Byte := 48
  const A: Byte := 97
  const B: Byte := 98
  const C: Byte := 99
  const W: Byte := 119
  const X: Byte := 120
  const Y: Byte := 121
  const Z: Byte := 122

  lemma UnionOfTwo(v: Bytes, w: Bytes, c: nat)
    requires c < |v| && c < |w| && v[..c] == w[..c] && v[c] < w[c]
    ensures Union([LeafKey(v), LeafKey(w)]) == VarKey(v[..Min(|v|, c + 2)], w[..Min(|w|, c + 2)])
    ensures Bounds([LeafKey(v), LeafKey(w)]) == VarKey(v, w)
  {
    var entries := [LeafKey(v), LeafKey(w)];
    assert entries[..1] == [LeafKey(v)];
    FirstDifference(v, w, c);
    CommonPrefixIs(v, w, c);
    CompareTotal(v, w);
    assert Bounds(entries) == VarKey(v, w);
  }

  lemma BoundsOfPage(left: seq<VarKey>, right: seq<VarKey>)
    requires left == [VarKey([A, A], [A, B, Z]), VarKey([A, B, Z, X], [A, B, Z, Y])]
    requires right == [VarKey([Z, Z, Z, Z, Z, Z, X], [Z, Z, Z, Z, Z, Z, Y]), VarKey([Z, Z, Z, Z, Z, Z, X], [Z, Z, Z, Z, Z, Z, Y])]
    ensures Bounds(left) == VarKey([A, A], [A, B, Z, Y]) && NodePrefix(Bounds(left)) == 1
    ensures Bounds(right) == right[0] && NodePrefix(Bounds(right)) == 6
  {
    assert left[..1] == [left[0]] && right[..1] == [right[0]];
    FirstDifference([A, A], [A, B, Z, X], 1);
    FirstDifference([A, B, Z], [A, B, Z, Y], 3);
    CommonPrefixIs([A, A], [A, B, Z, Y], 1);
    CommonPrefixIs([Z, Z, Z, Z, Z, Z, X], [Z, Z, Z, Z, Z, Z, Y], 6);
  }

  lemma {:induction false} LosesLast(left: seq<VarKey>, lost: Bytes)
    requires left == [VarKey([A, A], [A, B, Z]), VarKey([A, B, Z, X], [A, B, Z, Y])] && lost == [A, B, Z, Z]
    requires Bounds(left) == VarKey([A, A], [A, B, Z, Y])
    ensures LosesValues(left, 7) && !Consistent(Truncate(Bounds(left), 7), lost, Equal, false)
  {
    var b := VarKey([A, A], [A, B, Z, Y]);
    assert Truncate(b, 7) == b;
    CommonPrefixIs([A, A], [A, B, Z], 1);
    FirstDifference([A, A], [A, B, Z], 1);
    assert Open(left[0]) && b.upper[3] == Y;
    assert Overruns(left[0], b.upper);
    FirstDifference(b.upper, lost, 3);
    CompareTotal(b.upper, lost);
    assert lost[1] == B && b.lower[1] == A;
  }

  lemma KeyOfFirst(aa: Bytes, abzz: Bytes)
    requires aa == [A, A] && abzz == [A, B, Z, Z]
    ensures Union([LeafKey(aa), LeafKey(abzz)]) == VarKey([A, A], [A, B, Z])
    ensures Covers(VarKey([A, A], [A, B, Z]), abzz)
  {
    UnionOfTwo(aa, abzz, 1);
    assert aa[..2] == [A, A] && abzz[..3] == [A, B, Z];
    CompareTotal(abzz, abzz);
    UnionCovers([LeafKey(aa), LeafKey(abzz)], 1, abzz);
  }

  /**
    An inner page with the key of the leaves "aa" and "abzz", the key of "abzx" and "abzy", and
    two keys far to the right with a long common prefix: after the split in the middle the search
    for "abzz" no longer reaches its leaf.
   */
  lemma SplitLosesLeaf(aa: Bytes, abzz: Bytes, left: seq<VarKey>, right: seq<VarKey>)
    requires aa == [A, A] && abzz == [A, B, Z, Z]
    requires left == [VarKey([A, A], [A, B, Z]), VarKey([A, B, Z, X], [A, B, Z, Y])]
    requires right == [VarKey([Z, Z, Z, Z, Z, Z, X], [Z, Z, Z, Z, Z, Z, Y]), VarKey([Z, Z, Z, Z, Z, Z, X], [Z, Z, Z, Z, Z, Z, Y])]
    ensures left[0] == Union([LeafKey(aa), LeafKey(abzz)]) && Covers(left[0], abzz)
    ensures var n := Max(NodePrefix(Bounds(left)), NodePrefix(Bounds(right))) + 1;
      LosesValues(left, n) && !Consistent(Truncate(Bounds(left), n), abzz, Equal, false)
  {
    KeyOfFirst(aa, abzz);
    BoundsOfPage(left, right);
    LosesLast(left, abzz);
  }

  // ---------------------------------------------------------------- a value that two splits lose

  lemma FirstOfTwoSplits(abcz: Bytes, first: seq<VarKey>)
    requires abcz == [A, B, C, Z] && first == [VarKey([A], [A, B, C]), VarKey([A, B, C, W], [A, B, C, X])]
    ensures Union([LeafKey([A]), LeafKey(abcz)]) == first[0] && Stands(first[0], abcz)
    ensures Bounds(first) == VarKey([A], [A, B, C, X]) && NodePrefix(Bounds(first)) == 1 && !LosesValues(first, 7)
  {
    var leaves := [LeafKey([A]), LeafKey(abcz)];
    assert leaves[..1] == [leaves[0]] && first[..1] == [first[0]];
    PrefixLeq([A], abcz);
    PrefixLeq([A], [A, B, C]);
    PrefixLeq([A], [A, B, C, W]);
    PrefixLeq([A], [A, B, C, X]);
    FirstDifference([A, B, C], [A, B, C, X], 3);
    assert Bounds(leaves) == VarKey([A], abcz);
    assert abcz[..3] == [A, B, C];
    assert Open(first[0]) && first[0].upper[..3] == [A, B, C];
  }

  lemma SecondOfTwoSplits(abcz: Bytes, second: seq<VarKey>)
    requires abcz == [A, B, C, Z] && second == [VarKey([ZERO, A], [ZERO, B]), VarKey([A], [A, B, C, X])]
    ensures LosesValues(second, 7) && !Consistent(Truncate(Bounds(second), 7), abcz, Equal, false)
  {
    assert second[..1] == [second[0]];
    FirstDifference([ZERO, A], [A], 0);
    FirstDifference([ZERO, B], [A, B, C, X], 0);
    var b := VarKey([ZERO, A], [A, B, C, X]);
    assert Bounds(second) == b && Truncate(b, 7) == b;
    PrefixLeq([A], [A, B, C, X]);
    assert Core(second[1]).upper == [A, B, C] && b.upper[3] == X;
    assert Overruns(second[1], b.upper);
    FirstDifference(b.upper, abcz, 3);
    CompareTotal(b.upper, abcz);
  }

  /**
    A first split loses nothing, but its key, of the leaves "a" and "abcz" among others, reaches
    "abcz" only because its lower bound is a prefix of the upper one.  The next split, with an
    entry far to the left on the same side, takes that away.
   */
  lemma TwoSplitsLoseLeaf(abcz: Bytes, first: seq<VarKey>, t: VarKey, second: seq<VarKey>)
    requires abcz == [A, B, C, Z] && first == [VarKey([A], [A, B, C]), VarKey([A, B, C, W], [A, B, C, X])]
    requires t == Truncate(Bounds(first), 7) && second == [VarKey([ZERO, A], [ZERO, B]), t]
    ensures first[0] == Union([LeafKey([A]), LeafKey(abcz)])
    ensures !LosesValues(first, 7) && Stands(t, abcz) && !Covers(t, abcz)
    ensures LosesValues(second, 7) && !Consistent(Truncate(Bounds(second), 7), abcz, Equal, false)
  {
    FirstOfTwoSplits(abcz, first);
    assert t == VarKey([A], [A, B, C, X]);
    PrefixLeq([A], [A, B, C]);
    PrefixLeq([A, B, C], [A, B, C, X]);
    FirstDifference([A, B, C, W], [A, B, C, X], 3);
    KeepsValues(first, 7, 0, abcz);
    FirstDifference(t.upper, abcz, 3);
    CompareTotal(t.upper, abcz);
    SecondOfTwoSplits(abcz, second);
  }
}

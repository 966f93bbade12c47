/** The page split of btree_gist for fixed-size keys: sort, then cut in the middle. */
module NumSplit {
  import opened Results
  import opened SplitVector

  /** An interval of numbers; a leaf key has both ends the same. */
  datatype NumKey = NumKey(lower: int, upper: int)

  predicate Covers(k: NumKey, e: NumKey) { k.lower <= e.lower && e.upper <= k.upper }

  /** The key of a side: it covers the entries, and both ends are ends of entries. */
  predicate IsHull(k: NumKey, entries: seq<NumKey>, side: seq<nat>)
    requires forall j | 0 <= j < |side| :: side[j] < |entries|
  {
    && (forall j | 0 <= j < |side| :: Covers(k, entries[side[j]]))
    && (exists j | 0 <= j < |side| :: entries[side[j]].lower == k.lower)
    && (exists j | 0 <= j < |side| :: entries[side[j]].upper == k.upper)
  }

  /** `gbt_num_bin_union`: the first entry is copied, later ones widen the key. */
  method BinUnion(u: Option<NumKey>, e: NumKey) returns (r: NumKey)
    ensures u.None? ==> r == e
    ensures u.Some? ==> Covers(r, u.value) && Covers(r, e)
    ensures u.Some? ==> (r.lower == u.value.lower || r.lower == e.lower) && (r.upper == u.value.upper || r.upper == e.upper)
  {
    if u.None? { return e; }
    var lower, upper := u.value.lower, u.value.upper;
    if lower > e.lower { lower := e.lower; }
    if upper < e.upper { upper := e.upper; }
    return NumKey(lower, upper);
  }

  predicate SideOk(k: Option<NumKey>, entries: seq<NumKey>, side: seq<nat>)
    requires forall j | 0 <= j < |side| :: side[j] < |entries|
  {
    if side == [] then k.None? else k.Some? && IsHull(k.value, entries, side)
  }

  lemma SideGrows(k: Option<NumKey>, r: NumKey, entries: seq<NumKey>, side: seq<nat>, i: nat)
    requires i < |entries| && (forall j | 0 <= j < |side| :: side[j] < |entries|) && SideOk(k, entries, side)
    requires k.None? ==> r == entries[i]
    requires k.Some? ==> Covers(r, k.value) && Covers(r, entries[i])
    requires k.Some? ==> (r.lower == k.value.lower || r.lower == entries[i].lower)
    requires k.Some? ==> (r.upper == k.value.upper || r.upper == entries[i].upper)
    ensures SideOk(Some(r), entries, side + [i])
  {
    var more := side + [i];
    assert more[|side|] == i;
    if side != [] {
      var a :| 0 <= a < |side| && entries[side[a]].lower == k.value.lower;
      var b :| 0 <= b < |side| && entries[side[b]].upper == k.value.upper;
      assert more[a] == side[a] && more[b] == side[b];
      assert forall j | 0 <= j < |side| :: more[j] == side[j];
    }
  }

  predicate InPage(side: seq<nat>, n: nat) { forall j | 0 <= j < |side| :: side[j] < n }

  /** The first `i` numbers are dealt out: up to `half` to the left, the others to the right; the keys follow. */
  predicate Dealt(
    entries: seq<NumKey>, order: seq<nat>, half: nat, i: nat, left: seq<nat>, right: seq<nat>,
    l: Option<NumKey>, r: Option<NumKey>)
  {
    && half <= |order| && i <= |order|
    && left == order[..if i <= half then i else half] && right == order[half..if i <= half then half else i]
    && InPage(left, |entries|) && InPage(right, |entries|) && SideOk(l, entries, left) && SideOk(r, entries, right)
  }

  lemma DealtAll(
      entries: seq<NumKey>, order: seq<nat>, half: nat, left: seq<nat>, right: seq<nat>, l: Option<NumKey>, r: Option<NumKey>)
    requires Dealt(entries, order, half, |order|, left, right, l, r) && 0 < half < |order|
    ensures left == order[..half] && right == order[half..]
    ensures InPage(left, |entries|) && l.Some? && IsHull(l.value, entries, left)
    ensures InPage(right, |entries|) && r.Some? && IsHull(r.value, entries, right)
  {
  }

  /** `gbt_num_picksplit`; `order` is the sorted order of the entry numbers. */
  method PickSplit(entries: seq<NumKey>, order: seq<nat>) returns (left: seq<nat>, right: seq<nat>, lkey: NumKey, rkey: NumKey)
    requires |entries| >= 3 && IsOrder(order, |entries|)
    ensures IsSplit(left, right, |entries|) && left + right == order && |left| == |order| / 2
    ensures (forall j | 0 <= j < |left| :: left[j] < |entries|) && IsHull(lkey, entries, left)
    ensures (forall j | 0 <= j < |right| :: right[j] < |entries|) && IsHull(rkey, entries, right)
  {
    OrderLength(order, |entries|);
    var half := |order| / 2;
    var l: Option<NumKey>, r: Option<NumKey> := None, None;
    left, right := [], [];
    for i := 0 to |order|
      invariant Dealt(entries, order, half, i, left, right, l, r)
    {
      left, right, l, r := Deal(entries, order, half, i, left, right, l, r);
    }
    DealtAll(entries, order, half, left, right, l, r);
    HalvesSplit(order, left, right, |entries|);
    lkey, rkey := l.value, r.value;
  }

  /** The body of the loop. */
  method Deal(
      entries: seq<NumKey>, order: seq<nat>, half: nat, i: nat, left: seq<nat>, right: seq<nat>,
      l: Option<NumKey>, r: Option<NumKey>)
    returns (left2: seq<nat>, right2: seq<nat>, l2: Option<NumKey>, r2: Option<NumKey>)
    requires Dealt(entries, order, half, i, left, right, l, r) && i < |order| && order[i] < |entries|
    ensures Dealt(entries, order, half, i + 1, left2, right2, l2, r2)
  {
    left2, right2, l2, r2 := left, right, l, r;
    if i + 1 <= half {
      l2, left2 := AddTo(l, entries, left, order[i]);
    } else {
      r2, right2 := AddTo(r, entries, right, order[i]);
    }
  }

  /** One entry more for a side. */
  method AddTo(k: Option<NumKey>, entries: seq<NumKey>, side: seq<nat>, i: nat) returns (r: Option<NumKey>, more: seq<nat>)
    requires i < |entries| && (forall j | 0 <= j < |side| :: side[j] < |entries|) && SideOk(k, entries, side)
    ensures more == side + [i] && (forall j | 0 <= j < |more| :: more[j] < |entries|) && SideOk(r, entries, more)
  {
    var u := BinUnion(k, entries[i]);
    SideGrows(k, u, entries, side, i);
    r, more := Some(u), side + [i];
  }
}

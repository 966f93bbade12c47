/**
  B-tree pages as the checker sees them, and the order on index keys.

  A key is the list of its untruncated attributes; the heap TID counts as the last
  attribute.  A missing attribute reads as minus infinity, so a proper prefix is less
  than every key that extends it.
 */
module NbtreeModel {

  type Block = nat
  type Key = seq<int>

  const P_NONE: Block := 0
  const INVALID_BLOCK: Block := 0xFFFFFFFF
  const P_HIKEY: nat := 1

  /** `more` holds the heap TIDs of a posting list after the first, which is in `key`. */
  datatype IndexTuple = IndexTuple(key: Key, more: seq<int>, downlink: Block)

  /** `items[0]` is the line pointer at offset 1; it is the high key unless the page is rightmost. */
  datatype BTPage = BTPage(
    prev: Block, next: Block, level: nat,
    leaf: bool, root: bool, deleted: bool, halfDead: bool, incompleteSplit: bool, fullXid: bool,
    items: seq<IndexTuple>)
  {
    predicate Leftmost() { prev == P_NONE }

    predicate Rightmost() { next == P_NONE }

    predicate Ignore() { deleted || halfDead }

    function FirstDataKey(): nat { if Rightmost() then 1 else 2 }

    function Max(): nat { |items| }

    function Item(offset: nat): IndexTuple
      requires 1 <= offset <= Max()
    {
      items[offset - 1]
    }

    predicate IsData(offset: nat) { FirstDataKey() <= offset <= Max() }

    /** The first data item of an internal page has no key of its own. */
    predicate NegativeInfinity(offset: nat) { !leaf && offset == FirstDataKey() }
  }

  /** The blocks of the index file but the metapage. */
  type Pages = m: map<Block, BTPage> | P_NONE !in m && INVALID_BLOCK !in m witness map[]

  datatype Corruption =
    | NoSuchBlock | BadLevel | TooFewItems | HalfDeadInternal | BadFlags
    | DeletedBlock | FellOffEnd | NotLeftmost | NotRoot | NoValidPages | SiblingLinks | CircularLink
    | WrongAttributes | MisplacedTid | HighKeyViolated | ItemOrder | CrossPageOrder
    | CantTraverse | MissingDownlink | KeyMismatch | NoLeftHighKey | LowerBound | BadLinePointer
    | Endless            // a chain of links that the code would follow for ever

  // ---------------------------------------------------------------- key order

  predicate Less(a: Key, b: Key) {
    b != [] && (a == [] || a[0] < b[0] || (a[0] == b[0] && Less(a[1..], b[1..])))
  }

  predicate Leq(a: Key, b: Key) { a == b || Less(a, b) }

  lemma LessTransitive(a: Key, b: Key, c: Key)
    requires Less(a, b) && Less(b, c)
    ensures Less(a, c)
  {
  }

  lemma LeqTransitive(a: Key, b: Key, c: Key)
    requires Leq(a, b) && Leq(b, c)
    ensures Leq(a, c)
  {
    if Less(a, b) && Less(b, c) { LessTransitive(a, b, c); }
  }

  /** The order is total and irreflexive. */
  lemma {:induction false} LessTrichotomy(a: Key, b: Key)
    ensures (if Less(a, b) then 1 else 0) + (if a == b then 1 else 0) + (if Less(b, a) then 1 else 0) == 1
  {
    if a != [] && b != [] {
      LessTrichotomy(a[1..], b[1..]);
      assert a == [a[0]] + a[1..] && b == [b[0]] + b[1..];
    }
  }

  /** Appending different last attributes to one key orders the results by them. */
  lemma {:induction false} LessLast(a: Key, b: Key, n: nat)
    requires |a| == |b| == n + 1 && a[..n] == b[..n]
    ensures Less(a, b) <==> a[n] < b[n]
  {
    if n > 0 {
      assert a[0] == a[..n][0] == b[..n][0] == b[0];
      assert a[1..][..n - 1] == a[..n][1..] && b[1..][..n - 1] == b[..n][1..];
      LessLast(a[1..], b[1..], n - 1);
    }
  }

  // ---------------------------------------------------------------- comparing a scan key with a tuple

  /** The attribute loop: a scan key longer than the tuple's key is greater. */
  function CompareAttributes(k: Key, t: Key): int {
    if k == [] then 0
    else if t == [] then 1
    else if k[0] < t[0] then -1
    else if k[0] > t[0] then 1
    else CompareAttributes(k[1..], t[1..])
  }

  predicate IsPosting(t: IndexTuple, n: nat) { t.more != [] && |t.key| == n + 1 }

  /** The key with the highest heap TID of the tuple in place of the first. */
  function MaxKey(t: IndexTuple, n: nat): Key {
    if IsPosting(t, n) then t.key[..n] + [t.more[|t.more| - 1]] else t.key
  }

  /** `n` is the number of key attributes; a scan TID inside a posting list compares as equal to it. */
  function Compare(k: Key, t: IndexTuple, n: nat): int {
    var c := CompareAttributes(k, t.key);
    if c <= 0 || !IsPosting(t, n) || |k| != n + 1 || k[..n] != t.key[..n] then c
    else if k[n] > t.more[|t.more| - 1] then 1 else 0
  }

  /** `invariant_l_offset`: a tie is broken in favour of a scan key with fewer attributes. */
  predicate InvariantLess(k: Key, t: IndexTuple, n: nat) {
    var c := Compare(k, t, n);
    if c == 0 then |k| < |t.key| else c < 0
  }

  predicate InvariantLeq(k: Key, t: IndexTuple, n: nat) { Compare(k, t, n) <= 0 }

  predicate InvariantGreater(k: Key, t: IndexTuple, n: nat) { Compare(k, t, n) > 0 }

  lemma {:induction false} CompareAttributesIsOrder(k: Key, t: Key)
    ensures CompareAttributes(k, t) > 0 <==> Less(t, k)
    ensures CompareAttributes(k, t) == 0 <==> k <= t
    ensures CompareAttributes(k, t) <= 0 ==> Less(k, t) || k == t
  {
    if k != [] && t != [] {
      CompareAttributesIsOrder(k[1..], t[1..]);
      assert k == [k[0]] + k[1..] && t == [t[0]] + t[1..];
      if k[0] == t[0] && k[1..] <= t[1..] {
        assert t == [t[0]] + (k[1..] + t[1..][|k| - 1..]);
      }
      if k <= t {
        assert k[0] == t[0];
        assert forall i | 0 <= i < |k| - 1 :: k[1..][i] == k[i + 1] == t[i + 1] == t[1..][i];
      }
    } else if k == [] {
      assert k <= t;
    }
  }

  lemma {:induction false} PrefixIsLeq(k: Key, t: Key)
    requires k <= t
    ensures |k| < |t| <==> Less(k, t)
  {
    if k != [] {
      assert k[1..] <= t[1..] by {
        assert forall i | 0 <= i < |k| - 1 :: k[1..][i] == t[1..][i];
      }
      PrefixIsLeq(k[1..], t[1..]);
    }
  }

  /** The three tests of the checker are the order on keys. */
  lemma InvariantsAreOrder(k: Key, t: IndexTuple, n: nat)
    ensures InvariantLess(k, t, n) <==> Less(k, t.key)
    ensures !IsPosting(t, n) ==> (InvariantLeq(k, t, n) <==> Leq(k, t.key))
    ensures InvariantGreater(k, t, n) ==> Less(t.key, k)
    ensures InvariantGreater(k, t, n) && IsPosting(t, n) && |k| == n + 1 ==> Less(MaxKey(t, n), k)
    ensures !IsPosting(t, n) ==> (InvariantGreater(k, t, n) <==> Less(t.key, k))
  {
    CompareAttributesIsOrder(k, t.key);
    LessTrichotomy(k, t.key);
    if k <= t.key { PrefixIsLeq(k, t.key); }
    if IsPosting(t, n) && |k| == n + 1 {
      var m := MaxKey(t, n);
      assert m[..n] == t.key[..n];
      if k[..n] == t.key[..n] {
        LessLast(m, k, n);
        LessLast(t.key, k, n);
        LessLast(k, t.key, n);
      } else if CompareAttributes(k, t.key) > 0 {
        SharedPrefixLess(t.key, m, k, n);
      }
    }
  }

  /** Keys that agree on their first `n` attributes compare alike with a key that differs there. */
  lemma {:induction false} SharedPrefixLess(a: Key, b: Key, k: Key, n: nat)
    requires |a| == |b| == |k| == n + 1 && a[..n] == b[..n] && a[..n] != k[..n]
    requires Less(a, k)
    ensures Less(b, k)
  {
    if n > 0 {
      assert a[0] == a[..n][0] == b[..n][0] == b[0];
      if a[0] == k[0] {
        assert a[1..][..n - 1] == a[..n][1..] && b[1..][..n - 1] == b[..n][1..] && k[1..][..n - 1] == k[..n][1..];
        assert a[..n] == [a[0]] + a[1..][..n - 1] && k[..n] == [k[0]] + k[1..][..n - 1];
        SharedPrefixLess(a[1..], b[1..], k[1..], n - 1);
      }
    }
  }
}

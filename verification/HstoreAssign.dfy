/** Subscript fetch and subscript assignment on packed hstores. */
module HstoreAssign {
  import opened Results
  import opened ByteOrder
  import opened HstoreLayout
  import opened HstoreBuilder

  const MAX_ALLOC_SIZE := 0x3FFF_FFFF

  /** The contents of a text datum: a varlena of at most 2^30 - 1 bytes with a header of 4. */
  type Text = s: Bytes | |s| <= 0x3FFF_FFFB witness []

  // ---------------------------------------------------------------- order and meaning

  /** The order of keys: by length, then by bytes. */
  function Difference(a: Bytes, b: Bytes): int {
    if |a| == |b| then Compare(a, b) else if |a| > |b| then 1 else -1
  }

  lemma DifferenceTotal(a: Bytes, b: Bytes)
    ensures Difference(a, b) == -Difference(b, a) && (Difference(a, b) == 0 <==> a == b)
  {
  }

  lemma DifferenceTransitive(a: Bytes, b: Bytes, c: Bytes)
    requires Difference(a, b) < 0 && Difference(b, c) < 0
    ensures Difference(a, c) < 0
  {
  }

  /** Keys strictly increase. */
  predicate Sorted(ps: seq<Pair>) {
    forall i, j | 0 <= i < j < |ps| :: Difference(ps[i].key, ps[j].key) < 0
  }

  function ValueOf(p: Pair): Option<Bytes> { if p.isNull then None else Some(p.val) }

  /** The map that a list of pairs stands for; a null value is a value. */
  function AsMap(ps: seq<Pair>): map<Bytes, Option<Bytes>> {
    if ps == [] then map[] else AsMap(ps[1..])[ps[0].key := ValueOf(ps[0])]
  }

  lemma {:induction false} AsMapHas(ps: seq<Pair>, key: Bytes)
    ensures key in AsMap(ps) <==> exists i | 0 <= i < |ps| :: ps[i].key == key
  {
    if ps != [] {
      AsMapHas(ps[1..], key);
      if key in AsMap(ps[1..]) {
        var i :| 0 <= i < |ps| - 1 && ps[1..][i].key == key;
        assert ps[i + 1].key == key;
      }
      if j :| 0 < j < |ps| && ps[j].key == key { assert ps[1..][j - 1].key == key; }
    }
  }

  lemma {:induction false} AsMapAt(ps: seq<Pair>, i: nat)
    requires Sorted(ps) && i < |ps|
    ensures ps[i].key in AsMap(ps) && AsMap(ps)[ps[i].key] == ValueOf(ps[i])
  {
    if i > 0 {
      var rest := ps[1..];
      forall j, k | 0 <= j < k < |rest| ensures Difference(rest[j].key, rest[k].key) < 0 {
        assert rest[j] == ps[j + 1] && rest[k] == ps[k + 1];
      }
      AsMapAt(rest, i - 1);
      DifferenceTotal(ps[0].key, ps[i].key);
    }
  }

  /** The sorted list with `p` in its place, replacing a pair with the same key. */
  function Upsert(ps: seq<Pair>, p: Pair): seq<Pair> {
    if ps == [] then [p]
    else
      var d := Difference(ps[0].key, p.key);
      if d < 0 then [ps[0]] + Upsert(ps[1..], p) else if d == 0 then [p] + ps[1..] else [p] + ps
  }

  /** Insertion means map update. */
  lemma {:induction false} UpsertIsUpdate(ps: seq<Pair>, p: Pair)
    ensures AsMap(Upsert(ps, p)) == AsMap(ps)[p.key := ValueOf(p)]
  {
    if ps != [] {
      DifferenceTotal(ps[0].key, p.key);
      var d := Difference(ps[0].key, p.key);
      if d < 0 {
        UpsertIsUpdate(ps[1..], p);
        assert ([ps[0]] + Upsert(ps[1..], p))[1..] == Upsert(ps[1..], p);
      } else if d == 0 {
        assert ([p] + ps[1..])[1..] == ps[1..];
      } else {
        assert ([p] + ps)[1..] == ps;
      }
    }
  }

  lemma {:induction false} UpsertAbove(ps: seq<Pair>, p: Pair, low: Bytes)
    requires Difference(low, p.key) < 0 && forall i | 0 <= i < |ps| :: Difference(low, ps[i].key) < 0
    ensures forall i | 0 <= i < |Upsert(ps, p)| :: Difference(low, Upsert(ps, p)[i].key) < 0
  {
    if ps != [] && Difference(ps[0].key, p.key) < 0 { UpsertAbove(ps[1..], p, low); }
  }

  lemma SortedCons(p: Pair, ps: seq<Pair>)
    requires Sorted(ps) && forall i | 0 <= i < |ps| :: Difference(p.key, ps[i].key) < 0
    ensures Sorted([p] + ps)
  {
  }

  lemma SortedTail(ps: seq<Pair>)
    requires Sorted(ps) && ps != []
    ensures Sorted(ps[1..]) && forall i | 0 <= i < |ps| - 1 :: Difference(ps[0].key, ps[1..][i].key) < 0
  {
  }

  lemma {:induction false} UpsertSorted(ps: seq<Pair>, p: Pair)
    requires Sorted(ps)
    ensures Sorted(Upsert(ps, p))
  {
    if ps != [] {
      var d := Difference(ps[0].key, p.key);
      SortedTail(ps);
      DifferenceTotal(ps[0].key, p.key);
      if d < 0 {
        UpsertSorted(ps[1..], p);
        UpsertAbove(ps[1..], p, ps[0].key);
        SortedCons(ps[0], Upsert(ps[1..], p));
      } else if d == 0 {
        SortedCons(p, ps[1..]);
      } else {
        forall i | 0 <= i < |ps| ensures Difference(p.key, ps[i].key) < 0 {
          if i > 0 { DifferenceTransitive(p.key, ps[0].key, ps[i].key); }
        }
        SortedCons(p, ps);
      }
    }
  }

  // ---------------------------------------------------------------- search and fetch

  /** An hstore as the macros see it: the size word, the entry words and the strings. */
  datatype Packed = Packed(size: Word, words: seq<Word>, str: Bytes)

  predicate Reads(h: Packed, i: nat, p: Pair) { ReadsAs(h.size, h.words, h.str, i, p) }

  predicate Readable(h: Packed, ps: seq<Pair>) { |h.words| == 2 * |ps| && forall i | 0 <= i < |ps| :: Reads(h, i, ps[i]) }

  method Unpack(hs: Bytes, ghost ps: seq<Pair>) returns (h: Packed)
    requires Holds(hs, ps)
    ensures Readable(h, ps)
  {
    assert Count(hs) == |ps|;
    var count := Count(hs);
    h := Packed(Word32(hs, 4), Words(hs, count), hs[StrPtr(count)..]);
    forall i | 0 <= i < |ps| ensures Reads(h, i, ps[i]) { HoldsReads(hs, ps, i); }
  }

  /** `HSTORE_KEY` with `HSTORE_KEYLEN` */
  method ReadKey(h: Packed, i: nat, ghost p: Pair) returns (key: Bytes)
    requires Reads(h, i, p)
    ensures key == p.key
  {
    var off, len := EntryOff(h.size, h.words, 2 * i), EntryLen(h.size, h.words, 2 * i);
    key := h.str[off..off + len];
  }

  /** Key and value as one stretch of bytes, with their lengths and the null flag. */
  method ReadItem(h: Packed, i: nat, ghost p: Pair) returns (src: Bytes, klen: nat, vlen: nat, vnull: bool)
    requires Reads(h, i, p)
    ensures |src| == klen + vlen && Pair(src[..klen], src[klen..], vnull) == p
  {
    var off := EntryOff(h.size, h.words, 2 * i);
    klen, vlen := EntryLen(h.size, h.words, 2 * i), EntryLen(h.size, h.words, 2 * i + 1);
    vnull := IsNull(h.words[2 * i + 1]);
    src := h.str[off..off + klen + vlen];
    assert src[..klen] == h.str[off..off + klen];
    assert src[klen..] == h.str[off + klen..off + klen + vlen];
  }

  /** `hstoreFindKey` without a low bound: binary search. */
  method FindKey(h: Packed, ghost ps: seq<Pair>, key: Bytes) returns (idx: int)
    requires Readable(h, ps) && Sorted(ps)
    ensures -1 <= idx < |ps|
    ensures idx >= 0 ==> ps[idx].key == key
    ensures idx < 0 ==> forall i | 0 <= i < |ps| :: ps[i].key != key
  {
    var low, high := 0, |h.words| / 2;
    while low < high
      invariant 0 <= low <= high <= |ps|
      invariant forall i | 0 <= i < low :: Difference(ps[i].key, key) < 0
      invariant forall i | high <= i < |ps| :: Difference(ps[i].key, key) > 0
    {
      var mid := low + (high - low) / 2;
      assert Reads(h, mid, ps[mid]);
      var at := ReadKey(h, mid, ps[mid]);
      var d := Difference(at, key);
      SplitAt(ps, mid, key);
      if d == 0 {
        DifferenceTotal(ps[mid].key, key);
        return mid;
      } else if d < 0 {
        low := mid + 1;
      } else {
        high := mid;
      }
    }
    forall i | 0 <= i < |ps| ensures ps[i].key != key { DifferenceTotal(ps[i].key, key); }
    return -1;
  }

  /** In a sorted list everything before a smaller key is smaller, everything behind a larger one larger. */
  lemma SplitAt(ps: seq<Pair>, mid: nat, key: Bytes)
    requires Sorted(ps) && mid < |ps|
    ensures Difference(ps[mid].key, key) < 0 ==> forall i | 0 <= i <= mid :: Difference(ps[i].key, key) < 0
    ensures Difference(ps[mid].key, key) > 0 ==> forall i | mid <= i < |ps| :: Difference(ps[i].key, key) > 0
  {
    var m := ps[mid].key;
    DifferenceTotal(m, key);
    if Difference(m, key) < 0 {
      forall i | 0 <= i <= mid ensures Difference(ps[i].key, key) < 0 {
        if i < mid { DifferenceTransitive(ps[i].key, m, key); }
      }
    }
    if Difference(m, key) > 0 {
      forall i | mid <= i < |ps| ensures Difference(ps[i].key, key) > 0 {
        if i > mid { DifferenceTransitive(key, m, ps[i].key); }
        DifferenceTotal(ps[i].key, key);
      }
    }
  }

  /** What a subscript means: the value at the key, null if there is none or it is null. */
  function Lookup(m: map<Bytes, Option<Bytes>>, key: Option<Bytes>): Option<Bytes> {
    if key.Some? && key.value in m then m[key.value] else None
  }

  /** `hstore_subscript_fetch` */
  method Fetch(hs: Bytes, ghost ps: seq<Pair>, key: Option<Bytes>) returns (r: Option<Bytes>)
    requires Holds(hs, ps) && Sorted(ps)
    ensures r == Lookup(AsMap(ps), key)
  {
    if key.None? { return None; }
    var h := Unpack(hs, ps);
    var idx := FindKey(h, ps, key.value);
    AsMapHas(ps, key.value);
    if idx < 0 { return None; }
    AsMapAt(ps, idx);
    var src, klen, vlen, vnull := ReadItem(h, idx, ps[idx]);
    if vnull { return None; }
    return Some(src[klen..]);
  }

  // ---------------------------------------------------------------- assignment

  datatype Error = NullSubscript | AllocTooLarge

  function ToInt32(x: nat): int { var y := x % TWO32; if y >= TWO31 then y - TWO32 else y }

  /** A size computed without overflow checks and kept in an int32 is refused by `palloc` unless it is right. */
  predicate PallocOk(vsize: int) { 0 <= vsize <= MAX_ALLOC_SIZE }

  function NewPair(key: Text, value: Option<Text>): Pair {
    if value.None? then Pair(key, [], true) else Pair(key, value.value, false)
  }

  /** What is left to write completes the result, and what was written fits. */
  predicate Merged(written: seq<Pair>, ptr: nat, ps: seq<Pair>, p: Pair, s1idx: nat, s2idx: nat) {
    && s1idx <= |ps| && s2idx <= 1 && |written| <= s1idx + s2idx
    && ptr <= Start(ps, s1idx) + (if s2idx == 1 then p.Len() else 0)
    && written + (if s2idx == 0 then Upsert(ps[s1idx..], p) else ps[s1idx..]) == Upsert(ps, p)
  }

  lemma MergeSpace(ps: seq<Pair>, i: nat)
    requires i <= |ps|
    ensures Start(ps, i) <= Total(ps) && (i < |ps| ==> Start(ps, i + 1) <= Total(ps))
  {
    StartMonotone(ps, i, |ps|);
    if i < |ps| { StartMonotone(ps, i + 1, |ps|); }
  }

  /** The new pair goes before a larger key or the end, or takes the place of its own key. */
  lemma MergeAdd(written: seq<Pair>, ptr: nat, ps: seq<Pair>, p: Pair, i: nat)
    requires Merged(written, ptr, ps, p, i, 0)
    ensures i == |ps| || Difference(ps[i].key, p.key) > 0 ==> Merged(written + [p], ptr + p.Len(), ps, p, i, 1)
    ensures i < |ps| && Difference(ps[i].key, p.key) == 0 ==> Merged(written + [p], ptr + p.Len(), ps, p, i + 1, 1)
  {
  }

  /** An old pair is copied while it is smaller than the new one, or when that is written. */
  lemma MergeCopy(written: seq<Pair>, ptr: nat, ps: seq<Pair>, p: Pair, i: nat, j: nat)
    requires Merged(written, ptr, ps, p, i, j) && i < |ps| && (j == 1 || Difference(ps[i].key, p.key) < 0)
    ensures Merged(written + [ps[i]], ptr + ps[i].Len(), ps, p, i + 1, j)
  {
    var rest := ps[i..];
    assert rest[0] == ps[i] && rest[1..] == ps[i + 1..];
    if j == 0 {
      RegroupPairs(written, ps[i], Upsert(ps[i + 1..], p));
    } else {
      assert rest == [ps[i]] + ps[i + 1..];
      RegroupPairs(written, ps[i], ps[i + 1..]);
    }
  }

  lemma RegroupPairs(a: seq<Pair>, p: Pair, b: seq<Pair>)
    ensures a + ([p] + b) == (a + [p]) + b
  {
  }

  /** The loop of `hstore_subscript_assign`: merges the sorted pairs with the one new pair. */
  method Merge(b: Builder, h: Packed, ghost ps: seq<Pair>, p: Pair)
    requires b.Valid() && b.written == [] && Readable(h, ps) && b.room == |ps| + 1 && (p.isNull ==> p.val == [])
    requires StrPtr(b.room) + Total(ps) + p.Len() <= b.out.Length && Total(ps) + p.Len() < TWO30
    modifies b, b.out
    ensures b.Valid() && b.written == Upsert(ps, p)
  {
    var count := |h.words| / 2;
    var s1idx: nat, s2idx: nat := 0, 0;
    assert ps[0..] == ps;
    while s1idx < count || s2idx < 1
      invariant b.Valid() && Merged(b.written, b.ptr, ps, p, s1idx, s2idx)
      decreases count - s1idx + 1 - s2idx
    {
      s1idx, s2idx := MergeStep(b, h, ps, p, s1idx, s2idx);
    }
  }

  /** One turn of the loop: the new pair is added, or an old one is copied. */
  method MergeStep(b: Builder, h: Packed, ghost ps: seq<Pair>, p: Pair, s1idx: nat, s2idx: nat) returns (i: nat, j: nat)
    requires b.Valid() && Readable(h, ps) && b.room == |ps| + 1 && (p.isNull ==> p.val == [])
    requires StrPtr(b.room) + Total(ps) + p.Len() <= b.out.Length && Total(ps) + p.Len() < TWO30
    requires Merged(b.written, b.ptr, ps, p, s1idx, s2idx) && (s1idx < |ps| || s2idx < 1)
    modifies b, b.out
    ensures b.Valid() && Merged(b.written, b.ptr, ps, p, i, j) && s1idx + s2idx < i + j
  {
    MergeSpace(ps, s1idx);
    var difference := MergeDifference(h, ps, p, s1idx, s2idx);
    if difference >= 0 {
      AddNew(b, ps, p, s1idx);
      return if difference == 0 then s1idx + 1 else s1idx, s2idx + 1;
    }
    CopyOld(b, h, ps, p, s1idx, s2idx);
    return s1idx + 1, s2idx;
  }

  /** The comparison at the head of the loop. */
  method MergeDifference(h: Packed, ghost ps: seq<Pair>, p: Pair, s1idx: nat, s2idx: nat) returns (difference: int)
    requires Readable(h, ps) && s1idx <= |ps| && s2idx <= 1 && (s1idx < |ps| || s2idx < 1)
    ensures difference == if s1idx >= |ps| then 1 else if s2idx >= 1 then -1 else Difference(ps[s1idx].key, p.key)
  {
    if s1idx >= |h.words| / 2 { return 1; }
    if s2idx >= 1 { return -1; }
    assert Reads(h, s1idx, ps[s1idx]);
    var at := ReadKey(h, s1idx, ps[s1idx]);
    difference := Difference(at, p.key);
  }

  method AddNew(b: Builder, ghost ps: seq<Pair>, p: Pair, ghost i: nat)
    requires b.Valid() && Merged(b.written, b.ptr, ps, p, i, 0) && b.room == |ps| + 1 && (p.isNull ==> p.val == [])
    requires StrPtr(b.room) + b.ptr + p.Len() <= b.out.Length && b.ptr + p.Len() < TWO30
    modifies b, b.out
    ensures b.Valid()
    ensures i == |ps| || Difference(ps[i].key, p.key) > 0 ==> Merged(b.written, b.ptr, ps, p, i, 1)
    ensures i < |ps| && Difference(ps[i].key, p.key) == 0 ==> Merged(b.written, b.ptr, ps, p, i + 1, 1)
  {
    MergeAdd(b.written, b.ptr, ps, p, i);
    b.AddItem(p);
  }

  method CopyOld(b: Builder, h: Packed, ghost ps: seq<Pair>, ghost p: Pair, i: nat, ghost j: nat)
    requires b.Valid() && Readable(h, ps) && Merged(b.written, b.ptr, ps, p, i, j) && i < |ps| && b.room == |ps| + 1
    requires j == 1 || Difference(ps[i].key, p.key) < 0
    requires StrPtr(b.room) + b.ptr + ps[i].Len() <= b.out.Length && b.ptr + ps[i].Len() < TWO30
    modifies b, b.out
    ensures b.Valid() && Merged(b.written, b.ptr, ps, p, i + 1, j)
  {
    assert Reads(h, i, ps[i]);
    MergeCopy(b.written, b.ptr, ps, p, i, j);
    var src, klen, vlen, vnull := ReadItem(h, i, ps[i]);
    b.CopyItem(src, klen, vlen, vnull);
  }

  /** The size of the buffer that the assignment asks for. */
  function Wanted(container: Option<Bytes>, count: nat, p: Pair): nat {
    if container.None? then DataSize(1, p.Len()) else DataSize(count + 1, |container.value| + p.Len())
  }

  /** The size goes through an int32, but `palloc` refuses it unless it is the true one and small enough. */
  lemma WantedIsChecked(container: Option<Bytes>, count: nat, p: Pair)
    requires |p.key| <= 0x3FFF_FFFB && |p.val| <= 0x3FFF_FFFB
    requires container.Some? ==> StrPtr(count) <= |container.value| <= MAX_ALLOC_SIZE
    ensures var w := Wanted(container, count, p); PallocOk(ToInt32(w)) <==> w <= MAX_ALLOC_SIZE
    ensures var w := Wanted(container, count, p); w <= MAX_ALLOC_SIZE ==> ToInt32(w) == w
  {
  }

  /** The bytes are packed exactly and hold the pairs. */
  predicate Packs(s: Bytes, ps: seq<Pair>) {
    Holds(s, ps) && |s| == DataSize(|ps|, Total(ps)) && Word32(s, 0) == 4 * |s|
  }

  /** `hstorePairs` for the one pair of an assignment to a null container. */
  method OneElement(p: Pair) returns (r: Result<Bytes, Error>)
    requires |p.key| <= 0x3FFF_FFFB && |p.val| <= 0x3FFF_FFFB && (p.isNull ==> p.val == [])
    ensures r.Ok? <==> Wanted(None, 0, p) <= MAX_ALLOC_SIZE
    ensures if r.Ok? then Packs(r.value, [p]) else r == Err(AllocTooLarge)
  {
    WantedIsChecked(None, 0, p);
    var len := ToInt32(Wanted(None, 0, p));
    if !PallocOk(len) { return Err(AllocTooLarge); }
    var b := new Builder(len, 1);
    b.AddItem(p);
    assert b.written == [p];
    var out := b.Finalize();
    return Ok(out);
  }

  /** The merge of the new pair into an existing hstore. */
  method MergeInto(hs: Bytes, ghost ps: seq<Pair>, p: Pair) returns (r: Result<Bytes, Error>)
    requires |p.key| <= 0x3FFF_FFFB && |p.val| <= 0x3FFF_FFFB && (p.isNull ==> p.val == [])
    requires Holds(hs, ps) && |hs| <= MAX_ALLOC_SIZE
    ensures r.Ok? <==> Wanted(Some(hs), |ps|, p) <= MAX_ALLOC_SIZE
    ensures if r.Ok? then Packs(r.value, Upsert(ps, p)) else r == Err(AllocTooLarge)
  {
    var h := Unpack(hs, ps);
    HeldFits(hs, ps);
    WantedIsChecked(Some(hs), |ps|, p);
    var vsize := ToInt32(Wanted(Some(hs), |h.words| / 2, p));
    if !PallocOk(vsize) { return Err(AllocTooLarge); }
    var b := new Builder(vsize, |h.words| / 2 + 1);
    Merge(b, h, ps, p);
    var out := b.Finalize();
    return Ok(out);
  }

  /**
    `hstore_subscript_assign`.  `ps` are the pairs of the container, if there is one.  The result
    packs the pairs with the new one in place, which means the old map with the key set.
   */
  method Assign(container: Option<Bytes>, ghost ps: seq<Pair>, key: Option<Text>, value: Option<Text>)
    returns (r: Result<Bytes, Error>)
    requires container.Some? ==> Holds(container.value, ps) && Sorted(ps) && |container.value| <= MAX_ALLOC_SIZE
    requires container.None? ==> ps == []
    ensures r == Err(NullSubscript) <==> key.None?
    ensures key.Some? ==> (r.Ok? <==> Wanted(container, |ps|, NewPair(key.value, value)) <= MAX_ALLOC_SIZE)
    ensures r.Ok? ==> var after := Upsert(ps, NewPair(key.value, value));
      Packs(r.value, after) && Sorted(after) && AsMap(after) == AsMap(ps)[key.value := value]
  {
    if key.None? { return Err(NullSubscript); }
    var p := NewPair(key.value, value);
    UpsertSorted(ps, p);
    UpsertIsUpdate(ps, p);
    if container.None? { r := OneElement(p); } else { r := MergeInto(container.value, ps, p); }
  }

  /**
    Fetching from the bytes that an assignment made gives the new value at its key and the old value
    at every other key, whatever list of pairs the bytes are read as.
   */
  lemma {:induction false} FetchAfterAssign(bytes: Bytes, ps: seq<Pair>, key: Text, value: Option<Text>, qs: seq<Pair>, other: Bytes)
    requires Packs(bytes, Upsert(ps, NewPair(key, value))) && Holds(bytes, qs)
    ensures Lookup(AsMap(qs), Some(other)) == if other == key then value else Lookup(AsMap(ps), Some(other))
  {
    HoldsUnique(bytes, qs, Upsert(ps, NewPair(key, value)));
    UpsertIsUpdate(ps, NewPair(key, value));
  }

  lemma HeldFits(s: Bytes, ps: seq<Pair>)
    requires Holds(s, ps)
    ensures StrPtr(|ps|) + Total(ps) <= |s|
  {
    if ps != [] { assert PairAt(Words(s, |ps|), s[StrPtr(|ps|)..], ps, |ps| - 1, true); }
  }
}

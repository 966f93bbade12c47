/** Values of the old hstore format and their conversion in place. */
module HstoreUpgrade {
  import opened Results
  import opened ByteOrder
  import opened HstoreLayout
  import opened HstoreBuilder

  // ---------------------------------------------------------------- the old format

  /** `HOldEntry`: two lengths of 16 bits, a null bit and a start position of 31 bits. */
  datatype OldEntry = OldEntry(keylen: nat, vallen: nat, isnull: bool, pos: nat) {
    /** The bytes that the entry takes. */
    function Len(): nat { keylen + if isnull then 0 else vallen }
  }

  function Fields(lens: Word, flags: Word): (e: OldEntry)
    ensures e.keylen < 0x10000 && e.vallen < 0x10000 && e.pos < TWO31
  {
    OldEntry(lens % 0x10000, lens / 0x10000, flags % 2 == 1, flags / 2)
  }

  /** Two words make one old entry. */
  function Entries(words: seq<Word>, count: nat): (es: seq<OldEntry>)
    requires |words| == 2 * count
    ensures |es| == count && forall i | 0 <= i < count :: es[i] == Fields(words[2 * i], words[2 * i + 1])
  {
    seq(count, i requires 0 <= i < count => Fields(words[2 * i], words[2 * i + 1]))
  }

  /** The entry stands for pair `i`. */
  predicate Describes(e: OldEntry, str: Bytes, ps: seq<Pair>, i: nat)
    requires i < |ps|
  {
    && Start(ps, i + 1) <= |str| && e.pos == Start(ps, i) && e.keylen == |ps[i].key| && e.isnull == ps[i].isNull
    && (if e.isnull then ps[i].val == [] else e.vallen == |ps[i].val|)
    && str[Start(ps, i)..Start(ps, i + 1)] == ps[i].key + ps[i].val
  }

  /** Bytes that the entries before `i` take. */
  function OldStart(es: seq<OldEntry>, i: nat): nat
    requires i <= |es|
  {
    if i == 0 then 0 else OldStart(es, i - 1) + es[i - 1].Len()
  }

  /** Positions are contiguous up to entry `n`. */
  predicate Contiguous(es: seq<OldEntry>, n: nat)
    requires n <= |es|
  {
    forall i | 0 <= i < n :: PosFits(es, i)
  }

  predicate PosFits(es: seq<OldEntry>, i: nat)
    requires i < |es|
  {
    es[i].pos == OldStart(es, i)
  }

  /** Key lengths do not decrease. */
  predicate KeysGrow(es: seq<OldEntry>, n: nat)
    requires n <= |es|
  {
    forall i | 1 <= i < n :: KeyGrows(es, i)
  }

  predicate KeyGrows(es: seq<OldEntry>, i: nat)
    requires 1 <= i < |es|
  {
    es[i - 1].keylen <= es[i].keylen
  }

  /** A valid old entry array whose strings fit behind it. */
  predicate OldEntries(es: seq<OldEntry>, varsize: nat) {
    KeysGrow(es, |es|) && Contiguous(es, |es|) && DataSize(|es|, OldStart(es, |es|)) <= varsize
  }

  /** The pair of old entry `i`, if positions are contiguous. */
  function OldPair(es: seq<OldEntry>, str: Bytes, i: nat): (p: Pair)
    requires i < |es| && OldStart(es, i + 1) <= |str|
    ensures p.Len() == es[i].Len()
  {
    var lo, hi := OldStart(es, i), OldStart(es, i + 1);
    var mid := lo + es[i].keylen;
    Pair(str[lo..mid], str[mid..hi], es[i].isnull)
  }

  /** The pairs of the first `n` old entries. */
  function OldPairs(es: seq<OldEntry>, str: Bytes, n: nat): (ps: seq<Pair>)
    requires n <= |es| && OldStart(es, n) <= |str|
    ensures |ps| == n && Start(ps, n) == OldStart(es, n)
  {
    if n == 0 then []
    else
      var before, p := OldPairs(es, str, n - 1), OldPair(es, str, n - 1);
      StartPrefix(before, [p], n - 1);
      before + [p]
  }

  /** Entries that pass the validity test describe the pairs that `OldPairs` reads. */
  lemma {:induction false} OldEntriesDescribe(es: seq<OldEntry>, str: Bytes, n: nat, i: nat)
    requires i < n <= |es| && OldStart(es, n) <= |str| && Contiguous(es, n)
    ensures Describes(es[i], str, OldPairs(es, str, n), i)
  {
    var before, p := OldPairs(es, str, n - 1), OldPair(es, str, n - 1);
    var all := OldPairs(es, str, n);
    assert all == before + [p];
    StartPrefix(before, [p], i);
    if i < n - 1 {
      OldEntriesDescribe(es, str, n - 1, i);
      StartPrefix(before, [p], i + 1);
      assert all[i] == before[i];
    } else {
      assert PosFits(es, i);
      LastDescribed(es, str, all, i);
    }
  }

  lemma LastDescribed(es: seq<OldEntry>, str: Bytes, ps: seq<Pair>, i: nat)
    requires i < |ps| && i < |es| && OldStart(es, i + 1) <= |str| && PosFits(es, i)
    requires ps[i] == OldPair(es, str, i) && Start(ps, i) == OldStart(es, i)
    ensures Describes(es[i], str, ps, i)
  {
    var lo, mid, hi := OldStart(es, i), OldStart(es, i) + es[i].keylen, OldStart(es, i + 1);
    assert Start(ps, i + 1) == hi;
    assert str[lo..hi] == str[lo..mid] + str[mid..hi];
  }

  lemma {:induction false} OldStartMonotone(es: seq<OldEntry>, i: nat, j: nat)
    requires i <= j <= |es|
    ensures OldStart(es, i) <= OldStart(es, j)
  {
    if i < j { OldStartMonotone(es, i, j - 1); }
  }

  // ---------------------------------------------------------------- the validity test

  function Wrap32(x: int): int { (x + TWO31) % TWO32 - TWO31 }

  function Unsigned32(x: int): nat { x % TWO32 }

  /** What the validity test is for: a value in the old format. */
  predicate IsOld(hs: Bytes)
    requires |hs| >= HDRSIZE
  {
    var size := Word32(hs, 4);
    size < TWO31 && (size == 0 ||
      (size < TWO28 && DataSize(size, 0) <= |hs| && OldEntries(Entries(Words(hs, size), size), |hs|)))
  }

  /** Sum of the lengths as an int32: it is right, or it became negative just now. */
  predicate RunningSum(sum: nat, lastpos: int) {
    if sum < TWO31 then lastpos == sum else -TWO31 <= lastpos < -TWO31 + 0x20000
  }

  /** The loop that checks positions, with its int32 accumulator. */
  method CheckPositions(es: seq<OldEntry>, ghost varsize: nat) returns (ok: bool, lastpos: int)
    requires varsize < TWO30 && forall i | 0 <= i < |es| :: es[i].Len() < 0x20000
    ensures ok ==> Contiguous(es, |es|) && RunningSum(OldStart(es, |es|), lastpos)
    ensures !ok ==> !OldEntries(es, varsize)
  {
    lastpos := 0;
    for i := 0 to |es|
      invariant Contiguous(es, i) && RunningSum(OldStart(es, i), lastpos)
    {
      OldStartMonotone(es, i, |es|);
      if es[i].pos != lastpos {
        if OldStart(es, i) < TWO31 { assert !PosFits(es, i); }
        return false, lastpos;
      }
      assert PosFits(es, i);
      lastpos := Wrap32(lastpos + es[i].Len());
    }
    return true, lastpos;
  }

  method CheckKeyLengths(es: seq<OldEntry>) returns (ok: bool)
    requires es != []
    ensures ok <==> KeysGrow(es, |es|)
  {
    for i := 1 to |es|
      invariant KeysGrow(es, i)
    {
      if es[i].keylen < es[i - 1].keylen {
        assert !KeyGrows(es, i);
        return false;
      }
      assert KeyGrows(es, i);
    }
    return true;
  }

  /** The comparison of the computed size with the length, as unsigned numbers, is right even after overflow. */
  lemma SizeCheck(count: nat, sum: nat, lastpos: int, varsize: nat)
    requires DataSize(count, 0) <= varsize < TWO30 && RunningSum(sum, lastpos)
    ensures var vsize := Unsigned32(Wrap32(8 * count + HDRSIZE + lastpos));
      (vsize > varsize <==> DataSize(count, sum) > varsize) && (vsize == varsize <==> DataSize(count, sum) == varsize)
  {
  }

  /** `hstoreValidOldFormat`: 0 for invalid, 1 for valid with slack at the end, 2 for exactly valid. */
  method ValidOldFormat(hs: Bytes) returns (v: nat)
    requires HDRSIZE <= |hs| < TWO30
    ensures v <= 2 && (v != 0 <==> IsOld(hs))
    ensures Word32(hs, 4) != 0 && v != 0 ==> (v == 2 <==> |hs| == DataSize(|Old(hs)|, Total(Old(hs))))
  {
    var count := Word32(hs, 4);
    if count >= TWO31 { return 0; }
    if count == 0 { return 2; }
    if count > 0xFFF_FFFF { return 0; }
    if DataSize(count, 0) > |hs| { return 0; }
    var es := Entries(Words(hs, count), count);
    if es[0].pos != 0 {
      assert !PosFits(es, 0);
      return 0;
    }
    var ok := CheckKeyLengths(es);
    if !ok { return 0; }
    var lastpos;
    ok, lastpos := CheckPositions(es, |hs|);
    if !ok { return 0; }
    var vsize := Wrap32(8 * count + HDRSIZE + lastpos);
    SizeCheck(count, OldStart(es, count), lastpos, |hs|);
    if Unsigned32(vsize) > |hs| { return 0; }
    if Unsigned32(vsize) != |hs| { return 1; }
    return 2;
  }

  /** The pairs of a value in the old format. */
  function Old(hs: Bytes): (ps: seq<Pair>)
    requires |hs| >= HDRSIZE && IsOld(hs)
    ensures |ps| == Word32(hs, 4)
  {
    var n := Word32(hs, 4);
    if n == 0 then [] else OldPairs(Entries(Words(hs, n), n), hs[StrPtr(n)..], n)
  }

  // ---------------------------------------------------------------- conversion in place

  /** Entries before `i` are in the new format, the others still in the old one. */
  predicate Half(words: seq<Word>, str: Bytes, ps: seq<Pair>, i: nat) {
    && |words| == 2 * |ps| && i <= |ps| && |str| == Total(ps) < TWO30
    && (forall j | 0 <= j < i :: PairAt(words, str, ps, j, false))
    && (forall j | i <= j < |ps| :: OldAt(words, str, ps, j))
  }

  predicate OldAt(words: seq<Word>, str: Bytes, ps: seq<Pair>, j: nat)
    requires j < |ps|
  {
    2 * j + 1 < |words| && Describes(Fields(words[2 * j], words[2 * j + 1]), str, ps, j)
  }

  lemma ConvertStep(words: seq<Word>, str: Bytes, ps: seq<Pair>, i: nat)
    requires Half(words, str, ps, i) && i < |ps|
    ensures Start(ps, i + 1) < TWO30
    ensures Half(words[2 * i := Entry(Start(ps, i) + |ps[i].key|, false, false)]
                      [2 * i + 1 := Entry(Start(ps, i + 1), ps[i].isNull, false)], str, ps, i + 1)
  {
    assert OldAt(words, str, ps, i);
    var after := words[2 * i := Entry(Start(ps, i) + |ps[i].key|, false, false)]
                      [2 * i + 1 := Entry(Start(ps, i + 1), ps[i].isNull, false)];
    forall j | 0 <= j < i + 1 ensures PairAt(after, str, ps, j, false) {
      if j < i { assert PairAt(words, str, ps, j, false); }
    }
    forall j | i + 1 <= j < |ps| ensures OldAt(after, str, ps, j) {
      assert OldAt(words, str, ps, j);
    }
  }

  /** The two new words for an old entry; the position mask loses nothing. */
  method NewWords(e: OldEntry, ghost p: Pair, ghost start: nat) returns (key: Word, val: Word)
    requires e.keylen == |p.key| && e.pos == start && e.isnull == p.isNull && start + p.Len() < TWO30
    requires if e.isnull then p.val == [] else e.vallen == |p.val|
    ensures key == Entry(start + |p.key|, false, false) && val == Entry(start + p.Len(), p.isNull, false)
  {
    var vallen := e.vallen;
    if e.isnull { vallen := 0; }
    key := (e.pos + e.keylen) % TWO30;
    val := (e.pos + e.keylen + vallen) % TWO30 + (if e.isnull then TWO30 else 0);
  }

  method PutWord(hs: array<Byte>, ghost count: nat, ghost words: seq<Word>, ghost str: Bytes, k: nat, w: Word)
    requires Contains(hs[..], count, words, str) && k < |words| == 2 * count
    modifies hs
    ensures Contains(hs[..], count, words[k := w], str)
  {
    ReplaceWord(hs[..], count, words, str, k, w);
    Put32(hs, HDRSIZE + 4 * k, w);
  }

  /** Overwrite old entry `i` with two new entry words. */
  method ConvertEntry(hs: array<Byte>, ghost words: seq<Word>, ghost str: Bytes, ghost ps: seq<Pair>, i: nat)
    returns (ghost after: seq<Word>)
    requires Half(words, str, ps, i) && i < |ps| && Contains(hs[..], |ps|, words, str)
    modifies hs
    ensures Half(after, str, ps, i + 1) && Contains(hs[..], |ps|, after, str)
  {
    assert OldAt(words, str, ps, i);
    assert WordIs(hs[..], 2 * i, words[2 * i]) && WordIs(hs[..], 2 * i + 1, words[2 * i + 1]);
    ConvertStep(words, str, ps, i);
    var lens, flags := Word32(hs[..], HDRSIZE + 4 * (2 * i)), Word32(hs[..], HDRSIZE + 4 * (2 * i + 1));
    var key, val := NewWords(Fields(lens, flags), ps[i], Start(ps, i));
    PutWord(hs, |ps|, words, str, 2 * i, key);
    PutWord(hs, |ps|, words[2 * i := key], str, 2 * i + 1, val);
    after := words[2 * i := key][2 * i + 1 := val];
  }

  /** The entries one after the other. */
  method ConvertEntries(hs: array<Byte>, count: nat, ghost words: seq<Word>, ghost str: Bytes, ghost ps: seq<Pair>)
    returns (ghost after: seq<Word>)
    requires count == |ps| && Half(words, str, ps, 0) && Contains(hs[..], count, words, str)
    modifies hs
    ensures Half(after, str, ps, count) && Contains(hs[..], count, after, str)
  {
    after := words;
    for i := 0 to count
      invariant Half(after, str, ps, i) && Contains(hs[..], count, after, str)
    {
      after := ConvertEntry(hs, after, str, ps, i);
    }
  }

  /** The flag of the first entry. */
  method PutFirst(hs: array<Byte>, count: nat, ghost words: seq<Word>, ghost str: Bytes, ghost ps: seq<Pair>)
    returns (ghost after: seq<Word>)
    requires 0 < count == |ps| && Half(words, str, ps, count) && Contains(hs[..], count, words, str)
    modifies hs
    ensures |after| == 2 * count && LaidOut(after, str, ps, true) && Contains(hs[..], count, after, str)
  {
    FlagFirst(words, str, ps);
    assert WordIs(hs[..], 0, words[0]);
    var w := Word32(hs[..], HDRSIZE);
    PutWord(hs, count, words, str, 0, w + TWO31);
    after := words[0 := w + TWO31];
  }

  /** A header word; the other one stays. */
  method PutHeader(hs: array<Byte>, ghost count: nat, ghost words: seq<Word>, ghost str: Bytes, at: nat, w: Word)
    requires Contains(hs[..], count, words, str) && (at == 0 || at == 4)
    modifies hs
    ensures Contains(hs[..], count, words, str) && Word32(hs[..], at) == w && Word32(hs[..], 4 - at) == old(Word32(hs[..], 4 - at))
  {
    SetHeader(hs[..], count, words, str, at, w);
    SpliceWord(hs[..], at, w);
    SpliceWordFrame(hs[..], at, LittleEndian(w), 4 - at);
    Put32(hs, at, w);
  }

  /** The end position of the last entry. */
  method LastEnd(hs: Bytes, count: nat, ghost words: seq<Word>, ghost str: Bytes, ghost ps: seq<Pair>) returns (bl: nat)
    requires count == |ps| && |words| == 2 * count && Contains(hs, count, words, str) && LaidOut(words, str, ps, true)
    ensures bl == Total(ps)
  {
    if count == 0 { return 0; }
    assert WordIs(hs, 2 * count - 1, words[2 * count - 1]);
    assert PairAt(words, str, ps, count - 1, true);
    bl := EndPos(Word32(hs, HDRSIZE + 4 * (2 * count - 1)));
  }

  /** `HS_SETCOUNT` and `HS_FIXSIZE`: the flag of the new format, and the length that the entries ask for. */
  method Finish(hs: array<Byte>, count: nat, ghost words: seq<Word>, ghost str: Bytes, ghost ps: seq<Pair>) returns (size: nat)
    requires count == |ps| < TWO28 && |words| == 2 * count && |str| == Total(ps) && hs.Length < TWO30
    requires Contains(hs[..], count, words, str) && LaidOut(words, str, ps, true)
    modifies hs
    ensures size <= hs.Length && Holds(hs[..size], ps) && size == DataSize(count, Total(ps))
  {
    PutHeader(hs, count, words, str, 4, TWO31 + count);
    var bl := LastEnd(hs[..], count, words, str, ps);
    size := DataSize(count, bl);
    PutHeader(hs, count, words, str, 0, 4 * size);
    FinishedHolds(hs[..], size, words, str, ps);
  }

  /**
    The last part of `hstoreUpgrade`: a value in the old format is overwritten in place, and the
    result holds the same keys, values and nulls in the new format.
   */
  method Convert(hs: array<Byte>) returns (size: nat)
    requires HDRSIZE <= hs.Length < TWO30 && IsOld(hs[..]) && Word32(hs[..], 4) > 0
    modifies hs
    ensures size <= hs.Length && Holds(hs[..size], Old(old(hs[..]))) && size == DataSize(|Old(old(hs[..]))|, Total(Old(old(hs[..]))))
  {
    var count := Word32(hs[..], 4);
    ghost var words, ps := Words(hs[..], count), Old(hs[..]);
    ghost var str := hs[StrPtr(count)..StrPtr(count) + Total(ps)];
    OldIsHalf(hs[..], words, str, ps);
    ghost var after := ConvertEntries(hs, count, words, str, ps);
    after := PutFirst(hs, count, after, str, ps);
    size := Finish(hs, count, after, str, ps);
  }

  lemma OldIsHalf(hs: Bytes, words: seq<Word>, str: Bytes, ps: seq<Pair>)
    requires HDRSIZE <= |hs| < TWO30 && IsOld(hs) && Word32(hs, 4) > 0
    requires words == Words(hs, Word32(hs, 4)) && ps == Old(hs)
    requires StrPtr(|ps|) + Total(ps) <= |hs| && str == hs[StrPtr(|ps|)..StrPtr(|ps|) + Total(ps)]
    ensures Half(words, str, ps, 0) && Contains(hs, |ps|, words, str)
  {
    var n, all := Word32(hs, 4), hs[StrPtr(|ps|)..];
    assert str == all[..Total(ps)];
    forall i | 0 <= i < n ensures OldAt(words, str, ps, i) {
      OldEntriesDescribe(Entries(words, n), all, n, i);
      CutStrings(Entries(words, n)[i], all, ps, i);
    }
  }

  lemma CutStrings(e: OldEntry, all: Bytes, ps: seq<Pair>, i: nat)
    requires i < |ps| && Describes(e, all, ps, i) && Total(ps) <= |all|
    ensures Describes(e, all[..Total(ps)], ps, i)
  {
    StartMonotone(ps, i + 1, |ps|);
    assert all[..Total(ps)][Start(ps, i)..Start(ps, i + 1)] == all[Start(ps, i)..Start(ps, i + 1)];
  }

  // ---------------------------------------------------------------- the whole upgrade

  datatype Error = InvalidHstore

  /** An entry word; past the end of the value memory holds something unknown. */
  function ReadWord(hs: Bytes, i: nat, unknown: nat -> Word): Word {
    if HDRSIZE + 4 * i + 4 <= |hs| then Word32(hs, HDRSIZE + 4 * i) else unknown(i)
  }

  /** The length of the strings by the last entry. */
  function BufLen(hs: Bytes, unknown: nat -> Word): nat
    requires |hs| >= HDRSIZE
  {
    if Count(hs) == 0 then 0 else EndPos(ReadWord(hs, 2 * Count(hs) - 1, unknown))
  }

  predicate EndGrows(words: seq<Word>, i: nat)
    requires 1 <= i < |words|
  {
    !IsFirst(words[i]) && EndPos(words[i - 1]) <= EndPos(words[i])
  }

  predicate NewKeyFits(size: Word, words: seq<Word>, i: nat)
    requires 1 <= i && 2 * i < |words|
  {
    EntryLen(size, words, 2 * i - 2) <= EntryLen(size, words, 2 * i) && !IsNull(words[2 * i])
  }

  method CheckEnds(words: seq<Word>) returns (ok: bool)
    requires words != []
    ensures ok <==> forall i | 1 <= i < |words| :: EndGrows(words, i)
  {
    for i := 1 to |words|
      invariant forall j | 1 <= j < i :: EndGrows(words, j)
    {
      if IsFirst(words[i]) || EndPos(words[i]) < EndPos(words[i - 1]) {
        assert !EndGrows(words, i);
        return false;
      }
    }
    return true;
  }

  method CheckNewKeys(size: Word, words: seq<Word>, count: nat) returns (ok: bool)
    requires |words| == 2 * count > 0
    ensures ok <==> forall i | 1 <= i < count :: NewKeyFits(size, words, i)
  {
    for i := 1 to count
      invariant forall j | 1 <= j < i :: NewKeyFits(size, words, j)
    {
      if EntryLen(size, words, 2 * i) < EntryLen(size, words, 2 * i - 2) || IsNull(words[2 * i]) {
        assert !NewKeyFits(size, words, i);
        return false;
      }
    }
    return true;
  }

  /** Positions never go down, and keys are not null and of growing length. */
  ghost predicate NewEntries(size: Word, words: seq<Word>, count: nat)
    requires |words| == 2 * count > 0
  {
    (forall i | 1 <= i < 2 * count :: EndGrows(words, i)) && forall i | 1 <= i < count :: NewKeyFits(size, words, i)
  }

  method CheckNewEntries(size: Word, words: seq<Word>, count: nat) returns (ok: bool)
    requires |words| == 2 * count > 0
    ensures ok <==> NewEntries(size, words, count)
  {
    ok := CheckEnds(words);
    if !ok { return false; }
    ok := CheckNewKeys(size, words, count);
  }

  /** The size as an int, compared as an unsigned number, is the size. */
  lemma SizeIsExact(count: nat, buflen: nat)
    requires count < TWO28 && buflen < TWO30
    ensures Unsigned32(Wrap32(DataSize(count, buflen))) == DataSize(count, buflen)
  {
  }

  /** What the test for the new format accepts. */
  ghost predicate IsNew(hs: Bytes, unknown: nat -> Word)
    requires |hs| >= HDRSIZE
  {
    var count := Count(hs);
    NewVersion(hs) || count == 0 ||
      (IsFirst(ReadWord(hs, 0, unknown)) && DataSize(count, BufLen(hs, unknown)) <= |hs| &&
        NewEntries(Word32(hs, 4), Words(hs, count), count))
  }

  /** `hstoreValidNewFormat`: 0 for invalid, 1 for valid with slack at the end, 2 for exactly valid. */
  method ValidNewFormat(hs: Bytes, unknown: nat -> Word) returns (v: nat)
    requires HDRSIZE <= |hs| < TWO30
    ensures v <= 2 && (v != 0 <==> IsNew(hs, unknown))
    ensures v != 0 ==>
      (v == 2 <==> NewVersion(hs) || Count(hs) == 0 || DataSize(Count(hs), BufLen(hs, unknown)) == |hs|)
  {
    var count := Count(hs);
    var vsize := Wrap32(DataSize(count, BufLen(hs, unknown)));
    SizeIsExact(count, BufLen(hs, unknown));
    if NewVersion(hs) { return 2; }
    if count == 0 { return 2; }
    if !IsFirst(ReadWord(hs, 0, unknown)) { return 0; }
    if Unsigned32(vsize) > |hs| { return 0; }
    var ok := CheckNewEntries(Word32(hs, 4), Words(hs, count), count);
    if !ok { return 0; }
    return if Unsigned32(vsize) != |hs| then 1 else 2;
  }

  /** The value is taken as it is: the flag of the new format and the length change, and nothing else. */
  ghost predicate Forced(before: Bytes, after: Bytes, size: nat, unknown: nat -> Word)
    requires |before| >= HDRSIZE
  {
    && |after| == |before| && after[HDRSIZE..] == before[HDRSIZE..] && Word32(after, 4) == TWO31 + Count(before)
    && size == DataSize(Count(before), BufLen(before, unknown)) && Word32(after, 0) == Unsigned32(4 * size)
  }

  /** `HS_SETCOUNT` and `HS_FIXSIZE` on a value that keeps its entries. */
  method ForceNew(hs: array<Byte>, unknown: nat -> Word) returns (size: nat)
    requires HDRSIZE <= hs.Length < TWO30
    modifies hs
    ensures Forced(old(hs[..]), hs[..], size, unknown)
  {
    ghost var before := hs[..];
    var count := Count(hs[..]);
    size := DataSize(count, BufLen(hs[..], unknown));
    SpliceWord(hs[..], 4, TWO31 + count);
    SpliceFrame(hs[..], 4, LittleEndian(TWO31 + count), HDRSIZE, hs.Length);
    Put32(hs, 4, TWO31 + count);
    SpliceWord(hs[..], 0, Unsigned32(4 * size));
    SpliceWordFrame(hs[..], 0, LittleEndian(Unsigned32(4 * size)), 4);
    SpliceFrame(hs[..], 0, LittleEndian(Unsigned32(4 * size)), HDRSIZE, hs.Length);
    Put32(hs, 0, Unsigned32(4 * size));
    assert hs[..][HDRSIZE..hs.Length] == before[HDRSIZE..hs.Length];
  }

  /** Values that are taken for new without a test. */
  predicate TakenAsNew(hs: Bytes, unknown: nat -> Word)
    requires |hs| >= HDRSIZE
  {
    Word32(hs, 4) == 0 || (|hs| < 32768 && IsFirst(ReadWord(hs, 0, unknown)))
  }

  /** What `hstoreUpgrade` makes of the bytes `before`. */
  ghost predicate Upgraded(before: Bytes, after: Bytes, r: Result<nat, Error>, unknown: nat -> Word)
    requires HDRSIZE <= |before| == |after|
  {
    if NewVersion(before) then r == Ok(|before|) && after == before
    else if TakenAsNew(before, unknown) then r.Ok? && Forced(before, after, r.value, unknown)
    else if IsOld(before) then r.Ok? && r.value <= |after| && Holds(after[..r.value], Old(before))
    else if IsNew(before, unknown) then r.Ok? && Forced(before, after, r.value, unknown)
    else r == Err(InvalidHstore) && after == before
  }

  /** `hstoreUpgrade` on a writable copy; the result is the length of the value. */
  method Upgrade(hs: array<Byte>, unknown: nat -> Word) returns (r: Result<nat, Error>)
    requires HDRSIZE <= hs.Length < TWO30
    modifies hs
    ensures Upgraded(old(hs[..]), hs[..], r, unknown)
  {
    var size;
    if NewVersion(hs[..]) { return Ok(hs.Length); }
    if TakenAsNew(hs[..], unknown) {
      size := ForceNew(hs, unknown);
      return Ok(size);
    }
    var validNew := ValidNewFormat(hs[..], unknown);
    var validOld := ValidOldFormat(hs[..]);
    if validOld == 0 {
      if validNew == 0 { return Err(InvalidHstore); }
      size := ForceNew(hs, unknown);
      return Ok(size);
    }
    size := Convert(hs);
    return Ok(size);
  }

  /** What marks a short old value whose first entry looks like a new one. */
  predicate LooksNew(hs: Bytes)
    requires |hs| >= HDRSIZE && IsOld(hs)
  {
    Word32(hs, 4) > 0 && |hs| < 32768 &&
    var first := Fields(Word32(hs, HDRSIZE), Word32(hs, HDRSIZE + 4)); first.isnull && first.vallen >= 32768
  }

  /**
    An old value that is not empty is taken for new without a test if and only if it is short, its
    first value is null and the unused length stored with it has the top bit set.
   */
  lemma TakenAsNewIff(hs: Bytes, unknown: nat -> Word)
    requires HDRSIZE <= |hs| && IsOld(hs) && Word32(hs, 4) > 0
    ensures TakenAsNew(hs, unknown) <==> LooksNew(hs)
  {
    FirstFits(hs);
    TopBit(Word32(hs, HDRSIZE));
  }

  /** The first pair fits into the value. */
  lemma FirstFits(hs: Bytes)
    requires HDRSIZE <= |hs| && IsOld(hs) && Word32(hs, 4) > 0
    ensures |hs| >= HDRSIZE + 8 && Fields(Word32(hs, HDRSIZE), Word32(hs, HDRSIZE + 4)).Len() <= |hs|
  {
    var n := Word32(hs, 4);
    var es := Entries(Words(hs, n), n);
    OldStartMonotone(es, 1, n);
    assert OldStart(es, 1) == es[0].Len();
  }

  lemma TopBit(w: Word)
    ensures IsFirst(w) <==> w / 0x10000 >= 32768
  {
  }

  /** In the new format the second word of a null value has the null flag. */
  lemma NullHasFlag(s: Bytes, ps: seq<Pair>)
    requires Holds(s, ps) && ps != [] && ps[0].isNull
    ensures |s| >= HDRSIZE + 8 && Word32(s, HDRSIZE + 4) >= TWO30
  {
    assert PairAt(Words(s, |ps|), s[StrPtr(|ps|)..], ps, 0, true);
  }

  lemma EntryStays(before: Bytes, after: Bytes, size: nat)
    requires |before| == |after| && HDRSIZE + 8 <= size <= |after| && after[HDRSIZE..] == before[HDRSIZE..]
    ensures Word32(after[..size], HDRSIZE + 4) == Word32(before, HDRSIZE + 4)
  {
    assert forall i | HDRSIZE <= i < |after| :: after[i] == after[HDRSIZE..][i - HDRSIZE] == before[i];
  }

  /** Entry words that stay as they were do not hold the pairs: the second one lacks the null flag. */
  lemma ForcedLosesPairs(before: Bytes, after: Bytes, size: nat, unknown: nat -> Word)
    requires HDRSIZE <= |before| && IsOld(before) && LooksNew(before) && Forced(before, after, size, unknown)
    ensures size <= |after| ==> !Holds(after[..size], Old(before))
  {
    FirstIsNull(before);
    if size <= |after| && Holds(after[..size], Old(before)) {
      NullHasFlag(after[..size], Old(before));
      EntryStays(before, after, size);
      assert false;
    }
  }

  /** The flags word of the first old entry is its position, zero, and the null bit. */
  lemma FirstIsNull(hs: Bytes)
    requires HDRSIZE <= |hs| && IsOld(hs) && LooksNew(hs)
    ensures Old(hs)[0].isNull && Word32(hs, HDRSIZE + 4) == 1
  {
    var n := Word32(hs, 4);
    var es := Entries(Words(hs, n), n);
    assert PosFits(es, 0);
    OldEntriesDescribe(es, hs[StrPtr(n)..], n, 0);
  }

  /** An empty value keeps its empty list. */
  lemma ForcedKeepsEmpty(before: Bytes, after: Bytes, size: nat, unknown: nat -> Word)
    requires HDRSIZE <= |before| && Word32(before, 4) == 0 && Forced(before, after, size, unknown)
    ensures size <= |after| && Holds(after[..size], [])
  {
    WordOfSlice(after, 4);
    WordOfSlice(after[..size], 4);
    assert after[4..8] == after[..size][4..8];
  }

  /** An upgraded old value holds its pairs if and only if it does not look new. */
  lemma UpgradeKeepsPairsIff(before: Bytes, after: Bytes, r: Result<nat, Error>, unknown: nat -> Word)
    requires HDRSIZE <= |before| == |after| && IsOld(before) && Upgraded(before, after, r, unknown)
    ensures (r.Ok? && r.value <= |after| && Holds(after[..r.value], Old(before))) <==> !LooksNew(before)
  {
    if Word32(before, 4) == 0 {
      ForcedKeepsEmpty(before, after, r.value, unknown);
    } else {
      TakenAsNewIff(before, unknown);
      if LooksNew(before) { ForcedLosesPairs(before, after, r.value, unknown); }
    }
  }

  /** One such value: key "a" with a null value, and 32768 in the unused length. */
  const LOOKS_NEW: Bytes := [68, 0, 0, 0, 1, 0, 0, 0, 1, 0, 0, 128, 1, 0, 0, 0, 97]

  lemma ShortValueLosesPairs(before: Bytes, after: Bytes, r: Result<nat, Error>, unknown: nat -> Word)
    requires before == LOOKS_NEW && |after| == |before| && Upgraded(before, after, r, unknown)
    ensures IsOld(before) && Old(before) == [Pair([97], [], true)]
    ensures r.Ok? && (r.value <= |after| ==> !Holds(after[..r.value], Old(before)))
  {
    ShortValueIsOld(before);
    TakenAsNewIff(before, unknown);
    ForcedLosesPairs(before, after, r.value, unknown);
  }

  lemma ShortValueIsOld(before: Bytes)
    requires before == LOOKS_NEW
    ensures IsOld(before) && LooksNew(before) && Old(before) == [Pair([97], [], true)]
  {
    assert Word32(before, 4) == 1 && Word32(before, 8) == 0x8000_0001 && Word32(before, 12) == 1;
    var es := Entries(Words(before, 1), 1);
    assert es == [OldEntry(1, 32768, true, 0)];
    assert OldStart(es, 1) == 1 && PosFits(es, 0);
    assert before[StrPtr(1)..] == [97];
    assert OldPairs(es, [97], 0) == [];
    assert OldPair(es, [97], 0) == Pair([97], [], true);
  }
}

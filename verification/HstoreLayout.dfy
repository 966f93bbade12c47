/**
  The packed form of an hstore: a size word, a length word, two entry words for each pair and then
  all keys and values end to end.  An entry word holds the end position of its string in 30 bits,
  a null flag and a flag that marks the first entry.
 */
module HstoreLayout {
  import opened ByteOrder

  const TWO28 := 0x1000_0000
  const TWO30 := 0x4000_0000
  const TWO31 := 0x8000_0000
  const TWO32 := 0x1_0000_0000
  const HDRSIZE := 8

  type Word = w: int | 0 <= w < 0x1_0000_0000

  // ---------------------------------------------------------------- words in a byte buffer

  /** The little-endian word at `off`. */
  function Word32(s: Bytes, off: nat): (w: Word)
    requires off + 4 <= |s|
  {
    s[off] as int + 0x100 * (s[off + 1] as int) + 0x10000 * (s[off + 2] as int) + 0x1000000 * (s[off + 3] as int)
  }

  function LittleEndian(w: Word): (b: Bytes)
    ensures |b| == 4
  {
    [w % 0x100, w / 0x100 % 0x100, w / 0x10000 % 0x100, w / 0x1000000]
  }

  lemma WordRoundTrip(w: Word)
    ensures Word32(LittleEndian(w), 0) == w
  {
    var a, b, c := w / 0x100, w / 0x10000, w / 0x1000000;
    assert b == a / 0x100 && c == b / 0x100;
  }

  /** `data` written over `s` at `off`. */
  function Splice(s: Bytes, off: nat, data: Bytes): (r: Bytes)
    requires off + |data| <= |s|
    ensures |r| == |s|
  {
    s[..off] + data + s[off + |data|..]
  }

  lemma SpliceSlice(s: Bytes, off: nat, data: Bytes)
    requires off + |data| <= |s|
    ensures Splice(s, off, data)[off..off + |data|] == data
  {
  }

  /** A write leaves what is before and after it alone. */
  lemma SpliceFrame(s: Bytes, off: nat, data: Bytes, lo: nat, hi: nat)
    requires off + |data| <= |s| && lo <= hi <= |s| && (hi <= off || off + |data| <= lo)
    ensures Splice(s, off, data)[lo..hi] == s[lo..hi]
  {
  }

  lemma WordOfSlice(s: Bytes, off: nat)
    requires off + 4 <= |s|
    ensures Word32(s, off) == Word32(s[off..off + 4], 0)
  {
  }

  lemma {:induction false} SpliceWord(s: Bytes, off: nat, w: Word)
    requires off + 4 <= |s|
    ensures Word32(Splice(s, off, LittleEndian(w)), off) == w
  {
    SpliceSlice(s, off, LittleEndian(w));
    WordOfSlice(Splice(s, off, LittleEndian(w)), off);
    WordRoundTrip(w);
  }

  lemma SpliceWordFrame(s: Bytes, off: nat, data: Bytes, at: nat)
    requires off + |data| <= |s| && at + 4 <= |s| && (at + 4 <= off || off + |data| <= at)
    ensures Word32(Splice(s, off, data), at) == Word32(s, at)
  {
  }

  /** `memcpy`, and `memmove` when `src` was read before. */
  method Memcpy(dst: array<Byte>, off: nat, src: Bytes)
    requires off + |src| <= dst.Length
    modifies dst
    ensures dst[..] == Splice(old(dst[..]), off, src)
  {
    for i := 0 to |src|
      invariant forall k | 0 <= k < i :: dst[off + k] == src[k]
      invariant forall k | 0 <= k < dst.Length && (k < off || off + i <= k) :: dst[k] == old(dst[k])
    {
      dst[off + i] := src[i];
    }
    ghost var want := Splice(old(dst[..]), off, src);
    assert forall k | off <= k < off + |src| :: dst[k] == src[k - off];
    assert forall k | 0 <= k < dst.Length :: dst[k] == want[k];
  }

  method Put32(dst: array<Byte>, off: nat, w: Word)
    requires off + 4 <= dst.Length
    modifies dst
    ensures dst[..] == Splice(old(dst[..]), off, LittleEndian(w))
  {
    Memcpy(dst, off, LittleEndian(w));
  }

  // ---------------------------------------------------------------- entry words

  /** The word without the first flag. */
  function Unflagged(w: Word): nat { if w >= TWO31 then w - TWO31 else w }

  /** `HSE_ISFIRST`, `HSE_ISNULL` and `HSE_ENDPOS`: bit 31, bit 30 and the bits below. */
  predicate IsFirst(w: Word) { w >= TWO31 }

  predicate IsNull(w: Word) { Unflagged(w) >= TWO30 }

  function EndPos(w: Word): nat { if IsNull(w) then Unflagged(w) - TWO30 else Unflagged(w) }

  /** An entry word with its two flags. */
  function Entry(end: nat, isNull: bool, isFirst: bool): Word
    requires end < TWO30
  {
    end + (if isNull then TWO30 else 0) + (if isFirst then TWO31 else 0)
  }

  /** `HSE_OFF`: where the string of entry `i` starts; the word before entry 0 is the size word. */
  function EntryOff(size: Word, words: seq<Word>, i: nat): nat
    requires i < |words|
  {
    if IsFirst(words[i]) then 0 else EndPos(if i == 0 then size else words[i - 1])
  }

  /** `HSE_LEN` */
  function EntryLen(size: Word, words: seq<Word>, i: nat): int
    requires i < |words|
  {
    EndPos(words[i]) - EntryOff(size, words, i)
  }

  /** `CALCDATASIZE`, on unbounded integers */
  function DataSize(count: nat, lenstr: nat): nat { 8 * count + HDRSIZE + lenstr }

  /** Where the strings begin: `STRPTR` */
  function StrPtr(count: nat): nat { DataSize(count, 0) }

  // ---------------------------------------------------------------- pairs

  datatype Pair = Pair(key: Bytes, val: Bytes, isNull: bool) {
    function Len(): nat { |key| + |val| }
  }

  /** Where the strings of pair `i` start, behind those of the pairs before it. */
  function Start(ps: seq<Pair>, i: nat): nat
    requires i <= |ps|
  {
    if i == 0 then 0 else Start(ps, i - 1) + ps[i - 1].Len()
  }

  lemma {:induction false} StartPrefix(ps: seq<Pair>, more: seq<Pair>, i: nat)
    requires i <= |ps|
    ensures Start(ps + more, i) == Start(ps, i)
  {
    if i > 0 { StartPrefix(ps, more, i - 1); }
  }

  lemma {:induction false} StartMonotone(ps: seq<Pair>, i: nat, j: nat)
    requires i <= j <= |ps|
    ensures Start(ps, i) <= Start(ps, j)
  {
    if i < j { StartMonotone(ps, i, j - 1); }
  }

  function Total(ps: seq<Pair>): nat { Start(ps, |ps|) }

  /** Pair `i` is laid out in the entry words and in the strings. */
  predicate PairAt(words: seq<Word>, str: Bytes, ps: seq<Pair>, i: nat, flagged: bool)
    requires i < |ps|
  {
    && 2 * i + 1 < |words| && Start(ps, i + 1) <= |str| && Start(ps, i + 1) < TWO30
    && words[2 * i] == Entry(Start(ps, i) + |ps[i].key|, false, flagged && i == 0)
    && words[2 * i + 1] == Entry(Start(ps, i + 1), ps[i].isNull, false)
    && str[Start(ps, i)..Start(ps, i + 1)] == ps[i].key + ps[i].val
  }

  /** All pairs are laid out; `flagged` says whether entry 0 has the first flag. */
  predicate LaidOut(words: seq<Word>, str: Bytes, ps: seq<Pair>, flagged: bool) {
    forall i | 0 <= i < |ps| :: PairAt(words, str, ps, i, flagged)
  }

  /** What the macros `HSTORE_KEY`, `HSTORE_VAL`, `HSTORE_KEYLEN`, `HSTORE_VALLEN` and `HSTORE_VALISNULL` read. */
  predicate ReadsAs(size: Word, words: seq<Word>, str: Bytes, i: nat, p: Pair) {
    && 2 * i + 1 < |words|
    && var k, v := EntryOff(size, words, 2 * i), EntryOff(size, words, 2 * i + 1);
      && EntryLen(size, words, 2 * i) == |p.key| && EntryLen(size, words, 2 * i + 1) == |p.val|
      && v == k + |p.key| && v + |p.val| <= |str| && str[k..v] == p.key && str[v..v + |p.val|] == p.val
      && (IsNull(words[2 * i + 1]) <==> p.isNull)
  }

  /** Pairs that are laid out read back as they are. */
  lemma LaidOutReads(size: Word, words: seq<Word>, str: Bytes, ps: seq<Pair>, i: nat)
    requires LaidOut(words, str, ps, true) && i < |ps|
    ensures ReadsAs(size, words, str, i, ps[i]) && EntryOff(size, words, 2 * i) == Start(ps, i)
  {
    assert PairAt(words, str, ps, i, true);
    if i > 0 { assert PairAt(words, str, ps, i - 1, true); }
    KeyOffset(size, words, str, ps, i);
    PairReads(size, words, str, ps, i);
  }

  lemma KeyOffset(size: Word, words: seq<Word>, str: Bytes, ps: seq<Pair>, i: nat)
    requires i < |ps| && PairAt(words, str, ps, i, true) && (i > 0 ==> PairAt(words, str, ps, i - 1, true))
    ensures EntryOff(size, words, 2 * i) == Start(ps, i)
  {
  }

  lemma ValOffset(size: Word, words: seq<Word>, end: nat, isNull: bool, isFirst: bool, end2: nat, i: nat)
    requires 2 * i + 1 < |words| && end < TWO30 && end2 < TWO30
    requires words[2 * i] == Entry(end, false, isFirst) && words[2 * i + 1] == Entry(end2, isNull, false)
    ensures EntryOff(size, words, 2 * i + 1) == end && EntryLen(size, words, 2 * i + 1) == end2 - end
    ensures EntryLen(size, words, 2 * i) == end - EntryOff(size, words, 2 * i)
    ensures IsNull(words[2 * i + 1]) <==> isNull
  {
  }

  /** A pair reads back once its lengths, its place and its strings are known. */
  lemma PairReads(size: Word, words: seq<Word>, str: Bytes, ps: seq<Pair>, i: nat)
    requires i < |ps| && PairAt(words, str, ps, i, true) && EntryOff(size, words, 2 * i) == Start(ps, i)
    ensures ReadsAs(size, words, str, i, ps[i])
  {
    var p, lo := ps[i], Start(ps, i);
    assert Start(ps, i + 1) == lo + p.Len();
    ValOffset(size, words, lo + |p.key|, p.isNull, i == 0, lo + p.Len(), i);
    SplitJoined(str, lo, p.key, p.val);
    ReadsParts(size, words, str, i, p, lo);
  }

  lemma ReadsParts(size: Word, words: seq<Word>, str: Bytes, i: nat, p: Pair, lo: nat)
    requires 2 * i + 1 < |words| && lo + p.Len() <= |str|
    requires EntryOff(size, words, 2 * i) == lo && EntryLen(size, words, 2 * i) == |p.key|
    requires EntryOff(size, words, 2 * i + 1) == lo + |p.key| && EntryLen(size, words, 2 * i + 1) == |p.val|
    requires IsNull(words[2 * i + 1]) <==> p.isNull
    requires str[lo..lo + |p.key|] == p.key && str[lo + |p.key|..lo + |p.key| + |p.val|] == p.val
    ensures ReadsAs(size, words, str, i, p)
  {
  }

  lemma SplitJoined(str: Bytes, lo: nat, a: Bytes, b: Bytes)
    requires lo + |a| + |b| <= |str| && str[lo..lo + (|a| + |b|)] == a + b
    ensures str[lo..lo + |a|] == a && str[lo + |a|..lo + |a| + |b|] == b
  {
    var mid := str[lo..lo + (|a| + |b|)];
    assert str[lo..lo + |a|] == mid[..|a|];
    assert str[lo + |a|..lo + |a| + |b|] == mid[|a|..];
  }

  // ---------------------------------------------------------------- the bytes of an hstore

  /** `words` lie behind the header, and `str` where a count of `count` pairs puts the strings. */
  predicate Contains(s: Bytes, count: nat, words: seq<Word>, str: Bytes) {
    && HDRSIZE + 4 * |words| <= |s| && StrPtr(count) + |str| <= |s|
    && (forall j | 0 <= j < |words| :: WordIs(s, j, words[j]))
    && s[StrPtr(count)..StrPtr(count) + |str|] == str
  }

  predicate WordIs(s: Bytes, j: nat, w: Word) { HDRSIZE + 4 * j + 4 <= |s| && Word32(s, HDRSIZE + 4 * j) == w }

  /** The entry words of an hstore with `count` pairs. */
  function Words(s: Bytes, count: nat): (r: seq<Word>)
    requires StrPtr(count) <= |s|
    ensures |r| == 2 * count && forall j | 0 <= j < |r| :: r[j] == Word32(s, HDRSIZE + 4 * j)
  {
    seq(2 * count, j requires 0 <= j < 2 * count => Word32(s, HDRSIZE + 4 * j))
  }

  /** `HS_COUNT` and the flag of the new format */
  function Count(s: Bytes): nat
    requires |s| >= HDRSIZE
  {
    Word32(s, 4) % TWO28
  }

  predicate NewVersion(s: Bytes)
    requires |s| >= HDRSIZE
  {
    Word32(s, 4) >= TWO31
  }

  /** An hstore in the new format that holds exactly the pairs `ps`; it may have slack at the end. */
  predicate Holds(s: Bytes, ps: seq<Pair>) {
    && |s| >= HDRSIZE && Word32(s, 4) == TWO31 + |ps| && |ps| < TWO28 && StrPtr(|ps|) <= |s|
    && LaidOut(Words(s, |ps|), s[StrPtr(|ps|)..], ps, true)
  }

  lemma HoldsReads(s: Bytes, ps: seq<Pair>, i: nat)
    requires Holds(s, ps) && i < |ps|
    ensures Count(s) == |ps| && NewVersion(s)
    ensures ReadsAs(Word32(s, 4), Words(s, |ps|), s[StrPtr(|ps|)..], i, ps[i])
    ensures EntryOff(Word32(s, 4), Words(s, |ps|), 2 * i) == Start(ps, i)
  {
    LaidOutReads(Word32(s, 4), Words(s, |ps|), s[StrPtr(|ps|)..], ps, i);
  }

  /** The bytes determine the pairs. */
  lemma HoldsUnique(s: Bytes, ps: seq<Pair>, qs: seq<Pair>)
    requires Holds(s, ps) && Holds(s, qs)
    ensures ps == qs
  {
    forall i | 0 <= i < |ps| ensures ps[i] == qs[i] {
      HoldsReads(s, ps, i);
      HoldsReads(s, qs, i);
    }
  }
}

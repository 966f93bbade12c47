/** Writing an hstore: the macros that add pairs to an output buffer and finish it. */
module HstoreBuilder {
  import opened ByteOrder
  import opened HstoreLayout

  // ---------------------------------------------------------------- growing the contents

  /** One more pair: two entry words and its strings. */
  lemma LaidOutGrows(words: seq<Word>, str: Bytes, ps: seq<Pair>, p: Pair, str2: Bytes)
    requires LaidOut(words, str, ps, false) && |words| == 2 * |ps| && |str| == Total(ps) && Total(ps) + p.Len() < TWO30
    requires str2 == str + p.key + p.val
    ensures Total(ps + [p]) == Total(ps) + p.Len()
    ensures LaidOut(words + [Entry(|str| + |p.key|, false, false)] + [Entry(|str2|, p.isNull, false)], str2, ps + [p], false)
  {
    var n := |ps|;
    var words2 := words + [Entry(|str| + |p.key|, false, false)] + [Entry(|str2|, p.isNull, false)];
    var ps2 := ps + [p];
    StartPrefix(ps, [p], n);
    assert ps2[n] == p && Start(ps2, n + 1) == Start(ps2, n) + p.Len();
    forall i | 0 <= i < |ps2| ensures PairAt(words2, str2, ps2, i, false) {
      if i < n {
        assert PairAt(words, str, ps, i, false);
        PairStays(words, words2, str, str2, ps, [p], i, false);
      } else {
        assert str2[Start(ps2, n)..Start(ps2, n + 1)] == p.key + p.val;
      }
    }
  }

  lemma PairStays(words: seq<Word>, words2: seq<Word>, str: Bytes, str2: Bytes, ps: seq<Pair>, more: seq<Pair>, i: nat,
                  flagged: bool)
    requires i < |ps| && PairAt(words, str, ps, i, flagged) && words <= words2 && str <= str2
    ensures PairAt(words2, str2, ps + more, i, flagged)
  {
    StartPrefix(ps, more, i);
    StartPrefix(ps, more, i + 1);
    assert (ps + more)[i] == ps[i];
    assert str2[Start(ps, i)..Start(ps, i + 1)] == str[Start(ps, i)..Start(ps, i + 1)];
  }

  /** The first flag goes to entry 0 alone. */
  lemma FlagFirst(words: seq<Word>, str: Bytes, ps: seq<Pair>)
    requires LaidOut(words, str, ps, false) && ps != []
    ensures |words| > 0 && words[0] < TWO30 && LaidOut(words[0 := words[0] + TWO31], str, ps, true)
  {
    assert PairAt(words, str, ps, 0, false);
    var flagged := words[0 := words[0] + TWO31];
    forall i | 0 <= i < |ps| ensures PairAt(flagged, str, ps, i, true) {
      assert PairAt(words, str, ps, i, false);
    }
  }

  // ---------------------------------------------------------------- writes into the buffer

  lemma AppendString(s: Bytes, count: nat, words: seq<Word>, str: Bytes, data: Bytes)
    requires Contains(s, count, words, str) && 4 * |words| <= 8 * count && StrPtr(count) + |str| + |data| <= |s|
    ensures Contains(Splice(s, StrPtr(count) + |str|, data), count, words, str + data)
    ensures Word32(Splice(s, StrPtr(count) + |str|, data), 4) == Word32(s, 4)
  {
  }

  lemma AppendWord(s: Bytes, count: nat, words: seq<Word>, str: Bytes, w: Word)
    requires Contains(s, count, words, str) && 4 * |words| + 4 <= 8 * count
    ensures Contains(Splice(s, HDRSIZE + 4 * |words|, LittleEndian(w)), count, words + [w], str)
    ensures Word32(Splice(s, HDRSIZE + 4 * |words|, LittleEndian(w)), 4) == Word32(s, 4)
  {
    var at := HDRSIZE + 4 * |words|;
    var s2 := Splice(s, at, LittleEndian(w));
    SpliceWordFrame(s, at, LittleEndian(w), 4);
    SpliceWord(s, at, w);
    forall j | 0 <= j < |words| + 1 ensures WordIs(s2, j, (words + [w])[j]) {
      if j < |words| {
        assert WordIs(s, j, words[j]);
        SpliceWordFrame(s, at, LittleEndian(w), HDRSIZE + 4 * j);
      }
    }
    SpliceFrame(s, at, LittleEndian(w), StrPtr(count), StrPtr(count) + |str|);
  }

  lemma ReplaceWord(s: Bytes, count: nat, words: seq<Word>, str: Bytes, k: nat, w: Word)
    requires Contains(s, count, words, str) && k < |words| && 4 * |words| <= 8 * count
    ensures Contains(Splice(s, HDRSIZE + 4 * k, LittleEndian(w)), count, words[k := w], str)
    ensures Word32(Splice(s, HDRSIZE + 4 * k, LittleEndian(w)), 4) == Word32(s, 4)
    ensures Word32(Splice(s, HDRSIZE + 4 * k, LittleEndian(w)), 0) == Word32(s, 0)
  {
    var at := HDRSIZE + 4 * k;
    var s2, words2 := Splice(s, at, LittleEndian(w)), words[k := w];
    SpliceWordFrame(s, at, LittleEndian(w), 4);
    SpliceWordFrame(s, at, LittleEndian(w), 0);
    SpliceWord(s, at, w);
    forall j | 0 <= j < |words2| ensures WordIs(s2, j, words2[j]) {
      if j != k {
        assert WordIs(s, j, words[j]);
        SpliceWordFrame(s, at, LittleEndian(w), HDRSIZE + 4 * j);
      }
    }
    SpliceFrame(s, at, LittleEndian(w), StrPtr(count), StrPtr(count) + |str|);
  }

  /** The header words may change freely. */
  lemma SetHeader(s: Bytes, count: nat, words: seq<Word>, str: Bytes, at: nat, w: Word)
    requires Contains(s, count, words, str) && at + 4 <= HDRSIZE
    ensures Contains(Splice(s, at, LittleEndian(w)), count, words, str)
  {
  }

  /** The strings move down over entry slots that were not used. */
  lemma ShiftStrings(s: Bytes, room: nat, count: nat, words: seq<Word>, str: Bytes)
    requires Contains(s, room, words, str) && count <= room && 4 * |words| <= 8 * count
    ensures Contains(Splice(s, StrPtr(count), str), count, words, str)
    ensures Word32(Splice(s, StrPtr(count), str), 4) == Word32(s, 4)
  {
  }

  /** A finished buffer, cut to its size, holds the pairs. */
  lemma FinishedHolds(s: Bytes, size: nat, words: seq<Word>, str: Bytes, ps: seq<Pair>)
    requires Contains(s, |ps|, words, str) && LaidOut(words, str, ps, true) && |words| == 2 * |ps| && |ps| < TWO28
    requires Word32(s, 4) == TWO31 + |ps| && DataSize(|ps|, |str|) == size
    ensures size <= |s| && Holds(s[..size], ps)
  {
    var t := s[..size];
    WordOfSlice(s, 4);
    WordOfSlice(t, 4);
    assert s[4..8] == t[4..8];
    forall j | 0 <= j < |words| ensures Words(t, |ps|)[j] == words[j] {
      assert WordIs(s, j, words[j]);
      WordOfSlice(s, HDRSIZE + 4 * j);
      WordOfSlice(t, HDRSIZE + 4 * j);
      assert s[HDRSIZE + 4 * j..HDRSIZE + 4 * j + 4] == t[HDRSIZE + 4 * j..HDRSIZE + 4 * j + 4];
    }
    assert Words(t, |ps|) == words;
    assert t[StrPtr(|ps|)..] == str;
  }

  // ---------------------------------------------------------------- the builder

  /** An hstore under construction: the buffer, and the positions `ed` and `pd` of the macros. */
  class Builder {
    const out: array<Byte>
    const room: nat
    var entries: nat
    var ptr: nat
    ghost var written: seq<Pair>
    ghost var words: seq<Word>
    ghost var str: Bytes

    /** The buffer contains the words and strings written so far. */
    ghost predicate Raw()
      reads this, out
    {
      && room < TWO28 && entries == |words| <= 2 * room && ptr == |str|
      && Contains(out[..], room, words, str) && Word32(out[..], 4) == TWO31 + room
    }

    /** They are those of the pairs written so far, without the first flag. */
    ghost predicate Valid()
      reads this, out
    {
      Raw() && |words| == 2 * |written| && |str| == Total(written) < TWO30 && LaidOut(words, str, written, false)
    }

    /** A buffer of `size` bytes, set up with `HS_SETCOUNT` for `room` pairs. */
    constructor (size: nat, room: nat)
      requires room < TWO28 && StrPtr(room) <= size
      ensures Valid() && fresh(out) && out.Length == size && this.room == room && written == []
    {
      out := new Byte[size](_ => 0);
      this.room := room;
      entries, ptr := 0, 0;
      written, words, str := [], [], [];
      new;
      ghost var zeroed := out[..];
      Put32(out, 4, TWO31 + room);
      SpliceWord(zeroed, 4, TWO31 + room);
    }

    method Append(data: Bytes)
      requires Raw() && StrPtr(room) + ptr + |data| <= out.Length
      modifies this`ptr, this`str, out
      ensures Raw() && str == old(str) + data && ptr == old(ptr) + |data|
    {
      AppendString(out[..], room, words, str, data);
      Memcpy(out, StrPtr(room) + ptr, data);
      ptr := ptr + |data|;
      str := str + data;
    }

    method PutEntry(w: Word)
      requires Raw() && entries < 2 * room
      modifies this`entries, this`words, out
      ensures Raw() && words == old(words) + [w]
    {
      AppendWord(out[..], room, words, str, w);
      Put32(out, HDRSIZE + 4 * entries, w);
      entries := entries + 1;
      words := words + [w];
    }

    /** An entry word: an end position under the position mask, and the null flag. */
    method PutEnd(end: nat, isNull: bool)
      requires Raw() && entries < 2 * room && end < TWO30
      modifies this`entries, this`words, out
      ensures Raw() && words == old(words) + [Entry(end, isNull, false)]
    {
      assert end % TWO30 == end;
      PutEntry(end % TWO30 + (if isNull then TWO30 else 0));
    }

    /** `HS_COPYITEM`: key and value are contiguous in `src`. */
    method CopyItem(src: Bytes, klen: nat, vlen: nat, vnull: bool)
      requires Valid() && |written| < room && |src| == klen + vlen
      requires StrPtr(room) + ptr + |src| <= out.Length && ptr + |src| < TWO30
      modifies this, out
      ensures Valid() && written == old(written) + [Pair(src[..klen], src[klen..], vnull)]
      ensures ptr == old(ptr) + |src|
    {
      ghost var p := Pair(src[..klen], src[klen..], vnull);
      assert str + src == str + p.key + p.val;
      LaidOutGrows(words, str, written, p, str + src);
      Append(src);
      PutEnd(ptr - vlen, false);
      PutEnd(ptr, vnull);
      written := written + [p];
    }

    /** The part of `HS_ADDITEM` for the key. */
    method AddKey(key: Bytes)
      requires Raw() && entries < 2 * room && StrPtr(room) + ptr + |key| <= out.Length && ptr + |key| < TWO30
      modifies this`ptr, this`str, this`entries, this`words, out
      ensures Raw() && str == old(str) + key && words == old(words) + [Entry(|str|, false, false)]
    {
      Append(key);
      PutEnd(ptr, false);
    }

    /** The part of `HS_ADDITEM` for the value; a null value takes no bytes. */
    method AddValue(p: Pair)
      requires Raw() && entries < 2 * room && (p.isNull ==> p.val == [])
      requires StrPtr(room) + ptr + |p.val| <= out.Length && ptr + |p.val| < TWO30
      modifies this`ptr, this`str, this`entries, this`words, out
      ensures Raw() && str == old(str) + p.val && words == old(words) + [Entry(|str|, p.isNull, false)]
    {
      if p.isNull {
        PutEnd(ptr, true);
      } else {
        Append(p.val);
        PutEnd(ptr, false);
      }
    }

    /** `HS_ADDITEM` */
    method AddItem(p: Pair)
      requires Valid() && |written| < room && (p.isNull ==> p.val == [])
      requires StrPtr(room) + ptr + p.Len() <= out.Length && ptr + p.Len() < TWO30
      modifies this, out
      ensures Valid() && written == old(written) + [p]
      ensures ptr == old(ptr) + p.Len()
    {
      LaidOutGrows(words, str, written, p, str + p.key + p.val);
      AddKey(p.key);
      AddValue(p);
      written := written + [p];
    }

    /** `HS_SETCOUNT` */
    method SetCount(count: nat)
      requires Raw() && count < TWO28
      modifies out
      ensures Contains(out[..], room, words, str) && Word32(out[..], 4) == TWO31 + count
    {
      SetHeader(out[..], room, words, str, 4, TWO31 + count);
      SpliceWord(out[..], 4, TWO31 + count);
      Put32(out, 4, TWO31 + count);
    }

    /** The part of `HS_FINALIZE` that changes the count: the strings move down behind the last entry. */
    method Shift(count: nat)
      requires Raw() && entries == 2 * count
      modifies out
      ensures Contains(out[..], count, words, str) && Word32(out[..], 4) == TWO31 + count
    {
      if count != room {
        var buf := out[StrPtr(room)..StrPtr(room) + ptr];
        SetCount(count);
        ShiftStrings(out[..], room, count, words, str);
        Memcpy(out, StrPtr(count), buf);
      }
    }

    /** The first flag for entry 0. */
    method SetFirst()
      requires Valid()
      modifies this`words, out
      ensures Raw() && |words| == 2 * |written| && LaidOut(words, str, written, true)
    {
      if entries > 0 {
        FlagFirst(words, str, written);
        assert WordIs(out[..], 0, words[0]);
        var w := Word32(out[..], HDRSIZE);
        ReplaceWord(out[..], room, words, str, 0, w + TWO31);
        Put32(out, HDRSIZE, w + TWO31);
        words := words[0 := w + TWO31];
      }
    }

    /** `SET_VARSIZE`: the length, shifted past two flag bits. */
    method SetVarsize(count: nat, size: nat)
      requires Contains(out[..], count, words, str) && HDRSIZE <= size < TWO30 && size <= out.Length
      modifies out
      ensures Contains(out[..], count, words, str) && Word32(out[..], 4) == old(Word32(out[..], 4))
      ensures Word32(out[..size], 0) == 4 * size
    {
      SetHeader(out[..], count, words, str, 0, 4 * size);
      SpliceWordFrame(out[..], 0, LittleEndian(4 * size), 4);
      SpliceWord(out[..], 0, 4 * size);
      Put32(out, 0, 4 * size);
      WordOfSlice(out[..], 0);
      WordOfSlice(out[..size], 0);
      assert out[..size][0..4] == out[..][0..4];
    }

    /** `HS_FINALIZE`: the first flag, the count, the strings moved down, and the length. */
    method Finalize() returns (r: Bytes)
      requires Valid() && out.Length < TWO30
      modifies this, out
      ensures Holds(r, old(written)) && |r| == DataSize(|old(written)|, Total(old(written)))
      ensures Word32(r, 0) == 4 * |r|
    {
      var count := entries / 2;
      SetFirst();
      Shift(count);
      var size := DataSize(count, ptr);
      SetVarsize(count, size);
      FinishedHolds(out[..], size, words, str, written);
      r := out[..size];
    }
  }
}

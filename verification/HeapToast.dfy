/** The check of a toasted value in the heap check: its chunks, their numbers and their sizes. */
module HeapToast {
  import opened Results

  const TWO31 := 0x8000_0000
  const TWO32 := 0x1_0000_0000
  const TOAST_MAX_CHUNK_SIZE := 1996

  type Uint32 = x: int | 0 <= x < 0x1_0000_0000
  type Int32 = x: int | -0x8000_0000 <= x < 0x8000_0000

  function Wrap32(x: int): Int32 { (x + TWO31) % TWO32 - TWO31 }

  /** The data of a chunk: a varlena with a long or a short header, or with an invalid one. */
  datatype ChunkData = Plain(size: Int32) | Short(size: Int32) | InvalidHeader

  /** A row of the toast table; both columns may be null in a corrupted one. */
  datatype Chunk = Chunk(seqno: Option<Int32>, data: Option<ChunkData>)

  datatype Report = NullSequence | WrongSequence | NullData | BadHeader | AfterLast | WrongSize | NotFound | EndsEarly

  /** `(extsize - 1) / TOAST_MAX_CHUNK_SIZE`, where the subtraction is unsigned. */
  function LastSeq(extsize: Uint32): (last: Int32)
    ensures last >= 0
  {
    (extsize - 1) % TWO32 / TOAST_MAX_CHUNK_SIZE
  }

  /** The size that chunk number `seqno` must have, as an int32. */
  function ExpectedSize(extsize: Uint32, seqno: Int32): Int32 {
    var last := LastSeq(extsize);
    if seqno < last then TOAST_MAX_CHUNK_SIZE else Wrap32(extsize - last * TOAST_MAX_CHUNK_SIZE)
  }

  /** The chunk is number `seqno` of the value, with the right size. */
  predicate ChunkFits(c: Chunk, seqno: int, extsize: Uint32) {
    && c.seqno.Some? && c.seqno.value == seqno && seqno <= LastSeq(extsize)
    && c.data.Some? && !c.data.value.InvalidHeader? && c.data.value.size == ExpectedSize(extsize, c.seqno.value)
  }

  /** The chunks are numbered from 0 to the last one, in order, each with the right size. */
  predicate Complete(chunks: seq<Chunk>, extsize: Uint32) {
    |chunks| == LastSeq(extsize) + 1 && forall i | 0 <= i < |chunks| :: ChunkFits(chunks[i], i, extsize)
  }

  /** The bytes in the first `n` chunks. */
  function Bytes(chunks: seq<Chunk>, n: nat): int
    requires n <= |chunks| && forall i | 0 <= i < n :: chunks[i].data.Some? && !chunks[i].data.value.InvalidHeader?
  {
    if n == 0 then 0 else Bytes(chunks, n - 1) + chunks[n - 1].data.value.size
  }

  lemma {:induction false} FullChunks(chunks: seq<Chunk>, extsize: Uint32, n: nat)
    requires Complete(chunks, extsize) && n <= LastSeq(extsize)
    ensures Bytes(chunks, n) == n * TOAST_MAX_CHUNK_SIZE
  {
    if n > 0 {
      FullChunks(chunks, extsize, n - 1);
      assert ChunkFits(chunks[n - 1], n - 1, extsize);
    }
  }

  /** The sizes of the chunks add up to the external size; a size of zero counts as 2^32. */
  lemma CompleteAddsUp(chunks: seq<Chunk>, extsize: Uint32)
    requires Complete(chunks, extsize)
    ensures Bytes(chunks, |chunks|) == if extsize == 0 then TWO32 else extsize
  {
    var last := LastSeq(extsize);
    FullChunks(chunks, extsize, last);
    assert ChunkFits(chunks[last], last, extsize);
    var rest := extsize - last * TOAST_MAX_CHUNK_SIZE;
    if extsize == 0 { assert last == 2151787; } else { assert 0 < rest <= TOAST_MAX_CHUNK_SIZE; }
  }

  class ToastCheck {
    var reports: seq<Report>
    var expectedSeq: Int32

    constructor ()
      ensures reports == [] && expectedSeq == 0
    {
      reports, expectedSeq := [], 0;
    }

    /** `check_toast_tuple`: reports exactly when the chunk is not the next one with the right size. */
    method CheckToastTuple(c: Chunk, extsize: Uint32)
      modifies this
      ensures old(reports) <= reports
      ensures reports == old(reports) <==> ChunkFits(c, old(expectedSeq), extsize)
      ensures reports == old(reports) ==> expectedSeq == old(expectedSeq) + 1
    {
      var last := LastSeq(extsize);
      if c.seqno.None? {
        reports := reports + [NullSequence];
        return;
      }
      var chunkSeq: int := c.seqno.value;
      if chunkSeq != expectedSeq { reports := reports + [WrongSequence]; }
      expectedSeq := Wrap32(chunkSeq + 1);
      if c.data.None? {
        reports := reports + [NullData];
        return;
      }
      if c.data.value.InvalidHeader? {
        reports := reports + [BadHeader];
        return;
      }
      if chunkSeq > last {
        reports := reports + [AfterLast];
        return;
      }
      if c.data.value.size != ExpectedSize(extsize, chunkSeq) { reports := reports + [WrongSize]; }
    }

    /** `check_toasted_attribute`: nothing is reported if and only if the chunks are complete. */
    method CheckToastedAttribute(chunks: seq<Chunk>, extsize: Uint32)
      modifies this
      ensures old(reports) <= reports
      ensures reports == old(reports) <==> Complete(chunks, extsize)
    {
      ghost var before := reports;
      expectedSeq := 0;
      for i := 0 to |chunks|
        invariant before <= reports
        invariant reports == before ==> expectedSeq == i
        invariant reports == before <==> forall j | 0 <= j < i :: ChunkFits(chunks[j], j, extsize)
      {
        CheckToastTuple(chunks[i], extsize);
      }
      if chunks == [] {
        reports := reports + [NotFound];
      } else if expectedSeq <= LastSeq(extsize) {
        reports := reports + [EndsEarly];
      }
      if reports == before { assert ChunkFits(chunks[|chunks| - 1], |chunks| - 1, extsize); }
    }
  }

  /** The check of one value, from a fresh state. */
  method CheckValue(chunks: seq<Chunk>, extsize: Uint32) returns (ok: bool)
    ensures ok <==> Complete(chunks, extsize)
  {
    var c := new ToastCheck();
    c.CheckToastedAttribute(chunks, extsize);
    ok := c.reports == [];
  }
}

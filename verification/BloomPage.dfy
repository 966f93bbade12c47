/** One page of a Bloom index: adding a tuple, compaction in place by vacuum, and the index build. */
module BloomPage {
  import opened Results
  import opened BloomSignature

  const BLCKSZ := 8192
  const PAGE_HEADER := 24
  const PAGE_OPAQUE := 8
  const PAGE_SPACE := BLCKSZ - PAGE_HEADER - PAGE_OPAQUE
  const SIZE_MAX := 0x1_0000_0000_0000_0000

  type Tid = (nat, nat)

  datatype BloomTuple = BloomTuple(tid: Tid, sign: Words)

  /** A page never initialised, or a data page with its tuples and the deleted flag. */
  datatype Page = NewPage | DataPage(deleted: bool, tuples: seq<BloomTuple>) {
    /** `PageIsNew(page) || BloomPageIsDeleted(page)` */
    predicate Unused() { NewPage? || deleted }

    function Tuples(): seq<BloomTuple> { if NewPage? then [] else tuples }
  }

  /** The size of a tuple: a heap pointer of 6 bytes and 1 to 256 words of signature. */
  predicate TupleSize(size: nat) { 8 <= size <= 518 }

  /** `BloomPageGetFreeSpace`, in unsigned 64-bit arithmetic. */
  function FreeSpace(size: nat, maxoff: nat): nat {
    (PAGE_SPACE - maxoff * size) % SIZE_MAX
  }

  predicate Fits(size: nat, maxoff: nat) { FreeSpace(size, maxoff) >= size }

  /** On a page that does not overflow the subtraction does not wrap around. */
  lemma FitsIsRoom(size: nat, maxoff: nat)
    requires TupleSize(size) && maxoff * size <= PAGE_SPACE
    ensures Fits(size, maxoff) <==> (maxoff + 1) * size <= PAGE_SPACE
  {
  }

  /** An unused page holds nothing; a live page holds something and does not overflow. */
  predicate PageOk(size: nat, p: Page) {
    p.DataPage? ==> if p.deleted then p.tuples == [] else p.tuples != [] && |p.tuples| * size <= PAGE_SPACE
  }

  const EMPTY := DataPage(false, [])

  /** The page that an inserter works on: an unused page is initialised first. */
  function Opened(p: Page): Page { if p.Unused() then EMPTY else p }

  /** `BloomPageAddItem` */
  function AddItem(size: nat, p: Page, t: BloomTuple): Option<Page>
    requires p.DataPage?
  {
    if Fits(size, |p.tuples|) then Some(p.(tuples := p.tuples + [t])) else None
  }

  /** The tuples that vacuum leaves, in order. */
  function Survivors(ts: seq<BloomTuple>, dead: set<Tid>): seq<BloomTuple> {
    if ts == [] then []
    else
      var rest := Survivors(ts[..|ts| - 1], dead);
      if ts[|ts| - 1].tid in dead then rest else rest + [ts[|ts| - 1]]
  }

  /** The tuples that vacuum removes. */
  function Dropped(ts: seq<BloomTuple>, dead: set<Tid>): seq<BloomTuple> {
    if ts == [] then []
    else
      var rest := Dropped(ts[..|ts| - 1], dead);
      if ts[|ts| - 1].tid in dead then rest + [ts[|ts| - 1]] else rest
  }

  /** Vacuum of a page in use: emptied pages are marked deleted. */
  function Vacuumed(p: Page, dead: set<Tid>): Page
    requires p.DataPage? && !p.deleted
  {
    var left := Survivors(p.tuples, dead);
    DataPage(left == [] && p.tuples != [], left)
  }

  lemma {:induction false} SurvivorsSplit(ts: seq<BloomTuple>, dead: set<Tid>)
    ensures multiset(ts) == multiset(Survivors(ts, dead)) + multiset(Dropped(ts, dead))
    ensures |ts| == |Survivors(ts, dead)| + |Dropped(ts, dead)|
  {
    if ts != [] {
      var n := |ts| - 1;
      SurvivorsSplit(ts[..n], dead);
      assert ts == ts[..n] + [ts[n]];
    }
  }

  lemma {:induction false} SurvivorsAreAlive(ts: seq<BloomTuple>, dead: set<Tid>, t: BloomTuple)
    ensures t in Survivors(ts, dead) <==> t in ts && t.tid !in dead
    ensures t in Dropped(ts, dead) <==> t in ts && t.tid in dead
  {
    if ts != [] {
      var n := |ts| - 1;
      SurvivorsAreAlive(ts[..n], dead, t);
      assert ts == ts[..n] + [ts[n]];
    }
  }

  /** The first `itup` of the tuples `ts` are done: the `ptr` survivors stand in front, and the rest as it was. */
  ghost predicate Compacted(now: seq<BloomTuple>, ts: seq<BloomTuple>, itup: nat, ptr: nat, dead: set<Tid>) {
    && ptr <= itup <= |ts| <= |now|
    && now[..ptr] == Survivors(ts[..itup], dead) && now[itup..|ts|] == ts[itup..]
    && itup - ptr == |Dropped(ts[..itup], dead)|
  }

  /** One turn of the loop over a page: a dead tuple is passed over, another one moves to the front. */
  lemma CompactStep(now: seq<BloomTuple>, ts: seq<BloomTuple>, itup: nat, ptr: nat, dead: set<Tid>)
    requires itup < |ts| && Compacted(now, ts, itup, ptr, dead)
    ensures if now[itup].tid in dead then Compacted(now, ts, itup + 1, ptr, dead)
            else Compacted(now[ptr := now[itup]], ts, itup + 1, ptr + 1, dead)
  {
    assert now[itup] == now[itup..|ts|][0] == ts[itup];
    assert ts[..itup + 1][..itup] == ts[..itup];
    assert now[itup + 1..|ts|] == now[itup..|ts|][1..] == ts[itup + 1..];
    if now[itup].tid !in dead {
      var after := now[ptr := now[itup]];
      assert after[..ptr + 1] == now[..ptr] + [now[itup]];
      assert after[itup + 1..|ts|] == now[itup + 1..|ts|];
    }
  }

  // ---------------------------------------------------------------- the page buffer

  class PageBuffer {
    const size: nat
    const room: array<BloomTuple>
    var isNew: bool
    var deleted: bool
    var maxoff: nat
    var pdLower: nat

    ghost predicate Valid()
      reads this
    {
      && TupleSize(size) && room.Length == PAGE_SPACE / size && maxoff <= room.Length
      && (isNew || deleted ==> maxoff == 0)
      && (!isNew ==> pdLower == PAGE_HEADER + maxoff * size)
    }

    ghost function View(): Page
      requires Valid()
      reads this, room
    {
      if isNew then NewPage else DataPage(deleted, room[..maxoff])
    }

    constructor (size: nat, blank: BloomTuple)
      requires TupleSize(size)
      ensures Valid() && this.size == size && View() == NewPage && fresh(room)
    {
      this.size := size;
      room := new BloomTuple[PAGE_SPACE / size](_ => blank);
      isNew, deleted, maxoff, pdLower := true, false, 0, 0;
    }

    /** `BloomInitPage` for a data page */
    method Init()
      requires Valid()
      modifies this
      ensures Valid() && View() == EMPTY
    {
      isNew, deleted, maxoff, pdLower := false, false, 0, PAGE_HEADER;
    }

    method AddTuple(t: BloomTuple) returns (added: bool)
      requires Valid() && !isNew && !deleted
      modifies this, room
      ensures Valid()
      ensures added <==> AddItem(size, old(View()), t).Some?
      ensures View() == if added then AddItem(size, old(View()), t).value else old(View())
    {
      RoomIsCapacity(size, maxoff);
      if !Fits(size, maxoff) { return false; }
      room[maxoff] := t;
      maxoff := maxoff + 1;
      pdLower := PAGE_HEADER + maxoff * size;
      assert room[..maxoff] == old(room[..maxoff]) + [t];
      return true;
    }

    /**
      The loop of `blbulkdelete` over one page in use: `ptr` is where the next surviving tuple
      goes.  `notFull` tells whether the page may be offered to inserters.
     */
    method BulkDelete(dead: set<Tid>) returns (removed: nat, notFull: bool)
      requires Valid() && !isNew && !deleted
      modifies this, room
      ensures Valid() && View() == Vacuumed(old(View()), dead)
      ensures removed == old(maxoff) - maxoff == |Dropped(old(View()).tuples, dead)|
      ensures notFull <==> maxoff > 0 && Fits(size, maxoff)
      ensures pdLower == PAGE_HEADER + maxoff * size
    {
      removed := Compact(dead);
      assert old(room[..maxoff])[..old(maxoff)] == old(room[..maxoff]);
      notFull := maxoff != 0 && Fits(size, maxoff);
      if removed != 0 {
        if maxoff == 0 { deleted := true; }
        pdLower := PAGE_HEADER + maxoff * size;
      }
    }

    /** The loop itself. */
    method Compact(dead: set<Tid>) returns (removed: nat)
      requires maxoff <= room.Length
      modifies this`maxoff, room
      ensures maxoff + removed == old(maxoff) && Compacted(room[..], old(room[..maxoff]), old(maxoff), maxoff, dead)
    {
      ghost var ts := room[..maxoff];
      var end := maxoff;
      var itup, ptr := 0, 0;
      removed := 0;
      while itup < end
        invariant 0 <= ptr <= itup <= end == |ts| && Compacted(room[..], ts, itup, ptr, dead)
        invariant maxoff == end - removed && removed == itup - ptr
      {
        CompactStep(room[..], ts, itup, ptr, dead);
        if room[itup].tid in dead {
          maxoff := maxoff - 1;
          removed := removed + 1;
        } else {
          if ptr != itup { room[ptr] := room[itup]; }
          ptr := ptr + 1;
        }
        itup := itup + 1;
      }
    }
  }

  /** The array has exactly the room that the free-space test admits. */
  lemma RoomIsCapacity(size: nat, maxoff: nat)
    requires TupleSize(size) && maxoff <= PAGE_SPACE / size
    ensures maxoff * size <= PAGE_SPACE && (Fits(size, maxoff) <==> maxoff < PAGE_SPACE / size)
  {
    var cap := PAGE_SPACE / size;
    assert cap * size <= PAGE_SPACE < (cap + 1) * size;
    assert maxoff * size <= cap * size;
    FitsIsRoom(size, maxoff);
    if maxoff < cap { assert (maxoff + 1) * size <= cap * size; }
  }

  // ---------------------------------------------------------------- building the index

  /** All tuples of a list of pages, page after page. */
  function Flatten(pages: seq<Page>): seq<BloomTuple> {
    if pages == [] then [] else Flatten(pages[..|pages| - 1]) + pages[|pages| - 1].Tuples()
  }

  /** Every page is in use and sound. */
  predicate AllLive(size: nat, pages: seq<Page>) {
    forall i | 0 <= i < |pages| :: !pages[i].Unused() && PageOk(size, pages[i])
  }

  /** `flushCachedPage`: the page goes to the end of the file. */
  method Flush(size: nat, pages: seq<Page>, cached: Page) returns (r: seq<Page>)
    requires AllLive(size, pages) && !cached.Unused() && PageOk(size, cached)
    ensures AllLive(size, r) && Flatten(r) == Flatten(pages) + cached.tuples
  {
    r := pages + [cached];
    assert r[..|pages|] == pages;
  }

  /** `blbuild`: tuples go to a cached page that is flushed when it is full. */
  method Build(size: nat, tuples: seq<BloomTuple>) returns (pages: seq<Page>, indtuples: nat)
    requires TupleSize(size)
    ensures Flatten(pages) == tuples && indtuples == |tuples| && AllLive(size, pages)
  {
    pages, indtuples := [], 0;
    var cached := EMPTY;
    for i := 0 to |tuples|
      invariant cached.DataPage? && !cached.deleted && |cached.tuples| * size <= PAGE_SPACE
      invariant indtuples == i && AllLive(size, pages)
      invariant Flatten(pages) + cached.tuples == tuples[..i]
    {
      var more := CachedAdd(size, cached, tuples[i]);
      if more.Some? {
        cached := more.value;
      } else {
        pages := Flush(size, pages, cached);
        var first := CachedAdd(size, EMPTY, tuples[i]);
        cached := first.value;
      }
      indtuples := indtuples + 1;
    }
    assert tuples[..|tuples|] == tuples;
    if |cached.tuples| > 0 { pages := Flush(size, pages, cached); }
  }

  /** The attempt of `bloomBuildCallback` to add to the cached page; an empty page always has room. */
  method CachedAdd(size: nat, cached: Page, t: BloomTuple) returns (more: Option<Page>)
    requires TupleSize(size) && cached.DataPage? && !cached.deleted && |cached.tuples| * size <= PAGE_SPACE
    ensures more.Some? ==> more.value == cached.(tuples := cached.tuples + [t]) && PageOk(size, more.value)
    ensures more.None? <==> (|cached.tuples| + 1) * size > PAGE_SPACE
    ensures more.None? ==> cached.tuples != []
  {
    FitsIsRoom(size, |cached.tuples|);
    more := AddItem(size, cached, t);
  }
}

/**
  Inserters, vacuums, cleanups and scans working on one Bloom index at the same time.  A step is
  what a process does while it holds one page lock; the metapage lock of an inserter spans steps.
 */
module BloomProtocol {
  import opened Results
  import opened BloomSignature
  import opened BloomPage

  /** `BloomMetaBlockN`: the room of the metapage for not-full pages. */
  const META_BLOCK_N := 2004

  type Pid = nat

  /** Where a process is, with its local variables. */
  datatype Proc =
    | InsertStart(tuple: BloomTuple)
    | InsertTry(tuple: BloomTuple, blkno: nat)
    | InsertLock(tuple: BloomTuple, tried: Option<nat>)
    | InsertScan(tuple: BloomTuple, nStart: nat)
    | InsertAlloc(tuple: BloomTuple)
    | InsertDone(tuple: BloomTuple)
    | VacuumStart(dead: set<Tid>)
    | VacuumPage(dead: set<Tid>, npages: nat, blkno: nat, list: seq<nat>)
    | VacuumDone(dead: set<Tid>)
    | CleanupStart
    | CleanupPage(npages: nat, blkno: nat)
    | CleanupDone
    | ScanStart(sign: Words)
    | ScanPage(sign: Words, npages: nat, blkno: nat, found: set<Tid>)
    | ScanDone(sign: Words, found: set<Tid>)
  {
    predicate Starting() { InsertStart? || VacuumStart? || CleanupStart? || ScanStart? }

    predicate Finished() { InsertDone? || VacuumDone? || CleanupDone? || ScanDone? }

    predicate HoldsMeta() { InsertScan? || InsertAlloc? }

    predicate Inserting() { InsertStart? || InsertTry? || InsertLock? || InsertScan? || InsertAlloc? }
  }

  /** The metapage: blocks `notFull[nStart..nEnd]` may have room. */
  datatype Meta = Meta(nStart: nat, nEnd: nat, notFull: seq<nat>)

  /**
    The index file (block 0 is the metapage), the free space map and the processes.  `inserted`
    and `removed` record the tuples of finished insertions and those that vacuums took out.
   */
  datatype State = State(size: nat, pages: seq<Page>, meta: Meta, metaLock: Option<Pid>, fsm: set<nat>,
                         procs: map<Pid, Proc>, inserted: multiset<BloomTuple>, removed: multiset<BloomTuple>)

  /** What `GetFreeIndexPage` and the conditional lock of `BloomNewBuffer` answer. */
  datatype Answer = NoFreePage | FreePage(blkno: nat) | BusyPage(blkno: nat)

  /** `Crash` extends the file and stops before the new page is written. */
  datatype Action = Begin(pid: Pid, proc: Proc) | Step(pid: Pid) | Allocate(pid: Pid, answer: Answer) | Crash

  predicate Enabled(s: State, a: Action) {
    match a
    case Begin(pid, proc) => pid !in s.procs && proc.Starting()
    case Crash => true
    case Allocate(pid, answer) =>
      && pid in s.procs && s.procs[pid].InsertAlloc?
      && (!answer.NoFreePage? ==> answer.blkno in s.fsm)
    case Step(pid) =>
      && pid in s.procs && !s.procs[pid].Finished() && !s.procs[pid].InsertAlloc?
      && (WantsMeta(s.procs[pid]) ==> s.metaLock.None?)
  }

  /** The steps that take the metapage lock (an inserter that holds it is past this point). */
  predicate WantsMeta(p: Proc) {
    p.InsertStart? || p.InsertLock? || (p.VacuumPage? && p.blkno >= p.npages)
  }

  function Move(s: State, pid: Pid, p: Proc): State { s.(procs := s.procs[pid := p]) }

  /** The insertion of `p`'s tuple is complete: `b` becomes `page`. */
  function Finish(s: State, pid: Pid, t: BloomTuple, b: nat, page: Page): State
    requires b < |s.pages|
  {
    s.(pages := s.pages[b := page], procs := s.procs[pid := InsertDone(t)], inserted := s.inserted + multiset{t})
  }

  function TryPage(s: State, b: nat, t: BloomTuple): Option<Page>
    requires b < |s.pages|
  {
    AddItem(s.size, Opened(s.pages[b]), t)
  }

  function StepInsert(s: State, pid: Pid, p: Proc): State
    requires Inv(s) && pid in s.procs && s.procs[pid] == p && p.Inserting() && !p.InsertAlloc?
    requires WantsMeta(p) ==> s.metaLock.None?
  {
    ProcInv(s, pid);
    match p
    case InsertStart(t) =>
      if s.meta.nEnd > s.meta.nStart
      then Move(s, pid, InsertTry(t, s.meta.notFull[s.meta.nStart]))
      else Move(s, pid, InsertLock(t, None))
    case InsertTry(t, b) =>
      var page := TryPage(s, b, t);
      if page.Some? then Finish(s, pid, t, b, page.value) else Move(s, pid, InsertLock(t, Some(b)))
    case InsertLock(t, tried) =>
      var k := s.meta.nStart;
      var skip := k < s.meta.nEnd && tried == Some(s.meta.notFull[k]);
      Move(s, pid, InsertScan(t, if skip then k + 1 else k)).(metaLock := Some(pid))
    case InsertScan(t, k) =>
      if k >= s.meta.nEnd then Move(s, pid, InsertAlloc(t))
      else
        var b := s.meta.notFull[k];
        var page := TryPage(s, b, t);
        if page.Some?
        then Finish(s, pid, t, b, page.value).(meta := s.meta.(nStart := k), metaLock := None)
        else Move(s, pid, InsertScan(t, k + 1))
  }

  /** The end of an insertion that found no room: a recycled or a new page becomes the whole list. */
  function StepAllocate(s: State, pid: Pid, t: BloomTuple, answer: Answer): State
    requires Inv(s) && pid in s.procs && s.procs[pid] == InsertAlloc(t)
    requires !answer.NoFreePage? ==> answer.blkno in s.fsm
  {
    match answer
    case BusyPage(b) => s.(fsm := s.fsm - {b})
    case FreePage(b) =>
      var popped := s.(fsm := s.fsm - {b});
      if s.pages[b].Unused() then PlaceOn(popped, pid, t, b) else popped
    case NoFreePage => PlaceOn(s.(pages := s.pages + [NewPage]), pid, t, |s.pages|)
  }

  function PlaceOn(s: State, pid: Pid, t: BloomTuple, b: nat): State
    requires TupleSize(s.size) && b < |s.pages| && |s.meta.notFull| == META_BLOCK_N
  {
    FitsIsRoom(s.size, 0);
    Finish(s, pid, t, b, AddItem(s.size, EMPTY, t).value)
    .(meta := Meta(0, 1, s.meta.notFull[0 := b]), metaLock := None)
  }

  function StepVacuum(s: State, pid: Pid, p: Proc): State
    requires Inv(s) && pid in s.procs && s.procs[pid] == p && p.VacuumPage?
  {
    ProcInv(s, pid);
    var b := p.blkno;
    if b >= p.npages then
      Move(s, pid, VacuumDone(p.dead)).(meta := Meta(0, |p.list|, p.list + s.meta.notFull[|p.list|..]))
    else if s.pages[b].Unused() then Move(s, pid, VacuumPage(p.dead, p.npages, b + 1, p.list))
    else
      var page := Vacuumed(s.pages[b], p.dead);
      var n := |page.tuples|;
      var list := if n != 0 && Fits(s.size, n) && |p.list| < META_BLOCK_N then p.list + [b] else p.list;
      Move(s, pid, VacuumPage(p.dead, p.npages, b + 1, list))
      .(pages := s.pages[b := page], removed := s.removed + multiset(Dropped(s.pages[b].tuples, p.dead)))
  }

  /** The heap pointers of the tuples whose signature has all the bits of `sign`. */
  ghost function Matching(ts: seq<BloomTuple>, sign: Words): set<Tid> {
    set t | t in ts && Within(sign, t.sign) :: t.tid
  }

  ghost function NextScan(pages: seq<Page>, p: Proc): Proc
    requires p.ScanPage? && p.npages <= |pages|
  {
    var b := p.blkno;
    if b >= p.npages then ScanDone(p.sign, p.found)
    else if pages[b].Unused() then ScanPage(p.sign, p.npages, b + 1, p.found)
    else ScanPage(p.sign, p.npages, b + 1, p.found + Matching(pages[b].tuples, p.sign))
  }

  ghost function StepScan(s: State, pid: Pid, p: Proc): State
    requires Inv(s) && pid in s.procs && s.procs[pid] == p && p.ScanPage?
  {
    ProcInv(s, pid);
    Move(s, pid, NextScan(s.pages, p))
  }

  function StepCleanup(s: State, pid: Pid, p: Proc): State
    requires Inv(s) && pid in s.procs && s.procs[pid] == p && p.CleanupPage?
  {
    ProcInv(s, pid);
    var b := p.blkno;
    if b >= p.npages then Move(s, pid, CleanupDone)
    else
      var next := Move(s, pid, CleanupPage(p.npages, b + 1));
      if s.pages[b].Unused() then next.(fsm := s.fsm + {b}) else next
  }

  ghost function Apply(s: State, a: Action): State
    requires Inv(s) && Enabled(s, a)
  {
    match a
    case Begin(pid, proc) => Move(s, pid, proc)
    case Crash => s.(pages := s.pages + [NewPage])
    case Allocate(pid, answer) => StepAllocate(s, pid, s.procs[pid].tuple, answer)
    case Step(pid) =>
      var p := s.procs[pid];
      if p.VacuumStart? then Move(s, pid, VacuumPage(p.dead, |s.pages|, 1, []))
      else if p.CleanupStart? then Move(s, pid, CleanupPage(|s.pages|, 1))
      else if p.ScanStart? then Move(s, pid, ScanPage(p.sign, |s.pages|, 1, {}))
      else if p.VacuumPage? then StepVacuum(s, pid, p)
      else if p.CleanupPage? then StepCleanup(s, pid, p)
      else if p.ScanPage? then StepScan(s, pid, p)
      else StepInsert(s, pid, p)
  }

  // ---------------------------------------------------------------- what every step keeps

  predicate IsData(pages: seq<Page>, b: nat) { 1 <= b < |pages| }

  predicate AllData(pages: seq<Page>, list: seq<nat>) { forall i | 0 <= i < |list| :: IsData(pages, list[i]) }

  predicate PagesOk(size: nat, pages: seq<Page>) {
    pages != [] && pages[0] == NewPage && forall b | 0 <= b < |pages| :: PageOk(size, pages[b])
  }

  predicate MetaOk(pages: seq<Page>, m: Meta) {
    m.nStart <= m.nEnd <= META_BLOCK_N == |m.notFull| && AllData(pages, m.notFull[..m.nEnd])
  }

  predicate ProcOk(pages: seq<Page>, m: Meta, lock: Option<Pid>, pid: Pid, p: Proc) {
    && (p.HoldsMeta() <==> lock == Some(pid))
    && (p.InsertTry? ==> IsData(pages, p.blkno))
    && (p.InsertScan? ==> m.nStart <= p.nStart <= m.nEnd)
    && (p.VacuumPage? ==> 1 <= p.blkno && p.npages <= |pages| && AllData(pages, p.list) && |p.list| <= META_BLOCK_N)
    && (p.CleanupPage? || p.ScanPage? ==> 1 <= p.blkno && p.npages <= |pages|)
  }

  predicate ProcsOk(s: State) {
    && (s.metaLock.Some? ==> s.metaLock.value in s.procs)
    && forall pid :: pid in s.procs ==> ProcOk(s.pages, s.meta, s.metaLock, pid, s.procs[pid])
  }

  predicate FsmOk(s: State) { forall b :: b in s.fsm ==> IsData(s.pages, b) }

  /** Every tuple of the file, with multiplicity. */
  function Held(pages: seq<Page>): multiset<BloomTuple> {
    if pages == [] then multiset{} else Held(pages[..|pages| - 1]) + multiset(pages[|pages| - 1].Tuples())
  }

  /** No tuple is lost and none appears from nowhere. */
  predicate Conserved(s: State) { s.inserted == Held(s.pages) + s.removed }

  predicate Inv(s: State) {
    TupleSize(s.size) && PagesOk(s.size, s.pages) && MetaOk(s.pages, s.meta) && ProcsOk(s) && FsmOk(s) && Conserved(s)
  }

  lemma ProcInv(s: State, pid: Pid)
    requires Inv(s) && pid in s.procs
    ensures ProcOk(s.pages, s.meta, s.metaLock, pid, s.procs[pid])
    ensures forall i | 0 <= i < s.meta.nEnd :: IsData(s.pages, s.meta.notFull[i])
  {
  }

  lemma {:induction false} HeldUpdate(pages: seq<Page>, b: nat, page: Page)
    requires b < |pages|
    ensures Held(pages[b := page]) + multiset(pages[b].Tuples()) == Held(pages) + multiset(page.Tuples())
  {
    var n := |pages| - 1;
    var after := pages[b := page];
    if b < n {
      HeldUpdate(pages[..n], b, page);
      assert after[..n] == pages[..n][b := page];
      SumSwap(Held(after[..n]), multiset(pages[b].Tuples()), Held(pages[..n]), multiset(page.Tuples()),
              multiset(pages[n].Tuples()));
    } else {
      assert after[..n] == pages[..n];
    }
  }

  lemma SumSwap(a: multiset<BloomTuple>, x: multiset<BloomTuple>, b: multiset<BloomTuple>, y: multiset<BloomTuple>,
                z: multiset<BloomTuple>)
    requires a + x == b + y
    ensures (a + z) + x == (b + z) + y
  {
    assert (a + z) + x == (a + x) + z;
  }

  lemma Gain(inserted: multiset<BloomTuple>, held: multiset<BloomTuple>, removed: multiset<BloomTuple>,
             after: multiset<BloomTuple>, page: multiset<BloomTuple>, more: multiset<BloomTuple>)
    requires inserted == held + removed && after + page == held + (page + more)
    ensures inserted + more == after + removed
  {
    assert after == (after + page) - page == held + more;
  }

  lemma Loss(inserted: multiset<BloomTuple>, held: multiset<BloomTuple>, removed: multiset<BloomTuple>,
             after: multiset<BloomTuple>, left: multiset<BloomTuple>, dropped: multiset<BloomTuple>)
    requires inserted == held + removed && after + (left + dropped) == held + left
    ensures inserted == after + (removed + dropped)
  {
    assert held == (held + left) - left == after + dropped;
  }

  lemma HeldExtend(pages: seq<Page>)
    ensures Held(pages + [NewPage]) == Held(pages)
  {
  }

  /** A page that an inserter added to stays sound, and holds exactly one tuple more. */
  lemma AddKeeps(size: nat, p: Page, t: BloomTuple)
    requires TupleSize(size) && PageOk(size, p)
    ensures AddItem(size, Opened(p), t).Some? ==>
      var q := AddItem(size, Opened(p), t).value;
      PageOk(size, q) && !q.Unused() && multiset(q.Tuples()) == multiset(p.Tuples()) + multiset{t}
    ensures AddItem(size, Opened(p), t).None? ==> !p.Unused() && (|p.tuples| + 1) * size > PAGE_SPACE
  {
    var ts := Opened(p).tuples;
    FitsIsRoom(size, |ts|);
    assert p.Tuples() == ts;
    assert multiset(ts + [t]) == multiset(ts) + multiset{t};
  }

  lemma ShorterFits(m: nat, n: nat, size: nat)
    requires m <= n
    ensures m * size <= n * size
  {
  }

  /** Vacuum keeps a page sound and takes out exactly the dead tuples. */
  lemma VacuumKeeps(size: nat, p: Page, dead: set<Tid>)
    requires TupleSize(size) && PageOk(size, p) && !p.Unused()
    ensures PageOk(size, Vacuumed(p, dead))
    ensures multiset(p.tuples) == multiset(Vacuumed(p, dead).tuples) + multiset(Dropped(p.tuples, dead))
  {
    SurvivorsSplit(p.tuples, dead);
    ShorterFits(|Vacuumed(p, dead).tuples|, |p.tuples|, size);
  }

  /** The invariant of the processes survives a change of one process that leaves the rest alone. */
  lemma MoveKeeps(s: State, after: State, pid: Pid, p: Proc)
    requires ProcsOk(s) && after.procs == s.procs[pid := p]
    requires |s.pages| <= |after.pages|
    requires after.metaLock == s.metaLock || s.metaLock == Some(pid) || (s.metaLock.None? && after.metaLock == Some(pid))
    requires after.metaLock != s.metaLock ==> after.metaLock.None? || after.metaLock == Some(pid)
    requires after.meta == s.meta || s.metaLock == Some(pid) || s.metaLock.None?
    requires ProcOk(after.pages, after.meta, after.metaLock, pid, p)
    ensures ProcsOk(after)
  {
  }

  lemma FinishKeeps(s: State, after: State, pid: Pid, t: BloomTuple, b: nat, page: Page)
    requires Inv(s) && IsData(s.pages, b) && TryPage(s, b, t) == Some(page)
    requires after.size == s.size && after.pages == s.pages[b := page]
    requires after.inserted == s.inserted + multiset{t} && after.removed == s.removed
    ensures PagesOk(after.size, after.pages) && Conserved(after)
  {
    AddKeeps(s.size, s.pages[b], t);
    HeldUpdate(s.pages, b, page);
    Gain(s.inserted, Held(s.pages), s.removed, Held(after.pages), multiset(s.pages[b].Tuples()), multiset{t});
  }

  lemma InsertTryKeeps(s: State, pid: Pid)
    requires Inv(s) && Enabled(s, Step(pid)) && s.procs[pid].InsertTry?
    ensures Inv(StepInsert(s, pid, s.procs[pid]))
  {
    var p := s.procs[pid];
    var after := StepInsert(s, pid, p);
    ProcInv(s, pid);
    MoveKeeps(s, after, pid, after.procs[pid]);
    var page := TryPage(s, p.blkno, p.tuple);
    if page.Some? { FinishKeeps(s, after, pid, p.tuple, p.blkno, page.value); }
  }

  lemma InsertScanKeeps(s: State, pid: Pid)
    requires Inv(s) && Enabled(s, Step(pid)) && s.procs[pid].InsertScan?
    ensures Inv(StepInsert(s, pid, s.procs[pid]))
  {
    var p := s.procs[pid];
    var after := StepInsert(s, pid, p);
    ProcInv(s, pid);
    MoveKeeps(s, after, pid, after.procs[pid]);
    if p.nStart < s.meta.nEnd {
      var b := s.meta.notFull[p.nStart];
      var page := TryPage(s, b, p.tuple);
      if page.Some? { FinishKeeps(s, after, pid, p.tuple, b, page.value); }
    }
  }

  lemma {:induction false} InsertMetaKeeps(s: State, pid: Pid)
    requires Inv(s) && Enabled(s, Step(pid)) && (s.procs[pid].InsertStart? || s.procs[pid].InsertLock?)
    ensures Inv(StepInsert(s, pid, s.procs[pid]))
  {
    var after := StepInsert(s, pid, s.procs[pid]);
    ProcInv(s, pid);
    MoveKeeps(s, after, pid, after.procs[pid]);
  }

  lemma PlaceKeeps(s: State, pid: Pid, t: BloomTuple, b: nat)
    requires Inv(s) && pid in s.procs && s.procs[pid] == InsertAlloc(t) && IsData(s.pages, b) && s.pages[b].Unused()
    ensures Inv(PlaceOn(s, pid, t, b))
  {
    var after := PlaceOn(s, pid, t, b);
    assert ProcOk(s.pages, s.meta, s.metaLock, pid, s.procs[pid]);
    FitsIsRoom(s.size, 0);
    FinishKeeps(s, after, pid, t, b, after.pages[b]);
    MoveKeeps(s, after, pid, InsertDone(t));
    assert after.meta.notFull[..1] == [b];
  }

  lemma ExtendKeeps(s: State)
    requires Inv(s)
    ensures Inv(Apply(s, Crash))
  {
    var after := s.(pages := s.pages + [NewPage]);
    HeldExtend(s.pages);
    forall q | q in after.procs ensures ProcOk(after.pages, after.meta, after.metaLock, q, after.procs[q]) {
      assert ProcOk(s.pages, s.meta, s.metaLock, q, s.procs[q]);
    }
  }

  lemma AllocateKeeps(s: State, pid: Pid, answer: Answer)
    requires Inv(s) && Enabled(s, Allocate(pid, answer))
    ensures Inv(StepAllocate(s, pid, s.procs[pid].tuple, answer))
  {
    var t := s.procs[pid].tuple;
    match answer
    case NoFreePage =>
      ExtendKeeps(s);
      PlaceKeeps(s.(pages := s.pages + [NewPage]), pid, t, |s.pages|);
    case BusyPage(b) =>
    case FreePage(b) =>
      if s.pages[b].Unused() { PlaceKeeps(s.(fsm := s.fsm - {b}), pid, t, b); }
  }

  lemma SweepKeeps(s: State, after: State, b: nat, dead: set<Tid>)
    requires Inv(s) && IsData(s.pages, b) && !s.pages[b].Unused()
    requires after.size == s.size && after.pages == s.pages[b := Vacuumed(s.pages[b], dead)]
    requires after.inserted == s.inserted && after.removed == s.removed + multiset(Dropped(s.pages[b].tuples, dead))
    ensures PagesOk(after.size, after.pages) && Conserved(after)
  {
    VacuumKeeps(s.size, s.pages[b], dead);
    HeldUpdate(s.pages, b, after.pages[b]);
    Loss(s.inserted, Held(s.pages), s.removed, Held(after.pages), multiset(after.pages[b].tuples),
         multiset(Dropped(s.pages[b].tuples, dead)));
  }

  lemma VacuumPageKeeps(s: State, pid: Pid)
    requires Inv(s) && Enabled(s, Step(pid)) && s.procs[pid].VacuumPage?
    requires s.procs[pid].blkno < s.procs[pid].npages
    ensures Inv(StepVacuum(s, pid, s.procs[pid]))
  {
    var p := s.procs[pid];
    var after := StepVacuum(s, pid, p);
    ProcInv(s, pid);
    MoveKeeps(s, after, pid, after.procs[pid]);
    if !s.pages[p.blkno].Unused() { SweepKeeps(s, after, p.blkno, p.dead); }
  }

  lemma VacuumMetaKeeps(s: State, pid: Pid)
    requires Inv(s) && Enabled(s, Step(pid)) && s.procs[pid].VacuumPage?
    requires s.procs[pid].blkno >= s.procs[pid].npages
    ensures Inv(StepVacuum(s, pid, s.procs[pid]))
  {
    var p := s.procs[pid];
    var after := StepVacuum(s, pid, p);
    ProcInv(s, pid);
    MoveKeeps(s, after, pid, VacuumDone(p.dead));
    assert after.meta.notFull[..|p.list|] == p.list;
  }

  /** A process that starts, and the steps of cleanups and scans, change no page. */
  lemma QuietKeeps(s: State, after: State, pid: Pid, p: Proc)
    requires Inv(s) && (after == Move(s, pid, p) || (after == Move(s, pid, p).(fsm := after.fsm) && FsmOk(after)))
    requires ProcOk(s.pages, s.meta, s.metaLock, pid, p)
    ensures Inv(after)
  {
    MoveKeeps(s, after, pid, p);
  }

  lemma CleanupKeeps(s: State, pid: Pid)
    requires Inv(s) && pid in s.procs && s.procs[pid].CleanupPage?
    ensures Inv(StepCleanup(s, pid, s.procs[pid]))
  {
    ProcInv(s, pid);
    var after := StepCleanup(s, pid, s.procs[pid]);
    QuietKeeps(s, after, pid, after.procs[pid]);
  }

  lemma ScanKeeps(s: State, pid: Pid)
    requires Inv(s) && pid in s.procs && s.procs[pid].ScanPage?
    ensures Inv(StepScan(s, pid, s.procs[pid]))
  {
    ProcInv(s, pid);
    QuietKeeps(s, StepScan(s, pid, s.procs[pid]), pid, NextScan(s.pages, s.procs[pid]));
  }

  lemma InsertKeeps(s: State, pid: Pid)
    requires Inv(s) && Enabled(s, Step(pid)) && s.procs[pid].Inserting()
    ensures Inv(StepInsert(s, pid, s.procs[pid]))
  {
    if s.procs[pid].InsertTry? { InsertTryKeeps(s, pid); }
    else if s.procs[pid].InsertScan? { InsertScanKeeps(s, pid); }
    else { InsertMetaKeeps(s, pid); }
  }

  lemma VacuumStepKeeps(s: State, pid: Pid)
    requires Inv(s) && Enabled(s, Step(pid)) && s.procs[pid].VacuumPage?
    ensures Inv(StepVacuum(s, pid, s.procs[pid]))
  {
    if s.procs[pid].blkno < s.procs[pid].npages { VacuumPageKeeps(s, pid); } else { VacuumMetaKeeps(s, pid); }
  }

  lemma StepKeeps(s: State, pid: Pid)
    requires Inv(s) && Enabled(s, Step(pid))
    ensures Inv(Apply(s, Step(pid)))
  {
    var p := s.procs[pid];
    var after := Apply(s, Step(pid));
    if p.Starting() && !p.InsertStart? {
      ProcInv(s, pid);
      QuietKeeps(s, after, pid, after.procs[pid]);
    } else if p.VacuumPage? {
      VacuumStepKeeps(s, pid);
      assert after == StepVacuum(s, pid, p);
    } else if p.CleanupPage? {
      CleanupKeeps(s, pid);
      assert after == StepCleanup(s, pid, p);
    } else if p.ScanPage? {
      ScanKeeps(s, pid);
      assert after == StepScan(s, pid, p);
    } else {
      InsertKeeps(s, pid);
      assert after == StepInsert(s, pid, p);
    }
  }

  /** Every step of every process keeps the invariant. */
  lemma ApplyKeeps(s: State, a: Action)
    requires Inv(s) && Enabled(s, a)
    ensures Inv(Apply(s, a))
  {
    match a
    case Crash => ExtendKeeps(s);
    case Allocate(pid, answer) => AllocateKeeps(s, pid, answer);
    case Begin(pid, proc) => QuietKeeps(s, Move(s, pid, proc), pid, proc);
    case Step(pid) => StepKeeps(s, pid);
  }

  // ---------------------------------------------------------------- whole runs

  /** A run: every action is possible when its turn comes. */
  ghost predicate IsRun(s: State, run: seq<Action>)
    requires Inv(s)
    decreases |run|
  {
    run == [] || (Enabled(s, run[0]) && (ApplyKeeps(s, run[0]); IsRun(Apply(s, run[0]), run[1..])))
  }

  ghost function Last(s: State, run: seq<Action>): State
    requires Inv(s) && IsRun(s, run)
    decreases |run|
  {
    if run == [] then s else (ApplyKeeps(s, run[0]); Last(Apply(s, run[0]), run[1..]))
  }

  /** A freshly built index: what `blbuild` wrote, an empty list and nobody at work. */
  predicate Built(s: State) {
    && TupleSize(s.size) && PagesOk(s.size, s.pages) && s.fsm == {} && s.procs == map[] && s.metaLock == None
    && s.meta.nStart == s.meta.nEnd == 0 && |s.meta.notFull| == META_BLOCK_N
    && s.inserted == Held(s.pages) && s.removed == multiset{}
  }

  lemma {:induction false} RunKeeps(s: State, run: seq<Action>)
    requires Inv(s) && IsRun(s, run)
    ensures Inv(Last(s, run))
    decreases |run|
  {
    if run != [] {
      ApplyKeeps(s, run[0]);
      RunKeeps(Apply(s, run[0]), run[1..]);
    }
  }

  /**
    In every state that a built index can reach: deleted pages are empty, live pages are not and do
    not overflow, the list names data pages only, one process at most holds the metapage, and the
    tuples ever inserted are exactly those on the pages and those that vacuums removed.
   */
  lemma Reachable(s: State, run: seq<Action>)
    requires Built(s) && IsRun(s, run)
    ensures Inv(Last(s, run))
  {
    RunKeeps(s, run);
  }

  // ---------------------------------------------------------------- the first state, and the work on one page

  lemma {:induction false} HeldIsFlatten(pages: seq<Page>)
    ensures Held([NewPage] + pages) == multiset(Flatten(pages))
  {
    var all, n := [NewPage] + pages, |pages|;
    if n == 0 {
      assert all[..0] == [];
    } else {
      assert all[..n] == [NewPage] + pages[..n - 1];
      HeldIsFlatten(pages[..n - 1]);
    }
  }

  /** What `blbuild` leaves behind is a state to start from, and the record has every row it was given. */
  lemma BuildIsBuilt(size: nat, pages: seq<Page>, tuples: seq<BloomTuple>, notFull: seq<nat>)
    requires TupleSize(size) && AllLive(size, pages) && Flatten(pages) == tuples && |notFull| == META_BLOCK_N
    ensures Built(State(size, [NewPage] + pages, Meta(0, 0, notFull), None, {}, map[], multiset(tuples), multiset{}))
  {
    HeldIsFlatten(pages);
  }

  /** How many tuples match. */
  ghost function MatchCount(ts: seq<BloomTuple>, sign: Words): nat {
    if ts == [] then 0 else MatchCount(ts[..|ts| - 1], sign) + if Within(sign, ts[|ts| - 1].sign) then 1 else 0
  }

  lemma MatchOneMore(ts: seq<BloomTuple>, i: nat, sign: Words)
    requires i < |ts|
    ensures Matching(ts[..i + 1], sign) == Matching(ts[..i], sign) + if Within(sign, ts[i].sign) then {ts[i].tid} else {}
    ensures MatchCount(ts[..i + 1], sign) == MatchCount(ts[..i], sign) + if Within(sign, ts[i].sign) then 1 else 0
  {
    assert ts[..i + 1] == ts[..i] + [ts[i]] && ts[..i + 1][..i] == ts[..i];
  }

  /** The loop of `blgetbitmap` over one page in use. */
  method MatchPage(tuples: seq<BloomTuple>, sign: Words) returns (found: set<Tid>, ntids: nat)
    requires forall i | 0 <= i < |tuples| :: |tuples[i].sign| == |sign|
    ensures found == Matching(tuples, sign) && ntids == MatchCount(tuples, sign)
  {
    found, ntids := {}, 0;
    for i := 0 to |tuples|
      invariant found == Matching(tuples[..i], sign) && ntids == MatchCount(tuples[..i], sign)
    {
      MatchOneMore(tuples, i, sign);
      var res := SignatureMatches(tuples[i].sign, sign);
      if res { found, ntids := found + {tuples[i].tid}, ntids + 1; }
    }
    assert tuples[..|tuples|] == tuples;
  }
}

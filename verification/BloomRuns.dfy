/** What whole runs of a Bloom index promise: scans miss nothing, vacuums leave nothing dead. */
module BloomRuns {
  import opened Results
  import opened BloomSignature
  import opened BloomPage
  import opened BloomProtocol

  predicate On(pages: seq<Page>, b: nat, t: BloomTuple) { b < |pages| && t in pages[b].Tuples() }

  /** The action is not a vacuum step that may remove `tid`. */
  predicate Spares(s: State, a: Action, tid: Tid) {
    a.Step? && a.pid in s.procs && s.procs[a.pid].VacuumPage? ==> tid !in s.procs[a.pid].dead
  }

  /** The action is an inserter at work on `t`. */
  predicate Inserts(s: State, a: Action, t: BloomTuple) {
    (a.Step? || a.Allocate?) && a.pid in s.procs && s.procs[a.pid].Inserting() && s.procs[a.pid].tuple == t
  }

  predicate Moves(a: Action, q: Pid) { !a.Crash? && a.pid == q }

  /** Only `pid` moves, the file does not shrink and insertions stay recorded. */
  ghost predicate Advances(s: State, r: State, pid: Pid) {
    && (forall q :: q != pid ==> (q in r.procs <==> q in s.procs))
    && (forall q :: q in s.procs && q != pid ==> r.procs[q] == s.procs[q])
    && pid in r.procs && |s.pages| <= |r.pages| && s.inserted <= r.inserted
  }

  lemma MoveAdvances(s: State, r: State, pid: Pid, p: Proc)
    requires r.procs == s.procs[pid := p] && |s.pages| <= |r.pages|
    requires r.inserted == s.inserted || (p.InsertDone? && r.inserted == s.inserted + multiset{p.tuple})
    ensures Advances(s, r, pid)
  {
  }

  lemma InsertTryAdvances(s: State, pid: Pid)
    requires Inv(s) && Enabled(s, Step(pid)) && s.procs[pid].InsertTry?
    ensures Advances(s, StepInsert(s, pid, s.procs[pid]), pid)
    ensures var p := StepInsert(s, pid, s.procs[pid]).procs[pid]; p.Inserting() ==> p.tuple == s.procs[pid].tuple
  {
    var r := StepInsert(s, pid, s.procs[pid]);
    ProcInv(s, pid);
    MoveAdvances(s, r, pid, r.procs[pid]);
  }

  lemma InsertScanAdvances(s: State, pid: Pid)
    requires Inv(s) && Enabled(s, Step(pid)) && s.procs[pid].InsertScan?
    ensures Advances(s, StepInsert(s, pid, s.procs[pid]), pid)
    ensures var p := StepInsert(s, pid, s.procs[pid]).procs[pid]; p.Inserting() ==> p.tuple == s.procs[pid].tuple
  {
    var r := StepInsert(s, pid, s.procs[pid]);
    ProcInv(s, pid);
    MoveAdvances(s, r, pid, r.procs[pid]);
  }

  lemma InsertMetaAdvances(s: State, pid: Pid)
    requires Inv(s) && Enabled(s, Step(pid)) && (s.procs[pid].InsertStart? || s.procs[pid].InsertLock?)
    ensures Advances(s, StepInsert(s, pid, s.procs[pid]), pid)
    ensures var p := StepInsert(s, pid, s.procs[pid]).procs[pid]; p.Inserting() ==> p.tuple == s.procs[pid].tuple
  {
    var r := StepInsert(s, pid, s.procs[pid]);
    ProcInv(s, pid);
    MoveAdvances(s, r, pid, r.procs[pid]);
  }

  lemma VacuumAdvances(s: State, pid: Pid)
    requires Inv(s) && Enabled(s, Step(pid)) && s.procs[pid].VacuumPage?
    ensures Advances(s, StepVacuum(s, pid, s.procs[pid]), pid)
    ensures !StepVacuum(s, pid, s.procs[pid]).procs[pid].Inserting()
  {
    var r := StepVacuum(s, pid, s.procs[pid]);
    MoveAdvances(s, r, pid, r.procs[pid]);
  }

  lemma AllocateAdvances(s: State, pid: Pid, answer: Answer)
    requires Inv(s) && Enabled(s, Allocate(pid, answer))
    ensures Advances(s, StepAllocate(s, pid, s.procs[pid].tuple, answer), pid)
    ensures var p := StepAllocate(s, pid, s.procs[pid].tuple, answer).procs[pid];
      p.Inserting() ==> p.tuple == s.procs[pid].tuple
  {
    var r := StepAllocate(s, pid, s.procs[pid].tuple, answer);
    if r.procs[pid].InsertDone? { MoveAdvances(s, r, pid, r.procs[pid]); }
  }

  lemma {:induction false} QuietAdvances(s: State, pid: Pid)
    requires Inv(s) && Enabled(s, Step(pid)) && !s.procs[pid].Inserting() && !s.procs[pid].VacuumPage?
    ensures Advances(s, Apply(s, Step(pid)), pid) && !Apply(s, Step(pid)).procs[pid].Inserting()
  {
    var r := Apply(s, Step(pid));
    MoveAdvances(s, r, pid, r.procs[pid]);
  }

  /** The process that moves goes on with the insertion it was at. */
  ghost predicate SameWork(s: State, r: State, pid: Pid) {
    pid in r.procs && r.procs[pid].Inserting() ==>
      pid in s.procs && s.procs[pid].Inserting() && s.procs[pid].tuple == r.procs[pid].tuple
  }

  /** A process moves only by its own actions; insertions are recorded for good; the file never shrinks. */
  lemma StepAdvances(s: State, pid: Pid)
    requires Inv(s) && Enabled(s, Step(pid))
    ensures Advances(s, Apply(s, Step(pid)), pid) && SameWork(s, Apply(s, Step(pid)), pid)
  {
    var p, r := s.procs[pid], Apply(s, Step(pid));
    if p.Inserting() {
      if p.InsertTry? { InsertTryAdvances(s, pid); }
      else if p.InsertScan? { InsertScanAdvances(s, pid); }
      else { InsertMetaAdvances(s, pid); }
      assert r == StepInsert(s, pid, p);
    } else if p.VacuumPage? {
      VacuumAdvances(s, pid);
      assert r == StepVacuum(s, pid, p);
    } else {
      QuietAdvances(s, pid);
    }
  }

  lemma ApplyAdvances(s: State, a: Action)
    requires Inv(s) && Enabled(s, a) && !a.Crash?
    ensures Advances(s, Apply(s, a), a.pid)
    ensures a.Begin? || SameWork(s, Apply(s, a), a.pid)
  {
    match a
    case Begin(pid, proc) => MoveAdvances(s, Apply(s, a), pid, proc);
    case Step(pid) => StepAdvances(s, pid);
    case Allocate(pid, answer) =>
      AllocateAdvances(s, pid, answer);
      assert Apply(s, a) == StepAllocate(s, pid, s.procs[pid].tuple, answer);
  }

  lemma AddHolds(size: nat, p: Page, more: BloomTuple, t: BloomTuple)
    requires TupleSize(size) && PageOk(size, p) && AddItem(size, Opened(p), more).Some?
    ensures t in AddItem(size, Opened(p), more).value.tuples <==> t in p.Tuples() || t == more
  {
  }

  /** A tuple stays on its page through every step but that of a vacuum that lists it as dead. */
  lemma StepKeepsTuple(s: State, a: Action, b: nat, t: BloomTuple)
    requires Inv(s) && Enabled(s, a) && On(s.pages, b, t) && Spares(s, a, t.tid)
    ensures On(Apply(s, a).pages, b, t)
  {
    if a.Allocate? { AllocateTuple(s, a, b, t); }
    else if a.Step? {
      if s.procs[a.pid].VacuumPage? { SweepTuple(s, a.pid, b, t); }
      else if s.procs[a.pid].Inserting() { InsertTuple(s, a.pid, b, t); }
    }
  }

  /** A tuple comes onto a page only by the last step of its insertion. */
  lemma StepAddsTuple(s: State, a: Action, b: nat, t: BloomTuple)
    requires Inv(s) && Enabled(s, a) && On(Apply(s, a).pages, b, t)
    ensures On(s.pages, b, t) || (Inserts(s, a, t) && Apply(s, a).procs[a.pid] == InsertDone(t))
  {
    if a.Allocate? { AllocateTuple(s, a, b, t); }
    else if a.Step? {
      if s.procs[a.pid].VacuumPage? { SweepTuple(s, a.pid, b, t); }
      else if s.procs[a.pid].Inserting() { InsertTuple(s, a.pid, b, t); }
    }
  }

  lemma SweepTuple(s: State, pid: Pid, b: nat, t: BloomTuple)
    requires Inv(s) && Enabled(s, Step(pid)) && s.procs[pid].VacuumPage?
    ensures On(Apply(s, Step(pid)).pages, b, t) ==> On(s.pages, b, t)
    ensures On(s.pages, b, t) && t.tid !in s.procs[pid].dead ==> On(Apply(s, Step(pid)).pages, b, t)
    ensures b == s.procs[pid].blkno < s.procs[pid].npages && t.tid in s.procs[pid].dead ==>
              !On(Apply(s, Step(pid)).pages, b, t)
  {
    var p := s.procs[pid];
    ProcInv(s, pid);
    if p.blkno < p.npages && !s.pages[p.blkno].Unused() {
      SurvivorsAreAlive(s.pages[p.blkno].tuples, p.dead, t);
    }
  }

  lemma InsertTuple(s: State, pid: Pid, b: nat, t: BloomTuple)
    requires Inv(s) && Enabled(s, Step(pid)) && s.procs[pid].Inserting()
    ensures On(s.pages, b, t) ==> On(Apply(s, Step(pid)).pages, b, t)
    ensures On(Apply(s, Step(pid)).pages, b, t) ==>
              On(s.pages, b, t) || (s.procs[pid].tuple == t && Apply(s, Step(pid)).procs[pid] == InsertDone(t))
  {
    var p := s.procs[pid];
    ProcInv(s, pid);
    var at := if p.InsertTry? then p.blkno
              else if p.InsertScan? && p.nStart < s.meta.nEnd then s.meta.notFull[p.nStart] else 0;
    if AddItem(s.size, Opened(s.pages[at]), p.tuple).Some? { AddHolds(s.size, s.pages[at], p.tuple, t); }
  }

  lemma AllocateTuple(s: State, a: Action, b: nat, t: BloomTuple)
    requires Inv(s) && Enabled(s, a) && a.Allocate?
    ensures On(s.pages, b, t) ==> On(Apply(s, a).pages, b, t)
    ensures On(Apply(s, a).pages, b, t) ==>
              On(s.pages, b, t) || (s.procs[a.pid].tuple == t && Apply(s, a).procs[a.pid] == InsertDone(t))
  {
  }

  // ---------------------------------------------------------------- scans

  /** No vacuum of the run may remove `tid`. */
  ghost predicate RunSpares(s: State, run: seq<Action>, tid: Tid)
    requires Inv(s) && IsRun(s, run)
    decreases |run|
  {
    run == [] || (Spares(s, run[0], tid) && (ApplyKeeps(s, run[0]); RunSpares(Apply(s, run[0]), run[1..], tid)))
  }

  /** The scan has found `t`, or its page is still ahead. */
  ghost predicate WillSee(p: Proc, npages: nat, b: nat, t: BloomTuple) {
    match p
    case ScanStart(sign) => b < npages && Within(sign, t.sign)
    case ScanPage(sign, n, k, found) => b < n && Within(sign, t.sign) && (k <= b || t.tid in found)
    case ScanDone(_, found) => t.tid in found
    case _ => false
  }

  lemma ScanStepSees(s: State, a: Action, pid: Pid, b: nat, t: BloomTuple)
    requires Inv(s) && Enabled(s, a) && b > 0 && On(s.pages, b, t)
    requires pid in s.procs && WillSee(s.procs[pid], |s.pages|, b, t)
    ensures pid in Apply(s, a).procs && WillSee(Apply(s, a).procs[pid], |Apply(s, a).pages|, b, t)
  {
    if !a.Crash? { ApplyAdvances(s, a); }
    if Moves(a, pid) { ProcInv(s, pid); }
  }

  lemma {:induction false} ScanSees(s: State, run: seq<Action>, pid: Pid, b: nat, t: BloomTuple)
    requires Inv(s) && IsRun(s, run) && RunSpares(s, run, t.tid) && b > 0 && On(s.pages, b, t)
    requires pid in s.procs && WillSee(s.procs[pid], |s.pages|, b, t)
    ensures pid in Last(s, run).procs && WillSee(Last(s, run).procs[pid], |Last(s, run).pages|, b, t)
    decreases |run|
  {
    if run != [] {
      ApplyKeeps(s, run[0]);
      StepKeepsTuple(s, run[0], b, t);
      ScanStepSees(s, run[0], pid, b, t);
      ScanSees(Apply(s, run[0]), run[1..], pid, b, t);
    }
  }

  /**
    A tuple that is in the index when a scan starts and that no vacuum removes meanwhile is in the
    scan's result if its signature matches, whatever inserters, vacuums and cleanups do beside it.
   */
  lemma ScanIsComplete(s: State, run: seq<Action>, pid: Pid, sign: Words, b: nat, t: BloomTuple)
    requires Inv(s) && IsRun(s, run) && pid in s.procs && s.procs[pid] == ScanStart(sign)
    requires On(s.pages, b, t) && Within(sign, t.sign) && RunSpares(s, run, t.tid)
    ensures pid in Last(s, run).procs
    ensures Last(s, run).procs[pid].ScanDone? ==> t.tid in Last(s, run).procs[pid].found
  {
    ScanSees(s, run, pid, b, t);
  }

  /** The same for rows: a scan returns every indexed row that agrees with its keys. */
  lemma ScanReturnsRow(s: State, run: seq<Action>, pid: Pid, b: nat, tid: Tid,
                       bloom: BloomState, row: seq<Option<int>>, keys: seq<ScanKey>)
    requires Inv(s) && IsRun(s, run) && pid in s.procs && RunSpares(s, run, tid)
    requires bloom.Valid() && |row| <= |bloom.bitSize| && bloom.RowSignable(row)
    requires bloom.KeySignable(keys) && NoNulls(keys, |keys|)
    requires forall i | 0 <= i < |keys| :: keys[i].column < |row| && row[keys[i].column] == keys[i].value
    requires On(s.pages, b, BloomTuple(tid, bloom.RowSign(row, |row|)))
    requires s.procs[pid] == ScanStart(bloom.ScanSign(keys, |keys|))
    ensures pid in Last(s, run).procs
    ensures Last(s, run).procs[pid].ScanDone? ==> tid in Last(s, run).procs[pid].found
  {
    bloom.MatchingRowPasses(row, keys, |keys|);
    ScanIsComplete(s, run, pid, bloom.ScanSign(keys, |keys|), b, BloomTuple(tid, bloom.RowSign(row, |row|)));
  }

  /** `tid` belongs to a tuple that was inserted and whose signature has all bits of `sign`. */
  ghost predicate Justified(inserted: multiset<BloomTuple>, sign: Words, tid: Tid) {
    exists t :: t in inserted && t.tid == tid && Within(sign, t.sign)
  }

  ghost predicate AllJustified(s: State, pid: Pid) {
    pid in s.procs && (s.procs[pid].ScanPage? || s.procs[pid].ScanDone? ==>
      forall tid :: tid in s.procs[pid].found ==> Justified(s.inserted, s.procs[pid].sign, tid))
  }

  lemma {:induction false} HeldHas(pages: seq<Page>, b: nat, t: BloomTuple)
    requires On(pages, b, t)
    ensures t in Held(pages)
  {
    if b < |pages| - 1 { HeldHas(pages[..|pages| - 1], b, t); }
  }

  lemma MatchingJustified(s: State, b: nat, sign: Words, tid: Tid)
    requires Inv(s) && b < |s.pages| && tid in Matching(s.pages[b].Tuples(), sign)
    ensures Justified(s.inserted, sign, tid)
  {
    var t :| t in s.pages[b].Tuples() && Within(sign, t.sign) && t.tid == tid;
    HeldHas(s.pages, b, t);
    assert t in s.inserted;
  }

  lemma JustifiedGrows(less: multiset<BloomTuple>, more: multiset<BloomTuple>, sign: Words, tid: Tid)
    requires less <= more && Justified(less, sign, tid)
    ensures Justified(more, sign, tid)
  {
  }

  lemma ScanMoveJustified(s: State, pid: Pid)
    requires Inv(s) && Enabled(s, Step(pid)) && AllJustified(s, pid) && s.procs[pid].ScanPage?
    ensures AllJustified(Apply(s, Step(pid)), pid)
  {
    ProcInv(s, pid);
    var p := s.procs[pid];
    var next := NextScan(s.pages, p);
    assert Apply(s, Step(pid)) == Move(s, pid, next);
    forall tid | tid in next.found ensures Justified(s.inserted, p.sign, tid) {
      if tid !in p.found { MatchingJustified(s, p.blkno, p.sign, tid); }
    }
  }

  lemma ScanStepJustified(s: State, a: Action, pid: Pid)
    requires Inv(s) && Enabled(s, a) && AllJustified(s, pid)
    ensures AllJustified(Apply(s, a), pid)
  {
    if Moves(a, pid) {
      if s.procs[pid].ScanPage? { ScanMoveJustified(s, pid); }
    } else {
      if !a.Crash? { ApplyAdvances(s, a); }
      var p := s.procs[pid];
      if p.ScanPage? || p.ScanDone? {
        forall tid | tid in p.found ensures Justified(Apply(s, a).inserted, p.sign, tid) {
          JustifiedGrows(s.inserted, Apply(s, a).inserted, p.sign, tid);
        }
      }
    }
  }

  /** A scan returns nothing but pointers of inserted tuples whose signature matches. */
  lemma {:induction false} ScanIsSound(s: State, run: seq<Action>, pid: Pid)
    requires Inv(s) && IsRun(s, run) && AllJustified(s, pid)
    ensures AllJustified(Last(s, run), pid)
    decreases |run|
  {
    if run != [] {
      ApplyKeeps(s, run[0]);
      ScanStepJustified(s, run[0], pid);
      ScanIsSound(Apply(s, run[0]), run[1..], pid);
    }
  }

  // ---------------------------------------------------------------- vacuums

  /** No inserter at work carries a pointer that the vacuum takes for dead. */
  predicate NoneComing(s: State, dead: set<Tid>) {
    forall q :: q in s.procs && s.procs[q].Inserting() ==> s.procs[q].tuple.tid !in dead
  }

  predicate BeginsAlive(a: Action, dead: set<Tid>) {
    a.Begin? && a.proc.InsertStart? ==> a.proc.tuple.tid !in dead
  }

  ghost predicate Clean(pages: seq<Page>, b: nat, dead: set<Tid>) {
    forall t :: On(pages, b, t) ==> t.tid !in dead
  }

  /** Which blocks the vacuum has dealt with. */
  predicate Swept(p: Proc, dead: set<Tid>, b: nat) {
    || (p.VacuumPage? && p.dead == dead && (b < p.blkno || p.npages <= b))
    || p == VacuumDone(dead)
  }

  ghost predicate Vacuuming(s: State, pid: Pid, dead: set<Tid>) {
    && pid in s.procs && NoneComing(s, dead)
    && (s.procs[pid] == VacuumStart(dead) || (s.procs[pid].VacuumPage? && s.procs[pid].dead == dead)
        || s.procs[pid] == VacuumDone(dead))
    && forall b | 0 < b < |s.pages| && Swept(s.procs[pid], dead, b) :: Clean(s.pages, b, dead)
  }

  lemma OneStepVacuum(s: State, pid: Pid)
    requires Inv(s) && Enabled(s, Step(pid)) && (s.procs[pid].VacuumStart? || s.procs[pid].VacuumPage?)
    ensures var p, q := s.procs[pid], Apply(s, Step(pid)).procs[pid];
      if p.VacuumStart? then q == VacuumPage(p.dead, |s.pages|, 1, [])
      else if p.blkno < p.npages then q.VacuumPage? && q.dead == p.dead && q.npages == p.npages && q.blkno == p.blkno + 1
      else q == VacuumDone(p.dead)
    ensures |Apply(s, Step(pid)).pages| == |s.pages|
  {
  }

  lemma SweptBefore(s: State, a: Action, pid: Pid, dead: set<Tid>, b: nat)
    requires Inv(s) && Enabled(s, a) && Vacuuming(s, pid, dead)
    requires 0 < b < |s.pages| && Swept(Apply(s, a).procs[pid], dead, b)
    ensures Swept(s.procs[pid], dead, b) || (a == Step(pid) && s.procs[pid].VacuumPage? && b == s.procs[pid].blkno < s.procs[pid].npages)
  {
    ProcInv(s, pid);
    if Moves(a, pid) { OneStepVacuum(s, pid); } else if !a.Crash? { ApplyAdvances(s, a); }
  }

  lemma StepKeepsClean(s: State, a: Action, pid: Pid, dead: set<Tid>, b: nat)
    requires Inv(s) && Enabled(s, a) && Vacuuming(s, pid, dead)
    requires 0 < b < |Apply(s, a).pages| && Swept(Apply(s, a).procs[pid], dead, b)
    ensures Clean(Apply(s, a).pages, b, dead)
  {
    forall t | On(Apply(s, a).pages, b, t) ensures t.tid !in dead {
      StepAddsTuple(s, a, b, t);
      if On(s.pages, b, t) {
        SweptBefore(s, a, pid, dead, b);
        if Swept(s.procs[pid], dead, b) { assert Clean(s.pages, b, dead); } else { SweepTuple(s, pid, b, t); }
      }
    }
  }

  /** A process at work on an insertion was so before, or has just begun. */
  lemma StaysInserting(s: State, a: Action, q: Pid)
    requires Inv(s) && Enabled(s, a) && q in Apply(s, a).procs && Apply(s, a).procs[q].Inserting()
    ensures var t := Apply(s, a).procs[q].tuple;
      (q in s.procs && s.procs[q].Inserting() && s.procs[q].tuple == t) || a == Begin(q, InsertStart(t))
  {
    if !a.Crash? { ApplyAdvances(s, a); }
  }

  lemma StepNoneComing(s: State, a: Action, dead: set<Tid>)
    requires Inv(s) && Enabled(s, a) && NoneComing(s, dead) && BeginsAlive(a, dead)
    ensures NoneComing(Apply(s, a), dead)
  {
    var after := Apply(s, a);
    forall q | q in after.procs && after.procs[q].Inserting() ensures after.procs[q].tuple.tid !in dead {
      StaysInserting(s, a, q);
    }
  }

  lemma StepVacuuming(s: State, a: Action, pid: Pid, dead: set<Tid>)
    requires Inv(s) && Enabled(s, a) && Vacuuming(s, pid, dead) && BeginsAlive(a, dead)
    ensures Vacuuming(Apply(s, a), pid, dead)
  {
    StepNoneComing(s, a, dead);
    if Moves(a, pid) { OneStepVacuum(s, pid); } else if !a.Crash? { ApplyAdvances(s, a); }
    var after := Apply(s, a);
    forall b | 0 < b < |after.pages| && Swept(after.procs[pid], dead, b) ensures Clean(after.pages, b, dead) {
      StepKeepsClean(s, a, pid, dead, b);
    }
  }

  lemma {:induction false} RunVacuuming(s: State, run: seq<Action>, pid: Pid, dead: set<Tid>)
    requires Inv(s) && IsRun(s, run) && Vacuuming(s, pid, dead)
    requires forall i | 0 <= i < |run| :: BeginsAlive(run[i], dead)
    ensures Vacuuming(Last(s, run), pid, dead)
    decreases |run|
  {
    if run != [] {
      ApplyKeeps(s, run[0]);
      StepVacuuming(s, run[0], pid, dead);
      RunVacuuming(Apply(s, run[0]), run[1..], pid, dead);
    }
  }

  lemma DoneIsClean(s: State, pid: Pid, dead: set<Tid>, b: nat, t: BloomTuple)
    requires Vacuuming(s, pid, dead) && s.procs[pid].VacuumDone? && 0 < b && On(s.pages, b, t)
    ensures t.tid !in dead
  {
    assert Swept(s.procs[pid], dead, b);
    assert Clean(s.pages, b, dead);
  }

  /**
    When a vacuum ends no page of the index holds a tuple with a dead pointer, although inserters
    and other vacuums worked beside it, as long as nobody inserts a pointer that is being vacuumed.
   */
  lemma VacuumIsThorough(s: State, run: seq<Action>, pid: Pid, dead: set<Tid>)
    requires Inv(s) && IsRun(s, run) && pid in s.procs && s.procs[pid] == VacuumStart(dead) && NoneComing(s, dead)
    requires forall i | 0 <= i < |run| :: BeginsAlive(run[i], dead)
    ensures pid in Last(s, run).procs
    ensures Last(s, run).procs[pid].VacuumDone? ==>
              forall b, t | 0 < b && On(Last(s, run).pages, b, t) :: t.tid !in dead
  {
    RunVacuuming(s, run, pid, dead);
    var end := Last(s, run);
    if end.procs[pid].VacuumDone? {
      forall b, t | 0 < b && On(end.pages, b, t) ensures t.tid !in dead { DoneIsClean(end, pid, dead, b, t); }
    }
  }
}

/** The three passes of the heap check over one page: line pointers, update chains, and chain roots. */
module HeapChain {
  import opened Results
  import HeapXid

  const BLCKSZ := 8192
  const MIN_TUPLE_LEN := 24

  /** What the passes read of a tuple header. */
  datatype Tuple = Tuple(xmin: nat, updateXid: nat, heapOnly: bool, hotUpdated: bool, ctidBlock: nat, ctidOffset: nat)

  /** A line pointer; `check` is what the checks of the tuple itself find: is it clean, and the status of its xmin. */
  datatype LinePointer =
    | Unused
    | Dead
    | Redirect(to: nat)
    | Normal(off: nat, len: nat, tuple: Tuple, check: TupleCheck)

  datatype TupleCheck = TupleCheck(clean: bool, xminStatus: Option<HeapXid.Status>)

  datatype Corruption =
    | RedirectTooLow | RedirectTooHigh | RedirectToUnused | RedirectToDead | RedirectToRedirect
    | Misaligned | TooShort | PastPageEnd | TupleCorrupt
    | RedirectToNonHeapOnly | ChainsIntersect | HeapOnlyFromColdUpdate | ColdFromHotUpdate
    | InProgressUpdatedToCommitted | AbortedUpdatedToInProgress | AbortedUpdatedToCommitted
    | HeapOnlyRoot

  /** A page: offset numbers run from 1 to `Max()`; slot 0 is not used. */
  datatype HeapPage = HeapPage(blkno: nat, items: seq<LinePointer>) {
    predicate Wf() { |items| > 0 }

    function Max(): nat
      requires Wf()
    {
      |items| - 1
    }

    predicate Offset(o: nat) { 1 <= o < |items| }

    // ---- what the first pass looks at

    predicate RedirectFits(o: nat)
      requires Offset(o) && items[o].Redirect?
    {
      Offset(items[o].to) && items[items[o].to].Normal?
    }

    predicate HeaderFits(o: nat)
      requires Offset(o) && items[o].Normal?
    {
      items[o].off % 8 == 0 && items[o].len >= MIN_TUPLE_LEN && items[o].off + items[o].len <= BLCKSZ
    }

    predicate ItemFits(o: nat)
      requires Offset(o)
    {
      && (items[o].Redirect? ==> RedirectFits(o))
      && (items[o].Normal? ==> HeaderFits(o) && items[o].check.clean)
    }

    /** The line pointer can be examined: `lp_valid` */
    predicate Examinable(o: nat)
      requires Offset(o)
    {
      (items[o].Redirect? && RedirectFits(o)) || (items[o].Normal? && HeaderFits(o))
    }

    /** Where the line pointer leads on this page, or 0: `successor` */
    function Successor(o: nat): (n: nat)
      requires Offset(o)
      ensures n == 0 || Offset(n)
    {
      if !Examinable(o) then 0
      else if items[o].Redirect? then items[o].to
      else
        var t := items[o].tuple;
        if t.ctidBlock == blkno && t.ctidOffset != o && Offset(t.ctidOffset) then t.ctidOffset else 0
    }

    // ---- what the second pass looks at

    /** The line pointer and its successor belong to one update chain. */
    predicate Links(o: nat, n: nat)
      requires Offset(o)
    {
      && n != 0 && n == Successor(o) && Examinable(n)
      && (items[o].Redirect? ||
          (items[n].Normal? && items[o].tuple.updateXid != 0 && items[o].tuple.updateXid == items[n].tuple.xmin))
    }

    /** The link is sound: flags agree and the states of both transactions are possible. */
    predicate LinkFits(o: nat, n: nat, inProgress: nat -> bool)
      requires Offset(o) && Links(o, n)
    {
      if items[o].Redirect? then items[n].tuple.heapOnly
      else
        && (items[o].tuple.hotUpdated <==> items[n].tuple.heapOnly)
        && StatesFit(items[o].check.xminStatus, items[n].check.xminStatus, inProgress(items[o].tuple.xmin))
    }

    /** No line pointer before `o` links where `o` does, and the link of `o` is sound. */
    predicate LinkStepFits(o: nat, inProgress: nat -> bool)
      requires Offset(o)
    {
      var n := Successor(o);
      Links(o, n) ==> LinkFits(o, n, inProgress) && forall p | 1 <= p < o :: !Links(p, n)
    }

    // ---- what the third pass looks at

    predicate Known(o: nat)
      requires Offset(o)
    {
      Examinable(o) && items[o].Normal? && (items[o].check.xminStatus == Some(HeapXid.Committed) || items[o].check.xminStatus == Some(HeapXid.InProgress))
    }

    /** A heap-only tuple of a live transaction is not the root of a chain. */
    predicate RootFits(o: nat)
      requires Offset(o)
    {
      Known(o) && items[o].tuple.heapOnly ==> exists p | 1 <= p < |items| :: Links(p, o)
    }

    /** What it takes for the three passes to have nothing to report. */
    predicate Clean(inProgress: nat -> bool) {
      forall o | 1 <= o < |items| :: ItemFits(o) && LinkStepFits(o, inProgress) && RootFits(o)
    }
  }

  /** Can a tuple inserted by a transaction in state `curr` have been updated by one in state `next`? */
  predicate StatesFit(curr: Option<HeapXid.Status>, next: Option<HeapXid.Status>, stillInProgress: bool) {
    && !(curr == Some(HeapXid.InProgress) && next == Some(HeapXid.Committed) && stillInProgress)
    && !(curr == Some(HeapXid.Aborted) && (next == Some(HeapXid.InProgress) || next == Some(HeapXid.Committed)))
  }

  // ---------------------------------------------------------------- the passes

  class PageCheck {
    const page: HeapPage
    const inProgress: nat -> bool
    const successor: array<nat>
    const lpValid: array<bool>
    const predecessor: array<nat>
    var reports: seq<(nat, Corruption)>

    ghost predicate Valid()
      reads this
    {
      && page.Wf() && successor.Length == lpValid.Length == predecessor.Length == |page.items| && successor != predecessor
    }

    constructor (page: HeapPage, inProgress: nat -> bool)
      requires page.Wf()
      ensures Valid() && this.page == page && this.inProgress == inProgress && reports == []
      ensures fresh(successor) && fresh(lpValid) && fresh(predecessor)
      ensures forall n | 0 <= n < predecessor.Length :: predecessor[n] == 0
    {
      this.page, this.inProgress := page, inProgress;
      successor := new nat[|page.items|](_ => 0);
      lpValid := new bool[|page.items|](_ => false);
      predecessor := new nat[|page.items|](_ => 0);
      reports := [];
    }

    method Report(o: nat, c: Corruption)
      modifies this`reports
      ensures reports == old(reports) + [(o, c)]
    {
      reports := reports + [(o, c)];
    }

    /** One line pointer in the first pass. */
    method CheckItem(o: nat)
      requires Valid() && page.Offset(o)
      modifies this`reports, successor, lpValid
      ensures old(reports) <= reports && (reports == old(reports) <==> page.ItemFits(o))
      ensures lpValid[..] == old(lpValid[..])[o := page.Examinable(o)]
      ensures successor[..] == old(successor[..])[o := page.Successor(o)]
    {
      successor[o], lpValid[o] := 0, false;
      match page.items[o]
      case Unused =>
      case Dead =>
      case Redirect(to) =>
        if to < 1 { Report(o, RedirectTooLow); return; }
        if to > page.Max() { Report(o, RedirectTooHigh); return; }
        match page.items[to] {
          case Unused => Report(o, RedirectToUnused);
          case Dead => Report(o, RedirectToDead);
          case Redirect(_) => Report(o, RedirectToRedirect);
          case Normal(_, _, _, _) => lpValid[o], successor[o] := true, to;
        }
      case Normal(off, len, tuple, check) =>
        if off % 8 != 0 { Report(o, Misaligned); return; }
        if len < MIN_TUPLE_LEN { Report(o, TooShort); return; }
        if off + len > BLCKSZ { Report(o, PastPageEnd); return; }
        lpValid[o] := true;
        if !check.clean { Report(o, TupleCorrupt); }
        if tuple.ctidBlock == page.blkno && tuple.ctidOffset != o && tuple.ctidOffset >= 1 && tuple.ctidOffset <= page.Max() {
          successor[o] := tuple.ctidOffset;
        }
    }

    ghost predicate Surveyed(upTo: nat)
      requires Valid() && upTo <= |page.items|
      reads this, successor, lpValid
    {
      forall o | 1 <= o < upTo :: lpValid[o] == page.Examinable(o) && successor[o] == page.Successor(o)
    }

    method FirstPass()
      requires Valid()
      modifies this`reports, successor, lpValid
      ensures Surveyed(|page.items|)
      ensures old(reports) <= reports
      ensures reports == old(reports) <==> forall o | 1 <= o < |page.items| :: page.ItemFits(o)
    {
      for o := 1 to |page.items|
        invariant Surveyed(o) && old(reports) <= reports
        invariant reports == old(reports) <==> forall p | 1 <= p < o :: page.ItemFits(p)
      {
        CheckItem(o);
      }
    }

    /** `predecessor` has the first line pointer before `o` that links to a tuple. */
    ghost predicate Traced(o: nat)
      requires Valid() && 1 <= o <= |page.items|
      reads this, predecessor
    {
      forall n | 1 <= n < |page.items| :: TracedTo(predecessor[n], o, n)
    }

    ghost predicate TracedTo(first: nat, o: nat, n: nat)
      requires Valid() && 1 <= o <= |page.items|
      reads this
    {
      if first == 0 then forall p | 1 <= p < o :: !page.Links(p, n) else first < o && page.Links(first, n)
    }

    /** The checks of two linked tuples against each other. */
    method CheckTuples(o: nat, n: nat)
      requires Valid() && page.Offset(o) && page.items[o].Normal? && page.Links(o, n)
      modifies this`reports
      ensures old(reports) <= reports && (reports == old(reports) <==> page.LinkFits(o, n, inProgress))
    {
      var curr, next := page.items[o], page.items[n];
      if !curr.tuple.hotUpdated && next.tuple.heapOnly { Report(o, HeapOnlyFromColdUpdate); }
      if curr.tuple.hotUpdated && !next.tuple.heapOnly { Report(o, ColdFromHotUpdate); }
      var s1, s2 := curr.check.xminStatus, next.check.xminStatus;
      if s1 == Some(HeapXid.InProgress) && s2 == Some(HeapXid.Committed) && inProgress(curr.tuple.xmin) {
        Report(o, InProgressUpdatedToCommitted);
      }
      if s1 == Some(HeapXid.Aborted) && s2.Some? {
        if s2.value.InProgress? { Report(o, AbortedUpdatedToInProgress); }
        else if s2.value.Committed? { Report(o, AbortedUpdatedToCommitted); }
      }
    }

    /** One line pointer in the second pass. */
    method CheckLink(o: nat)
      requires Valid() && page.Offset(o) && Surveyed(|page.items|) && Traced(o)
      modifies this`reports, predecessor
      ensures Traced(o + 1)
      ensures old(reports) <= reports && (reports == old(reports) <==> page.LinkStepFits(o, inProgress))
    {
      var n := successor[o];
      if n == 0 || !lpValid[n] { return; }
      if page.items[o].Redirect? {
        if !page.items[n].tuple.heapOnly { Report(o, RedirectToNonHeapOnly); }
        if predecessor[n] != 0 {
          Report(o, ChainsIntersect);
          return;
        }
        predecessor[n] := o;
        return;
      }
      if page.items[n].Redirect? { return; }
      var xmax, xmin := page.items[o].tuple.updateXid, page.items[n].tuple.xmin;
      if xmax == 0 || xmax != xmin { return; }
      if predecessor[n] != 0 {
        Report(o, ChainsIntersect);
        return;
      }
      predecessor[n] := o;
      CheckTuples(o, n);
    }

    method SecondPass()
      requires Valid() && Surveyed(|page.items|) && Traced(1)
      modifies this`reports, predecessor
      ensures Traced(|page.items|)
      ensures old(reports) <= reports
      ensures reports == old(reports) <==> forall o | 1 <= o < |page.items| :: page.LinkStepFits(o, inProgress)
    {
      for o := 1 to |page.items|
        invariant Traced(o) && old(reports) <= reports
        invariant reports == old(reports) <==> forall p | 1 <= p < o :: page.LinkStepFits(p, inProgress)
      {
        CheckLink(o);
      }
    }

    method ThirdPass()
      requires Valid() && Traced(|page.items|)
      modifies this`reports
      ensures old(reports) <= reports
      ensures reports == old(reports) <==> forall o | 1 <= o < |page.items| :: page.RootFits(o)
    {
      for o := 1 to |page.items|
        invariant old(reports) <= reports
        invariant reports == old(reports) <==> forall p | 1 <= p < o :: page.RootFits(p)
      {
        assert TracedTo(predecessor[o], |page.items|, o);
        assert predecessor[o] != 0 ==> page.Links(predecessor[o], o);
        assert page.RootFits(o) <==> !(page.Known(o) && page.items[o].tuple.heapOnly && predecessor[o] == 0);
        if page.Known(o) && predecessor[o] == 0 && page.items[o].tuple.heapOnly { Report(o, HeapOnlyRoot); }
      }
    }
  }

  /** The three passes over a page report nothing if and only if the page is clean. */
  method CheckPage(page: HeapPage, inProgress: nat -> bool) returns (reports: seq<(nat, Corruption)>)
    requires page.Wf()
    ensures reports == [] <==> page.Clean(inProgress)
  {
    var c := new PageCheck(page, inProgress);
    c.FirstPass();
    c.SecondPass();
    c.ThirdPass();
    reports := c.reports;
  }

  /** On a clean page no two line pointers link to one tuple. */
  lemma LinksAreUnique(page: HeapPage, inProgress: nat -> bool, p: nat, q: nat, n: nat)
    requires page.Wf() && page.Clean(inProgress) && page.Offset(p) && page.Offset(q) && page.Links(p, n) && page.Links(q, n)
    ensures p == q
  {
    assert page.LinkStepFits(p, inProgress) && page.LinkStepFits(q, inProgress);
  }

  /**
    On a clean page a heap-only tuple whose xmin is committed or in progress has exactly one
    predecessor: a redirect, or a HOT-updated tuple whose update xid is that xmin.
   */
  lemma HeapOnlyHasOnePredecessor(page: HeapPage, inProgress: nat -> bool, n: nat) returns (p: nat)
    requires page.Wf() && page.Clean(inProgress) && page.Offset(n) && page.Known(n) && page.items[n].tuple.heapOnly
    ensures page.Offset(p) && page.Links(p, n) && forall q: nat | page.Offset(q) && page.Links(q, n) :: q == p
    ensures page.items[p].Redirect? || (page.items[p].tuple.hotUpdated && page.items[p].tuple.updateXid == page.items[n].tuple.xmin)
  {
    assert page.RootFits(n);
    p :| 1 <= p < |page.items| && page.Links(p, n);
    assert page.LinkStepFits(p, inProgress);
    forall q: nat | page.Offset(q) && page.Links(q, n) ensures q == p { LinksAreUnique(page, inProgress, p, q, n); }
  }

  // ---------------------------------------------------------------- where chains start

  predicate HeapOnlyAt(page: HeapPage, n: nat) {
    page.Offset(n) && page.Examinable(n) && page.items[n].Normal? && page.items[n].tuple.heapOnly
  }

  /** A chain may start here: at a redirect, or at a tuple that is not heap-only. */
  predicate IsStart(page: HeapPage, n: nat) { page.Offset(n) && page.Examinable(n) && !HeapOnlyAt(page, n) }

  /** The line pointer that links to `n`, or 0. */
  ghost function Before(page: HeapPage, n: nat): (p: nat)
    ensures if p == 0 then forall q | 1 <= q < |page.items| :: !page.Links(q, n) else page.Offset(p) && page.Links(p, n)
  {
    if q: nat :| 1 <= q < |page.items| && page.Links(q, n) then q else 0
  }

  /** Going back `k` links from a heap-only tuple; 0 once a start is passed, or when there is no link. */
  ghost function BackN(page: HeapPage, n: nat, k: nat): nat
    decreases k
  {
    if k == 0 then n else if HeapOnlyAt(page, n) then BackN(page, Before(page, n), k - 1) else 0
  }

  ghost predicate Rooted(page: HeapPage, n: nat) { exists k: nat :: IsStart(page, BackN(page, n, k)) }

  /** Going back leads to the tuple itself. */
  ghost predicate Circular(page: HeapPage, n: nat) { exists k: nat :: k > 0 && BackN(page, n, k) == n }

  /** Going back ends at a heap-only tuple that nothing links to. */
  ghost predicate Stray(page: HeapPage, n: nat) { exists k: nat :: EndsAt(page, BackN(page, n, k)) }

  ghost predicate EndsAt(page: HeapPage, p: nat) { HeapOnlyAt(page, p) && Before(page, p) == 0 }

  lemma {:induction false} BackNAdds(page: HeapPage, n: nat, j: nat, k: nat)
    ensures BackN(page, n, j + k) == BackN(page, BackN(page, n, j), k)
    decreases j
  {
    if j > 0 {
      if HeapOnlyAt(page, n) { BackNAdds(page, Before(page, n), j - 1, k); } else { BackOfNothing(page, k); }
    }
  }

  lemma {:induction false} BackOfNothing(page: HeapPage, k: nat)
    ensures BackN(page, 0, k) == 0
  {
  }

  /** What is not heap-only has nothing before it in its chain. */
  lemma NothingPast(page: HeapPage, n: nat, j: nat, k: nat)
    requires j < k && (!HeapOnlyAt(page, BackN(page, n, j)) || EndsAt(page, BackN(page, n, j)))
    ensures BackN(page, n, k) == 0
  {
    BackNAdds(page, n, j, k - j);
    BackOfNothing(page, k - j - 1);
  }

  lemma {:induction false} CircleGoesOn(page: HeapPage, n: nat, k: nat, times: nat)
    requires BackN(page, n, k) == n
    ensures BackN(page, n, times * k) == n
    decreases times
  {
    if times > 0 {
      CircleGoesOn(page, n, k, times - 1);
      BackNAdds(page, n, (times - 1) * k, k);
      assert (times - 1) * k + k == times * k;
    }
  }

  /** While going back meets no start and no end, it stays at heap-only tuples. */
  lemma {:induction false} StaysHeapOnly(page: HeapPage, n: nat, k: nat)
    requires HeapOnlyAt(page, n) && !Rooted(page, n) && !Stray(page, n)
    ensures HeapOnlyAt(page, BackN(page, n, k))
  {
    if k > 0 {
      StaysHeapOnly(page, n, k - 1);
      BackNAdds(page, n, k - 1, 1);
      var b := BackN(page, n, k - 1);
      assert !EndsAt(page, b);
      assert BackN(page, b, 1) == Before(page, b);
      assert !IsStart(page, BackN(page, n, k));
    }
  }

  /** A link leads to one place, so going back to the same place twice means going in a circle. */
  lemma {:induction false} Rewind(page: HeapPage, n: nat, i: nat, j: nat)
    requires i < j && BackN(page, n, i) == BackN(page, n, j) && HeapOnlyAt(page, BackN(page, n, i))
    ensures BackN(page, n, j - i) == n
    decreases i
  {
    if i > 0 {
      BackNAdds(page, n, i - 1, 1);
      BackNAdds(page, n, j - 1, 1);
      var a, b := BackN(page, n, i - 1), BackN(page, n, j - 1);
      assert BackN(page, a, 1) == (if HeapOnlyAt(page, a) then Before(page, a) else 0);
      assert BackN(page, b, 1) == (if HeapOnlyAt(page, b) then Before(page, b) else 0);
      Rewind(page, n, i - 1, j - 1);
    }
  }

  function NatsBelow(m: nat): (s: set<nat>)
    ensures |s| == m && forall x: nat :: x in s <==> x < m
  {
    if m == 0 then {} else NatsBelow(m - 1) + {m - 1}
  }

  lemma ReturnsOrEnds(page: HeapPage, n: nat)
    requires HeapOnlyAt(page, n) && !Rooted(page, n) && !Stray(page, n)
    ensures Circular(page, n)
  {
    var m := |page.items| + 1;
    var walk := seq(m, k requires 0 <= k < m => BackN(page, n, k));
    forall k | 0 <= k < m ensures walk[k] in NatsBelow(|page.items|) { StaysHeapOnly(page, n, k); }
    if Distinct(walk) {
      DistinctFits(walk, NatsBelow(|page.items|));
      assert false;
    }
    var i, j :| 0 <= i < j < m && walk[i] == walk[j];
    StaysHeapOnly(page, n, i);
    Rewind(page, n, i, j);
  }

  /**
    The chain of a heap-only tuple starts at a redirect or at a tuple that is not heap-only, if and
    only if it does not go in a circle and does not end at a heap-only tuple without a predecessor.
   */
  lemma RootedIff(page: HeapPage, n: nat)
    requires HeapOnlyAt(page, n)
    ensures Rooted(page, n) <==> !Circular(page, n) && !Stray(page, n)
  {
    if Rooted(page, n) {
      var k: nat :| IsStart(page, BackN(page, n, k));
      if Stray(page, n) {
        var j: nat :| EndsAt(page, BackN(page, n, j));
        if j < k { NothingPast(page, n, j, k); } else if k < j { NothingPast(page, n, k, j); }
        assert false;
      }
      if Circular(page, n) {
        var j: nat :| j > 0 && BackN(page, n, j) == n;
        CircleGoesOn(page, n, j, k + 1);
        assert (k + 1) * j >= k + 1;
        NothingPast(page, n, k, (k + 1) * j);
        assert false;
      }
    } else if !Stray(page, n) {
      ReturnsOrEnds(page, n);
    }
  }

  /** The status of every heap-only tuple is one that the third pass looks at. */
  predicate AllKnown(page: HeapPage) { forall n | 1 <= n < |page.items| && HeapOnlyAt(page, n) :: page.Known(n) }

  /** On a clean page with nothing else than live heap-only tuples, only a circle has no start. */
  lemma CleanIsRootedIff(page: HeapPage, inProgress: nat -> bool, n: nat)
    requires page.Wf() && page.Clean(inProgress) && AllKnown(page) && HeapOnlyAt(page, n)
    ensures Rooted(page, n) <==> !Circular(page, n)
  {
    RootedIff(page, n);
    forall k: nat ensures !EndsAt(page, BackN(page, n, k)) {
      var p := BackN(page, n, k);
      if HeapOnlyAt(page, p) { assert page.RootFits(p); }
    }
  }

  /** Every heap-only tuple that was updated was updated by a later transaction than it was inserted by. */
  predicate Rising(page: HeapPage) {
    forall o | 1 <= o < |page.items| && HeapOnlyAt(page, o) ::
      page.items[o].tuple.updateXid != 0 ==> page.items[o].tuple.xmin < page.items[o].tuple.updateXid
  }

  lemma {:induction false} XminFalls(page: HeapPage, n: nat, k: nat)
    requires Rising(page) && HeapOnlyAt(page, n) && k > 0 && HeapOnlyAt(page, BackN(page, n, k))
    ensures page.items[BackN(page, n, k)].tuple.xmin < page.items[n].tuple.xmin
    decreases k
  {
    var p := Before(page, n);
    BackNAdds(page, n, 1, k - 1);
    assert BackN(page, n, 1) == p;
    if k > 1 { XminFalls(page, p, k - 1); }
  }

  /** When updates come from later transactions every chain has its start. */
  lemma RisingIsRooted(page: HeapPage, inProgress: nat -> bool, n: nat)
    requires page.Wf() && page.Clean(inProgress) && AllKnown(page) && Rising(page) && HeapOnlyAt(page, n)
    ensures Rooted(page, n)
  {
    CleanIsRootedIff(page, inProgress, n);
    if Circular(page, n) {
      var k: nat :| k > 0 && BackN(page, n, k) == n;
      XminFalls(page, n, k);
      assert false;
    }
  }

  /** Two heap-only tuples that are each other's new version. */
  const CIRCLE := HeapPage(0, [
    Unused,
    Normal(8128, 64, Tuple(10, 11, true, true, 0, 2), TupleCheck(true, Some(HeapXid.Committed))),
    Normal(8064, 64, Tuple(11, 10, true, true, 0, 1), TupleCheck(true, Some(HeapXid.Committed)))])

  lemma CircleIsClean(inProgress: nat -> bool)
    ensures CIRCLE.Clean(inProgress) && AllKnown(CIRCLE) && HeapOnlyAt(CIRCLE, 1) && HeapOnlyAt(CIRCLE, 2)
    ensures CIRCLE.Links(1, 2) && CIRCLE.Links(2, 1)
  {
    assert CIRCLE.Links(1, 2) && CIRCLE.Links(2, 1);
    forall o | 1 <= o < |CIRCLE.items|
      ensures CIRCLE.ItemFits(o) && CIRCLE.LinkStepFits(o, inProgress) && CIRCLE.RootFits(o)
    {
      assert CIRCLE.Links(3 - o, o) && CIRCLE.Successor(o) == 3 - o;
    }
  }

  /** The three passes report nothing, and neither tuple has a start. */
  method CircleIsAccepted(inProgress: nat -> bool) returns (reports: seq<(nat, Corruption)>)
    ensures reports == [] && CIRCLE.Known(1) && HeapOnlyAt(CIRCLE, 1) && !Rooted(CIRCLE, 1)
  {
    CircleIsClean(inProgress);
    CircleTurns(inProgress);
    CleanIsRootedIff(CIRCLE, inProgress, 1);
    reports := CheckPage(CIRCLE, inProgress);
  }

  lemma CircleTurns(inProgress: nat -> bool)
    ensures HeapOnlyAt(CIRCLE, 1) && Circular(CIRCLE, 1)
  {
    CircleIsClean(inProgress);
    LinksAreUnique(CIRCLE, inProgress, Before(CIRCLE, 1), 2, 1);
    LinksAreUnique(CIRCLE, inProgress, Before(CIRCLE, 2), 1, 2);
    assert BackN(CIRCLE, 2, 1) == 1 && BackN(CIRCLE, 1, 2) == 1;
  }
}

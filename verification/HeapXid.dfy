/** Transaction ids in the heap check: 32-bit ids widened to 64 bits, and the test of their bounds. */
module HeapXid {
  import opened Results

  const TWO31 := 0x8000_0000
  const TWO32 := 0x1_0000_0000
  const TWO64 := 0x1_0000_0000_0000_0000
  const FIRST_NORMAL := 3

  type Xid = x: int | 0 <= x < 0x1_0000_0000
  type FullXid = f: int | 0 <= f < 0x1_0000_0000_0000_0000

  function Truncate(f: FullXid): Xid { f % TWO32 }

  predicate IsNormal(x: Xid) { x >= FIRST_NORMAL }

  /** The difference of two ids as an int32. */
  function Diff32(next: Xid, x: Xid): int { var d := (next - x) % TWO32; if d >= TWO31 then d - TWO32 else d }

  /** `FullTransactionIdFromXidAndCtx` */
  function Widen(x: Xid, next: FullXid): FullXid {
    if !IsNormal(x) then x
    else
      var diff := Diff32(Truncate(next), x);
      if diff > 0 && (next - FIRST_NORMAL) % TWO64 < diff then FIRST_NORMAL else (next - diff) % TWO64
  }

  /** `f` is the id that a 32-bit id near `next` stands for. */
  predicate InWindow(f: FullXid, next: FullXid) { -TWO31 <= next - f < TWO31 }

  lemma DiffIsDistance(f: FullXid, next: FullXid)
    requires InWindow(f, next)
    ensures Diff32(Truncate(next), Truncate(f)) == next - f
  {
  }

  /** Widening inverts truncation for every normal id near `next`, and never clamps it. */
  lemma WidenInvertsTruncate(f: FullXid, next: FullXid)
    requires InWindow(f, next) && IsNormal(Truncate(f)) && next >= FIRST_NORMAL
    ensures Widen(Truncate(f), next) == f
  {
    DiffIsDistance(f, next);
    assert f >= FIRST_NORMAL;
  }

  /**
    Conversely, the result is the near id that truncates to `x`, if there is one, and then it is the
    only one; it is the clamp if that id would lie before the first.
   */
  lemma WidenIsNear(x: Xid, next: FullXid)
    requires IsNormal(x) && next >= FIRST_NORMAL
    ensures var g := next - Diff32(Truncate(next), x);
      if 0 <= g < TWO64
      then Widen(x, next) == g && InWindow(g, next) && Truncate(g) == x
      else (forall h: FullXid :: InWindow(h, next) ==> Truncate(h) != x) && (g < 0 ==> Widen(x, next) == FIRST_NORMAL)
  {
    var g := next - Diff32(Truncate(next), x);
    TruncateShift(x, next);
    if 0 <= g < TWO64 {
      WidenInvertsTruncate(g, next);
    } else {
      forall h: FullXid | InWindow(h, next) ensures Truncate(h) != x {
        if Truncate(h) == x { DiffIsDistance(h, next); }
      }
    }
  }

  lemma TruncateShift(x: Xid, next: FullXid)
    ensures -TWO31 <= Diff32(Truncate(next), x) < TWO31
    ensures (next - Diff32(Truncate(next), x)) % TWO32 == x
  {
  }

  // ---------------------------------------------------------------- bounds

  datatype Bounds = BoundsOk | Invalid | InFuture | PrecedesClusterMin | PrecedesRelMin

  datatype Status = Committed | IsCurrent | InProgress | Aborted

  /** What the server knows: the shared counters, and the state of every transaction. */
  datatype Shared = Shared(nextXid: FullXid, oldestXid: Xid, oldestClogXid: Xid,
                           current: Xid -> bool, inProgress: Xid -> bool, didCommit: Xid -> bool)

  predicate Sane(shared: Shared) { IsNormal(Truncate(shared.nextXid)) }

  /** The commit status of an id that is in bounds; below the clog horizon everything counts as committed. */
  function StatusOf(x: Xid, f: FullXid, next: FullXid, shared: Shared): Status {
    if Widen(shared.oldestClogXid, next) <= f then
      if shared.current(x) then IsCurrent
      else if shared.inProgress(x) then InProgress
      else if shared.didCommit(x) then Committed
      else Aborted
    else Committed
  }

  /** The verdict on a widened id. */
  function BoundsOf(f: FullXid, next: FullXid, oldest: FullXid, relfrozen: FullXid): Bounds {
    if next <= f then InFuture
    else if f < oldest then PrecedesClusterMin
    else if f < relfrozen then PrecedesRelMin
    else BoundsOk
  }

  class HeapCheckContext {
    const relfrozen: FullXid
    var nextFull: FullXid
    var oldestFull: FullXid
    var oldestXid: Xid
    var cachedXid: Xid
    var cachedStatus: Status

    constructor (relfrozen: FullXid, shared: Shared)
      requires Sane(shared)
      ensures nextFull == shared.nextXid && oldestFull == Widen(shared.oldestXid, shared.nextXid)
      ensures this.relfrozen == relfrozen && cachedXid == 0
    {
      this.relfrozen := relfrozen;
      nextFull, oldestXid, oldestFull := shared.nextXid, shared.oldestXid, Widen(shared.oldestXid, shared.nextXid);
      cachedXid, cachedStatus := 0, Committed;
    }

    /** `update_cached_xid_range` */
    method UpdateCachedXidRange(shared: Shared)
      modifies this`nextFull, this`oldestXid, this`oldestFull
      ensures nextFull == shared.nextXid && oldestXid == shared.oldestXid && oldestFull == Widen(shared.oldestXid, shared.nextXid)
    {
      nextFull, oldestXid := shared.nextXid, shared.oldestXid;
      oldestFull := Widen(oldestXid, nextFull);
    }

    /** `fxid_in_cached_range` */
    predicate InCachedRange(f: FullXid)
      reads this
    {
      oldestFull <= f < nextFull
    }

    /**
      `get_xid_status`.  A normal id is judged by its widened form, against the cached range or,
      when it lies outside of that, against the range of now.
     */
    method GetXidStatus(x: Xid, shared: Shared, wantStatus: bool) returns (r: Bounds, status: Option<Status>)
      modifies this`nextFull, this`oldestXid, this`oldestFull, this`cachedXid, this`cachedStatus
      ensures x == 0 ==> r == Invalid && unchanged(this)
      ensures x == 1 || x == 2 ==> r == BoundsOk && status == (if wantStatus then Some(Committed) else None) && unchanged(this)
      ensures IsNormal(x) ==>
        if old(InCachedRange(Widen(x, nextFull)))
        then unchanged(this`nextFull, this`oldestFull)
        else nextFull == shared.nextXid && oldestFull == Widen(shared.oldestXid, shared.nextXid)
      ensures IsNormal(x) ==> r == BoundsOf(Widen(x, nextFull), nextFull, oldestFull, relfrozen)
      ensures IsNormal(x) ==> (r == BoundsOk <==> oldestFull <= Widen(x, nextFull) < nextFull && relfrozen <= Widen(x, nextFull))
      ensures status.Some? <==> wantStatus && r == BoundsOk
      ensures status.Some? && IsNormal(x) ==>
        status.value == (if x == old(cachedXid) then old(cachedStatus) else StatusOf(x, Widen(x, nextFull), nextFull, shared))
      ensures status.Some? && IsNormal(x) ==> cachedXid == x && cachedStatus == status.value
      ensures status.None? ==> unchanged(this`cachedXid, this`cachedStatus)
    {
      status := None;
      if x == 0 { return Invalid, None; }
      if x == 1 || x == 2 { return BoundsOk, if wantStatus then Some(Committed) else None; }
      var f := Widen(x, nextFull);
      if !InCachedRange(f) {
        UpdateCachedXidRange(shared);
        f := Widen(x, nextFull);
      }
      if nextFull <= f { return InFuture, None; }
      if f < oldestFull { return PrecedesClusterMin, None; }
      if f < relfrozen { return PrecedesRelMin, None; }
      if !wantStatus { return BoundsOk, None; }
      if x == cachedXid { return BoundsOk, Some(cachedStatus); }
      var s := Committed;
      var horizon := Widen(shared.oldestClogXid, nextFull);
      if horizon <= f {
        s := if shared.current(x) then IsCurrent
             else if shared.inProgress(x) then InProgress
             else if shared.didCommit(x) then Committed
             else Aborted;
      }
      cachedXid, cachedStatus := x, s;
      return BoundsOk, Some(s);
    }
  }

  /** The widened id is the one that `x` is short for, unless it was clamped. */
  lemma TruncateOfWiden(x: Xid, next: FullXid)
    requires IsNormal(x) && next >= FIRST_NORMAL
    ensures Truncate(Widen(x, next)) == x <==> x == FIRST_NORMAL || Diff32(Truncate(next), x) <= next
  {
    var g := next - Diff32(Truncate(next), x);
    WidenIsNear(x, next);
    if g >= TWO64 {
      TruncateShift(x, next);
      assert Widen(x, next) == g - TWO64;
      SameLowHalf(g);
    }
  }

  lemma SameLowHalf(g: int)
    ensures (g - TWO64) % TWO32 == g % TWO32
  {
    assert g - TWO64 == g % TWO32 + (g / TWO32 - TWO32) * TWO32;
  }

  /**
    Every id that counts as in bounds is a real one if and only if a limit is past the first normal
    id, or there is no id yet, or there are so many that no id can lie before the first.
   */
  lemma InBoundsIsRealIff(next: FullXid, oldest: FullXid, relfrozen: FullXid)
    requires next >= FIRST_NORMAL
    ensures (forall x: Xid | IsNormal(x) && BoundsOf(Widen(x, next), next, oldest, relfrozen) == BoundsOk ::
              Truncate(Widen(x, next)) == x)
            <==> oldest > FIRST_NORMAL || relfrozen > FIRST_NORMAL || next == FIRST_NORMAL || next >= TWO31 - 1
  {
    if oldest > FIRST_NORMAL || relfrozen > FIRST_NORMAL || next == FIRST_NORMAL || next >= TWO31 - 1 {
      forall x: Xid | IsNormal(x) && BoundsOf(Widen(x, next), next, oldest, relfrozen) == BoundsOk
        ensures Truncate(Widen(x, next)) == x
      {
        TruncateOfWiden(x, next);
        WidenIsNear(x, next);
      }
    } else {
      ClampIsInBounds(next, oldest, relfrozen);
    }
  }

  /** In a young cluster the largest id, from before its time, is clamped into the bounds. */
  lemma ClampIsInBounds(next: FullXid, oldest: FullXid, relfrozen: FullXid)
    requires FIRST_NORMAL < next < TWO31 - 1 && oldest <= FIRST_NORMAL && relfrozen <= FIRST_NORMAL
    ensures var x := TWO32 - 1;
      BoundsOf(Widen(x, next), next, oldest, relfrozen) == BoundsOk && Truncate(Widen(x, next)) != x
  {
    TruncateOfWiden(TWO32 - 1, next);
  }
}

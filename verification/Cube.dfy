/** Boxes of any dimension: union, containment and overlap; a missing dimension counts as zero. */
module Cube {
  function Min(a: real, b: real): real { if a < b then a else b }

  function Max(a: real, b: real): real { if a > b then a else b }

  function MaxNat(a: nat, b: nat): nat { if a > b then a else b }

  /** `NDBOX`: lower left coordinates, then upper right ones unless the box is flagged as a point. */
  datatype NDBOX = NDBOX(dim: nat, point: bool, x: seq<real>) {
    predicate Valid() { |x| == if point then dim else 2 * dim }

    /** `LL_COORD` and `UR_COORD`; the two need not be in order. */
    function LL(i: nat): real
      requires Valid() && i < dim
    {
      x[i]
    }

    function UR(i: nat): real
      requires Valid() && i < dim
    {
      if point then x[i] else x[i + dim]
    }

    /** The interval of dimension `i`. */
    function Lo(i: nat): real
      requires Valid()
    {
      if i < dim then Min(LL(i), UR(i)) else 0.0
    }

    function Hi(i: nat): (h: real)
      requires Valid()
      ensures Lo(i) <= h
    {
      if i < dim then Max(LL(i), UR(i)) else 0.0
    }
  }

  type Box = b: NDBOX | b.Valid() witness NDBOX(0, false, [])

  /** The interval of `k` encloses that of `l` in dimension `i`. */
  predicate Encloses(k: Box, l: Box, i: nat) { k.Lo(i) <= l.Lo(i) && l.Hi(i) <= k.Hi(i) }

  /** `k` has at least the dimensions of `l`, and encloses it in all of them. */
  ghost predicate Covers(k: Box, l: Box) { l.dim <= k.dim && forall i: nat :: Encloses(k, l, i) }

  lemma CoversTransitive(a: Box, b: Box, c: Box)
    requires Covers(a, b) && Covers(b, c)
    ensures Covers(a, c)
  {
    forall i: nat ensures Encloses(a, c, i) { assert Encloses(a, b, i) && Encloses(b, c, i); }
  }

  // ---------------------------------------------------------------- union

  /** `r` is the smallest box around `a` and `b`. */
  ghost predicate IsUnion(r: Box, a: Box, b: Box) {
    r.dim == MaxNat(a.dim, b.dim) && forall i: nat :: UnionAt(r, a, b, i)
  }

  predicate UnionAt(r: Box, a: Box, b: Box, i: nat) { r.Lo(i) == Min(a.Lo(i), b.Lo(i)) && r.Hi(i) == Max(a.Hi(i), b.Hi(i)) }

  /** `cube_is_point_internal` on coordinates with both corners */
  method IsPoint(x: seq<real>, dim: nat) returns (r: bool)
    requires |x| == 2 * dim
    ensures r <==> forall i | 0 <= i < dim :: x[i] == x[i + dim]
  {
    for i := 0 to dim
      invariant forall j | 0 <= j < i :: x[j] == x[j + dim]
    {
      if x[i] != x[i + dim] { return false; }
    }
    return true;
  }

  /** The coordinates that the loops of `cube_union_v0` write, for `a` with at least the dimensions of `b`. */
  method UnionCoords(a: Box, b: Box) returns (x: array<real>)
    requires b.dim <= a.dim
    ensures fresh(x) && x.Length == 2 * a.dim
    ensures forall i | 0 <= i < a.dim :: x[i] == Min(a.Lo(i), b.Lo(i)) && x[i + a.dim] == Max(a.Hi(i), b.Hi(i))
  {
    var dim := a.dim;
    x := new real[2 * dim](_ => 0.0);
    var i := 0;
    while i < b.dim
      invariant i <= b.dim
      invariant forall j | 0 <= j < i :: x[j] == Min(a.Lo(j), b.Lo(j)) && x[j + dim] == Max(a.Hi(j), b.Hi(j))
    {
      x[i] := Min(Min(a.LL(i), a.UR(i)), Min(b.LL(i), b.UR(i)));
      x[i + dim] := Max(Max(a.LL(i), a.UR(i)), Max(b.LL(i), b.UR(i)));
      i := i + 1;
    }
    while i < dim
      invariant b.dim <= i <= dim
      invariant forall j | 0 <= j < i :: x[j] == Min(a.Lo(j), b.Lo(j)) && x[j + dim] == Max(a.Hi(j), b.Hi(j))
    {
      x[i] := Min(0.0, Min(a.LL(i), a.UR(i)));
      x[i + dim] := Max(0.0, Max(a.LL(i), a.UR(i)));
      i := i + 1;
    }
  }

  /** `cube_union_v0`; `same` says that both arguments are one and the same object. */
  method Union(a0: Box, b0: Box, same: bool) returns (r: Box)
    requires same ==> a0 == b0
    ensures IsUnion(r, a0, b0)
  {
    if same { return a0; }
    var a, b := a0, b0;
    if a.dim < b.dim { a, b := b0, a0; }
    var x := UnionCoords(a, b);
    var isPoint := IsPoint(x[..], a.dim);
    r := if isPoint then NDBOX(a.dim, true, x[..a.dim]) else NDBOX(a.dim, false, x[..]);
    forall i: nat ensures UnionAt(r, a0, b0, i) {
      if i < a.dim { assert x[i] == Min(a.Lo(i), b.Lo(i)) && x[i + a.dim] == Max(a.Hi(i), b.Hi(i)); }
    }
  }

  lemma UnionCovers(r: Box, a: Box, b: Box)
    requires IsUnion(r, a, b)
    ensures Covers(r, a) && Covers(r, b)
  {
    forall i: nat ensures Encloses(r, a, i) && Encloses(r, b, i) { assert UnionAt(r, a, b, i); }
  }

  /** No box with these two inside is smaller. */
  lemma UnionIsLeast(r: Box, a: Box, b: Box, k: Box)
    requires IsUnion(r, a, b) && Covers(k, a) && Covers(k, b)
    ensures Covers(k, r)
  {
    forall i: nat ensures Encloses(k, r, i) { assert UnionAt(r, a, b, i) && Encloses(k, a, i) && Encloses(k, b, i); }
  }

  /** `g_cube_union`: the box around all entries. */
  method UnionAll(entries: seq<Box>) returns (out: Box)
    requires |entries| >= 2
    ensures forall j | 0 <= j < |entries| :: Covers(out, entries[j])
    ensures forall k: Box :: (forall j | 0 <= j < |entries| :: Covers(k, entries[j])) ==> Covers(k, out)
  {
    out := entries[0];
    assert forall i: nat :: Encloses(out, out, i);
    for n := 1 to |entries|
      invariant forall j | 0 <= j < n :: Covers(out, entries[j])
      invariant forall k: Box :: (forall j | 0 <= j < |entries| :: Covers(k, entries[j])) ==> Covers(k, out)
    {
      var before := out;
      out := Union(before, entries[n], false);
      UnionCovers(out, before, entries[n]);
      forall j | 0 <= j < n ensures Covers(out, entries[j]) { CoversTransitive(out, before, entries[j]); }
      forall k: Box | (forall j | 0 <= j < |entries| :: Covers(k, entries[j])) ensures Covers(k, out) {
        UnionIsLeast(out, before, entries[n], k);
      }
    }
  }

  // ---------------------------------------------------------------- comparison, containment, overlap

  predicate SameAt(a: Box, b: Box, i: nat) { a.Lo(i) == b.Lo(i) && a.Hi(i) == b.Hi(i) }

  /** Containment looks at the dimensions of `b`; those that `a` lacks must be zero, and more of `a` do not matter. */
  predicate Contains(a: Box, b: Box) { forall i | 0 <= i < b.dim :: Encloses(a, b, i) }

  /** `cube_contains_v0` */
  method ContainsBox(a: Box, b: Box) returns (r: bool)
    ensures r <==> Contains(a, b)
  {
    if a.dim < b.dim {
      for i := a.dim to b.dim
        invariant forall j | a.dim <= j < i :: Encloses(a, b, j)
      {
        if b.LL(i) != 0.0 {
          assert !Encloses(a, b, i);
          return false;
        }
        if b.UR(i) != 0.0 {
          assert !Encloses(a, b, i);
          return false;
        }
      }
    }
    var n := if a.dim < b.dim then a.dim else b.dim;
    for i := 0 to n
      invariant forall j | 0 <= j < i :: Encloses(a, b, j)
    {
      if Min(a.LL(i), a.UR(i)) > Min(b.LL(i), b.UR(i)) {
        assert !Encloses(a, b, i);
        return false;
      }
      if Max(a.LL(i), a.UR(i)) < Max(b.LL(i), b.UR(i)) {
        assert !Encloses(a, b, i);
        return false;
      }
    }
    return true;
  }

  predicate MeetAt(a: Box, b: Box, i: nat) { a.Lo(i) <= b.Hi(i) && b.Lo(i) <= a.Hi(i) }

  /** The intervals meet in all dimensions. */
  ghost predicate Overlap(a: Box, b: Box) { forall i: nat :: MeetAt(a, b, i) }

  /** `cube_overlap_v0` */
  method OverlapBoxes(a0: Box, b0: Box) returns (r: bool)
    ensures r <==> Overlap(a0, b0)
  {
    var a, b := a0, b0;
    if a.dim < b.dim { a, b := b0, a0; }
    for i := 0 to b.dim
      invariant forall j | 0 <= j < i :: MeetAt(a0, b0, j)
    {
      if Min(a.LL(i), a.UR(i)) > Max(b.LL(i), b.UR(i)) {
        assert !MeetAt(a0, b0, i);
        return false;
      }
      if Max(a.LL(i), a.UR(i)) < Min(b.LL(i), b.UR(i)) {
        assert !MeetAt(a0, b0, i);
        return false;
      }
    }
    for i := b.dim to a.dim
      invariant forall j | 0 <= j < i :: MeetAt(a0, b0, j)
    {
      if Min(a.LL(i), a.UR(i)) > 0.0 {
        assert !MeetAt(a0, b0, i);
        return false;
      }
      if Max(a.LL(i), a.UR(i)) < 0.0 {
        assert !MeetAt(a0, b0, i);
        return false;
      }
    }
    return true;
  }
}

/** The comparison of cubes that B-tree indexes and sorts use, and when it is an order. */
module CubeOrder {
  import opened Cube

  function Sign(x: real, y: real): int { if x > y then 1 else if x < y then -1 else 0 }

  /** The lower or the upper end of the interval of dimension `i`. */
  function End(upper: bool, b: Box, i: nat): real { if upper then b.Hi(i) else b.Lo(i) }

  /** The first difference between the ends of the dimensions from `i` up to `n`. */
  function Lex(upper: bool, a: Box, b: Box, i: nat, n: nat): (c: int)
    ensures -1 <= c <= 1
    decreases n - i
  {
    if i >= n then 0
    else if End(upper, a, i) != End(upper, b, i) then Sign(End(upper, a, i), End(upper, b, i))
    else Lex(upper, a, b, i + 1, n)
  }

  /** The first of the two that is not zero. */
  function First(c: int, d: int): int { if c != 0 then c else d }

  /** Lower ends before upper ends, of the dimensions from `i` up to `n`. */
  function Part(a: Box, b: Box, i: nat, n: nat): (c: int)
    ensures -1 <= c <= 1
  {
    First(Lex(false, a, b, i, n), Lex(true, a, b, i, n))
  }

  /** The common dimensions, then the others against zero, then the number of dimensions. */
  function Cmp(a: Box, b: Box): (c: int)
    ensures -1 <= c <= 1
  {
    var m := if a.dim < b.dim then a.dim else b.dim;
    First(Part(a, b, 0, m), First(Part(a, b, m, MaxNat(a.dim, b.dim)), Sign(a.dim as real, b.dim as real)))
  }

  // ---------------------------------------------------------------- the code

  /** Loops over dimensions, lower ends first: those of `cube_cmp_v0` over the common dimensions. */
  method ComparePart(a: Box, b: Box, dim: nat) returns (c: int)
    requires dim <= a.dim && dim <= b.dim
    ensures c == Part(a, b, 0, dim)
  {
    for i := 0 to dim
      invariant Lex(false, a, b, 0, dim) == Lex(false, a, b, i, dim)
    {
      if Min(a.LL(i), a.UR(i)) > Min(b.LL(i), b.UR(i)) { return 1; }
      if Min(a.LL(i), a.UR(i)) < Min(b.LL(i), b.UR(i)) { return -1; }
    }
    for i := 0 to dim
      invariant Lex(true, a, b, 0, dim) == Lex(true, a, b, i, dim)
    {
      if Max(a.LL(i), a.UR(i)) > Max(b.LL(i), b.UR(i)) { return 1; }
      if Max(a.LL(i), a.UR(i)) < Max(b.LL(i), b.UR(i)) { return -1; }
    }
    return 0;
  }

  /** The loops over the extra dimensions of the box that has more. */
  method CompareExtra(a: Box, ghost b: Box, dim: nat) returns (c: int)
    requires b.dim == dim < a.dim
    ensures c == First(Part(a, b, dim, a.dim), 1)
  {
    for i := dim to a.dim
      invariant Lex(false, a, b, dim, a.dim) == Lex(false, a, b, i, a.dim)
    {
      if Min(a.LL(i), a.UR(i)) > 0.0 { return 1; }
      if Min(a.LL(i), a.UR(i)) < 0.0 { return -1; }
    }
    for i := dim to a.dim
      invariant Lex(true, a, b, dim, a.dim) == Lex(true, a, b, i, a.dim)
    {
      if Max(a.LL(i), a.UR(i)) > 0.0 { return 1; }
      if Max(a.LL(i), a.UR(i)) < 0.0 { return -1; }
    }
    return 1;
  }

  /** `cube_cmp_v0` */
  method Compare(a: Box, b: Box) returns (c: int)
    ensures c == Cmp(a, b)
    ensures c == 0 <==> a.dim == b.dim && forall i | 0 <= i < a.dim :: SameAt(a, b, i)
  {
    var dim := if a.dim < b.dim then a.dim else b.dim;
    CmpZero(a, b);
    c := ComparePart(a, b, dim);
    if c != 0 { return c; }
    if a.dim > b.dim {
      c := CompareExtra(a, b, dim);
    } else if a.dim < b.dim {
      c := CompareExtra(b, a, dim);
      PartFlips(a, b, dim, b.dim);
      c := -c;
    }
  }

  // ---------------------------------------------------------------- laws that always hold

  lemma {:induction false} LexFlips(upper: bool, a: Box, b: Box, i: nat, n: nat)
    ensures Lex(upper, a, b, i, n) == -Lex(upper, b, a, i, n)
    decreases n - i
  {
    if i < n { LexFlips(upper, a, b, i + 1, n); }
  }

  lemma PartFlips(a: Box, b: Box, i: nat, n: nat)
    ensures Part(a, b, i, n) == -Part(b, a, i, n)
  {
    LexFlips(false, a, b, i, n);
    LexFlips(true, a, b, i, n);
  }

  /** Swapping the boxes flips the sign. */
  lemma CmpFlips(a: Box, b: Box)
    ensures Cmp(a, b) == -Cmp(b, a)
  {
    var m := if a.dim < b.dim then a.dim else b.dim;
    PartFlips(a, b, 0, m);
    PartFlips(a, b, m, MaxNat(a.dim, b.dim));
  }

  lemma {:induction false} LexZero(upper: bool, a: Box, b: Box, i: nat, n: nat)
    ensures Lex(upper, a, b, i, n) == 0 <==> forall j | i <= j < n :: End(upper, a, j) == End(upper, b, j)
    decreases n - i
  {
    if i < n { LexZero(upper, a, b, i + 1, n); }
  }

  /** Only boxes with the same intervals in the same dimensions compare as equal. */
  lemma CmpZero(a: Box, b: Box)
    ensures Cmp(a, b) == 0 <==> a.dim == b.dim && forall i | 0 <= i < a.dim :: SameAt(a, b, i)
  {
    if a.dim == b.dim {
      LexZero(false, a, b, 0, a.dim);
      LexZero(true, a, b, 0, a.dim);
      if Cmp(a, b) == 0 {
        forall i | 0 <= i < a.dim ensures SameAt(a, b, i) {
          assert End(false, a, i) == End(false, b, i) && End(true, a, i) == End(true, b, i);
        }
      } else if forall i | 0 <= i < a.dim :: SameAt(a, b, i) {
        forall i | 0 <= i < a.dim ensures End(false, a, i) == End(false, b, i) && End(true, a, i) == End(true, b, i) {
          assert SameAt(a, b, i);
        }
      }
    }
  }

  // ---------------------------------------------------------------- transitivity

  ghost predicate Transitive(a: Box, b: Box, c: Box) { Cmp(a, b) <= 0 && Cmp(b, c) <= 0 ==> Cmp(a, c) <= 0 }

  lemma {:induction false} LexTransitive(upper: bool, a: Box, b: Box, c: Box, i: nat, n: nat)
    requires Lex(upper, a, b, i, n) <= 0 && Lex(upper, b, c, i, n) <= 0
    ensures Lex(upper, a, c, i, n) <= 0
    ensures Lex(upper, a, c, i, n) == 0 ==> Lex(upper, a, b, i, n) == 0 && Lex(upper, b, c, i, n) == 0
    decreases n - i
  {
    if i < n && End(upper, a, i) == End(upper, b, i) == End(upper, c, i) {
      LexTransitive(upper, a, b, c, i + 1, n);
    }
  }

  /** For boxes without dimensions and boxes of one dimension number `e` the sign is that of one long list. */
  lemma CmpWhole(a: Box, b: Box, e: nat)
    requires a.dim in {0, e} && b.dim in {0, e}
    ensures Cmp(a, b) == First(Part(a, b, 0, e), Sign(a.dim as real, b.dim as real))
  {
    if a.dim == b.dim == 0 {
      LexZero(false, a, b, 0, e);
      LexZero(true, a, b, 0, e);
    }
  }

  lemma OneDimensionIsTransitive(a: Box, b: Box, c: Box, e: nat)
    requires a.dim in {0, e} && b.dim in {0, e} && c.dim in {0, e}
    ensures Transitive(a, b, c)
  {
    CmpWhole(a, b, e);
    CmpWhole(b, c, e);
    CmpWhole(a, c, e);
    if Cmp(a, b) <= 0 && Cmp(b, c) <= 0 {
      LexTransitive(false, a, b, c, 0, e);
      if Lex(false, a, c, 0, e) == 0 { LexTransitive(true, a, b, c, 0, e); }
    }
  }

  /** A box whose intervals are one and the same up to dimension `d` and another one from there on. */
  function Steps(d: nat, e: nat, lo: real, hi: real, rest: real, top: real): (b: Box)
    requires d <= e && lo <= hi && rest <= top
    ensures b.dim == e && forall i | 0 <= i < e :: b.Lo(i) == (if i < d then lo else rest) && b.Hi(i) == if i < d then hi else top
  {
    NDBOX(e, false, seq(2 * e, k => if k < e then (if k < d then lo else rest) else if k - e < d then hi else top))
  }

  /** A circle of three boxes of two dimension numbers. */
  lemma Circle(d: nat, e: nat, a: Box, b: Box, c: Box)
    requires 0 < d < e
    requires a == Steps(d, d, 0.0, 1.0, 0.0, 0.0) && b == Steps(d, e, 0.0, 1.0, 1.0, 1.0)
    requires c == Steps(d, e, 0.0, 0.0, 2.0, 2.0)
    ensures Cmp(a, b) < 0 && Cmp(b, c) < 0 && Cmp(c, a) < 0
  {
    LexZero(false, a, b, 0, d);
    LexZero(true, a, b, 0, d);
    LexZero(false, c, a, 0, d);
    LexSkips(b, c, 0, d, e);
  }

  lemma {:induction false} LexSkips(a: Box, b: Box, i: nat, d: nat, n: nat)
    requires i <= d < n && forall j | i <= j < d :: a.Lo(j) == b.Lo(j)
    ensures Lex(false, a, b, i, n) == Lex(false, a, b, d, n)
    decreases d - i
  {
    if i < d { LexSkips(a, b, i + 1, d, n); }
  }

  ghost predicate TransitiveOn(d: nat, e: nat) {
    forall a: Box, b: Box, c: Box | a.dim in {d, e} && b.dim in {d, e} && c.dim in {d, e} :: Transitive(a, b, c)
  }

  /**
    Boxes of `d` and of `e` dimensions together: the comparison is transitive if and only if the
    two numbers are the same or one of them is zero.
   */
  lemma TransitiveIff(d: nat, e: nat)
    ensures TransitiveOn(d, e) <==> d == e || d == 0 || e == 0
  {
    if d == e || d == 0 || e == 0 {
      forall a: Box, b: Box, c: Box | a.dim in {d, e} && b.dim in {d, e} && c.dim in {d, e} ensures Transitive(a, b, c) {
        OneDimensionIsTransitive(a, b, c, if d == 0 then e else d);
      }
    } else {
      var lo, hi := if d < e then d else e, if d < e then e else d;
      var a, b, c := Steps(lo, lo, 0.0, 1.0, 0.0, 0.0), Steps(lo, hi, 0.0, 1.0, 1.0, 1.0), Steps(lo, hi, 0.0, 0.0, 2.0, 2.0);
      Circle(lo, hi, a, b, c);
      CmpFlips(c, a);
      assert !Transitive(a, b, c);
    }
  }

  // ---------------------------------------------------------------- points

  /** Both ends of every interval are the same. */
  predicate PointLike(b: Box) { forall i | 0 <= i < b.dim :: b.Lo(i) == b.Hi(i) }

  lemma {:induction false} LexOfPoints(a: Box, b: Box, i: nat, n: nat)
    requires PointLike(a) && PointLike(b)
    ensures Lex(true, a, b, i, n) == Lex(false, a, b, i, n)
    decreases n - i
  {
    if i < n {
      assert a.Lo(i) == a.Hi(i) && b.Lo(i) == b.Hi(i);
      LexOfPoints(a, b, i + 1, n);
    }
  }

  lemma {:induction false} LexSplits(a: Box, b: Box, i: nat, m: nat, n: nat)
    requires i <= m <= n
    ensures Lex(false, a, b, i, n) == First(Lex(false, a, b, i, m), Lex(false, a, b, m, n))
    decreases m - i
  {
    if i < m { LexSplits(a, b, i + 1, m, n); }
  }

  /** Points are compared as lists of coordinates, with zeros at the end of the shorter one. */
  lemma CmpOfPoints(a: Box, b: Box, n: nat)
    requires PointLike(a) && PointLike(b) && a.dim <= n && b.dim <= n
    ensures Cmp(a, b) == First(Lex(false, a, b, 0, n), Sign(a.dim as real, b.dim as real))
  {
    var m, most := if a.dim < b.dim then a.dim else b.dim, MaxNat(a.dim, b.dim);
    LexOfPoints(a, b, 0, m);
    LexOfPoints(a, b, m, most);
    LexSplits(a, b, 0, m, n);
    LexSplits(a, b, m, most, n);
    LexZero(false, a, b, most, n);
  }

  /** Among points of any dimensions the comparison is transitive. */
  lemma PointsAreTransitive(a: Box, b: Box, c: Box)
    requires PointLike(a) && PointLike(b) && PointLike(c)
    ensures Transitive(a, b, c)
  {
    var n := MaxNat(a.dim, MaxNat(b.dim, c.dim));
    CmpOfPoints(a, b, n);
    CmpOfPoints(b, c, n);
    CmpOfPoints(a, c, n);
    if Cmp(a, b) <= 0 && Cmp(b, c) <= 0 { LexTransitive(false, a, b, c, 0, n); }
  }
}

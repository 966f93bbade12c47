/**
  Bloom signatures: the private Park-Miller generator, the bit positions it yields for a
  value, and signatures as arrays of 16-bit words.
 */
module BloomSignature {
  import opened Results

  newtype int32 = x: int | -0x8000_0000 <= x <= 0x7fff_ffff
  type uint32 = x: int | 0 <= x < 0x1_0000_0000
  type Words = seq<bv16>

  const MODULUS := 0x7fff_ffff
  const MULTIPLIER := 16807
  const SIGNWORDBITS := 16
  const INDEX_MAX_KEYS := 32

  // ---------------------------------------------------------------- C arithmetic

  /** Division and remainder that truncate toward zero. */
  function CDiv(a: int, b: int): int
    requires b > 0
  {
    if a >= 0 then a / b else -((-a) / b)
  }

  function CMod(a: int, b: int): int
    requires b > 0
  {
    if a >= 0 then a % b else -((-a) % b)
  }

  /** A uint32 stored into an int32. */
  function ToInt32(x: uint32): int32 {
    if x < 0x8000_0000 then x as int32 else (x - 0x1_0000_0000) as int32
  }

  // ---------------------------------------------------------------- the generator

  /** The state after one call. */
  function Step(s: int): int {
    var x := MULTIPLIER * CMod(s, 127773) - 2836 * CDiv(s, 127773);
    if x < 0 then x + MODULUS else x
  }

  lemma Schrage(s: int)
    ensures 16807 * CMod(s, 127773) - 2836 * CDiv(s, 127773) == 16807 * s - MODULUS * CDiv(s, 127773)
  {
  }

  /** 16807 and 2836 have no common factor. */
  lemma Coprime(lo: int, hi: int) returns (k: int)
    requires 16807 * lo == 2836 * hi
    ensures hi == 16807 * k && lo == 2836 * k
  {
    k := 5790 * lo - 977 * hi;
  }

  /**
    One call multiplies by 16807 modulo 2^31-1, for every state that fits in an int32, and
    leaves zero exactly when the state was a multiple of the modulus.
   */
  lemma StepIsLehmer(s: int32)
    ensures 0 <= Step(s as int) < MODULUS
    ensures (Step(s as int) - MULTIPLIER * s as int) % MODULUS == 0
    ensures Step(s as int) == 0 <==> s as int in {-MODULUS, 0, MODULUS}
  {
    var v := s as int;
    var hi, lo := CDiv(v, 127773), CMod(v, 127773);
    assert v == 127773 * hi + lo && -16807 <= hi <= 16807 && -127772 <= lo <= 127772;
    Schrage(v);
    var x := 16807 * lo - 2836 * hi;
    assert x == MULTIPLIER * v - MODULUS * hi;
    if Step(v) == 0 {
      var k := Coprime(lo, hi);
      assert -1 <= k <= 1;
    }
  }

  /** The state after seeding, which may be negative. */
  function Seeded(seed: uint32): int { CMod(ToInt32(seed) as int, 0x7fff_fffe) + 1 }

  /** Seeding keeps the state below the modulus in magnitude; two seeds give the state zero. */
  lemma SeededRange(seed: uint32)
    ensures -MODULUS < Seeded(seed) < MODULUS
    ensures Seeded(seed) == 0 <==> seed == 0xffff_ffff || seed == 0x8000_0001
  {
  }

  /** `next`, `myRand` and `mySrand`; the type of every intermediate value is the one in the code. */
  class Generator {
    var next: int32

    constructor ()
      ensures next == 0
    {
      next := 0;
    }

    method Rand() returns (r: int32)
      modifies this
      ensures next as int == Step(old(next) as int) && r as int == next as int - 1
    {
      StepIsLehmer(next);
      var hi: int32 := CDiv(next as int, 127773) as int32;
      var lo: int32 := CMod(next as int, 127773) as int32;
      var x: int32 := 16807 * lo - 2836 * hi;
      if x < 0 { x := x + 0x7fff_ffff; }
      next := x;
      return x - 1;
    }

    method Srand(seed: uint32)
      modifies this
      ensures next as int == Seeded(seed)
    {
      SeededRange(seed);
      next := ToInt32(seed);
      next := (CMod(next as int, 0x7fff_fffe) + 1) as int32;
    }
  }

  // ---------------------------------------------------------------- bit positions of a value

  /** Exclusive or, bit by bit. */
  function Xor(a: nat, b: nat): nat
    decreases a + b
  {
    if a == 0 then b else if b == 0 then a else 2 * Xor(a / 2, b / 2) + (a + b) % 2
  }

  /** The result has no more bits than the operands. */
  lemma {:induction false} XorFits(a: nat, b: nat, bits: nat, bound: nat)
    requires a < bound && b < bound && bound == Pow2(bits)
    ensures Xor(a, b) < bound
    decreases bits
  {
    if a > 0 && b > 0 { XorFits(a / 2, b / 2, bits - 1, bound / 2); }
  }

  function Pow2(k: nat): nat { if k == 0 then 1 else 2 * Pow2(k - 1) }

  lemma XorFits32(a: uint32, b: uint32)
    ensures Xor(a, b) < 0x1_0000_0000
  {
    assert Pow2(8) == 0x100;
    assert Pow2(16) == 0x1_0000;
    assert Pow2(24) == 0x100_0000;
    assert Pow2(32) == 0x1_0000_0000;
    XorFits(a, b, 32, 0x1_0000_0000);
  }

  /** The number that the generator seeded with the column yields first. */
  function ColumnSalt(attno: nat): (r: uint32)
    requires attno < INDEX_MAX_KEYS
  {
    SeededRange(attno);
    StepIsLehmer(Seeded(attno) as int32);
    Step(Seeded(attno)) - 1
  }

  /** The seed for a value with this hash in this column. */
  function SeedFor(hash: uint32, attno: nat): uint32
    requires attno < INDEX_MAX_KEYS
  {
    XorFits32(hash, ColumnSalt(attno));
    Xor(hash, ColumnSalt(attno))
  }

  /** The next `count` positions from a generator state. */
  function PositionsFrom(state: int, count: nat, nbits: nat): (ps: seq<int>)
    requires nbits > 0
    ensures |ps| == count
    decreases count
  {
    if count == 0 then []
    else [CMod(Step(state) - 1, nbits)] + PositionsFrom(Step(state), count - 1, nbits)
  }

  /** The bits that `signValue` sets. */
  function Positions(hash: uint32, attno: nat, bitSize: nat, nbits: nat): (ps: seq<int>)
    requires attno < INDEX_MAX_KEYS && nbits > 0
    ensures |ps| == bitSize
  {
    PositionsFrom(Seeded(SeedFor(hash, attno)), bitSize, nbits)
  }

  predicate Inside(ps: seq<int>, nbits: nat) { forall i | 0 <= i < |ps| :: 0 <= ps[i] < nbits }

  lemma {:induction false} PositionsFromInside(state: int32, count: nat, nbits: nat)
    requires nbits > 0 && state as int !in {-MODULUS, 0, MODULUS}
    ensures Inside(PositionsFrom(state as int, count, nbits), nbits)
    decreases count
  {
    if count > 0 {
      StepIsLehmer(state);
      PositionsFromInside(Step(state as int) as int32, count - 1, nbits);
    }
  }

  /** The two seeds that bring the generator to state zero. */
  predicate ZeroSeed(seed: uint32) { seed == 0xffff_ffff || seed == 0x8000_0001 }

  /** Every position lies inside the signature, exactly unless the seed gives state zero. */
  lemma PositionsInsideIff(seed: uint32, count: nat, nbits: nat)
    requires nbits > 1 && count > 0
    ensures Inside(PositionsFrom(Seeded(seed), count, nbits), nbits) <==> !ZeroSeed(seed)
  {
    SeededRange(seed);
    if ZeroSeed(seed) {
      assert PositionsFrom(0, count, nbits)[0] < 0;
    } else {
      PositionsFromInside(Seeded(seed) as int32, count, nbits);
    }
  }

  lemma XorHalves(a: nat, b: nat)
    ensures Xor(a, b) / 2 == Xor(a / 2, b / 2) && Xor(a, b) % 2 == (a + b) % 2
  {
  }

  lemma {:induction false} XorCancels(a: nat, b: nat)
    ensures Xor(Xor(a, b), b) == a
    decreases a + b
  {
    if a > 0 || b > 0 {
      XorHalves(a, b);
      XorHalves(Xor(a, b), b);
      XorCancels(a / 2, b / 2);
    }
  }

  /** In every column there are exactly two hash values on which the generator falls to state zero. */
  lemma ZeroSeedHashes(hash: uint32, attno: nat)
    requires attno < INDEX_MAX_KEYS
    ensures Xor(0xffff_ffff, ColumnSalt(attno)) < 0x1_0000_0000 && Xor(0x8000_0001, ColumnSalt(attno)) < 0x1_0000_0000
    ensures ZeroSeed(SeedFor(hash, attno)) <==>
              hash == Xor(0xffff_ffff, ColumnSalt(attno)) || hash == Xor(0x8000_0001, ColumnSalt(attno))
  {
    var salt := ColumnSalt(attno);
    XorFits32(0xffff_ffff, salt);
    XorFits32(0x8000_0001, salt);
    XorCancels(hash, salt);
    XorCancels(0xffff_ffff, salt);
    XorCancels(0x8000_0001, salt);
  }

  // ---------------------------------------------------------------- words

  function Mask(bit: nat): bv16
    requires bit < SIGNWORDBITS
  {
    1 << bit
  }

  /** The bits of `a` are all set in `b`: the test that a scan makes word by word. */
  predicate InWord(a: bv16, b: bv16) { b & a == a }

  ghost predicate Within(a: Words, b: Words) {
    |a| == |b| && forall i | 0 <= i < |a| :: InWord(a[i], b[i])
  }

  function SetBit(w: Words, pos: int): (r: Words)
    requires 0 <= pos < |w| * SIGNWORDBITS
    ensures |r| == |w|
  {
    w[pos / SIGNWORDBITS := w[pos / SIGNWORDBITS] | Mask(pos % SIGNWORDBITS)]
  }

  ghost predicate HasBit(w: Words, pos: int)
    requires 0 <= pos < |w| * SIGNWORDBITS
  {
    InWord(Mask(pos % SIGNWORDBITS), w[pos / SIGNWORDBITS])
  }

  function SetBits(w: Words, ps: seq<int>): (r: Words)
    requires Inside(ps, |w| * SIGNWORDBITS)
    ensures |r| == |w|
    decreases |ps|
  {
    if ps == [] then w else SetBits(SetBit(w, ps[0]), ps[1..])
  }

  lemma OrWithin(a: bv16, m: bv16, b: bv16)
    requires InWord(a, b) && InWord(m, b)
    ensures InWord(a | m, b)
  {
  }

  lemma InWordSame(a: bv16)
    ensures InWord(a, a) && InWord(0, a)
  {
  }

  lemma WithinTransitive(a: Words, b: Words, c: Words)
    requires Within(a, b) && Within(b, c)
    ensures Within(a, c)
  {
  }

  lemma SetBitGrows(w: Words, pos: int)
    requires 0 <= pos < |w| * SIGNWORDBITS
    ensures Within(w, SetBit(w, pos)) && HasBit(SetBit(w, pos), pos)
  {
  }

  lemma HasBitGrows(a: Words, b: Words, pos: int)
    requires Within(a, b) && 0 <= pos < |a| * SIGNWORDBITS && HasBit(a, pos)
    ensures HasBit(b, pos)
  {
  }

  lemma HasBitsGrow(a: Words, b: Words, ps: seq<int>)
    requires Within(a, b) && Inside(ps, |a| * SIGNWORDBITS) && forall p | p in ps :: HasBit(a, p)
    ensures forall p | p in ps :: HasBit(b, p)
  {
    forall p | p in ps ensures HasBit(b, p) { HasBitGrows(a, b, p); }
  }

  /** Signatures only gain bits, and gain those asked for. */
  lemma {:induction false} SetBitsGrow(w: Words, ps: seq<int>)
    requires Inside(ps, |w| * SIGNWORDBITS)
    ensures Within(w, SetBits(w, ps))
    ensures forall i | 0 <= i < |ps| :: HasBit(SetBits(w, ps), ps[i])
    decreases |ps|
  {
    if ps != [] {
      var w' := SetBit(w, ps[0]);
      SetBitGrows(w, ps[0]);
      SetBitsGrow(w', ps[1..]);
      WithinTransitive(w, w', SetBits(w', ps[1..]));
      HasBitGrows(w', SetBits(w', ps[1..]), ps[0]);
      assert forall i | 1 <= i < |ps| :: ps[i] == ps[1..][i - 1];
    }
  }

  /** Setting bits that a larger signature has keeps the smaller one inside it. */
  lemma {:induction false} SetBitsWithin(a: Words, ps: seq<int>, b: Words)
    requires Within(a, b) && Inside(ps, |a| * SIGNWORDBITS)
    requires forall i | 0 <= i < |ps| :: HasBit(b, ps[i])
    ensures Within(SetBits(a, ps), b)
    decreases |ps|
  {
    if ps != [] {
      var k := ps[0] / SIGNWORDBITS;
      var a' := SetBit(a, ps[0]);
      assert Within(a', b) by {
        assert HasBit(b, ps[0]);
        OrWithin(a[k], Mask(ps[0] % SIGNWORDBITS), b[k]);
        assert forall i | 0 <= i < |a| && i != k :: a'[i] == a[i];
      }
      assert forall i | 0 <= i < |ps| - 1 :: ps[1..][i] == ps[i + 1];
      SetBitsWithin(a', ps[1..], b);
    }
  }

  // ---------------------------------------------------------------- signing values, rows and scan keys

  /** A scan key: a column and the value, possibly null, that it must equal. */
  datatype ScanKey = ScanKey(column: nat, value: Option<int>)

  /** None of the first `upTo` keys is null. */
  predicate NoNulls(keys: seq<ScanKey>, upTo: nat)
    requires upTo <= |keys|
  {
    forall i | 0 <= i < upTo :: keys[i].value.Some?
  }

  /** Options of the index: signature length in words and bits per column; `hash` is the column's hash function. */
  datatype BloomState = BloomState(bloomLength: nat, bitSize: seq<nat>, hash: (nat, int) -> uint32) {
    predicate Valid() { 1 <= bloomLength <= 256 && |bitSize| <= INDEX_MAX_KEYS }

    function Bits(): nat { bloomLength * SIGNWORDBITS }

    /** The generator does not fall to state zero on this value. */
    predicate Signable(value: int, attno: nat)
      requires Valid() && attno < |bitSize|
    {
      !ZeroSeed(SeedFor(hash(attno, value), attno))
    }

    function ValueBits(value: int, attno: nat): (ps: seq<int>)
      requires Valid() && attno < |bitSize| && Signable(value, attno)
      ensures Inside(ps, Bits())
    {
      var ps := Positions(hash(attno, value), attno, bitSize[attno], Bits());
      assert Inside(ps, Bits()) by {
        if bitSize[attno] > 0 {
          PositionsInsideIff(SeedFor(hash(attno, value), attno), bitSize[attno], Bits());
        }
      }
      ps
    }

    predicate RowSignable(row: seq<Option<int>>)
      requires Valid() && |row| <= |bitSize|
    {
      forall i | 0 <= i < |row| && row[i].Some? :: Signable(row[i].value, i)
    }

    /** The signature after the first `upTo` columns of a row; nulls are skipped. */
    function RowSign(row: seq<Option<int>>, upTo: nat): (w: Words)
      requires Valid() && |row| <= |bitSize| && RowSignable(row) && upTo <= |row|
      ensures |w| == bloomLength
      decreases upTo
    {
      if upTo == 0 then seq(bloomLength, _ => 0)
      else
        var w := RowSign(row, upTo - 1);
        if row[upTo - 1].None? then w else SetBits(w, ValueBits(row[upTo - 1].value, upTo - 1))
    }

    predicate KeySignable(keys: seq<ScanKey>)
      requires Valid()
    {
      forall i | 0 <= i < |keys| ::
        keys[i].column < |bitSize| && (keys[i].value.Some? ==> Signable(keys[i].value.value, keys[i].column))
    }

    /** The signature of the first `upTo` scan keys. */
    function ScanSign(keys: seq<ScanKey>, upTo: nat): (w: Words)
      requires Valid() && KeySignable(keys) && upTo <= |keys| && NoNulls(keys, upTo)
      ensures |w| == bloomLength
      decreases upTo
    {
      if upTo == 0 then seq(bloomLength, _ => 0)
      else SetBits(ScanSign(keys, upTo - 1), ValueBits(keys[upTo - 1].value.value, keys[upTo - 1].column))
    }

    lemma {:induction false} RowHasColumn(row: seq<Option<int>>, upTo: nat, column: nat)
      requires Valid() && |row| <= |bitSize| && RowSignable(row) && column < upTo <= |row| && row[column].Some?
      ensures forall p | p in ValueBits(row[column].value, column) :: HasBit(RowSign(row, upTo), p)
      decreases upTo
    {
      var w, ps := RowSign(row, upTo - 1), ValueBits(row[column].value, column);
      if row[upTo - 1].Some? { SetBitsGrow(w, ValueBits(row[upTo - 1].value, upTo - 1)); }
      if column < upTo - 1 {
        RowHasColumn(row, upTo - 1, column);
        if row[upTo - 1].Some? { HasBitsGrow(w, RowSign(row, upTo), ps); }
      }
    }

    /** A row that agrees with every scan key, up to the column's hash, passes the signature test. */
    lemma {:induction false} MatchingRowPasses(row: seq<Option<int>>, keys: seq<ScanKey>, upTo: nat)
      requires Valid() && |row| <= |bitSize| && RowSignable(row) && KeySignable(keys) && NoNulls(keys, |keys|) && upTo <= |keys|
      requires forall i | 0 <= i < |keys| ::
                 && keys[i].column < |row| && row[keys[i].column].Some?
                 && hash(keys[i].column, row[keys[i].column].value) == hash(keys[i].column, keys[i].value.value)
      ensures Within(ScanSign(keys, upTo), RowSign(row, |row|))
      decreases upTo
    {
      if upTo > 0 {
        MatchingRowPasses(row, keys, upTo - 1);
        var ScanKey(column, value) := keys[upTo - 1];
        RowHasColumn(row, |row|, column);
        SetBitsWithin(ScanSign(keys, upTo - 1), ValueBits(value.value, column), RowSign(row, |row|));
      } else {
        forall i | 0 <= i < bloomLength
          ensures InWord(0, RowSign(row, |row|)[i])
        {
          InWordSame(RowSign(row, |row|)[i]);
        }
      }
    }
  }

  /** Seed the generator first with the column and then with the value. */
  method SeedValue(state: BloomState, g: Generator, value: int, attno: nat)
    requires state.Valid() && attno < |state.bitSize|
    modifies g
    ensures g.next as int == Seeded(SeedFor(state.hash(attno, value), attno))
  {
    var hashVal := state.hash(attno, value);
    var salt := SaltOf(g, attno);
    assert Xor(hashVal, salt) == SeedFor(hashVal, attno);
    g.Srand(Xor(hashVal, salt));
  }

  /** The first number after seeding with the column. */
  method SaltOf(g: Generator, attno: nat) returns (salt: uint32)
    requires attno < INDEX_MAX_KEYS
    modifies g
    ensures salt == ColumnSalt(attno)
  {
    g.Srand(attno);
    var r := g.Rand();
    salt := r as int;
  }

  /** The macro `SETBIT`. */
  method SetBitAt(sign: array<bv16>, pos: int)
    requires 0 <= pos < sign.Length * SIGNWORDBITS
    modifies sign
    ensures sign[..] == SetBit(old(sign[..]), pos)
  {
    sign[pos / SIGNWORDBITS] := sign[pos / SIGNWORDBITS] | Mask(pos % SIGNWORDBITS);
  }

  /** Set `count` bits drawn from the generator. */
  method SetRandomBits(g: Generator, sign: array<bv16>, count: nat)
    requires sign.Length > 0
    requires Inside(PositionsFrom(g.next as int, count, sign.Length * SIGNWORDBITS), sign.Length * SIGNWORDBITS)
    modifies g, sign
    ensures sign[..] == SetBits(old(sign[..]), old(PositionsFrom(g.next as int, count, sign.Length * SIGNWORDBITS)))
  {
    var nbits := sign.Length * SIGNWORDBITS;
    ghost var ps := PositionsFrom(g.next as int, count, nbits);
    for j := 0 to count
      invariant ps[j..] == PositionsFrom(g.next as int, count - j, nbits)
      invariant SetBits(sign[..], ps[j..]) == SetBits(old(sign[..]), ps)
    {
      var x := g.Rand();
      var nBit := CMod(x as int, nbits);
      assert ps[j..][0] == nBit && ps[j..][1..] == ps[j + 1..];
      SetBitAt(sign, nBit);
    }
    assert ps[count..] == [];
  }

  /** `signValue` */
  method SignValue(state: BloomState, g: Generator, sign: array<bv16>, value: int, attno: nat)
    requires state.Valid() && sign.Length == state.bloomLength && attno < |state.bitSize|
    requires state.Signable(value, attno)
    modifies g, sign
    ensures sign[..] == SetBits(old(sign[..]), state.ValueBits(value, attno))
  {
    SeedValue(state, g, value, attno);
    assert state.ValueBits(value, attno) == PositionsFrom(g.next as int, state.bitSize[attno], state.Bits());
    SetRandomBits(g, sign, state.bitSize[attno]);
  }

  /** `BloomFormTuple`: the signature of a row. */
  method FormSignature(state: BloomState, g: Generator, row: seq<Option<int>>) returns (sign: array<bv16>)
    requires state.Valid() && |row| <= |state.bitSize| && state.RowSignable(row)
    modifies g
    ensures fresh(sign) && sign[..] == state.RowSign(row, |row|)
  {
    sign := new bv16[state.bloomLength](_ => 0);
    assert sign[..] == seq(state.bloomLength, _ => 0 as bv16);
    for i := 0 to |row|
      invariant sign.Length == state.bloomLength && sign[..] == state.RowSign(row, i)
    {
      if row[i].Some? { SignValue(state, g, sign, row[i].value, i); }
    }
  }

  /** One scan key more for the search signature. */
  method SignKey(state: BloomState, g: Generator, sign: array<bv16>, keys: seq<ScanKey>, i: nat)
    requires state.Valid() && state.KeySignable(keys) && i < |keys| && NoNulls(keys, i + 1)
    requires sign.Length == state.bloomLength && sign[..] == state.ScanSign(keys, i)
    modifies g, sign
    ensures sign[..] == state.ScanSign(keys, i + 1)
  {
    SignValue(state, g, sign, keys[i].value.value, keys[i].column);
  }

  /** The search signature of `blgetbitmap`; a null key means that nothing can match. */
  method FormScanSignature(state: BloomState, g: Generator, keys: seq<ScanKey>) returns (r: Option<Words>)
    requires state.Valid() && state.KeySignable(keys)
    modifies g
    ensures r.Some? <==> NoNulls(keys, |keys|)
    ensures r.Some? ==> r.value == state.ScanSign(keys, |keys|)
  {
    var sign := new bv16[state.bloomLength](_ => 0);
    assert sign[..] == seq(state.bloomLength, _ => 0 as bv16);
    for i := 0 to |keys|
      invariant sign.Length == state.bloomLength && NoNulls(keys, i)
      invariant sign[..] == state.ScanSign(keys, i)
    {
      if keys[i].value.None? { return None; }
      SignKey(state, g, sign, keys, i);
    }
    return Some(sign[..]);
  }

  /** The inner loop of `blgetbitmap`: compare the signature of an index tuple with that of the scan. */
  method SignatureMatches(itup: Words, scan: Words) returns (res: bool)
    requires |itup| == |scan|
    ensures res <==> Within(scan, itup)
  {
    res := true;
    for i := 0 to |scan|
      invariant res && forall j | 0 <= j < i :: InWord(scan[j], itup[j])
    {
      if itup[i] & scan[i] != scan[i] {
        res := false;
        break;
      }
    }
  }
}

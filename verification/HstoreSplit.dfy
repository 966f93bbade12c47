/** Hamming distance between signature keys, and the page split of the GiST index over hstores. */
module HstoreSplit {
  import opened ByteOrder
  import opened HstoreLayout
  import opened HstoreSignature
  import opened SplitVector

  // ---------------------------------------------------------------- Hamming distance

  /** How many of the first `n` bits are set. */
  function CountBits(v: BitVec, n: nat): nat
    requires n <= 8 * |v|
  {
    if n == 0 then 0 else CountBits(v, n - 1) + if Bit(v, n - 1) then 1 else 0
  }

  /** In how many of the first `n` bits two vectors differ. */
  function Differing(a: BitVec, b: BitVec, n: nat): nat
    requires n <= 8 * |a| && |a| == |b|
  {
    if n == 0 then 0 else Differing(a, b, n - 1) + if Bit(a, n - 1) != Bit(b, n - 1) then 1 else 0
  }

  /** The vector that a key stands for. */
  function Vector(k: Key, siglen: nat): (v: BitVec)
    requires Fits(k, siglen)
    ensures |v| == siglen
  {
    if k.AllTrue? then Filled(siglen, ONES) else k.sign
  }

  lemma {:induction false} DifferFromOnes(v: BitVec, n: nat)
    requires n <= 8 * |v|
    ensures Differing(Filled(|v|, ONES), v, n) == n - CountBits(v, n) == Differing(v, Filled(|v|, ONES), n)
  {
    if n > 0 {
      DifferFromOnes(v, n - 1);
      FilledBits(|v|, n - 1);
    }
  }

  lemma {:induction false} SameDiffersNowhere(v: BitVec, n: nat)
    requires n <= 8 * |v|
    ensures Differing(v, v, n) == 0
  {
    if n > 0 { SameDiffersNowhere(v, n - 1); }
  }

  function Digit(b: bv8, k: nat): nat
    requires k < 8
  {
    if ByteHas(b, Mask(k)) then 1 else 0
  }

  /** The set bits among the first `k` of a byte; for all 8 of them the macro `SUMBIT`. */
  function SumBit(b: bv8, k: nat): nat
    requires k <= 8
  {
    if k == 0 then 0 else SumBit(b, k - 1) + Digit(b, k - 1)
  }

  lemma {:induction false} CountByte(v: BitVec, i: nat, k: nat)
    requires i < |v| && k <= 8
    ensures CountBits(v, 8 * i + k) == CountBits(v, 8 * i) + SumBit(v[i], k)
  {
    if k > 0 {
      CountByte(v, i, k - 1);
      assert (8 * i + (k - 1)) / 8 == i && (8 * i + (k - 1)) % 8 == k - 1;
    }
  }

  /** `sizebitvec` */
  method SizeBitVec(v: BitVec) returns (size: nat)
    ensures size == CountBits(v, 8 * |v|)
  {
    size := 0;
    for i := 0 to |v|
      invariant size == CountBits(v, 8 * i)
    {
      CountByte(v, i, 8);
      size := size + SumBit(v[i], 8);
    }
  }

  /** `hemdistsign` */
  method HemDistSign(a: BitVec, b: BitVec) returns (dist: nat)
    requires |a| == |b|
    ensures dist == Differing(a, b, 8 * |a|)
  {
    dist := 0;
    for i := 0 to 8 * |a|
      invariant dist == Differing(a, b, i)
    {
      if Bit(a, i) != Bit(b, i) { dist := dist + 1; }
    }
  }

  /** `hemdist`: the flag counts as the vector of all ones. */
  method HemDist(a: Key, b: Key, siglen: nat) returns (dist: int)
    requires Fits(a, siglen) && Fits(b, siglen)
    ensures dist == Differing(Vector(a, siglen), Vector(b, siglen), 8 * siglen)
  {
    if a.AllTrue? {
      if b.AllTrue? {
        SameDiffersNowhere(Filled(siglen, ONES), 8 * siglen);
        return 0;
      }
      DifferFromOnes(b.sign, 8 * siglen);
      var size := SizeBitVec(b.sign);
      return 8 * siglen - size;
    }
    if b.AllTrue? {
      DifferFromOnes(a.sign, 8 * siglen);
      var size := SizeBitVec(a.sign);
      return 8 * siglen - size;
    }
    dist := HemDistSign(a.sign, b.sign);
  }

  // ---------------------------------------------------------------- the split

  function Datum(all: bool, vec: BitVec): Key { if all then AllTrue else Sign(vec) }

  /** Bit `i` is in one of the entries with these numbers. */
  predicate AnyOf(entries: seq<Key>, side: seq<nat>, siglen: nat, i: nat)
    requires forall j | 0 <= j < |side| :: side[j] < |entries|
  {
    exists j | 0 <= j < |side| :: Has(entries[side[j]], siglen, i)
  }

  /** The entry's bits go into the datum in place. */
  method Absorb(all: bool, vec: array<bv8>, e: Key)
    requires Fits(e, vec.Length)
    modifies vec
    ensures forall i: nat :: Has(Datum(all, vec[..]), vec.Length, i) <==>
              old(Has(Datum(all, vec[..]), vec.Length, i)) || Has(e, vec.Length, i)
  {
    ghost var before := vec[..];
    if all || e.AllTrue? {
      if !all {
        for i := 0 to vec.Length
          invariant forall j | 0 <= j < i :: vec[j] == ONES
        {
          vec[i] := ONES;
        }
        assert vec[..] == Filled(vec.Length, ONES);
        forall i: nat ensures Has(Sign(vec[..]), vec.Length, i) <==> i < 8 * vec.Length { FilledBits(vec.Length, i); }
      }
    } else {
      var _ := UnionKey(vec, e);
      forall i: nat ensures Has(Sign(vec[..]), vec.Length, i) <==> Bit(before, i) || Has(e, vec.Length, i) {
        OrBits(before, e.sign, i);
      }
    }
  }

  /** The Hamming distance of two entries. */
  function Apart(entries: seq<Key>, siglen: nat, a: nat, b: nat): nat
    requires a < |entries| && b < |entries| && Fits(entries[a], siglen) && Fits(entries[b], siglen)
  {
    Differing(Vector(entries[a], siglen), Vector(entries[b], siglen), 8 * siglen)
  }

  /** What the search for seeds has found in the pairs before (k, j), of entries up to `maxoff`. */
  ghost predicate Farthest(entries: seq<Key>, siglen: nat, maxoff: nat, k: nat, j: nat, waste: int, seed1: nat, seed2: nat)
    requires maxoff < |entries| && forall i | 0 <= i < |entries| :: Fits(entries[i], siglen)
  {
    && (if waste == -1 then seed1 == seed2 == 0 else 1 <= seed1 < seed2 <= maxoff && waste == Apart(entries, siglen, seed1, seed2))
    && forall a, b | 1 <= a < b <= maxoff && (a < k || (a == k && b < j)) :: Apart(entries, siglen, a, b) <= waste
  }

  /**
    The two entries that are farthest apart among all but the last one; with fewer than three
    entries the first two.
   */
  method Seeds(entries: seq<Key>, siglen: nat) returns (seed1: nat, seed2: nat)
    requires |entries| >= 3 && forall i | 0 <= i < |entries| :: Fits(entries[i], siglen)
    ensures 1 <= seed1 < seed2 < |entries|
    ensures forall a, b | 1 <= a < b < |entries| - 1 :: Apart(entries, siglen, a, b) <= Apart(entries, siglen, seed1, seed2)
  {
    var maxoff := |entries| - 2;
    var waste := -1;
    seed1, seed2 := 0, 0;
    var k := 1;
    while k < maxoff
      invariant 1 <= k && (k <= maxoff || maxoff == 0) && Farthest(entries, siglen, maxoff, k, k + 1, waste, seed1, seed2)
    {
      var j := k + 1;
      while j <= maxoff
        invariant k < j <= maxoff + 1 && Farthest(entries, siglen, maxoff, k, j, waste, seed1, seed2)
      {
        var sizeWaste := HemDist(entries[k], entries[j], siglen);
        if sizeWaste > waste { waste, seed1, seed2 := sizeWaste, k, j; }
        j := j + 1;
      }
      k := k + 1;
    }
    if seed1 == 0 || seed2 == 0 { seed1, seed2 := 1, 2; }
  }

  /** The macro `WISH_F` with its constant: a preference for the smaller side. */
  function Wish(nleft: nat, nright: nat): real {
    var d := nleft - nright;
    -((d * d * d) as real * 0.0001)
  }

  ghost predicate SideOk(entries: seq<Key>, side: seq<nat>, seed: nat, datum: Key, siglen: nat) {
    && seed < |entries| && (forall j | 0 <= j < |side| :: side[j] < |entries|)
    && forall i: nat :: Has(datum, siglen, i) <==> Has(entries[seed], siglen, i) || AnyOf(entries, side, siglen, i)
  }

  lemma SideGrows(entries: seq<Key>, side: seq<nat>, seed: nat, datum: Key, siglen: nat, j: nat, after: Key)
    requires SideOk(entries, side, seed, datum, siglen) && j < |entries|
    requires forall i: nat :: Has(after, siglen, i) <==> Has(datum, siglen, i) || Has(entries[j], siglen, i)
    ensures SideOk(entries, side + [j], seed, after, siglen)
  {
    var more := side + [j];
    forall i: nat ensures AnyOf(entries, more, siglen, i) <==> AnyOf(entries, side, siglen, i) || Has(entries[j], siglen, i) {
      if m :| 0 <= m < |side| && Has(entries[side[m]], siglen, i) { assert Has(entries[more[m]], siglen, i); }
      assert more[|side|] == j;
    }
  }

  /** The side with its seed: the datum is the union of the entries. */
  lemma SideComplete(entries: seq<Key>, side: seq<nat>, seed: nat, datum: Key, siglen: nat)
    requires SideOk(entries, side, seed, datum, siglen) && seed in side
    ensures forall i: nat :: Has(datum, siglen, i) <==> AnyOf(entries, side, siglen, i)
  {
  }

  /** The body of the last loop: seeds go to their own side, others where they add less. */
  method Place(entries: seq<Key>, j: nat, seed1: nat, seed2: nat, allL: bool, vecL: array<bv8>, left: seq<nat>,
               allR: bool, vecR: array<bv8>, right: seq<nat>)
    returns (toLeft: bool)
    requires vecL != vecR && vecL.Length == vecR.Length && seed1 != seed2
    requires j < |entries| && forall i | 0 <= i < |entries| :: Fits(entries[i], vecL.Length)
    requires SideOk(entries, left, seed1, Datum(allL, vecL[..]), vecL.Length)
    requires SideOk(entries, right, seed2, Datum(allR, vecR[..]), vecL.Length)
    modifies vecL, vecR
    ensures (j == seed1 ==> toLeft) && (j == seed2 ==> !toLeft)
    ensures SideOk(entries, if toLeft then left + [j] else left, seed1, Datum(allL, vecL[..]), vecL.Length)
    ensures SideOk(entries, if toLeft then right else right + [j], seed2, Datum(allR, vecR[..]), vecL.Length)
  {
    ghost var l0, r0 := Datum(allL, vecL[..]), Datum(allR, vecR[..]);
    if j == seed1 {
      SideGrows(entries, left, seed1, l0, vecL.Length, j, l0);
      return true;
    }
    if j == seed2 {
      SideGrows(entries, right, seed2, r0, vecL.Length, j, r0);
      return false;
    }
    var alpha := HemDist(Datum(allL, vecL[..]), entries[j], vecL.Length);
    var beta := HemDist(Datum(allR, vecR[..]), entries[j], vecL.Length);
    if (alpha as real) < beta as real + Wish(|left|, |right|) {
      Absorb(allL, vecL, entries[j]);
      SideGrows(entries, left, seed1, l0, vecL.Length, j, Datum(allL, vecL[..]));
      return true;
    }
    Absorb(allR, vecR, entries[j]);
    SideGrows(entries, right, seed2, r0, vecL.Length, j, Datum(allR, vecR[..]));
    return false;
  }

  /** The last loop of the split: all entries, in the given order. */
  method PlaceAll(entries: seq<Key>, order: seq<nat>, seed1: nat, seed2: nat, allL: bool, vecL: array<bv8>,
                  allR: bool, vecR: array<bv8>)
    returns (left: seq<nat>, right: seq<nat>)
    requires vecL != vecR && vecL.Length == vecR.Length && seed1 != seed2
    requires forall i | 0 <= i < |entries| :: Fits(entries[i], vecL.Length)
    requires forall i | 0 <= i < |order| :: order[i] < |entries|
    requires SideOk(entries, [], seed1, Datum(allL, vecL[..]), vecL.Length)
    requires SideOk(entries, [], seed2, Datum(allR, vecR[..]), vecL.Length)
    modifies vecL, vecR
    ensures SideOk(entries, left, seed1, Datum(allL, vecL[..]), vecL.Length)
    ensures SideOk(entries, right, seed2, Datum(allR, vecR[..]), vecL.Length)
    ensures Placed(order, |order|, left, right, seed1, seed2)
  {
    left, right := [], [];
    for k := 0 to |order|
      invariant SideOk(entries, left, seed1, Datum(allL, vecL[..]), vecL.Length)
      invariant SideOk(entries, right, seed2, Datum(allR, vecR[..]), vecL.Length)
      invariant Placed(order, k, left, right, seed1, seed2)
    {
      PlaceOne(order, k, left, right, seed1, seed2);
      var toLeft := Place(entries, order[k], seed1, seed2, allL, vecL, left, allR, vecR, right);
      if toLeft { left := left + [order[k]]; } else { right := right + [order[k]]; }
    }
  }

  /**
    `ghstore_picksplit`.  `order` is the order that sorting by cost leaves the entry numbers in.
    Whatever the costs decide, every entry goes to exactly one side, neither side is empty, and the
    key of a side has exactly the bits of its entries.
   */
  method PickSplit(entries: seq<Key>, order: seq<nat>, siglen: nat)
    returns (left: seq<nat>, right: seq<nat>, ldatum: Key, rdatum: Key)
    requires |entries| >= 3 && IsOrder(order, |entries|) && forall i | 0 <= i < |entries| :: Fits(entries[i], siglen)
    ensures IsSplit(left, right, |entries|)
    ensures forall j | 0 <= j < |left| :: left[j] < |entries|
    ensures forall j | 0 <= j < |right| :: right[j] < |entries|
    ensures Fits(ldatum, siglen) && forall i: nat :: Has(ldatum, siglen, i) <==> AnyOf(entries, left, siglen, i)
    ensures Fits(rdatum, siglen) && forall i: nat :: Has(rdatum, siglen, i) <==> AnyOf(entries, right, siglen, i)
  {
    var seed1, seed2 := Seeds(entries, siglen);
    var allL, vecL := CopyKey(entries[seed1], siglen);
    var allR, vecR := CopyKey(entries[seed2], siglen);
    left, right := PlaceAll(entries, order, seed1, seed2, allL, vecL, allR, vecR);
    AllPlaced(order, left, right, seed1, seed2, |entries|);
    ldatum, rdatum := Datum(allL, vecL[..]), Datum(allR, vecR[..]);
    SideComplete(entries, left, seed1, ldatum, siglen);
    SideComplete(entries, right, seed2, rdatum, siglen);
  }

  /** `ghstore_alloc` with the key of a seed */
  method CopyKey(k: Key, siglen: nat) returns (all: bool, vec: array<bv8>)
    requires Fits(k, siglen)
    ensures fresh(vec) && vec.Length == siglen && Datum(all, vec[..]) == k
  {
    all := k.AllTrue?;
    vec := new bv8[siglen](i requires 0 <= i < siglen => if k.AllTrue? then ONES else k.sign[i]);
  }

  // ---------------------------------------------------------------- splitting a node

  /** A datum with the bits of a side makes a valid node over the children of that side. */
  lemma SideIsValid(hash: Bytes -> Word, children: seq<Tree>, entries: seq<Key>, side: seq<nat>, k: Key, siglen: nat)
    requires siglen > 0 && AllValid(hash, children, siglen) && entries == [AllTrue] + KeysOf(children)
    requires Numbered(side, |children|)
    requires forall i: nat :: Has(k, siglen, i) <==> AnyOf(entries, side, siglen, i)
    ensures Valid(hash, Node(k, Pick(children, side)), siglen)
  {
    var picked := Pick(children, side);
    forall i: nat ensures AnyOf(entries, side, siglen, i) <==> Any(KeysOf(picked), siglen, i) {
      assert forall j | 0 <= j < |side| :: entries[side[j]] == KeysOf(picked)[j];
    }
    UnionIsValid(hash, k, picked, siglen);
  }

  /** A full node becomes two: both are valid with compressed keys, and every child goes to exactly one of them. */
  method SplitNode(hash: Bytes -> Word, children: seq<Tree>, order: seq<nat>, siglen: nat)
    returns (l: Tree, r: Tree, left: seq<nat>, right: seq<nat>)
    requires siglen > 0 && AllValid(hash, children, siglen) && |children| >= 2 && IsOrder(order, |children| + 1)
    requires forall i | 0 <= i < |children| :: Fits(children[i].key, siglen)
    ensures IsSplit(left, right, |children| + 1) && Numbered(left, |children|) && Numbered(right, |children|)
    ensures l == Node(l.key, Pick(children, left)) && Valid(hash, l, siglen) && Fits(l.key, siglen)
    ensures r == Node(r.key, Pick(children, right)) && Valid(hash, r, siglen) && Fits(r.key, siglen)
  {
    var entries := [AllTrue] + KeysOf(children);
    var ldatum, rdatum;
    left, right, ldatum, rdatum := PickSplit(entries, order, siglen);
    SplitIsNumbered(left, right, |children|);
    SideIsValid(hash, children, entries, left, ldatum, siglen);
    SideIsValid(hash, children, entries, right, rdatum, siglen);
    var lkey := CompressInner(ldatum, siglen);
    var rkey := CompressInner(rdatum, siglen);
    CompressIsValid(hash, Node(ldatum, Pick(children, left)), lkey, siglen);
    CompressIsValid(hash, Node(rdatum, Pick(children, right)), rkey, siglen);
    l, r := Node(lkey, Pick(children, left)), Node(rkey, Pick(children, right));
  }
}

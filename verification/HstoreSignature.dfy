/** Signature keys of the GiST index over hstores: bit vectors, or a flag that stands for all ones. */
module HstoreSignature {
  import opened Results
  import opened ByteOrder
  import opened HstoreLayout

  type BitVec = seq<bv8>

  const ONES: bv8 := 0xff

  // ---------------------------------------------------------------- bits

  function Mask(k: nat): (m: bv8)
    requires k < 8
    ensures m != 0
  {
    match k
    case 0 => 0x01
    case 1 => 0x02
    case 2 => 0x04
    case 3 => 0x08
    case 4 => 0x10
    case 5 => 0x20
    case 6 => 0x40
    case _ => 0x80
  }

  predicate ByteHas(b: bv8, m: bv8) { b & m != 0 }

  /** Only the byte of all ones has all bits. */
  lemma OnesHas(b: bv8)
    requires b != ONES
    ensures exists k: nat | k < 8 :: !ByteHas(b, Mask(k))
  {
    if forall k: nat | k < 8 :: ByteHas(b, Mask(k)) {
      assert ByteHas(b, Mask(0)) && ByteHas(b, Mask(1)) && ByteHas(b, Mask(2)) && ByteHas(b, Mask(3));
      assert ByteHas(b, Mask(4)) && ByteHas(b, Mask(5)) && ByteHas(b, Mask(6)) && ByteHas(b, Mask(7));
      AllEight(b);
    }
  }

  lemma AllEight(b: bv8)
    requires b & 0x01 != 0 && b & 0x02 != 0 && b & 0x04 != 0 && b & 0x08 != 0
    requires b & 0x10 != 0 && b & 0x20 != 0 && b & 0x40 != 0 && b & 0x80 != 0
    ensures b == ONES
  {
  }

  /** `GETBIT` */
  predicate Bit(v: BitVec, i: nat) { i < 8 * |v| && ByteHas(v[i / 8], Mask(i % 8)) }

  /** `SETBIT` */
  function SetBit(v: BitVec, i: nat): (r: BitVec)
    requires i < 8 * |v|
    ensures |r| == |v|
  {
    v[i / 8 := v[i / 8] | Mask(i % 8)]
  }

  lemma SetBitBits(v: BitVec, i: nat, j: nat)
    requires i < 8 * |v|
    ensures Bit(SetBit(v, i), j) <==> Bit(v, j) || i == j
  {
  }

  function Or(a: BitVec, b: BitVec): (r: BitVec)
    requires |a| == |b|
    ensures |r| == |a| && forall k | 0 <= k < |r| :: r[k] == a[k] | b[k]
  {
    seq(|a|, k requires 0 <= k < |a| => a[k] | b[k])
  }

  lemma OrBits(a: BitVec, b: BitVec, i: nat)
    requires |a| == |b|
    ensures Bit(Or(a, b), i) <==> Bit(a, i) || Bit(b, i)
  {
  }

  function Filled(siglen: nat, b: bv8): (r: BitVec)
    ensures |r| == siglen && forall k | 0 <= k < siglen :: r[k] == b
  {
    seq(siglen, _ => b)
  }

  lemma FilledBits(siglen: nat, i: nat)
    ensures !Bit(Filled(siglen, 0), i) && (Bit(Filled(siglen, ONES), i) <==> i < 8 * siglen)
  {
  }

  // ---------------------------------------------------------------- keys

  datatype Key = AllTrue | Sign(sign: BitVec)

  predicate Fits(k: Key, siglen: nat) { k.Sign? ==> |k.sign| == siglen }

  /** Bit `i` of a key; the all-true flag stands for the vector of all ones. */
  predicate Has(k: Key, siglen: nat, i: nat) { i < 8 * siglen && (k.Sign? ==> Bit(k.sign, i)) }

  /** Every bit of `e` is in `k`. */
  ghost predicate Covers(k: Key, e: Key, siglen: nat) { forall i: nat | Has(e, siglen, i) :: Has(k, siglen, i) }

  /** The bits of `k` are those of the entries together. */
  ghost predicate IsUnion(k: Key, entries: seq<Key>, siglen: nat) {
    forall i: nat :: Has(k, siglen, i) <==> Any(entries, siglen, i)
  }

  predicate Any(entries: seq<Key>, siglen: nat, i: nat) { exists j | 0 <= j < |entries| :: Has(entries[j], siglen, i) }

  lemma AnyMore(entries: seq<Key>, e: Key, siglen: nat, i: nat)
    ensures Any(entries + [e], siglen, i) <==> Any(entries, siglen, i) || Has(e, siglen, i)
  {
    var more := entries + [e];
    if j :| 0 <= j < |entries| && Has(entries[j], siglen, i) { assert Has(more[j], siglen, i); }
    assert more[|entries|] == e;
  }

  /** `unionkey`: the bits of `add` go into the vector in place. */
  method UnionKey(base: array<bv8>, add: Key) returns (all: bool)
    requires Fits(add, base.Length)
    modifies base
    ensures all <==> add.AllTrue?
    ensures base[..] == if all then old(base[..]) else Or(old(base[..]), add.sign)
  {
    if add.AllTrue? { return true; }
    for i := 0 to base.Length
      invariant forall k | 0 <= k < i :: base[k] == old(base[k]) | add.sign[k]
      invariant forall k | i <= k < base.Length :: base[k] == old(base[k])
    {
      base[i] := base[i] | add.sign[i];
    }
    return false;
  }

  /** `ghstore_union` */
  method Union(entries: seq<Key>, siglen: nat) returns (r: Key)
    requires forall j | 0 <= j < |entries| :: Fits(entries[j], siglen)
    ensures Fits(r, siglen) && IsUnion(r, entries, siglen)
  {
    var base := new bv8[siglen](_ => 0);
    assert base[..] == Filled(siglen, 0);
    forall i: nat ensures !Has(Sign(base[..]), siglen, i) { FilledBits(siglen, i); }
    for n := 0 to |entries|
      invariant base.Length == siglen && IsUnion(Sign(base[..]), entries[..n], siglen)
    {
      ghost var before := base[..];
      var all := UnionKey(base, entries[n]);
      if all {
        assert entries[n] == AllTrue;
        assert forall i: nat | i < 8 * siglen :: Has(entries[n], siglen, i);
        return AllTrue;
      }
      assert entries[..n + 1] == entries[..n] + [entries[n]];
      forall i: nat ensures Has(Sign(base[..]), siglen, i) <==> Any(entries[..n + 1], siglen, i) {
        OrBits(before, entries[n].sign, i);
        AnyMore(entries[..n], entries[n], siglen, i);
      }
    }
    assert entries[..|entries|] == entries;
    return Sign(base[..]);
  }

  // ---------------------------------------------------------------- compression

  /** `HASHVAL` of a string, for a hash function such as the CRC. */
  function HashVal(hash: Bytes -> Word, s: Bytes, siglen: nat): nat
    requires siglen > 0
  {
    hash(s) % (8 * siglen)
  }

  predicate PairSigns(hash: Bytes -> Word, p: Pair, siglen: nat, i: nat)
    requires siglen > 0
  {
    HashVal(hash, p.key, siglen) == i || (!p.isNull && HashVal(hash, p.val, siglen) == i)
  }

  /** Bit `i` comes from a key or a value that is not null. */
  predicate Signs(hash: Bytes -> Word, ps: seq<Pair>, siglen: nat, i: nat)
    requires siglen > 0
  {
    exists j | 0 <= j < |ps| :: PairSigns(hash, ps[j], siglen, i)
  }

  ghost predicate IsLeafKey(hash: Bytes -> Word, k: Key, ps: seq<Pair>, siglen: nat)
    requires siglen > 0
  {
    forall i: nat :: Has(k, siglen, i) <==> Signs(hash, ps, siglen, i)
  }

  /** `HASH` */
  method SetHash(sign: array<bv8>, h: Word)
    requires sign.Length > 0
    modifies sign
    ensures sign[..] == SetBit(old(sign[..]), h % (8 * sign.Length))
  {
    var i := h % (8 * sign.Length);
    sign[i / 8] := sign[i / 8] | Mask(i % 8);
  }

  method SetPair(hash: Bytes -> Word, sign: array<bv8>, p: Pair)
    requires sign.Length > 0
    modifies sign
    ensures forall i: nat :: Bit(sign[..], i) <==> old(Bit(sign[..], i)) || PairSigns(hash, p, sign.Length, i)
  {
    ghost var s0 := sign[..];
    SetHash(sign, hash(p.key));
    forall i: nat ensures Bit(sign[..], i) <==> Bit(s0, i) || HashVal(hash, p.key, sign.Length) == i {
      SetBitBits(s0, HashVal(hash, p.key, sign.Length), i);
    }
    if !p.isNull {
      ghost var s1 := sign[..];
      SetHash(sign, hash(p.val));
      forall i: nat ensures Bit(sign[..], i) <==> Bit(s1, i) || HashVal(hash, p.val, sign.Length) == i {
        SetBitBits(s1, HashVal(hash, p.val, sign.Length), i);
      }
    }
  }

  /** `ghstore_compress` of a leaf value */
  method CompressLeaf(hash: Bytes -> Word, ps: seq<Pair>, siglen: nat) returns (r: Key)
    requires siglen > 0
    ensures r.Sign? && Fits(r, siglen) && IsLeafKey(hash, r, ps, siglen)
  {
    var sign := new bv8[siglen](_ => 0);
    assert sign[..] == Filled(siglen, 0);
    forall i: nat ensures !Bit(sign[..], i) { FilledBits(siglen, i); }
    for n := 0 to |ps|
      invariant forall i: nat :: Bit(sign[..], i) <==> Signs(hash, ps[..n], siglen, i)
    {
      SetPair(hash, sign, ps[n]);
      forall i: nat ensures Bit(sign[..], i) <==> Signs(hash, ps[..n + 1], siglen, i) {
        SignsMore(hash, ps, n, siglen, i);
      }
    }
    assert ps[..|ps|] == ps;
    return Sign(sign[..]);
  }

  lemma SignsMore(hash: Bytes -> Word, ps: seq<Pair>, n: nat, siglen: nat, i: nat)
    requires siglen > 0 && n < |ps|
    ensures Signs(hash, ps[..n + 1], siglen, i) <==> Signs(hash, ps[..n], siglen, i) || PairSigns(hash, ps[n], siglen, i)
  {
  }

  /** `ghstore_compress` of an inner key: a vector of all ones becomes the flag, and nothing else changes. */
  method CompressInner(k: Key, siglen: nat) returns (r: Key)
    requires Fits(k, siglen)
    ensures Fits(r, siglen) && forall i: nat :: Has(r, siglen, i) <==> Has(k, siglen, i)
    ensures r.AllTrue? <==> forall i: nat | i < 8 * siglen :: Has(k, siglen, i)
  {
    if k.AllTrue? { return k; }
    for n := 0 to siglen
      invariant forall j | 0 <= j < n :: k.sign[j] == ONES
    {
      if k.sign[n] != ONES {
        OnesHas(k.sign[n]);
        var c: nat :| c < 8 && !ByteHas(k.sign[n], Mask(c));
        assert (8 * n + c) / 8 == n && (8 * n + c) % 8 == c;
        assert !Has(k, siglen, 8 * n + c);
        return k;
      }
    }
    assert k.sign == Filled(siglen, ONES);
    forall i: nat ensures Has(k, siglen, i) <==> i < 8 * siglen { FilledBits(siglen, i); }
    return AllTrue;
  }

  // ---------------------------------------------------------------- consistency

  datatype Query = Contains(pairs: seq<Pair>) | Exists(key: Bytes)
                 | ExistsAll(keys: seq<Option<Bytes>>) | ExistsAny(keys: seq<Option<Bytes>>)

  predicate HasKey(ps: seq<Pair>, key: Bytes) { exists j | 0 <= j < |ps| :: ps[j].key == key }

  predicate SamePair(p: Pair, q: Pair) { p.key == q.key && p.isNull == q.isNull && (q.isNull || p.val == q.val) }

  predicate HasPair(ps: seq<Pair>, q: Pair) { exists j | 0 <= j < |ps| :: SamePair(ps[j], q) }

  /** What the operators mean for a stored hstore; null array elements are skipped. */
  predicate Satisfies(ps: seq<Pair>, q: Query) {
    match q
    case Contains(pairs) => forall i | 0 <= i < |pairs| :: HasPair(ps, pairs[i])
    case Exists(key) => HasKey(ps, key)
    case ExistsAll(keys) => forall i | 0 <= i < |keys| :: keys[i].Some? ==> HasKey(ps, keys[i].value)
    case ExistsAny(keys) => exists i | 0 <= i < |keys| :: keys[i].Some? && HasKey(ps, keys[i].value)
  }

  predicate BitOf(hash: Bytes -> Word, k: Key, siglen: nat, s: Bytes)
    requires siglen > 0
  {
    Has(k, siglen, HashVal(hash, s, siglen))
  }

  predicate BitsOf(hash: Bytes -> Word, k: Key, siglen: nat, p: Pair)
    requires siglen > 0
  {
    BitOf(hash, k, siglen, p.key) && (!p.isNull ==> BitOf(hash, k, siglen, p.val))
  }

  /** The signature does not rule the query out. */
  predicate MayHold(hash: Bytes -> Word, k: Key, siglen: nat, q: Query)
    requires siglen > 0
  {
    k.AllTrue? ||
    match q
    case Contains(pairs) => forall i | 0 <= i < |pairs| :: BitsOf(hash, k, siglen, pairs[i])
    case Exists(key) => BitOf(hash, k, siglen, key)
    case ExistsAll(keys) => forall i | 0 <= i < |keys| :: keys[i].Some? ==> BitOf(hash, k, siglen, keys[i].value)
    case ExistsAny(keys) => exists i | 0 <= i < |keys| :: keys[i].Some? && BitOf(hash, k, siglen, keys[i].value)
  }

  /** The loop for contains. */
  method AllPairs(hash: Bytes -> Word, k: Key, siglen: nat, pairs: seq<Pair>) returns (res: bool)
    requires siglen > 0 && Fits(k, siglen) && k.Sign?
    ensures res <==> forall i | 0 <= i < |pairs| :: BitsOf(hash, k, siglen, pairs[i])
  {
    res := true;
    var i := 0;
    while res && i < |pairs|
      invariant 0 <= i <= |pairs|
      invariant res ==> forall j | 0 <= j < i :: BitsOf(hash, k, siglen, pairs[j])
      invariant !res ==> exists j | 0 <= j < |pairs| :: !BitsOf(hash, k, siglen, pairs[j])
    {
      if Bit(k.sign, HashVal(hash, pairs[i].key, siglen)) {
        if !pairs[i].isNull && !Bit(k.sign, HashVal(hash, pairs[i].val, siglen)) { res := false; }
      } else {
        res := false;
      }
      assert res == BitsOf(hash, k, siglen, pairs[i]);
      i := i + 1;
    }
  }

  /** The loop for exists-all. */
  method AllKeys(hash: Bytes -> Word, k: Key, siglen: nat, keys: seq<Option<Bytes>>) returns (res: bool)
    requires siglen > 0 && Fits(k, siglen) && k.Sign?
    ensures res <==> forall i | 0 <= i < |keys| :: keys[i].Some? ==> BitOf(hash, k, siglen, keys[i].value)
  {
    res := true;
    var i := 0;
    while res && i < |keys|
      invariant 0 <= i <= |keys|
      invariant res ==> forall j | 0 <= j < i :: keys[j].Some? ==> BitOf(hash, k, siglen, keys[j].value)
      invariant !res ==> exists j | 0 <= j < |keys| :: keys[j].Some? && !BitOf(hash, k, siglen, keys[j].value)
    {
      if keys[i].Some? && !Bit(k.sign, HashVal(hash, keys[i].value, siglen)) { res := false; }
      i := i + 1;
    }
  }

  /** The loop for exists-any. */
  method AnyKey(hash: Bytes -> Word, k: Key, siglen: nat, keys: seq<Option<Bytes>>) returns (res: bool)
    requires siglen > 0 && Fits(k, siglen) && k.Sign?
    ensures res <==> exists i | 0 <= i < |keys| :: keys[i].Some? && BitOf(hash, k, siglen, keys[i].value)
  {
    res := false;
    var i := 0;
    while !res && i < |keys|
      invariant 0 <= i <= |keys|
      invariant !res ==> forall j | 0 <= j < i :: keys[j].Some? ==> !BitOf(hash, k, siglen, keys[j].value)
      invariant res ==> exists j | 0 <= j < |keys| :: keys[j].Some? && BitOf(hash, k, siglen, keys[j].value)
    {
      if keys[i].Some? && Bit(k.sign, HashVal(hash, keys[i].value, siglen)) { res := true; }
      i := i + 1;
    }
  }

  /** `ghstore_consistent` */
  method Consistent(hash: Bytes -> Word, k: Key, siglen: nat, q: Query) returns (res: bool)
    requires siglen > 0 && Fits(k, siglen)
    ensures res <==> MayHold(hash, k, siglen, q)
  {
    if k.AllTrue? { return true; }
    match q
    case Contains(pairs) => res := AllPairs(hash, k, siglen, pairs);
    case Exists(key) => res := Bit(k.sign, HashVal(hash, key, siglen));
    case ExistsAll(keys) => res := AllKeys(hash, k, siglen, keys);
    case ExistsAny(keys) => res := AnyKey(hash, k, siglen, keys);
  }

  // ---------------------------------------------------------------- trees

  datatype Tree = Leaf(key: Key, pairs: seq<Pair>) | Node(key: Key, children: seq<Tree>)

  /** Leaf keys are signatures of their values, inner keys have the bits of the keys below. */
  ghost predicate Valid(hash: Bytes -> Word, t: Tree, siglen: nat)
    requires siglen > 0
  {
    match t
    case Leaf(key, pairs) => IsLeafKey(hash, key, pairs, siglen)
    case Node(key, children) =>
      forall i | 0 <= i < |children| :: Valid(hash, children[i], siglen) && Covers(key, children[i].key, siglen)
  }

  predicate Below(t: Tree, ps: seq<Pair>) {
    match t
    case Leaf(_, pairs) => pairs == ps
    case Node(_, children) => exists i | 0 <= i < |children| :: Below(children[i], ps)
  }

  /** Every bit of a stored value is in the key of every node above it. */
  lemma {:induction false} BitsReachUp(hash: Bytes -> Word, t: Tree, siglen: nat, ps: seq<Pair>, i: nat)
    requires siglen > 0 && Valid(hash, t, siglen) && Below(t, ps) && Signs(hash, ps, siglen, i)
    ensures Has(t.key, siglen, i)
  {
    match t
    case Leaf(_, _) =>
    case Node(key, children) =>
      var c :| 0 <= c < |children| && Below(children[c], ps);
      BitsReachUp(hash, children[c], siglen, ps, i);
      assert Covers(key, children[c].key, siglen);
  }

  lemma {:induction false} KeyBit(hash: Bytes -> Word, t: Tree, siglen: nat, ps: seq<Pair>, key: Bytes)
    requires siglen > 0 && Valid(hash, t, siglen) && Below(t, ps) && HasKey(ps, key)
    ensures BitOf(hash, t.key, siglen, key)
  {
    var j :| 0 <= j < |ps| && ps[j].key == key;
    assert PairSigns(hash, ps[j], siglen, HashVal(hash, key, siglen));
    BitsReachUp(hash, t, siglen, ps, HashVal(hash, key, siglen));
  }

  lemma {:induction false} PairBits(hash: Bytes -> Word, t: Tree, siglen: nat, ps: seq<Pair>, q: Pair)
    requires siglen > 0 && Valid(hash, t, siglen) && Below(t, ps) && HasPair(ps, q)
    ensures BitsOf(hash, t.key, siglen, q)
  {
    var j :| 0 <= j < |ps| && SamePair(ps[j], q);
    KeyBit(hash, t, siglen, ps, q.key);
    if !q.isNull {
      assert PairSigns(hash, ps[j], siglen, HashVal(hash, q.val, siglen));
      BitsReachUp(hash, t, siglen, ps, HashVal(hash, q.val, siglen));
    }
  }

  /** No key above a value that satisfies the query rules the query out. */
  lemma {:induction false} TreeAdmits(hash: Bytes -> Word, t: Tree, siglen: nat, ps: seq<Pair>, q: Query)
    requires siglen > 0 && Valid(hash, t, siglen) && Below(t, ps) && Satisfies(ps, q)
    ensures MayHold(hash, t.key, siglen, q)
  {
    match q
    case Contains(pairs) =>
      forall i | 0 <= i < |pairs| ensures BitsOf(hash, t.key, siglen, pairs[i]) { PairBits(hash, t, siglen, ps, pairs[i]); }
    case Exists(key) => KeyBit(hash, t, siglen, ps, key);
    case ExistsAll(keys) =>
      forall i | 0 <= i < |keys| && keys[i].Some? ensures BitOf(hash, t.key, siglen, keys[i].value) {
        KeyBit(hash, t, siglen, ps, keys[i].value);
      }
    case ExistsAny(keys) =>
      var i :| 0 <= i < |keys| && keys[i].Some? && HasKey(ps, keys[i].value);
      KeyBit(hash, t, siglen, ps, keys[i].value);
  }

  function KeysOf(page: seq<Tree>): (ks: seq<Key>)
    ensures |ks| == |page| && forall i | 0 <= i < |page| :: ks[i] == page[i].key
  {
    seq(|page|, i requires 0 <= i < |page| => page[i].key)
  }

  ghost predicate AllValid(hash: Bytes -> Word, page: seq<Tree>, siglen: nat)
    requires siglen > 0
  {
    forall i | 0 <= i < |page| :: Valid(hash, page[i], siglen)
  }

  /** A node over some trees whose key is the union of their keys keeps the tree valid. */
  lemma UnionIsValid(hash: Bytes -> Word, k: Key, children: seq<Tree>, siglen: nat)
    requires siglen > 0 && AllValid(hash, children, siglen) && IsUnion(k, KeysOf(children), siglen)
    ensures Valid(hash, Node(k, children), siglen)
  {
    forall i | 0 <= i < |children| ensures Covers(k, children[i].key, siglen) {
      forall b: nat | Has(children[i].key, siglen, b) ensures Has(k, siglen, b) {
        assert Has(KeysOf(children)[i], siglen, b);
      }
    }
  }

  /** A node that gets one entry more: its key becomes the union of the old key and the key of that entry. */
  lemma InsertIsValid(hash: Bytes -> Word, t: Tree, c: Tree, k: Key, siglen: nat)
    requires siglen > 0 && t.Node? && Valid(hash, t, siglen) && Valid(hash, c, siglen)
    requires IsUnion(k, [t.key, c.key], siglen)
    ensures Valid(hash, Node(k, t.children + [c]), siglen)
  {
    var both := [t.key, c.key];
    forall b: nat | Has(t.key, siglen, b) ensures Has(k, siglen, b) { assert Has(both[0], siglen, b); }
    forall b: nat | Has(c.key, siglen, b) ensures Has(k, siglen, b) { assert Has(both[1], siglen, b); }
    var more := t.children + [c];
    forall i | 0 <= i < |more| ensures Valid(hash, more[i], siglen) && Covers(k, more[i].key, siglen) {
      if i < |t.children| { assert more[i] == t.children[i] && Covers(t.key, t.children[i].key, siglen); }
    }
  }

  /** Compressing the key of a node keeps the tree valid. */
  lemma CompressIsValid(hash: Bytes -> Word, t: Tree, k: Key, siglen: nat)
    requires siglen > 0 && t.Node? && Valid(hash, t, siglen)
    requires forall i: nat :: Has(k, siglen, i) <==> Has(t.key, siglen, i)
    ensures Valid(hash, Node(k, t.children), siglen)
  {
    forall i | 0 <= i < |t.children| ensures Covers(k, t.children[i].key, siglen) {
      assert Covers(t.key, t.children[i].key, siglen);
    }
  }

  // ---------------------------------------------------------------- search

  /** The values below a page, from left to right. */
  function Stored(page: seq<Tree>): seq<seq<Pair>> {
    if page == [] then []
    else (match page[0] case Leaf(_, ps) => [ps] case Node(_, children) => Stored(children)) + Stored(page[1..])
  }

  /** A search follows the entries that the query is consistent with, and puts the query to the values it meets. */
  function Search(hash: Bytes -> Word, page: seq<Tree>, siglen: nat, q: Query): seq<seq<Pair>>
    requires siglen > 0
  {
    if page == [] then []
    else
      var first :=
        if !MayHold(hash, page[0].key, siglen, q) then []
        else match page[0]
          case Leaf(_, ps) => if Satisfies(ps, q) then [ps] else []
          case Node(_, children) => Search(hash, children, siglen, q);
      first + Search(hash, page[1..], siglen, q)
  }

  function Wanted(q: Query): seq<Pair> -> bool { ps => Satisfies(ps, q) }

  lemma {:induction false} StoredIsBelow(page: seq<Tree>, ps: seq<Pair>)
    requires ps in Stored(page)
    ensures exists i | 0 <= i < |page| :: Below(page[i], ps)
  {
    if ps in Stored(page[1..]) {
      StoredIsBelow(page[1..], ps);
      var i :| 0 <= i < |page[1..]| && Below(page[1..][i], ps);
      assert Below(page[i + 1], ps);
    } else {
      if page[0].Node? { StoredIsBelow(page[0].children, ps); }
      assert Below(page[0], ps);
    }
  }

  /** Search returns exactly the stored values that satisfy the query, in order. */
  lemma {:induction false} SearchIsExact(hash: Bytes -> Word, page: seq<Tree>, siglen: nat, q: Query)
    requires siglen > 0 && AllValid(hash, page, siglen)
    ensures Search(hash, page, siglen, q) == Filter(Wanted(q), Stored(page))
  {
    if page != [] {
      var t := page[0];
      var mine := match t case Leaf(_, ps) => [ps] case Node(_, children) => Stored(children);
      SearchIsExact(hash, page[1..], siglen, q);
      FilterJoin(Wanted(q), mine, Stored(page[1..]));
      if !MayHold(hash, t.key, siglen, q) {
        forall ps | ps in mine ensures !Satisfies(ps, q) {
          if t.Node? { StoredIsBelow(t.children, ps); }
          if Satisfies(ps, q) { TreeAdmits(hash, t, siglen, ps, q); }
        }
        FilterNone(Wanted(q), mine);
      } else if t.Node? {
        SearchIsExact(hash, t.children, siglen, q);
      }
    }
  }
}

/** Byte strings in the order of `byteacmp`: the first difference decides, a prefix comes first. */
module ByteOrder {
  type Byte = x: int | 0 <= x < 256
  type Bytes = seq<Byte>

  /** The length of the longest common prefix. */
  function CommonPrefix(a: Bytes, b: Bytes): (c: nat)
    ensures c <= |a| && c <= |b| && a[..c] == b[..c]
    ensures c < |a| && c < |b| ==> a[c] != b[c]
  {
    if a == [] || b == [] || a[0] != b[0] then 0
    else
      var c := CommonPrefix(a[1..], b[1..]);
      assert a[..c + 1] == [a[0]] + a[1..][..c] && b[..c + 1] == [b[0]] + b[1..][..c];
      c + 1
  }

  predicate IsPrefix(p: Bytes, s: Bytes) { |p| <= |s| && s[..|p|] == p }

  /** `byteacmp`: `memcmp` over the shorter length, then the lengths. */
  function Compare(a: Bytes, b: Bytes): int {
    var c := CommonPrefix(a, b);
    if c < |a| && c < |b| then a[c] - b[c] else |a| - |b|
  }

  predicate Leq(a: Bytes, b: Bytes) { Compare(a, b) <= 0 }

  predicate Less(a: Bytes, b: Bytes) { Compare(a, b) < 0 }

  lemma CommonPrefixIs(a: Bytes, b: Bytes, c: nat)
    requires c <= |a| && c <= |b| && a[..c] == b[..c]
    requires c < |a| && c < |b| ==> a[c] != b[c]
    ensures CommonPrefix(a, b) == c
  {
  }

  lemma CompareTotal(a: Bytes, b: Bytes)
    ensures Compare(a, b) == -Compare(b, a) && (Compare(a, b) == 0 <==> a == b)
  {
  }

  /** What agrees with `b` up to `c` and differs at `c` is ordered by that byte. */
  lemma FirstDifference(a: Bytes, b: Bytes, c: nat)
    requires c <= |a| && c <= |b| && a[..c] == b[..c]
    ensures c < |a| && c < |b| && a[c] < b[c] ==> Less(a, b)
    ensures c == |a| < |b| ==> Less(a, b)
    ensures c == |a| ==> Leq(a, b)
  {
  }

  lemma LessTransitive(a: Bytes, b: Bytes, d: Bytes)
    requires Leq(a, b) && Leq(b, d)
    ensures Leq(a, d)
    ensures Less(a, b) || Less(b, d) ==> Less(a, d)
  {
  }

  lemma PrefixLeq(p: Bytes, s: Bytes)
    requires IsPrefix(p, s)
    ensures Leq(p, s) && CommonPrefix(p, s) == |p|
  {
  }

  /** Whatever lies between a string and an extension of it extends it too. */
  lemma BetweenHasPrefix(p: Bytes, v: Bytes, s: Bytes)
    requires IsPrefix(p, s) && Leq(p, v) && Leq(v, s)
    ensures IsPrefix(p, v)
  {
  }
}

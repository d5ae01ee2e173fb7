/** Numbers as byte strings, most significant byte first. */
module Octets {
  import opened Bytes
  import opened Radix

  function ByteValues(b: bytes): (ds: seq<nat>)
    ensures |ds| == |b| && (forall i :: 0 <= i < |b| ==> ds[i] == b[i]) && DigitsWithin(256, ds)
  {
    seq(|b|, i requires 0 <= i < |b| => b[i] as nat)
  }

  function Narrow(ds: seq<nat>): (b: bytes)
    requires DigitsWithin(256, ds)
    ensures |b| == |ds| && forall i :: 0 <= i < |b| ==> b[i] == ds[i]
  {
    seq(|ds|, i requires 0 <= i < |ds| => ds[i] as byte)
  }

  /** The shortest bytes of x; none for zero. */
  function ToBytes(x: nat): bytes {
    Narrow(Numeral(256, x))
  }

  function FromBytes(b: bytes): nat {
    Value(256, ByteValues(b))
  }

  lemma {:induction false} FromToBytes(x: nat)
    ensures FromBytes(ToBytes(x)) == x && (x > 0 ==> ToBytes(x) != [] && ToBytes(x)[0] != 0) && (x == 0 ==> ToBytes(x) == [])
  {
    assert ByteValues(ToBytes(x)) == Numeral(256, x);
    ValueOfNumeral(256, x);
  }

  lemma {:induction false} ToFromBytes(b: bytes)
    requires b != [] ==> b[0] != 0
    ensures ToBytes(FromBytes(b)) == b && (b != [] ==> FromBytes(b) > 0)
  {
    NumeralOfValue(256, ByteValues(b));
  }

  lemma {:induction false} OneByte(b: byte)
    requires b > 0
    ensures FromBytes([b]) == b && ToBytes(b) == [b]
  {
    var ds := ByteValues([b]);
    assert ds == [b as nat] && ds[..0] == [];
    assert Value(256, ds) == b;
    ToFromBytes([b]);
  }

  lemma {:induction false} LeadingZeroByte(b: bytes)
    ensures FromBytes([0] + b) == FromBytes(b)
  {
    assert ByteValues([0] + b) == Zeros(1) + ByteValues(b);
    ValueOfZeros(256, 1, ByteValues(b));
  }

  function Pow256(n: nat): (p: nat)
    ensures p > 0
  {
    if n == 0 then 1 else 256 * Pow256(n - 1)
  }

  lemma {:induction false} FromBytesBound(b: bytes)
    ensures FromBytes(b) < Pow256(|b|)
  {
    var ds := ByteValues(b);
    if b != [] {
      FromBytesBound(b[..|b| - 1]);
      assert ByteValues(b[..|b| - 1]) == ds[..|ds| - 1];
    }
  }

  /** A number below 256^n has at most n bytes. */
  lemma {:induction false} ToBytesBound(x: nat, n: nat)
    requires x < Pow256(n)
    ensures |ToBytes(x)| <= n
  {
    if x > 0 {
      ToBytesBound(x / 256, n - 1);
    }
  }

  /** Strings of one length compare as the numbers they stand for. */
  lemma {:induction false} FirstDifferenceDecides(a: bytes, b: bytes, i: nat)
    requires i < |a| == |b| && a[..i] == b[..i] && a[i] < b[i]
    ensures FromBytes(a) < FromBytes(b)
    decreases |a|
  {
    var n := |a| - 1;
    assert ByteValues(a[..n]) == ByteValues(a)[..n] && ByteValues(b[..n]) == ByteValues(b)[..n];
    if i < n {
      assert a[..n][..i] == a[..i] && b[..n][..i] == b[..i];
      FirstDifferenceDecides(a[..n], b[..n], i);
    } else {
      assert ByteValues(a)[..n] == ByteValues(b)[..n];
    }
  }
}

/** Strict DER signatures and their canonical form. */
module Signatures {
  import opened Bytes
  import opened Octets

  const SECP256K1_ORDER := 0xFFFFFFFFFFFFFFFFFFFFFFFFFFFFFFFEBAAEDCE6AF48A03BBFD25E8CD0364141
  const SECP256K1_HALF_ORDER := SECP256K1_ORDER / 2

  datatype Canonicality = NotCanonical | Canonical | FullyCanonical

  predicate HighBit(b: byte) {
    b >= 0x80
  }

  /** An integer off the front: its content bytes and what follows. */
  function ParseDerInteger(data: bytes): Option<(bytes, bytes)> {
    if |data| < 2 || data[0] != 0x02 then None
    else
      var length := data[1] as nat;
      if length < 1 || length > 33 || |data| < 2 + length then None
      else
        var content := data[2..2 + length];
        if HighBit(content[0]) then None
        else if content[0] == 0 && (length == 1 || !HighBit(content[1])) then None
        else Some((content, data[2 + length..]))
  }

  /** The two integers of a signature, if its frame is sound. */
  function ParseSignature(sig: bytes): Option<(bytes, bytes)> {
    if |sig| < 8 || |sig| > 72 || sig[0] != 0x30 || sig[1] != |sig| - 2 then None
    else
      var r := ParseDerInteger(sig[2..]);
      if r.None? then None
      else
        var s := ParseDerInteger(r.value.1);
        if s.None? || s.value.1 != [] then None else Some((r.value.0, s.value.0))
  }

  function EcdsaCanonicality(sig: bytes): Canonicality {
    var p := ParseSignature(sig);
    if p.None? then NotCanonical
    else
      var r, s := FromBytes(p.value.0), FromBytes(p.value.1);
      if r <= 0 || r >= SECP256K1_ORDER || s <= 0 || s >= SECP256K1_ORDER then NotCanonical
      else if s <= SECP256K1_HALF_ORDER then FullyCanonical
      else Canonical
  }

  /** The content bytes of an integer: a zero byte in front where the high bit is set, and for zero itself. */
  function Content(x: nat): bytes {
    var b := ToBytes(x);
    if b == [] then [0] else if HighBit(b[0]) then [0] + b else b
  }

  function Low(n: nat): byte {
    n % 256
  }

  ghost function Integer(x: nat): bytes {
    [0x02, Low(|Content(x)|)] + Content(x)
  }

  /** The DER form of a pair of numbers. */
  ghost function Signature(r: nat, s: nat): bytes {
    [0x30, Low(|Integer(r)| + |Integer(s)|)] + Integer(r) + Integer(s)
  }

  /** The bytes of the form: the tags, the lengths and the two contents, most significant byte first. */
  lemma {:induction false} SignatureBytes(r: nat, s: nat)
    requires InRange(r) && InRange(s)
    ensures var a, b := Content(r), Content(s);
      && 1 <= |a| <= 33 && 1 <= |b| <= 33 && FromBytes(a) == r && FromBytes(b) == s
      && Signature(r, s) == [0x30, 4 + |a| + |b|, 0x02, |a|] + a + [0x02, |b|] + b
  {
    hide Content, FromBytes, Pow256;
    OrderFits();
    ContentOfNumber(r);
    ContentOfNumber(s);
  }

  /** The shortest of them, as bytes and as hexadecimal digits. */
  lemma {:induction false} SmallestSignature()
    ensures Signature(1, 1) == [0x30, 6, 2, 1, 1, 2, 1, 1] && Hex(Signature(1, 1), HEX_LOWER) == "3006020101020101"
    ensures DerHexToSig("3006020101020101") == Some(([1], [1]))
  {
    hide DerHexToSig, DecodeHex, Signature, ToBytes, FromBytes, Hex;
    OneByte(1);
    SignatureBytes(1, 1);
    SmallestDigits();
    HexAgrees(1, 1, HEX_LOWER);
  }

  lemma {:induction false} SmallestDigits()
    ensures Hex([0x30, 6, 2, 1, 1, 2, 1, 1], HEX_LOWER) == "3006020101020101"
  {
    hide Hex;
    SmallDigits();
    ShortDigits();
    HexFirst(1, [1, 2, 1, 1], [1, 1, 2, 1, 1]);
    HexFirst(2, [1, 1, 2, 1, 1], [2, 1, 1, 2, 1, 1]);
    HexFirst(6, [2, 1, 1, 2, 1, 1], [6, 2, 1, 1, 2, 1, 1]);
    HexFirst(0x30, [6, 2, 1, 1, 2, 1, 1], [0x30, 6, 2, 1, 1, 2, 1, 1]);
  }

  lemma {:induction false} ShortDigits()
    ensures |HEX_LOWER| == 16 && Hex([1, 2, 1, 1], HEX_LOWER) == "01020101"
  {
    hide Hex;
    SmallDigits();
    HexFirst(1, [], [1]);
    HexFirst(1, [1], [1, 1]);
    HexFirst(2, [1, 1], [2, 1, 1]);
    HexFirst(1, [2, 1, 1], [1, 2, 1, 1]);
  }

  lemma {:induction false} HexFirst(first: byte, rest: bytes, all: bytes)
    requires all == [first] + rest
    ensures |HEX_LOWER| == 16 && Hex(all, HEX_LOWER) == [HEX_LOWER[first / 16], HEX_LOWER[first % 16]] + Hex(rest, HEX_LOWER)
    ensures Hex([], HEX_LOWER) == ""
  {
    assert all[1..] == rest;
  }

  lemma {:induction false} SmallDigits()
    ensures |HEX_LOWER| == 16 && HEX_LOWER[0] == '0' && HEX_LOWER[1] == '1' && HEX_LOWER[2] == '2' && HEX_LOWER[3] == '3' && HEX_LOWER[6] == '6'
  {
  }

  /** The group orders in decimal. */
  lemma {:induction false} Orders()
    ensures SECP256K1_ORDER == 115792089237316195423570985008687907852837564279074904382605163141518161494337
    ensures SECP256K1_HALF_ORDER == 57896044618658097711785492504343953926418782139537452191302581570759080747168
    ensures ED25519_ORDER == 7237005577332262213973186563042994240857116359379907606001950938285454250989
  {
  }

  // ---------- integers ----------

  /** Non-negative, non-zero and without a byte that could be left out. */
  predicate Minimal(content: bytes) {
    && 1 <= |content| <= 33 && !HighBit(content[0])
    && (content[0] == 0 ==> |content| > 1 && HighBit(content[1]))
  }

  lemma {:induction false} OrderFits()
    ensures SECP256K1_ORDER < Pow256(32)
  {
    assert Pow256(4) == 0x1_0000_0000 by {
      assert Pow256(1) == 0x100 && Pow256(2) == 0x1_0000 && Pow256(3) == 0x100_0000;
    }
    assert Pow256(8) == 0x1_0000_0000_0000_0000 by {
      assert Pow256(5) == 256 * Pow256(4) && Pow256(6) == 256 * Pow256(5) && Pow256(7) == 256 * Pow256(6);
    }
    Steps(8);
    Steps(16);
    Steps(24);
  }

  lemma {:induction false} Steps(n: nat)
    ensures Pow256(n + 8) == 0x1_0000_0000_0000_0000 * Pow256(n)
  {
    assert Pow256(n + 1) == 0x100 * Pow256(n) && Pow256(n + 2) == 0x1_0000 * Pow256(n);
    assert Pow256(n + 3) == 0x100_0000 * Pow256(n) && Pow256(n + 4) == 0x1_0000_0000 * Pow256(n);
    assert Pow256(n + 5) == 256 * Pow256(n + 4) && Pow256(n + 6) == 256 * Pow256(n + 5) && Pow256(n + 7) == 256 * Pow256(n + 6);
  }

  /** The content of a number is minimal and stands for it. */
  lemma {:induction false} ContentOfNumber(x: nat)
    requires 0 < x < Pow256(32)
    ensures Minimal(Content(x)) && FromBytes(Content(x)) == x && |ToBytes(x)| <= 32
  {
    hide FromBytes, ToBytes, Pow256;
    FirstByte(x);
    FromToBytes(x);
    ToBytesBound(x, 32);
    LeadingZeroByte(ToBytes(x));
  }

  lemma {:induction false} FirstByte(x: nat)
    requires x > 0
    ensures ToBytes(x) != [] && ToBytes(x)[0] != 0
  {
  }

  /** Minimal content is the content of the number it stands for. */
  lemma {:induction false} NumberOfContent(content: bytes)
    requires Minimal(content)
    ensures FromBytes(content) > 0 && Content(FromBytes(content)) == content
  {
    if content[0] == 0 {
      var rest := content[1..];
      assert content == [0] + rest;
      LeadingZeroByte(rest);
      ToFromBytes(rest);
    } else {
      ToFromBytes(content);
    }
  }

  lemma {:induction false} ParseContent(content: bytes, rest: bytes)
    requires Minimal(content)
    ensures ParseDerInteger([0x02, Low(|content|)] + content + rest) == Some((content, rest))
  {
  }

  lemma {:induction false} ParseInteger(x: nat, rest: bytes)
    requires 0 < x < Pow256(32)
    ensures ParseDerInteger(Integer(x) + rest) == Some((Content(x), rest))
  {
    hide Content, ParseDerInteger, Minimal;
    ContentOfNumber(x);
    ParseContent(Content(x), rest);
  }

  lemma {:induction false} ParsedInteger(data: bytes)
    requires ParseDerInteger(data).Some?
    ensures var (content, rest) := ParseDerInteger(data).value;
      Minimal(content) && data == [0x02, Low(|content|)] + content + rest
  {
  }

  // ---------- signatures ----------

  predicate InRange(x: nat) {
    0 < x < SECP256K1_ORDER
  }

  /** The form of a pair in range is accepted, and fully so exactly for a low s. */
  lemma {:induction false} AcceptsSignature(r: nat, s: nat)
    requires InRange(r) && InRange(s)
    ensures ParseSignature(Signature(r, s)) == Some((Content(r), Content(s)))
    ensures EcdsaCanonicality(Signature(r, s)) == if s <= SECP256K1_HALF_ORDER then FullyCanonical else Canonical
  {
    hide Content, FromBytes, ParseDerInteger, Pow256, Minimal;
    OrderFits();
    ContentSizes(r);
    ContentSizes(s);
    var sig := Signature(r, s);
    assert sig[2..] == Integer(r) + Integer(s);
    ParseInteger(r, Integer(s));
    assert Integer(s) + [] == Integer(s);
    ParseInteger(s, []);
  }

  lemma {:induction false} ContentSizes(x: nat)
    requires 0 < x < Pow256(32)
    ensures 1 <= |Content(x)| <= 33 && FromBytes(Content(x)) == x && |ToBytes(x)| <= 32
  {
    ContentOfNumber(x);
  }

  /** Whatever is accepted is the form of a pair in range, and of one only. */
  lemma {:induction false} AcceptedIsSignature(sig: bytes)
    requires EcdsaCanonicality(sig) != NotCanonical
    ensures var p := ParseSignature(sig).value; var r, s := FromBytes(p.0), FromBytes(p.1);
      InRange(r) && InRange(s) && sig == Signature(r, s)
  {
    hide Content, FromBytes, ParseDerInteger, Minimal;
    var first := ParseDerInteger(sig[2..]).value;
    var second := ParseDerInteger(first.1).value;
    ParsedInteger(sig[2..]);
    ParsedInteger(first.1);
    NumberOfContent(first.0);
    NumberOfContent(second.0);
    var r, s := FromBytes(first.0), FromBytes(second.0);
    assert first.1 == Integer(s) by { assert Integer(s) + [] == Integer(s); }
    assert sig[2..] == Integer(r) + Integer(s);
    assert sig == sig[..2] + sig[2..] && sig[..2] == [0x30, sig[1]];
  }

  lemma {:induction false} SignatureUnique(r: nat, s: nat, r': nat, s': nat)
    requires InRange(r) && InRange(s) && InRange(r') && InRange(s') && Signature(r, s) == Signature(r', s')
    ensures r == r' && s == s'
  {
    hide Signature, Content, FromBytes, ParseSignature, Pow256, EcdsaCanonicality;
    AcceptsSignature(r, s);
    AcceptsSignature(r', s');
    OrderFits();
    ContentSizes(r);
    ContentSizes(r');
    ContentSizes(s);
    ContentSizes(s');
  }

  /** Fills the buffer: frame, then r, then s. */
  method EncodeDerSignature(r: nat, s: nat) returns (result: bytes)
    ensures result == Signature(r, s)
  {
    hide Content, Integer, Signature, Low;
    var rBytes, sBytes := Content(r), Content(s);
    SignatureParts(r, s);
    var totalLen := 2 + |rBytes| + 2 + |sBytes|;
    var buffer := new byte[2 + totalLen](_ => 0);
    buffer[0] := 0x30;
    buffer[1] := Low(totalLen);
    var offset := 2;
    ghost var head := buffer[..2];
    assert head == [0x30, Low(totalLen)];
    PutInteger(buffer, offset, rBytes);
    offset := offset + 2 + |rBytes|;
    FrontOf(buffer[..], head, Integer(r));
    assert buffer[..offset] == buffer[..][..offset];
    PutInteger(buffer, offset, sBytes);
    result := buffer[..];
    assert result == head + Integer(r) + Integer(s) + [];
  }

  lemma {:induction false} SignatureParts(r: nat, s: nat)
    ensures Integer(r) == [0x02, Low(|Content(r)|)] + Content(r) && Integer(s) == [0x02, Low(|Content(s)|)] + Content(s)
    ensures Signature(r, s) == [0x30, Low(2 + |Content(r)| + 2 + |Content(s)|)] + Integer(r) + Integer(s)
  {
    hide Content, Low;
  }

  lemma {:induction false} FrontOf(all: bytes, head: bytes, part: bytes)
    requires |head| + |part| <= |all| && all == head + part + all[|head| + |part|..]
    ensures all[..|head| + |part|] == head + part
  {
  }

  method PutInteger(buffer: array<byte>, offset: nat, content: bytes)
    requires offset + 2 + |content| <= buffer.Length
    modifies buffer
    ensures buffer[..] == old(buffer[..offset]) + ([0x02, Low(|content|)] + content) + old(buffer[offset + 2 + |content|..])
  {
    buffer[offset] := 0x02;
    buffer[offset + 1] := Low(|content|);
    for i := 0 to |content|
      invariant buffer[..offset] == old(buffer[..offset])
      invariant buffer[offset] == 0x02 && buffer[offset + 1] == Low(|content|)
      invariant forall k :: 0 <= k < i ==> buffer[offset + 2 + k] == content[k]
      invariant forall k :: offset + 2 + i <= k < buffer.Length ==> buffer[k] == old(buffer[k])
    {
      buffer[offset + 2 + i] := content[i];
    }
  }

  /** What a signature is made canonical to: the same r, and s or its complement, whichever is low. */
  ghost function Lowered(s: nat): nat
    requires InRange(s)
  {
    if s <= SECP256K1_HALF_ORDER then s else SECP256K1_ORDER - s
  }

  /** Nothing for what is not accepted, and the form of r and the low s for the form of r and s. */
  method MakeSignatureCanonical(sig: bytes) returns (out: Option<bytes>)
    ensures out.None? <==> EcdsaCanonicality(sig) == NotCanonical
    ensures out.Some? ==> EcdsaCanonicality(out.value) == FullyCanonical
    ensures forall r, s :: InRange(r) && InRange(s) && sig == Signature(r, s) ==> out == Some(Signature(r, Lowered(s)))
  {
    hide Signature, FromBytes, ParseSignature, EcdsaCanonicality;
    var canonicality := EcdsaCanonicality(sig);
    if canonicality == NotCanonical {
      forall r, s | InRange(r) && InRange(s) && sig == Signature(r, s) ensures false {
        AcceptsSignature(r, s);
      }
      return None;
    }
    Accepted(sig);
    var p := ParseSignature(sig).value;
    ghost var r0, s0 := FromBytes(p.0), FromBytes(p.1);
    AcceptsSignature(r0, s0);
    forall r, s | InRange(r) && InRange(s) && sig == Signature(r, s) ensures r == r0 && s == s0 {
      SignatureUnique(r, s, r0, s0);
    }
    if canonicality == FullyCanonical {
      return Some(sig);
    }
    var newS := SECP256K1_ORDER - FromBytes(p.1);
    var result := EncodeDerSignature(FromBytes(p.0), newS);
    AcceptsSignature(r0, newS);
    out := Some(result);
  }

  lemma {:induction false} Accepted(sig: bytes)
    requires EcdsaCanonicality(sig) != NotCanonical
    ensures ParseSignature(sig).Some?
    ensures var p := ParseSignature(sig).value; var r, s := FromBytes(p.0), FromBytes(p.1);
      InRange(r) && InRange(s) && sig == Signature(r, s)
  {
    AcceptedIsSignature(sig);
  }

  /** Making canonical twice is making canonical once. */
  method MakeTwice(sig: bytes) returns (once: Option<bytes>, twice: Option<bytes>)
    ensures once.Some? ==> twice == once
  {
    hide Signature, EcdsaCanonicality, FromBytes, ParseSignature;
    once := MakeSignatureCanonical(sig);
    twice := None;
    if once.Some? {
      Accepted(once.value);
      twice := MakeSignatureCanonical(once.value);
      var p := ParseSignature(once.value).value;
      AcceptsSignature(FromBytes(p.0), FromBytes(p.1));
    }
  }

  // ---------- Ed25519 ----------

  const ED25519_ORDER := 0x1000000000000000000000000000000014DEF9DEA2F79CD65812631A5CF5D3ED

  /** The order as the program keeps it. */
  const ED25519_ORDER_HIGH: bytes := [0x10, 0x00, 0x00, 0x00, 0x00, 0x00, 0x00, 0x00]
  const ED25519_ORDER_NEXT: bytes := [0x00, 0x00, 0x00, 0x00, 0x00, 0x00, 0x00, 0x00]
  const ED25519_ORDER_THIRD: bytes := [0x14, 0xDE, 0xF9, 0xDE, 0xA2, 0xF7, 0x9C, 0xD6]
  const ED25519_ORDER_LOW: bytes := [0x58, 0x12, 0x63, 0x1A, 0x5C, 0xF5, 0xD3, 0xED]

  function Ed25519OrderBytes(): (b: bytes)
    ensures |b| == 32
  {
    ED25519_ORDER_HIGH + ED25519_ORDER_NEXT + ED25519_ORDER_THIRD + ED25519_ORDER_LOW
  }

  lemma {:induction false} AppendByte(b: bytes, x: byte)
    ensures FromBytes(b + [x]) == FromBytes(b) * 256 + x
  {
    var ds := ByteValues(b + [x]);
    assert ds[..|ds| - 1] == ByteValues(b);
  }

  function Word(b: bytes): nat
    requires |b| == 4
  {
    (b[0] as nat) * 0x100_0000 + (b[1] as nat) * 0x1_0000 + (b[2] as nat) * 0x100 + (b[3] as nat)
  }

  lemma {:induction false} AppendWord(a: bytes, b: bytes)
    requires |b| == 4
    ensures FromBytes(a + b) == FromBytes(a) * 0x1_0000_0000 + Word(b)
  {
    hide FromBytes;
    AppendByte(a, b[0]);
    AppendByte(a + b[..1], b[1]);
    AppendByte(a + b[..2], b[2]);
    AppendByte(a + b[..3], b[3]);
    assert a + b[..1] == a + [b[0]] && a + b[..2] == a + b[..1] + [b[1]];
    assert a + b[..3] == a + b[..2] + [b[2]] && a + b == a + b[..3] + [b[3]];
  }

  lemma {:induction false} AppendWords(a: bytes, b: bytes)
    requires |b| == 8
    ensures FromBytes(a + b) == FromBytes(a) * 0x1_0000_0000_0000_0000 + Word(b[..4]) * 0x1_0000_0000 + Word(b[4..])
  {
    hide FromBytes, Word;
    AppendWord(a, b[..4]);
    AppendWord(a + b[..4], b[4..]);
    assert a + b == a + b[..4] + b[4..];
  }

  lemma {:induction false} OrderValue()
    ensures FromBytes(Ed25519OrderBytes()) == ED25519_ORDER
  {
    hide FromBytes;
    assert FromBytes([]) == 0 by { FromToBytes(0); }
    AppendWords([], ED25519_ORDER_HIGH);
    assert [] + ED25519_ORDER_HIGH == ED25519_ORDER_HIGH;
    AppendWords(ED25519_ORDER_HIGH, ED25519_ORDER_NEXT);
    AppendWords(ED25519_ORDER_HIGH + ED25519_ORDER_NEXT, ED25519_ORDER_THIRD);
    AppendWords(ED25519_ORDER_HIGH + ED25519_ORDER_NEXT + ED25519_ORDER_THIRD, ED25519_ORDER_LOW);
  }

  /** Zero bytes at the end, up to length n. */
  function Padded(b: bytes, n: nat): (r: bytes)
    requires |b| <= n
    ensures |r| == n && forall i :: 0 <= i < n ==> r[i] == if i < |b| then b[i] else 0
  {
    b + Zeros(n - |b|)
  }

  /** Compares from the front; the shorter one is taken to go on with zeros. */
  method BytesLessThan(a: bytes, b: bytes) returns (r: bool)
    ensures var n := if |a| < |b| then |b| else |a|; r <==> FromBytes(Padded(a, n)) < FromBytes(Padded(b, n))
  {
    hide FromBytes;
    var maxLen := if |b| > |a| then |b| else |a|;
    ghost var x, y := Padded(a, maxLen), Padded(b, maxLen);
    for i := 0 to maxLen
      invariant x[..i] == y[..i]
    {
      var aByte: byte, bByte: byte := 0, 0;
      if i < |a| {
        aByte := a[i];
      }
      if i < |b| {
        bByte := b[i];
      }
      if aByte < bByte {
        FirstDifferenceDecides(x, y, i);
        return true;
      }
      if aByte > bByte {
        FirstDifferenceDecides(y, x, i);
        return false;
      }
      assert x[..i + 1] == x[..i] + [x[i]] && y[..i + 1] == y[..i] + [y[i]];
    }
    assert x[..maxLen] == x && y[..maxLen] == y;
    r := false;
  }

  /** Between strings of one length, or with one side empty, the comparison is that of the plain numbers. */
  lemma {:induction false} PaddedIsPlain(a: bytes, b: bytes)
    requires |a| == |b| || a == [] || b == []
    ensures var n := if |a| < |b| then |b| else |a|;
      FromBytes(Padded(a, n)) < FromBytes(Padded(b, n)) <==> FromBytes(a) < FromBytes(b)
  {
    hide FromBytes;
    var n := if |a| < |b| then |b| else |a|;
    if a == [] { NoBytes(n); }
    if b == [] { NoBytes(n); }
    assert |a| == n ==> Padded(a, n) == a;
    assert |b| == n ==> Padded(b, n) == b;
  }

  lemma {:induction false} NoBytes(n: nat)
    ensures Padded([], n) == Zeros(n) && FromBytes(Zeros(n)) == 0 && FromBytes([]) == 0
  {
    FromToBytes(0);
    assert Padded([], n) == Zeros(n);
    if n > 0 {
      NoBytes(n - 1);
      assert Zeros(n) == [0] + Zeros(n - 1);
      LeadingZeroByte(Zeros(n - 1));
    }
  }

  /** Otherwise it need not be: 2 comes out above 1 * 256. */
  lemma {:induction false} PaddedIsNotPlain()
    ensures FromBytes([2]) < FromBytes([1, 0]) && !(FromBytes(Padded([2], 2)) < FromBytes(Padded([1, 0], 2)))
  {
    hide FromBytes;
    var x, y: bytes := Padded([2], 2), Padded([1, 0], 2);
    FirstDifferenceDecides(y, x, 0);
    LeadingZeroByte([2]);
    var z: bytes := [0] + [2];
    FirstDifferenceDecides(z, [1, 0], 0);
  }

  /** The number a byte string stands for with the least byte first. */
  ghost function LittleEndian(b: bytes): nat {
    FromBytes(seq(|b|, i requires 0 <= i < |b| => b[|b| - 1 - i]))
  }

  /** S, the second half read with its least byte first, must be below the group order. */
  method Ed25519Canonical(sig: bytes) returns (r: bool)
    ensures r <==> |sig| == 64 && LittleEndian(sig[32..]) < ED25519_ORDER
  {
    hide FromBytes, Ed25519OrderBytes;
    if |sig| != 64 {
      return false;
    }
    var sLE := sig[32..64];
    var sBE: bytes := Zeros(32);
    for i := 0 to 32
      invariant |sBE| == 32 && forall k :: 0 <= k < i ==> sBE[k] == sLE[31 - k]
    {
      sBE := sBE[i := sLE[31 - i]];
    }
    assert sBE == seq(32, i requires 0 <= i < 32 => sLE[31 - i]);
    assert Padded(sBE, 32) == sBE && Padded(Ed25519OrderBytes(), 32) == Ed25519OrderBytes();
    OrderValue();
    r := BytesLessThan(sBE, Ed25519OrderBytes());
    assert sig[32..] == sLE;
    assert LittleEndian(sLE) == FromBytes(sBE) by {
      assert seq(|sLE|, i requires 0 <= i < |sLE| => sLE[|sLE| - 1 - i]) == sBE;
    }
  }

  // ---------- hexadecimal signatures ----------

  function HexValue(c: char): Option<nat> {
    if '0' <= c <= '9' then Some((c - '0') as nat)
    else if 'a' <= c <= 'f' then Some((c - 'a') as nat + 10)
    else if 'A' <= c <= 'F' then Some((c - 'A') as nat + 10)
    else None
  }

  function DecodeHex(s: string): Option<bytes> {
    if s == "" then Some([])
    else if |s| == 1 then None
    else
      var high, low, rest := HexValue(s[0]), HexValue(s[1]), DecodeHex(s[2..]);
      if high.None? || low.None? || rest.None? then None else Some([Low(high.value * 16 + low.value)] + rest.value)
  }

  /** Without the strictness: any length, any content. */
  function ParseInt(data: bytes): Option<(nat, bytes)> {
    if |data| < 2 || data[0] != 0x02 || |data| < 2 + data[1] as nat then None
    else Some((FromBytes(data[2..2 + data[1] as nat]), data[2 + data[1] as nat..]))
  }

  function DerHexToSig(hex: string): Option<(bytes, bytes)> {
    var decoded := DecodeHex(hex);
    if decoded.None? then None
    else
      var data := decoded.value;
      if |data| < 2 || data[0] != 0x30 || data[1] != |data| - 2 then None
      else
        var r := ParseInt(data[2..]);
        if r.None? then None
        else
          var s := ParseInt(r.value.1);
          if s.None? || s.value.1 != [] then None else Some((ToBytes(r.value.0), ToBytes(s.value.0)))
  }

  lemma {:induction false} LenientAgrees(data: bytes)
    requires ParseDerInteger(data).Some?
    ensures ParseInt(data) == Some((FromBytes(ParseDerInteger(data).value.0), ParseDerInteger(data).value.1))
  {
  }

  const HEX_LOWER := "0123456789abcdef"
  const HEX_UPPER := "0123456789ABCDEF"

  /** Two digits for every byte, the high one first. */
  function Hex(b: bytes, digits: string): string
    requires |digits| == 16
  {
    if b == [] then "" else [digits[b[0] / 16], digits[b[0] % 16]] + Hex(b[1..], digits)
  }

  predicate IsHex(c: char) {
    c in HEX_LOWER || c in HEX_UPPER
  }

  /** The digit of every number below sixteen. */
  ghost predicate DigitsCount(digits: string) {
    |digits| == 16 && forall n :: 0 <= n < 16 ==> HexValue(digits[n]) == Some(n)
  }

  lemma {:induction false} BothCount()
    ensures DigitsCount(HEX_LOWER) && DigitsCount(HEX_UPPER)
  {
    hide HexValue;
    HexDigit(0);
    forall n | 0 <= n < 16 ensures HexValue(HEX_LOWER[n]) == Some(n) && HexValue(HEX_UPPER[n]) == Some(n) {
      HexDigit(n);
    }
  }

  lemma {:induction false} HexDigit(n: nat)
    requires n < 16
    ensures |HEX_LOWER| == |HEX_UPPER| == 16 && HexValue(HEX_LOWER[n]) == Some(n) && HexValue(HEX_UPPER[n]) == Some(n)
  {
    if n < 4 {
      assert n == 0 || n == 1 || n == 2 || n == 3;
    } else if n < 8 {
      assert n == 4 || n == 5 || n == 6 || n == 7;
    } else if n < 12 {
      assert n == 8 || n == 9 || n == 10 || n == 11;
    } else {
      assert n == 12 || n == 13 || n == 14 || n == 15;
    }
  }

  lemma {:induction false} HexByte(b: byte, rest: string, digits: string)
    requires DigitsCount(digits)
    ensures DecodeHex([digits[b / 16], digits[b % 16]] + rest) == if DecodeHex(rest).None? then None else Some([b] + DecodeHex(rest).value)
  {
    hide HexValue;
    var s := [digits[b / 16], digits[b % 16]] + rest;
    assert s[2..] == rest && s[0] == digits[b / 16] && s[1] == digits[b % 16];
  }

  /** Reading the digits of any bytes gives the bytes again. */
  lemma {:induction false} HexReads(b: bytes, digits: string)
    requires |digits| == 16 && DigitsCount(digits)
    ensures DecodeHex(Hex(b, digits)) == Some(b)
  {
    hide DigitsCount, DecodeHex;
    HexNone();
    if b != [] {
      HexReads(b[1..], digits);
      HexByte(b[0], Hex(b[1..], digits), digits);
      assert b == [b[0]] + b[1..];
    }
  }

  lemma {:induction false} HexNone()
    ensures DecodeHex("") == Some([])
  {
  }

  /** A string is read if and only if its length is even and it has no other characters. */
  lemma {:induction false} HexExact(s: string)
    ensures DecodeHex(s).Some? <==> |s| % 2 == 0 && forall i :: 0 <= i < |s| ==> IsHex(s[i])
  {
    hide HexValue, Low, IsHex;
    if |s| >= 2 {
      HexExact(s[2..]);
      HexChar(s[0]);
      HexChar(s[1]);
      assert forall i :: 2 <= i < |s| ==> s[i] == s[2..][i - 2];
    } else if |s| == 1 {
      assert |s| % 2 == 1;
    }
  }

  lemma {:induction false} HexChar(c: char)
    ensures HexValue(c).Some? <==> IsHex(c)
  {
    if HexValue(c).Some? {
      CharAt(HexValue(c).value);
    } else {
      NotHex(c);
    }
  }

  lemma {:induction false} CharAt(n: nat)
    requires n < 16
    ensures (if n < 10 then '0' + n as char else 'a' + (n - 10) as char) in HEX_LOWER
    ensures (if n < 10 then '0' + n as char else 'A' + (n - 10) as char) in HEX_UPPER
  {
    HexDigit(n);
    assert HEX_LOWER[n] == if n < 10 then '0' + n as char else 'a' + (n - 10) as char;
    assert HEX_UPPER[n] == if n < 10 then '0' + n as char else 'A' + (n - 10) as char;
  }

  lemma {:induction false} NotHex(c: char)
    requires HexValue(c).None?
    ensures !IsHex(c)
  {
    hide HexValue;
    BothCount();
  }

  /** On the hexadecimal form of what is accepted, in either case, the lenient parser gives the same pair, in at most 32 bytes each. */
  lemma {:induction false} HexAgrees(r: nat, s: nat, digits: string)
    requires InRange(r) && InRange(s) && (digits == HEX_LOWER || digits == HEX_UPPER)
    ensures |digits| == 16 && DerHexToSig(Hex(Signature(r, s), digits)) == Some((ToBytes(r), ToBytes(s))) && |ToBytes(r)| <= 32 && |ToBytes(s)| <= 32
  {
    hide Signature, DecodeHex, Hex, ToBytes, DerHexToSig;
    BothCount();
    HexReads(Signature(r, s), digits);
    ReadAgrees(Hex(Signature(r, s), digits), r, s);
  }

  lemma {:induction false} ReadAgrees(hex: string, r: nat, s: nat)
    requires InRange(r) && InRange(s) && DecodeHex(hex) == Some(Signature(r, s))
    ensures DerHexToSig(hex) == Some((ToBytes(r), ToBytes(s))) && |ToBytes(r)| <= 32 && |ToBytes(s)| <= 32
  {
    hide Content, FromBytes, ToBytes, ParseDerInteger, ParseInt, Pow256, Signature, DecodeHex;
    AcceptsSignature(r, s);
    OrderFits();
    ContentSizes(r);
    ContentSizes(s);
    var data := Signature(r, s);
    LenientAgrees(data[2..]);
    LenientAgrees(ParseDerInteger(data[2..]).value.1);
  }
}

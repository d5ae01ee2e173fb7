/** Base 58 with ten digits at a time. */
module Base58 {
  import opened Bytes
  import opened Radix
  import opened Octets

  const RADIX10 := 58 * 58 * 58 * 58 * 58 * 58 * 58 * 58 * 58 * 58
  const INT64_LIMIT := 0x8000_0000_0000_0000
  const UINT64_LIMIT := 0x1_0000_0000_0000_0000

  type Digit = d: int | 0 <= d < 58

  /** The alphabet, digit by digit. */
  function CharOf(d: Digit): char {
    match d
    case 0 => 'r' case 1 => 'p' case 2 => 's' case 3 => 'h' case 4 => 'n' case 5 => 'a'
    case 6 => 'f' case 7 => '3' case 8 => '9' case 9 => 'w' case 10 => 'B' case 11 => 'U'
    case 12 => 'D' case 13 => 'N' case 14 => 'E' case 15 => 'G' case 16 => 'H' case 17 => 'J'
    case 18 => 'K' case 19 => 'L' case 20 => 'M' case 21 => '4' case 22 => 'P' case 23 => 'Q'
    case 24 => 'R' case 25 => 'S' case 26 => 'T' case 27 => '7' case 28 => 'V' case 29 => 'W'
    case 30 => 'X' case 31 => 'Y' case 32 => 'Z' case 33 => '2' case 34 => 'b' case 35 => 'c'
    case 36 => 'd' case 37 => 'e' case 38 => 'C' case 39 => 'g' case 40 => '6' case 41 => '5'
    case 42 => 'j' case 43 => 'k' case 44 => 'm' case 45 => '8' case 46 => 'o' case 47 => 'F'
    case 48 => 'q' case 49 => 'i' case 50 => '1' case 51 => 't' case 52 => 'u' case 53 => 'v'
    case 54 => 'A' case 55 => 'x' case 56 => 'y'
    case _ => 'z'
  }

  /** The table of digits; 255 for a character outside the alphabet. */
  function DigitOf(c: char): (r: nat)
    ensures r < 58 || r == 255
  {
    match c
    case 'r' => 0 case 'p' => 1 case 's' => 2 case 'h' => 3 case 'n' => 4 case 'a' => 5
    case 'f' => 6 case '3' => 7 case '9' => 8 case 'w' => 9 case 'B' => 10 case 'U' => 11
    case 'D' => 12 case 'N' => 13 case 'E' => 14 case 'G' => 15 case 'H' => 16 case 'J' => 17
    case 'K' => 18 case 'L' => 19 case 'M' => 20 case '4' => 21 case 'P' => 22 case 'Q' => 23
    case 'R' => 24 case 'S' => 25 case 'T' => 26 case '7' => 27 case 'V' => 28 case 'W' => 29
    case 'X' => 30 case 'Y' => 31 case 'Z' => 32 case '2' => 33 case 'b' => 34 case 'c' => 35
    case 'd' => 36 case 'e' => 37 case 'C' => 38 case 'g' => 39 case '6' => 40 case '5' => 41
    case 'j' => 42 case 'k' => 43 case 'm' => 44 case '8' => 45 case 'o' => 46 case 'F' => 47
    case 'q' => 48 case 'i' => 49 case '1' => 50 case 't' => 51 case 'u' => 52 case 'v' => 53
    case 'A' => 54 case 'x' => 55 case 'y' => 56 case 'z' => 57
    case _ => 255
  }

  lemma {:induction false} DigitOfCharBelow12(d: Digit)
    requires d < 12
    ensures DigitOf(CharOf(d)) == d
  {
  }

  lemma {:induction false} DigitOfCharBelow24(d: Digit)
    requires 12 <= d < 24
    ensures DigitOf(CharOf(d)) == d
  {
  }

  lemma {:induction false} DigitOfCharBelow36(d: Digit)
    requires 24 <= d < 36
    ensures DigitOf(CharOf(d)) == d
  {
  }

  lemma {:induction false} DigitOfCharBelow44(d: Digit)
    requires 36 <= d < 44
    ensures DigitOf(CharOf(d)) == d
  {
  }

  lemma {:induction false} DigitOfCharBelow51(d: Digit)
    requires 44 <= d < 51
    ensures DigitOf(CharOf(d)) == d
  {
  }

  lemma {:induction false} DigitOfCharBelow58(d: Digit)
    requires 51 <= d
    ensures DigitOf(CharOf(d)) == d
  {
  }

  lemma {:induction false} DigitOfChar(d: Digit)
    ensures DigitOf(CharOf(d)) == d
  {
    hide CharOf, DigitOf;
    if d < 12 { DigitOfCharBelow12(d); }
    else if d < 24 { DigitOfCharBelow24(d); }
    else if d < 36 { DigitOfCharBelow36(d); }
    else if d < 44 { DigitOfCharBelow44(d); }
    else if d < 51 { DigitOfCharBelow51(d); }
    else { DigitOfCharBelow58(d); }
  }

  lemma {:induction false} CharOfDigit(c: char)
    requires DigitOf(c) != 255
    ensures CharOf(DigitOf(c)) == c
  {
  }

  /** The alphabet in one piece. */
  const ALPHABET: string := ALPHABET_0 + ALPHABET_1 + ALPHABET_2 + ALPHABET_3 + ALPHABET_4

  const ALPHABET_0: string := "rpshnaf39wBU"
  const ALPHABET_1: string := "DNEGHJKLM4PQ"
  const ALPHABET_2: string := "RST7VWXYZ2bc"
  const ALPHABET_3: string := "deCg65jkm8oF"
  const ALPHABET_4: string := "qi1tuvAxyz"

  lemma {:induction false} Piece0(d: nat)
    requires d < 12
    ensures |ALPHABET_0| == 12 && CharOf(0 + d) == ALPHABET_0[d]
  {
  }

  lemma {:induction false} Piece1(d: nat)
    requires d < 12
    ensures |ALPHABET_1| == 12 && CharOf(12 + d) == ALPHABET_1[d]
  {
  }

  lemma {:induction false} Piece2(d: nat)
    requires d < 12
    ensures |ALPHABET_2| == 12 && CharOf(24 + d) == ALPHABET_2[d]
  {
  }

  lemma {:induction false} Piece3(d: nat)
    requires d < 12
    ensures |ALPHABET_3| == 12 && CharOf(36 + d) == ALPHABET_3[d]
  {
  }

  lemma {:induction false} Piece4(d: nat)
    requires d < 10
    ensures |ALPHABET_4| == 10 && CharOf(48 + d) == ALPHABET_4[d]
  {
  }

  /** The characters stand in the order of the alphabet. */
  lemma {:induction false} AlphabetOrder(d: Digit)
    ensures |ALPHABET| == 58 && CharOf(d) == ALPHABET[d]
  {
    hide CharOf;
    Piece0(0);
    Piece1(0);
    Piece2(0);
    Piece3(0);
    Piece4(0);
    if d < 12 { Piece0(d); }
    else if d < 24 { Piece1(d - 12); }
    else if d < 36 { Piece2(d - 24); }
    else if d < 48 { Piece3(d - 36); }
    else { Piece4(d - 48); }
  }

  // ---------- the reference ----------

  function Spell(ds: seq<nat>): (s: string)
    requires DigitsWithin(58, ds)
    ensures |s| == |ds| && forall i :: 0 <= i < |ds| ==> s[i] == CharOf(ds[i])
  {
    seq(|ds|, i requires 0 <= i < |ds| => CharOf(ds[i]))
  }

  predicate InAlphabet(s: string) {
    forall i :: 0 <= i < |s| ==> DigitOf(s[i]) != 255
  }

  function Digits(s: string): (ds: seq<nat>)
    ensures |ds| == |s| && forall i :: 0 <= i < |s| ==> ds[i] == DigitOf(s[i])
    ensures InAlphabet(s) ==> DigitsWithin(58, ds)
  {
    seq(|s|, i requires 0 <= i < |s| => DigitOf(s[i]))
  }

  lemma {:induction false} RecodeWithin(from: nat, to: nat, ds: seq<nat>)
    requires to >= 2
    ensures DigitsWithin(to, Recode(from, to, ds))
  {
  }

  /** The number spelled out digit by digit, a leading r for every leading zero byte. */
  ghost function Encoded(b: bytes): string {
    RecodeWithin(256, 58, ByteValues(b));
    Spell(Recode(256, 58, ByteValues(b)))
  }

  ghost function Decoded(s: string): bytes {
    RecodeWithin(58, 256, Digits(s));
    Narrow(Recode(58, 256, Digits(s)))
  }

  /** The encodings of single bytes: one character of the alphabet, or two. */
  lemma {:induction false} OneByteEncoded(b: byte)
    ensures |ALPHABET| == 58
    ensures Encoded([b]) == if b < 58 then [ALPHABET[b]] else [ALPHABET[b / 58], ALPHABET[b % 58]]
  {
    hide CharOf, Recode;
    AlphabetOrder(if b < 58 then b else b / 58);
    AlphabetOrder(b % 58);
    assert ByteValues([b]) == [b as nat];
    OneByteRecoded(b);
  }

  lemma {:induction false} OneByteRecoded(b: byte)
    ensures Recode(256, 58, [b]) == if b < 58 then [b] else [b / 58, b % 58]
  {
    var ds: seq<nat> := [b];
    assert ds[..0] == [] && ds[1..] == [];
    assert Value(256, ds) == b;
    assert Numeral(58, 0) == [];
    if 0 < b < 58 {
      assert Numeral(58, b) == Numeral(58, 0) + [b];
    } else if b >= 58 {
      assert Numeral(58, b / 58) == Numeral(58, 0) + [b / 58];
      assert Numeral(58, b) == Numeral(58, b / 58) + [b % 58];
    }
  }

  lemma {:induction false} DigitsOfSpell(ds: seq<nat>)
    requires DigitsWithin(58, ds)
    ensures Digits(Spell(ds)) == ds && InAlphabet(Spell(ds))
  {
    hide CharOf, DigitOf;
    forall i | 0 <= i < |ds| ensures DigitOf(Spell(ds)[i]) == ds[i] {
      DigitOfChar(ds[i]);
    }
  }

  lemma {:induction false} SpellOfDigits(s: string)
    requires InAlphabet(s)
    ensures Spell(Digits(s)) == s
  {
    hide CharOf, DigitOf;
    forall i | 0 <= i < |s| ensures Spell(Digits(s))[i] == s[i] {
      CharOfDigit(s[i]);
    }
  }

  /** Decoding an encoding gives the bytes again. */
  lemma {:induction false} DecodeEncoded(b: bytes)
    ensures InAlphabet(Encoded(b)) && Decoded(Encoded(b)) == b
  {
    hide Recode;
    var ds := Recode(256, 58, ByteValues(b));
    RecodeWithin(256, 58, ByteValues(b));
    DigitsOfSpell(ds);
    RecodeBack(256, 58, ByteValues(b));
  }

  /** Encoding what was decoded gives the string again. */
  lemma {:induction false} EncodeDecoded(s: string)
    requires InAlphabet(s)
    ensures Encoded(Decoded(s)) == s
  {
    hide Recode;
    RecodeWithin(58, 256, Digits(s));
    assert ByteValues(Decoded(s)) == Recode(58, 256, Digits(s));
    RecodeBack(58, 256, Digits(s));
    SpellOfDigits(s);
  }

  // ---------- encoding ----------

  function Backward(s: string): (r: string)
    ensures |r| == |s| && forall i :: 0 <= i < |s| ==> r[i] == s[|s| - 1 - i]
  {
    seq(|s|, i requires 0 <= i < |s| => s[|s| - 1 - i])
  }

  function Pow58(k: nat): (p: nat)
    ensures p > 0
  {
    if k == 0 then 1 else 58 * Pow58(k - 1)
  }

  /** What is out, least digit first, and what is left make up the number. */
  ghost predicate Emitted(total: nat, left: nat, answer: string) {
    Spell(Numeral(58, total)) == Spell(Numeral(58, left)) + Backward(answer)
  }

  lemma {:induction false} EmitDigit(total: nat, left: nat, answer: string, rest: nat, d: Digit)
    requires Emitted(total, left, answer) && left > 0 && rest == left / 58 && d == left % 58
    ensures Emitted(total, rest, answer + [CharOf(d)])
  {
  }

  lemma {:induction false} ShiftedDigit(x: nat, p: nat, m: nat)
    ensures (x * (58 * p) + m) / 58 == x * p + m / 58 && (x * (58 * p) + m) % 58 == m % 58
  {
  }

  /** The last chunk: no digits beyond the leading one. */
  method EmitLast(chunk: nat, answer: string, ghost total: nat) returns (out: string)
    requires chunk < INT64_LIMIT && Emitted(total, chunk, answer)
    ensures Emitted(total, 0, out)
  {
    hide Emitted, CharOf;
    var m: nat := chunk;
    out := answer;
    while m > 0
      invariant m < INT64_LIMIT && Emitted(total, m, out)
    {
      EmitDigit(total, m, out, m / 58, m % 58);
      out := out + [CharOf(m % 58)];
      m := m / 58;
    }
  }

  /** A chunk with more to come: all ten digits. */
  method EmitChunk(high: nat, chunk: nat, answer: string, ghost total: nat) returns (out: string)
    requires high > 0 && chunk < RADIX10 && Emitted(total, high * Pow58(10) + chunk, answer)
    ensures Emitted(total, high, out)
  {
    hide Emitted, CharOf, Pow58;
    var m: nat := chunk;
    out := answer;
    Pow58Facts(10);
    for i := 0 to 10
      invariant m < Pow58(10 - i) && Emitted(total, high * Pow58(10 - i) + m, out)
    {
      Pow58Facts(10 - i);
      ghost var p := Pow58(9 - i);
      ShiftedDigit(high, p, m);
      Positive(high, 58 * p);
      EmitDigit(total, high * (58 * p) + m, out, high * p + m / 58, m % 58);
      out := out + [CharOf(m % 58)];
      m := m / 58;
    }
    Pow58Facts(0);
  }

  lemma {:induction false} Positive(a: nat, b: nat)
    requires a > 0 && b > 0
    ensures a * b > 0
  {
  }

  lemma {:induction false} Pow58Facts(k: nat)
    ensures Pow58(0) == 1 && Pow58(10) == RADIX10 < INT64_LIMIT && (k > 0 ==> Pow58(k) == 58 * Pow58(k - 1))
  {
    assert Pow58(1) == 58 && Pow58(2) == 58 * 58 && Pow58(3) == 58 * Pow58(2) && Pow58(4) == 58 * Pow58(3);
    assert Pow58(5) == 58 * Pow58(4) && Pow58(6) == 58 * Pow58(5) && Pow58(7) == 58 * Pow58(6);
    assert Pow58(8) == 58 * Pow58(7) && Pow58(9) == 58 * Pow58(8) && Pow58(10) == 58 * Pow58(9);
  }

  /** The digits of a number, least first, ten at a time in 64 bits. */
  method EmitNumber(total: nat) returns (answer: string)
    ensures Backward(answer) == Spell(Numeral(58, total))
  {
    hide Emitted, CharOf, Pow58;
    var x: nat := total;
    answer := "";
    EmitNone(total);
    Pow58Facts(10);
    while x > 0
      invariant Emitted(total, x, answer)
    {
      var chunk := x % RADIX10;
      assert x == x / RADIX10 * Pow58(10) + chunk;
      Smaller(RADIX10, x);
      x := x / RADIX10;
      if x == 0 {
        answer := EmitLast(chunk, answer, total);
      } else {
        answer := EmitChunk(x, chunk, answer, total);
      }
    }
    EmittedAll(total, answer);
  }

  lemma {:induction false} EmitNone(total: nat)
    ensures Emitted(total, total, "")
  {
  }

  lemma {:induction false} EmittedAll(total: nat, answer: string)
    requires Emitted(total, 0, answer)
    ensures Backward(answer) == Spell(Numeral(58, total))
  {
  }

  /** Swaps from both ends to the middle. */
  method ReverseAnswer(answer: string) returns (r: string)
    ensures r == Backward(answer)
  {
    var alen := |answer|;
    r := answer;
    for i := 0 to alen / 2
      invariant |r| == alen
      invariant forall k :: 0 <= k < i ==> r[k] == answer[alen - 1 - k]
      invariant forall k :: alen - i <= k < alen ==> r[k] == answer[alen - 1 - k]
      invariant forall k :: i <= k < alen - i ==> r[k] == answer[k]
    {
      var first, last := r[i], r[alen - 1 - i];
      r := r[i := last][alen - 1 - i := first];
    }
  }

  method EncodeBase58(b: bytes) returns (s: string)
    ensures s == Encoded(b)
  {
    hide CharOf, Numeral, Value;
    var x := Value(256, ByteValues(b));
    var answer := EmitNumber(x);
    ghost var number := answer;
    var i := 0;
    while i < |b| && b[i] == 0
      invariant i <= |b| && (forall j :: 0 <= j < i ==> b[j] == 0) && answer == number + Spell(Zeros(i))
    {
      assert Spell(Zeros(i + 1)) == Spell(Zeros(i)) + [CharOf(0)];
      answer := answer + [CharOf(0)];
      i := i + 1;
    }
    s := ReverseAnswer(answer);
    ghost var ds := ByteValues(b);
    assert i == LeadingZeros(ds);
    RecodeWithin(256, 58, ds);
    assert Backward(answer) == Spell(Zeros(i)) + Backward(number);
    assert Spell(Recode(256, 58, ds)) == Spell(Zeros(i)) + Spell(Numeral(58, x));
  }

  // ---------- decoding ----------

  /** A string as its bytes. */
  type Text = s: string | forall i :: 0 <= i < |s| ==> s[i] as int < 256

  /** The bytes at j are the two-byte form of a character from U+0080 to U+00FF, and both are in t. */
  predicate TwoBytes(t: Text, j: nat)
    requires j < |t|
  {
    j + 1 < |t| && (t[j] as int == 0xC2 || t[j] as int == 0xC3) && 0x80 <= t[j + 1] as int < 0xC0
  }

  /** The character that starts at j is within the table of 256 entries. Bytes that form no character count as U+FFFD. */
  predicate InTable(t: Text, j: nat)
    requires j < |t|
  {
    t[j] as int < 0x80 || TwoBytes(t, j)
  }

  /** The first byte that is no character of the alphabet. */
  ghost function FirstOutside(s: string): (j: nat)
    requires !InAlphabet(s)
    ensures j < |s| && DigitOf(s[j]) == 255 && InAlphabet(s[..j])
  {
    if DigitOf(s[0]) == 255 then 0
    else
      assert !InAlphabet(s[1..]) by {
        var i :| 0 <= i < |s| && DigitOf(s[i]) == 255;
        assert s[1..][i - 1] == s[i];
      }
      1 + FirstOutside(s[1..])
  }

  /** How reading ends: with a number, at a character outside the alphabet, or at one outside the table. */
  datatype Reading = Number(value: nat) | Outside | Panic

  /** At most ten bytes, in 64 bits. */
  method ChunkValue(t: Text) returns (r: Reading)
    requires |t| <= 10
    ensures r == if InAlphabet(t) then Number(Value(58, Digits(t))) else if InTable(t, FirstOutside(t)) then Outside else Panic
    ensures r.Number? ==> r.value < UINT64_LIMIT
  {
    hide DigitOf, Value, Pow58, Digits, FirstOutside;
    var total := 0;
    ChunkStart(t);
    for i := 0 to |t|
      invariant InAlphabet(t[..i]) && total == Value(58, Digits(t[..i])) && total < Pow58(i)
    {
      if !InTable(t, i) {
        OutsideAt(t, i);
        return Panic;
      }
      var tmp := DigitOf(t[i]);
      if tmp == 255 {
        OutsideAt(t, i);
        return Outside;
      }
      ChunkStep(t, i);
      total := total * 58 + tmp;
    }
    assert t[..|t|] == t;
    Pow58Grows(|t|);
    r := Number(total);
  }

  /** Nothing beyond the seven-bit characters is in the alphabet. */
  lemma {:induction false} SevenBits(c: char)
    ensures c as int >= 0x80 ==> DigitOf(c) == 255
  {
  }

  lemma {:induction false} OutsideAt(t: Text, i: nat)
    requires i < |t| && InAlphabet(t[..i]) && (DigitOf(t[i]) == 255 || !InTable(t, i))
    ensures !InAlphabet(t) && FirstOutside(t) == i
  {
    hide DigitOf, FirstOutside;
    SevenBits(t[i]);
    var j := FirstOutside(t);
    assert forall k :: 0 <= k < i ==> t[..i][k] == t[k];
    assert forall k :: 0 <= k < j ==> t[..j][k] == t[k];
  }

  lemma {:induction false} ChunkStart(t: string)
    ensures InAlphabet(t[..0]) && Value(58, Digits(t[..0])) == 0 < Pow58(0)
  {
    Pow58Facts(0);
    assert t[..0] == "" && Digits("") == [];
  }

  lemma {:induction false} ChunkStep(t: string, i: nat)
    requires i < |t| && DigitOf(t[i]) < 58
    ensures Value(58, Digits(t[..i + 1])) == Value(58, Digits(t[..i])) * 58 + DigitOf(t[i])
    ensures Value(58, Digits(t[..i])) < Pow58(i) ==> Value(58, Digits(t[..i + 1])) < Pow58(i + 1)
    ensures InAlphabet(t[..i]) ==> InAlphabet(t[..i + 1])
  {
    hide DigitOf;
    assert Digits(t[..i + 1]) == Digits(t[..i]) + [DigitOf(t[i])];
    assert Digits(t[..i + 1])[..i] == Digits(t[..i]);
  }

  lemma {:induction false} Pow58Grows(k: nat)
    requires k <= 10
    ensures Pow58(k) <= RADIX10 < UINT64_LIMIT
  {
    Pow58Facts(0);
    var i := 10;
    while i > k
      invariant k <= i <= 10 && Pow58(i) <= RADIX10
    {
      i := i - 1;
    }
  }

  /** Digits appended to digits: the value is shifted by their number. */
  lemma {:induction false} ValueConcat(a: seq<nat>, b: seq<nat>)
    ensures Value(58, a + b) == Value(58, a) * Pow58(|b|) + Value(58, b)
  {
    if b == [] {
      assert a + b == a;
    } else {
      var n := |b| - 1;
      ValueConcat(a, b[..n]);
      assert (a + b)[..|a + b| - 1] == a + b[..n];
      assert Value(58, a) * Pow58(n) * 58 == Value(58, a) * Pow58(|b|);
    }
  }

  lemma {:induction false} ChunksNone(s: Text)
    ensures InAlphabet(s[..0]) && Value(58, Digits(s[..0])) == 0
  {
    ValueNone();
    assert Digits(s[..0]) == [];
  }

  lemma {:induction false} ChunksMore(s: Text, i: nat, n: nat)
    requires i + n <= |s| && InAlphabet(s[..i]) && InAlphabet(s[i..i + n])
    ensures InAlphabet(s[..i + n]) && Value(58, Digits(s[..i + n])) == Value(58, Digits(s[..i])) * Pow58(n) + Value(58, Digits(s[i..i + n]))
  {
    hide DigitOf, Value, Pow58;
    assert s[..i + n] == s[..i] + s[i..i + n];
    assert Digits(s[..i + n]) == Digits(s[..i]) + Digits(s[i..i + n]);
    ValueConcat(Digits(s[..i]), Digits(s[i..i + n]));
  }

  /** All digits of a string, ten at a time. */
  method ReadNumber(s: Text) returns (r: Reading)
    ensures r == if InAlphabet(s) then Number(Value(58, Digits(s))) else if Panics(s, FirstOutside(s)) then Panic else Outside
  {
    hide DigitOf, Value, Pow58, FirstOutside, InTable, Digits, InAlphabet, Panics;
    var t, answer := s, 0;
    ghost var i := 0;
    ChunksNone(s);
    while |t| > 0
      invariant i <= |s| && (i % 10 == 0 || i == |s|) && t == s[i..] && InAlphabet(s[..i]) && answer == Value(58, Digits(s[..i]))
      decreases |t|
    {
      var n := if |t| > 10 then 10 else |t|;
      var chunk: Text := t[..n];
      var part := ChunkValue(chunk);
      assert chunk == s[i..i + n];
      if !part.Number? {
        InChunk(s, i, n);
        return part;
      }
      ChunksMore(s, i, n);
      answer := answer * Pow58(n) + part.value;
      t, i := t[n..], i + n;
    }
    assert s[..i] == s;
    r := Number(answer);
  }

  /** The character at j is outside the table, or cut in two: reading takes ten bytes at a time. */
  predicate Panics(s: Text, j: nat)
    requires j < |s|
  {
    s[j] as int >= 0x80 && (j % 10 == 9 || !TwoBytes(s, j))
  }

  lemma {:induction false} InChunk(s: Text, i: nat, n: nat)
    requires i % 10 == 0 && i + n <= |s| && n == (if |s| - i > 10 then 10 else |s| - i) && InAlphabet(s[..i]) && !InAlphabet(s[i..i + n])
    ensures !InAlphabet(s) && FirstOutside(s) == i + FirstOutside(s[i..i + n])
    ensures var t: Text := s[i..i + n]; InTable(t, FirstOutside(t)) <==> !Panics(s, FirstOutside(s))
  {
    hide DigitOf, FirstOutside;
    var t: Text := s[i..i + n];
    var j := FirstOutside(t);
    assert t[j] == s[i + j];
    assert s[..i + j] == s[..i] + t[..j];
    OutsideAt(s, i + j);
    assert j + 1 < n ==> t[j + 1] == s[i + j + 1];
    assert (i + j) % 10 == 9 <==> j == 9;
  }

  lemma {:induction false} ValueNone()
    ensures Value(58, Digits("")) == 0
  {
  }

  /** The bytes, or no answer at all where an index runs out of the table. */
  method DecodeBase58(s: Text) returns (r: Option<bytes>)
    ensures r == if InAlphabet(s) then Some(Decoded(s)) else if Panics(s, FirstOutside(s)) then None else Some([])
  {
    hide DigitOf, Value, Numeral, CharOf, FirstOutside, Panics;
    var reading := ReadNumber(s);
    if !reading.Number? {
      return if reading.Panic? then None else Some([]);
    }
    var tmpval := Narrow(Numeral(256, reading.value));
    var numZeros := 0;
    while numZeros < |s| && s[numZeros] == CharOf(0)
      invariant numZeros <= |s| && forall j :: 0 <= j < numZeros ==> s[j] == CharOf(0)
    {
      numZeros := numZeros + 1;
    }
    var b := Zeros(numZeros) + tmpval;
    r := Some(b);
    ghost var ds := Digits(s);
    ZeroDigits(s, numZeros);
    RecodeWithin(58, 256, ds);
    assert Recode(58, 256, ds) == Zeros(numZeros) + Numeral(256, reading.value);
    assert Narrow(Recode(58, 256, ds)) == b;
  }

  lemma {:induction false} ZeroDigits(s: string, n: nat)
    requires InAlphabet(s) && n <= |s| && (forall j :: 0 <= j < n ==> s[j] == CharOf(0)) && (n < |s| ==> s[n] != CharOf(0))
    ensures LeadingZeros(Digits(s)) == n
  {
  }

  /** The two functions are inverse to each other. */
  method RoundTrip(b: bytes) returns (s: Text, c: Option<bytes>)
    ensures InAlphabet(s) && c == Some(b)
  {
    var t := EncodeBase58(b);
    DecodeEncoded(b);
    AlphabetText(t);
    s := t;
    c := DecodeBase58(s);
  }

  lemma {:induction false} AlphabetText(s: string)
    requires InAlphabet(s)
    ensures forall i :: 0 <= i < |s| ==> s[i] as int < 256
  {
    hide DigitOf;
    forall i | 0 <= i < |s| ensures s[i] as int < 256 {
      SevenBits(s[i]);
    }
  }

  /** An input that ends in a panic: one character beyond U+00FF; and one below it that is cut in two. */
  lemma {:induction false} PanicInputs()
    ensures var s: Text := [0xC4 as char, 0x80 as char]; !InAlphabet(s) && Panics(s, FirstOutside(s))
    ensures var s: Text := "rrrrrrrrr" + [0xC3 as char, 0xA9 as char]; !InAlphabet(s) && Panics(s, FirstOutside(s))
  {
    hide FirstOutside;
    var s: Text, t: Text := [0xC4 as char, 0x80 as char], "rrrrrrrrr" + [0xC3 as char, 0xA9 as char];
    SevenBits(s[0]);
    SevenBits(t[9]);
    assert s[..0] == [];
    OutsideAt(s, 0);
    assert t[..9] == "rrrrrrrrr";
    OutsideAt(t, 9);
  }
}

/** Numerals in different bases, most significant digit first. */
module Radix {
  import opened Bytes

  function Value(base: nat, ds: seq<nat>): nat {
    if ds == [] then 0 else Value(base, ds[..|ds| - 1]) * base + ds[|ds| - 1]
  }

  /** The digits of x without leading zeros. */
  function Numeral(base: nat, x: nat): (ds: seq<nat>)
    requires base >= 2
    ensures x > 0 ==> ds != [] && ds[0] != 0
    ensures DigitsWithin(base, ds)
  {
    if x == 0 then [] else
      Smaller(base, x);
      Numeral(base, x / base) + [x % base]
  }

  function LeadingZeros(ds: seq<nat>): (n: nat)
    ensures n <= |ds| && (forall i :: 0 <= i < n ==> ds[i] == 0) && (n < |ds| ==> ds[n] != 0)
  {
    if ds == [] || ds[0] != 0 then 0 else 1 + LeadingZeros(ds[1..])
  }

  /** The same number in another base, with as many leading zeros. */
  function Recode(from: nat, to: nat, ds: seq<nat>): seq<nat>
    requires to >= 2
  {
    Zeros(LeadingZeros(ds)) + Numeral(to, Value(from, ds))
  }

  predicate DigitsWithin(base: nat, ds: seq<nat>) {
    forall i :: 0 <= i < |ds| ==> ds[i] < base
  }

  lemma {:induction false} ValueOfNumeral(base: nat, x: nat)
    requires base >= 2
    ensures Value(base, Numeral(base, x)) == x
  {
    if x > 0 {
      Smaller(base, x);
      ValueOfNumeral(base, x / base);
      var ds := Numeral(base, x);
      assert ds == Numeral(base, x / base) + [x % base];
      assert ds[..|ds| - 1] == Numeral(base, x / base);
    }
  }

  lemma {:induction false} NumeralOfValue(base: nat, ds: seq<nat>)
    requires base >= 2 && DigitsWithin(base, ds) && (ds != [] ==> ds[0] != 0)
    ensures Numeral(base, Value(base, ds)) == ds && (ds != [] ==> Value(base, ds) > 0)
  {
    if ds != [] {
      var high, low := ds[..|ds| - 1], ds[|ds| - 1];
      NumeralOfValue(base, high);
      var v := Value(base, high);
      assert (v * base + low) / base == v && (v * base + low) % base == low by { DivideBack(base, v, low); }
      assert v * base + low > 0 by {
        if high != [] { Larger(base, v); }
      }
    }
  }

  lemma {:induction false} DivideBack(base: nat, v: nat, low: nat)
    requires base > 0 && low < base
    ensures (v * base + low) / base == v && (v * base + low) % base == low
  {
    var x := v * base + low;
    var q, r := x / base, x % base;
    assert x == q * base + r;
    if q < v {
      DigitsApart(base, q, v);
    } else if v < q {
      DigitsApart(base, v, q);
    }
  }

  lemma {:induction false} DigitsApart(base: nat, a: nat, b: nat)
    requires a < b
    ensures a * base + base <= b * base
  {
    assert b * base == a * base + (b - a) * base;
    assert (b - a) * base == base + (b - a - 1) * base;
  }

  lemma {:induction false} Smaller(base: nat, x: nat)
    requires base >= 2 && x > 0
    ensures x / base < x && x / base * base + x % base == x
  {
  }

  lemma {:induction false} Larger(base: nat, v: nat)
    requires base >= 1 && v > 0
    ensures v * base > 0
  {
  }

  lemma {:induction false} ValueOfZeros(base: nat, n: nat, ds: seq<nat>)
    ensures Value(base, Zeros(n) + ds) == Value(base, ds)
    decreases |ds|, n
  {
    var all := Zeros(n) + ds;
    if ds != [] {
      ValueOfZeros(base, n, ds[..|ds| - 1]);
      assert all[..|all| - 1] == Zeros(n) + ds[..|ds| - 1];
    } else if n > 0 {
      ValueOfZeros(base, n - 1, []);
      assert all[..|all| - 1] == Zeros(n - 1) + [];
      assert Zeros(n - 1) + [] == Zeros(n - 1);
    }
  }

  lemma {:induction false} LeadingZerosOf(n: nat, ds: seq<nat>)
    requires ds != [] ==> ds[0] != 0
    ensures LeadingZeros(Zeros(n) + ds) == n
  {
    var all := Zeros(n) + ds;
    if ds != [] { assert all[n] != 0; }
  }

  /** Recoding there and back gives the digits again. */
  lemma {:induction false} RecodeBack(from: nat, to: nat, ds: seq<nat>)
    requires from >= 2 && to >= 2 && DigitsWithin(from, ds)
    ensures Recode(to, from, Recode(from, to, ds)) == ds
  {
    var n, x := LeadingZeros(ds), Value(from, ds);
    var rest := ds[n..];
    assert ds == Zeros(n) + rest;
    ValueOfZeros(from, n, rest);
    NumeralOfValue(from, rest);
    ValueOfZeros(to, n, Numeral(to, x));
    ValueOfNumeral(to, x);
    LeadingZerosOf(n, Numeral(to, x));
  }
}

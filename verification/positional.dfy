/** Positional notation over digit sequences stored least significant digit
    first: the value of a sequence, and the repeated mod/div expansion of a
    value back into digits. */
module Positional {
  import opened Alphabet

  function Pow(b: int, n: nat): int
  {
    if n == 0 then 1 else b * Pow(b, n - 1)
  }

  lemma {:induction false} PowPositive(b: int, n: nat)
    requires b >= 1
    ensures Pow(b, n) >= 1
  {
    if n > 0 {
      PowPositive(b, n - 1);
      MulAtLeast(b, Pow(b, n - 1));
    }
  }

  lemma MulAtLeast(x: int, y: int)
    requires x >= 1 && y >= 1
    ensures x * y >= 1
  {
  }

  /** Every digit of ds is a digit of base b. */
  predicate DigitsBelow(ds: seq<Digit>, b: int)
  {
    forall i | 0 <= i < |ds| :: ds[i] < b
  }

  /** The sequence has no leading (most significant) zero, except that
      zero itself is the single digit 0. */
  predicate Canonical(ds: seq<Digit>)
  {
    ds == [0] || (|ds| > 0 && ds[|ds| - 1] != 0)
  }

  /** Σ ds[i]·b^i, accumulated from the least significant digit upwards
      the way a running power of b does it. A sequence of n digits of
      base b denotes a value in [0, b^n). */
  function PositionalSum(ds: seq<Digit>, b: int): (v: int)
    ensures DigitsBelow(ds, b) ==> 0 <= v < Pow(b, |ds|)
    decreases |ds|
  {
    if |ds| == 0 then 0
    else
      var n := |ds| - 1;
      var low := ds[..n];
      assert DigitsBelow(ds, b) ==> DigitsBelow(low, b);
      TopDigitBound(PositionalSum(low, b), ds[n], b, n);
      PositionalSum(low, b) + ds[n] * Pow(b, n)
  }

  /** Adding a top digit d < b above a value below b^n stays below b^(n+1). */
  lemma TopDigitBound(v: int, d: Digit, b: int, n: nat)
    ensures 0 <= v < Pow(b, n) && d < b ==> 0 <= v + d * Pow(b, n) < Pow(b, n + 1)
  {
    if 0 <= v < Pow(b, n) && d < b {
      var w := Pow(b, n);
      MulNonNegative(d, w);
      MulMonotone(d + 1, b, w);
      assert (d + 1) * w == d * w + w;
    }
  }

  lemma MulNonNegative(x: int, y: int)
    requires x >= 0 && y >= 0
    ensures x * y >= 0
  {
  }

  lemma MulMonotone(x: int, y: int, w: int)
    requires x <= y && w >= 0
    ensures x * w <= y * w
  {
    MulNonNegative(y - x, w);
    assert y * w - x * w == (y - x) * w;
  }

  /** The same value by Horner's rule, from the most significant digit down. */
  function Horner(ds: seq<Digit>, b: int): int
  {
    if |ds| == 0 then 0 else ds[0] + b * Horner(ds[1..], b)
  }

  /** Prepending a least significant digit d scales the rest by b. */
  lemma {:induction false} PositionalSumCons(d: Digit, rest: seq<Digit>, b: int)
    ensures PositionalSum([d] + rest, b) == d + b * PositionalSum(rest, b)
    decreases |rest|
  {
    if |rest| > 0 {
      var n := |rest|;
      var s := [d] + rest;
      assert s[..n] == [d] + rest[..n - 1];
      assert s[n] == rest[n - 1];
      PositionalSumCons(d, rest[..n - 1], b);
      var low, top, w := PositionalSum(rest[..n - 1], b), rest[n - 1], Pow(b, n - 1);
      assert PositionalSum(rest, b) == low + top * w;
      assert PositionalSum(s, b) == PositionalSum(s[..n], b) + s[n] * Pow(b, n);
      assert Pow(b, n) == b * w;
      Distribute(d, b, low, top, w);
    }
  }

  lemma Distribute(d: int, b: int, low: int, top: int, w: int)
    ensures d + b * low + top * (b * w) == d + b * (low + top * w)
  {
  }

  /** The accumulated positional sum and Horner's rule agree. */
  lemma {:induction false} PositionalSumIsHorner(ds: seq<Digit>, b: int)
    ensures PositionalSum(ds, b) == Horner(ds, b)
    decreases |ds|
  {
    if |ds| > 0 {
      assert ds == [ds[0]] + ds[1..];
      PositionalSumCons(ds[0], ds[1..], b);
      PositionalSumIsHorner(ds[1..], b);
    }
  }

  /** Leading zeros do not change the value. */
  lemma LeadingZeroNeutral(ds: seq<Digit>, b: int)
    ensures PositionalSum(ds + [0], b) == PositionalSum(ds, b)
  {
    assert (ds + [0])[..|ds|] == ds;
  }

  /** A sequence of base-b digits whose top digit is not zero denotes a
      positive value. */
  lemma {:induction false} TopDigitPositive(ds: seq<Digit>, b: int)
    requires DigitsBelow(ds, b) && |ds| > 0 && ds[|ds| - 1] != 0
    ensures PositionalSum(ds, b) > 0
  {
    var n := |ds| - 1;
    assert DigitsBelow(ds[..n], b);
    PowPositive(b, n);
    MulAtLeast(ds[n], Pow(b, n));
  }

  /** The digits of v in base b, least significant first, produced by
      repeatedly taking v mod b and dividing v by b while v is positive. */
  function DivModDigits(v: int, b: int): (ds: seq<Digit>)
    requires 2 <= b <= 36
    ensures DigitsBelow(ds, b)
    ensures v > 0 ==> |ds| > 0 && ds[|ds| - 1] != 0
    ensures v >= 0 ==> Horner(ds, b) == v
    ensures v <= 0 ==> ds == []
    decreases if v > 0 then v else 0
  {
    if v <= 0 then []
    else
      var q, r := v / b, v % b;
      DivModStep(v, b);
      var rest := DivModDigits(q, b);
      var ds := [r] + rest;
      assert ds[1..] == rest;
      assert Horner(ds, b) == r + b * Horner(rest, b);
      ds
  }

  /** One step of the expansion: v = v mod b + b·(v div b), with a digit
      below b and a strictly smaller non-negative quotient that is zero
      only when v itself is the digit. */
  lemma DivModStep(v: int, b: int)
    requires v > 0 && b >= 2
    ensures v == v % b + b * (v / b)
    ensures 0 <= v % b < b && 0 <= v / b < v
    ensures v / b == 0 ==> v % b == v
  {
    var q, r := v / b, v % b;
    assert v == q * b + r && 0 <= r < b;
    assert q * b == b * q;
    if q < 0 {
      MulMonotone(q, -1, b);
      assert false;
    }
    if q >= v {
      MulMonotone(v, q, b);
      MulMonotone(2, b, v);
      assert false;
    }
    if q == 0 {
      assert q * b == 0;
    }
  }

  /** A canonical sequence is exactly what the mod/div expansion of its own
      value produces: canonical digit sequences are unique per value. */
  lemma {:induction false} DivModDigitsOfValue(ds: seq<Digit>, b: int)
    requires 2 <= b <= 36 && DigitsBelow(ds, b)
    requires |ds| == 0 || ds[|ds| - 1] != 0
    ensures DivModDigits(Horner(ds, b), b) == ds
    decreases |ds|
  {
    if |ds| > 0 {
      var d, rest := ds[0], ds[1..];
      var h := Horner(rest, b);
      assert DigitsBelow(rest, b);
      assert |rest| == 0 || rest[|rest| - 1] != 0;
      PositionalSumIsHorner(rest, b);
      PositionalSumIsHorner(ds, b);
      TopDigitPositive(ds, b);
      var v := d + b * h;
      assert v > 0;
      assert v % b == d && v / b == h by {
        assert 0 <= d < b && h >= 0;
        DivModUnique(v, b, h, d);
      }
      DivModDigitsOfValue(rest, b);
      assert ds == [d] + rest;
    }
  }

  lemma DivModUnique(v: int, b: int, q: int, r: int)
    requires b > 0 && 0 <= r < b && v == q * b + r
    ensures v / b == q && v % b == r
  {
    var q0, r0 := v / b, v % b;
    assert v == q0 * b + r0 && 0 <= r0 < b;
    assert (q - q0) * b == r0 - r;
    if q > q0 {
      MulMonotone(1, q - q0, b);
      assert false;
    } else if q < q0 {
      MulMonotone(1, q0 - q, b);
      assert false;
    }
  }
}

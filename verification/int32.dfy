/** The native 32-bit signed integer of the host platform: unchecked
    two's-complement wrap-around, and division that truncates toward zero. */
module Int32 {

  const Modulus: int := 0x1_0000_0000
  const Min: int := -0x8000_0000
  const Max: int := 0x7fff_ffff

  predicate InRange(x: int)
  {
    Min <= x <= Max
  }

  /** x and y denote the same 32-bit pattern. */
  predicate Congruent(x: int, y: int)
  {
    (x - y) % Modulus == 0
  }

  /** The value an unchecked 32-bit operation yields for the exact result x. */
  function Wrap(x: int): (r: int)
    ensures InRange(r)
    ensures Congruent(r, x)
    ensures InRange(x) ==> r == x
  {
    var m := x % Modulus;
    assert x == Modulus * (x / Modulus) + m;
    if m > Max then m - Modulus else m
  }

  lemma CongruentSymmetric(x: int, y: int)
    requires Congruent(x, y)
    ensures Congruent(y, x)
  {
    var k := (x - y) / Modulus;
    assert x - y == Modulus * k;
    assert y - x == Modulus * (-k);
  }

  lemma CongruentTransitive(x: int, y: int, z: int)
    requires Congruent(x, y) && Congruent(y, z)
    ensures Congruent(x, z)
  {
    var k := (x - y) / Modulus;
    var l := (y - z) / Modulus;
    assert x - y == Modulus * k;
    assert y - z == Modulus * l;
    assert x - z == Modulus * (k + l);
  }

  lemma CongruentSum(a: int, b: int, c: int, d: int)
    requires Congruent(a, b) && Congruent(c, d)
    ensures Congruent(a + c, b + d)
  {
    var k := (a - b) / Modulus;
    var l := (c - d) / Modulus;
    assert a - b == Modulus * k;
    assert c - d == Modulus * l;
    assert (a + c) - (b + d) == Modulus * (k + l);
  }

  lemma CongruentScale(n: int, a: int, b: int)
    requires Congruent(a, b)
    ensures Congruent(n * a, n * b)
  {
    var k := (a - b) / Modulus;
    assert a - b == Modulus * k;
    assert n * a - n * b == n * (a - b);
    assert n * (a - b) == Modulus * (n * k);
  }

  /** Two exact results with the same bit pattern wrap to the same value. */
  lemma {:induction false} CongruentWrapsEqual(x: int, y: int)
    requires Congruent(x, y)
    ensures Wrap(x) == Wrap(y)
  {
    var wx, wy := Wrap(x), Wrap(y);
    CongruentSymmetric(wy, y);
    CongruentTransitive(wx, x, y);
    CongruentTransitive(wx, y, wy);
    var k := (wx - wy) / Modulus;
    assert wx - wy == Modulus * k;
  }

  /** One step of an accumulating loop `s += d * p` on wrapped operands
      agrees with the exact computation, bit for bit. */
  lemma {:induction false} WrapAccumulate(s: int, d: int, p: int)
    ensures Wrap(Wrap(s) + Wrap(d * Wrap(p))) == Wrap(s + d * p)
  {
    CongruentScale(d, Wrap(p), p);
    CongruentTransitive(Wrap(d * Wrap(p)), d * Wrap(p), d * p);
    CongruentSum(Wrap(s), s, Wrap(d * Wrap(p)), d * p);
    CongruentWrapsEqual(Wrap(s) + Wrap(d * Wrap(p)), s + d * p);
  }

  /** `p *= b` on a wrapped p agrees with the exact product, bit for bit. */
  lemma {:induction false} WrapScale(p: int, b: int)
    ensures Wrap(Wrap(p) * b) == Wrap(b * p)
  {
    CongruentScale(b, Wrap(p), p);
    assert Wrap(p) * b == b * Wrap(p);
    CongruentWrapsEqual(Wrap(p) * b, b * p);
  }

  /** Integer division truncating toward zero: the quotient's magnitude is
      the number of whole |y| in |x|, and it is negative only when the
      operands' signs differ. */
  function TruncDiv(x: int, y: int): (q: int)
    requires y != 0
    ensures Abs(q) * Abs(y) <= Abs(x) < (Abs(q) + 1) * Abs(y)
    ensures q == 0 || (q < 0) == ((x < 0) != (y < 0))
  {
    var q := Abs(x) / Abs(y);
    WholeQuotient(Abs(x), Abs(y));
    if (x < 0) != (y < 0) then -q else q
  }

  /** The Euclidean quotient of naturals counts the whole divisors. */
  lemma WholeQuotient(a: nat, b: nat)
    requires b > 0
    ensures (a / b) * b <= a < (a / b + 1) * b
  {
    var q, r := a / b, a % b;
    assert a == q * b + r && 0 <= r < b;
    assert (q + 1) * b == q * b + b;
  }

  /** The remainder that goes with TruncDiv: smaller than the divisor in
      magnitude, and carrying the sign of the dividend. */
  function TruncRem(x: int, y: int): (r: int)
    requires y != 0
    ensures x == TruncDiv(x, y) * y + r
    ensures Abs(r) < Abs(y)
    ensures r == 0 || (r < 0) == (x < 0)
  {
    var q := TruncDiv(x, y);
    assert Abs(x) - Abs(q) * Abs(y) == Abs(x - q * y) by {
      SignedProduct(x, y, q);
    }
    x - q * y
  }

  /** x and q·y have the same sign and |q·y| = |q|·|y| when q is the
      truncating quotient. */
  lemma SignedProduct(x: int, y: int, q: int)
    requires y != 0 && q == TruncDiv(x, y)
    ensures Abs(q * y) == Abs(q) * Abs(y)
    ensures q * y == 0 || (q * y < 0) == (x < 0)
    ensures Abs(x - q * y) == Abs(x) - Abs(q) * Abs(y)
  {
    if q != 0 {
      if x < 0 {
        assert q * y < 0 by {
          if y < 0 { assert q > 0; } else { assert q < 0; }
        }
      } else {
        assert q * y > 0 by {
          if y < 0 { assert q < 0; } else { assert q > 0; }
        }
      }
    }
  }

  function Abs(x: int): nat
  {
    if x < 0 then -x else x
  }

  /** On a non-negative dividend and a positive divisor, truncating and
      Euclidean division coincide. */
  lemma TruncAgreesOnNaturals(x: int, y: int)
    requires x >= 0 && y > 0
    ensures TruncDiv(x, y) == x / y
    ensures TruncRem(x, y) == x % y
  {
  }
}

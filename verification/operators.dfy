/** The operator layer of IntegerInBase: arithmetic evaluates both operands,
    computes natively and converts the result back into the left operand's
    base; equality, hashing and ordering look only at the values. */
module Operators {
  import opened Alphabet
  import opened Positional
  import opened NumberSystem
  import Int32

  /** The five arithmetic operators. */
  datatype Op = Plus | Minus | Times | Quotient | Remainder {
    predicate Divides()
    {
      Quotient? || Remainder?
    }
  }

  /** The native operation; / and % truncate toward zero as the host's do. */
  function Native(op: Op, x: int, y: int): int
    requires op.Divides() ==> y != 0
  {
    match op
    case Plus => x + y
    case Minus => x - y
    case Times => x * y
    case Quotient => Int32.TruncDiv(x, y)
    case Remainder => Int32.TruncRem(x, y)
  }

  /** a op b: refuses operands of different bases, refuses a zero divisor,
      and otherwise converts the native result into a's base. */
  function Apply(op: Op, a: IntegerInBase, b: IntegerInBase): (r: Result<IntegerInBase>)
    requires Valid(a) && Valid(b)
    ensures a.base != b.base ==> r == Err(MismatchedBase)
    ensures a.base == b.base && op.Divides() && ToDecimal(b) == 0 ==> r == Err(DivisionByZero)
    ensures r.Err? ==> a.base != b.base || (op.Divides() && ToDecimal(b) == 0)
    ensures r.Ok? ==> r.value.base == a.base && Valid(r.value)
    ensures r.Ok? ==> var n := Native(op, ToDecimal(a), ToDecimal(b));
                      (n >= 0 ==> ToDecimal(r.value) == n && Canonical(r.value.digits))
                      && (n < 0 ==> r.value.digits == [])
  {
    if a.base != b.base then Err(MismatchedBase)
    else if op.Divides() && ToDecimal(b) == 0 then Err(DivisionByZero)
    else FromDecimal(Native(op, ToDecimal(a), ToDecimal(b)), a.base)
  }

  /** On values of one base, / and % are Euclidean division: the quotient
      times the divisor plus the remainder gives the dividend back, and the
      remainder is below the divisor. */
  lemma QuotientRemainder(a: IntegerInBase, b: IntegerInBase)
    requires Valid(a) && Valid(b) && a.base == b.base && ToDecimal(b) != 0
    ensures Apply(Quotient, a, b).Ok? && Apply(Remainder, a, b).Ok?
    ensures var q, r := Apply(Quotient, a, b).value, Apply(Remainder, a, b).value;
            ToDecimal(q) * ToDecimal(b) + ToDecimal(r) == ToDecimal(a)
            && 0 <= ToDecimal(r) < ToDecimal(b)
  {
    var x, y := ToDecimal(a), ToDecimal(b);
    assert x >= 0 && y > 0;
    Int32.TruncAgreesOnNaturals(x, y);
    EuclideanDivision(x, y);
    var qn, rn := Native(Quotient, x, y), Native(Remainder, x, y);
    assert qn == x / y && rn == x % y;
    assert qn >= 0 && rn >= 0;
    var q, r := Apply(Quotient, a, b).value, Apply(Remainder, a, b).value;
    assert ToDecimal(q) == qn;
    assert ToDecimal(r) == rn;
  }

  lemma EuclideanDivision(x: int, y: int)
    requires y > 0
    ensures (x / y) * y + x % y == x && 0 <= x % y < y
    ensures x >= 0 ==> x / y >= 0
  {
  }

  /** Subtracting what was added gives back the left operand's value. */
  lemma SubtractUndoesAdd(a: IntegerInBase, b: IntegerInBase)
    requires Valid(a) && Valid(b) && a.base == b.base
    ensures Apply(Plus, a, b).Ok?
    ensures Apply(Minus, Apply(Plus, a, b).value, b).Ok?
    ensures ToDecimal(Apply(Minus, Apply(Plus, a, b).value, b).value) == ToDecimal(a)
  {
  }

  /** A difference below zero has no digits: it renders as "" and
      evaluates to 0. */
  lemma NegativeDifference(a: IntegerInBase, b: IntegerInBase)
    requires Valid(a) && Valid(b) && a.base == b.base
    requires ToDecimal(a) < ToDecimal(b)
    ensures Apply(Minus, a, b).Ok?
    ensures Apply(Minus, a, b).value.digits == []
    ensures Render(Apply(Minus, a, b).value) == "" && ToDecimal(Apply(Minus, a, b).value) == 0
  {
  }

  /** Addition and multiplication are commutative, down to the digits. */
  lemma {:induction false} Commutative(op: Op, a: IntegerInBase, b: IntegerInBase)
    requires Valid(a) && Valid(b) && (op.Plus? || op.Times?)
    ensures Apply(op, a, b) == Apply(op, b, a)
  {
    if a.base == b.base {
      assert Native(op, ToDecimal(a), ToDecimal(b)) == Native(op, ToDecimal(b), ToDecimal(a));
    }
  }

  // ------------------------------------------------------ equality and order

  /** Equals(object): false for anything that is not a number (None),
      otherwise whether the two values agree, whatever the bases. */
  function Equals(a: IntegerInBase, other: Option<IntegerInBase>): bool
  {
    match other
    case None => false
    case Some(b) => ToDecimal(a) == ToDecimal(b)
  }

  /** GetHashCode: the hash of the value; a native integer hashes to itself. */
  function HashCode(x: IntegerInBase): int
  {
    ToDecimal(x)
  }

  function Greater(a: IntegerInBase, b: IntegerInBase): bool
  {
    ToDecimal(a) > ToDecimal(b)
  }

  function Less(a: IntegerInBase, b: IntegerInBase): bool
  {
    ToDecimal(a) < ToDecimal(b)
  }

  function AtLeast(a: IntegerInBase, b: IntegerInBase): bool
  {
    ToDecimal(a) >= ToDecimal(b)
  }

  function AtMost(a: IntegerInBase, b: IntegerInBase): bool
  {
    ToDecimal(a) <= ToDecimal(b)
  }

  /** Equals is an equivalence relation on numbers, and equal numbers have
      equal hash codes. */
  lemma EqualsIsEquivalence(a: IntegerInBase, b: IntegerInBase, c: IntegerInBase)
    ensures Equals(a, Some(a))
    ensures Equals(a, Some(b)) ==> Equals(b, Some(a))
    ensures Equals(a, Some(b)) && Equals(b, Some(c)) ==> Equals(a, Some(c))
    ensures Equals(a, Some(b)) ==> HashCode(a) == HashCode(b)
    ensures !Equals(a, None)
  {
  }

  /** The comparisons are a total preorder consistent with Equals: exactly
      one of <, Equals, > holds, >= is not <, <= is not >, and < is > with
      the operands swapped. */
  lemma ComparisonsAreConsistent(a: IntegerInBase, b: IntegerInBase)
    ensures Less(a, b) || Equals(a, Some(b)) || Greater(a, b)
    ensures !(Less(a, b) && Greater(a, b))
    ensures Equals(a, Some(b)) ==> !Less(a, b) && !Greater(a, b)
    ensures AtLeast(a, b) <==> !Less(a, b)
    ensures AtMost(a, b) <==> !Greater(a, b)
    ensures Less(a, b) <==> Greater(b, a)
  {
  }

  /** Equality and order see values only: a number may be replaced by any
      equal one, whatever its base or leading zeros. */
  lemma ComparisonsRespectEquals(a: IntegerInBase, a': IntegerInBase, b: IntegerInBase)
    requires Equals(a, Some(a'))
    ensures Equals(a, Some(b)) == Equals(a', Some(b))
    ensures Less(a, b) == Less(a', b) && Greater(a, b) == Greater(a', b)
    ensures AtLeast(a, b) == AtLeast(a', b) && AtMost(a, b) == AtMost(a', b)
    ensures HashCode(a) == HashCode(a')
  {
  }

  /** Converting a number into another base (what the console front end does
      to its second operand) yields an equal number in that base. */
  lemma ConversionKeepsValue(x: IntegerInBase, b: int)
    requires Valid(x) && ValidBase(b)
    ensures FromDecimal(ToDecimal(x), b).Ok?
    ensures FromDecimal(ToDecimal(x), b).value.base == b
    ensures Equals(x, Some(FromDecimal(ToDecimal(x), b).value))
  {
  }

  /** The source compares and hashes the 32-bit results of ToDecimal. While
      both values fit in an int, those agree with the exact comparisons. */
  lemma WrappedComparisonsAgree(a: IntegerInBase, b: IntegerInBase)
    requires Int32.InRange(ToDecimal(a)) && Int32.InRange(ToDecimal(b))
    ensures var x, y := Int32.Wrap(ToDecimal(a)), Int32.Wrap(ToDecimal(b));
            && (Equals(a, Some(b)) <==> x == y)
            && (Less(a, b) <==> x < y) && (Greater(a, b) <==> x > y)
            && (AtMost(a, b) <==> x <= y) && (AtLeast(a, b) <==> x >= y)
            && HashCode(a) == x
  {
  }

  /** Beyond the int range they part: "100000000" in base 16 is 2^32, whose
      32-bit result is 0, so the source finds it equal to "0" while the exact
      comparison does not. */
  lemma WrappedEqualityDiverges()
    ensures var big, zero := IntegerInBase(16, [0, 0, 0, 0, 0, 0, 0, 0, 1]), IntegerInBase(16, [0]);
            && Valid(big) && Canonical(big.digits)
            && ToDecimal(big) == 0x1_0000_0000
            && Int32.Wrap(ToDecimal(big)) == Int32.Wrap(ToDecimal(zero))
            && !Equals(big, Some(zero))
  {
    PositionalSumIsHorner([0, 0, 0, 0, 0, 0, 0, 0, 1], 16);
  }

  /** Among canonical numbers of one base, Equals is digit-for-digit
      equality; leading zeros are what let equal numbers differ. */
  lemma {:induction false} EqualsOnCanonical(x: IntegerInBase, y: IntegerInBase)
    requires Valid(x) && Valid(y) && x.base == y.base
    requires Canonical(x.digits) && Canonical(y.digits)
    ensures Equals(x, Some(y)) <==> x == y
  {
    FromDecimalOfValue(x);
    FromDecimalOfValue(y);
  }
}

/** A non-negative integer written in a radix from 2 to 36, stored as its
    digits least significant first: parsing from a numeral, rendering back
    to a numeral, evaluation to a native integer, and conversion of a native
    integer into a given radix. */
module NumberSystem {
  import opened Alphabet
  import opened Positional
  import Int32

  /** The ways construction and arithmetic can fail. */
  datatype Error =
    | InvalidBase(base: int)
    | InvalidChar(c: char)
    | DigitOutOfRange(digit: Digit, base: int)
    | MismatchedBase
    | DivisionByZero

  datatype Result<+T> = Ok(value: T) | Err(error: Error) {
    predicate IsFailure()
    {
      Err?
    }

    function PropagateFailure<U>(): Result<U>
      requires Err?
    {
      Err(error)
    }

    function Extract(): T
      requires Ok?
    {
      value
    }
  }

  datatype Option<+T> = None | Some(value: T)

  /** A number: its radix and its digits, least significant first. */
  datatype IntegerInBase = IntegerInBase(base: int, digits: seq<Digit>)

  predicate ValidBase(b: int)
  {
    2 <= b <= 36
  }

  /** What every constructed number satisfies. Leading zeros and the empty
      digit sequence are allowed. */
  predicate Valid(x: IntegerInBase)
  {
    ValidBase(x.base) && DigitsBelow(x.digits, x.base)
  }

  // ---------------------------------------------------------------- parsing

  /** An upper-cased character that is a digit of base b. */
  predicate Admissible(c: char, b: int)
  {
    IsSymbol(c) && SymbolValue(c) < b
  }

  /** Every character of s, upper-cased, is a digit of base b. */
  predicate IsNumeral(s: string, b: int)
  {
    forall i | 0 <= i < |s| :: Admissible(UpperChar(s[i]), b)
  }

  /** The error an inadmissible upper-cased character raises. */
  function CharError(c: char, b: int): Error
    requires !Admissible(c, b)
  {
    if IsSymbol(c) then DigitOutOfRange(SymbolValue(c), b) else InvalidChar(c)
  }

  /** Reads s most significant character first, inserting each digit in
      front of those read so far, and stops at the first character that is
      not a digit of base b. */
  function ParseDigits(s: string, b: int): (r: Result<seq<Digit>>)
    ensures r.Ok? <==> IsNumeral(s, b)
    ensures r.Ok? ==> |r.value| == |s|
    ensures r.Ok? ==> forall i | 0 <= i < |s| :: r.value[i] == SymbolValue(UpperChar(s[|s| - 1 - i]))
    ensures r.Err? ==> exists i | 0 <= i < |s| ::
              IsNumeral(s[..i], b) && !Admissible(UpperChar(s[i]), b) && r.error == CharError(UpperChar(s[i]), b)
    decreases |s|
  {
    if |s| == 0 then Ok([])
    else
      var n := |s| - 1;
      assert forall i | 0 <= i < n :: s[..n][i] == s[i];
      var read :- ParseDigits(s[..n], b);
      var c := UpperChar(s[n]);
      if !IsSymbol(c) then Err(InvalidChar(c))
      else if SymbolValue(c) >= b then Err(DigitOutOfRange(SymbolValue(c), b))
      else Ok([SymbolValue(c)] + read)
  }

  /** The constructor: checks the base, then parses the numeral. */
  function Parse(s: string, b: int): (r: Result<IntegerInBase>)
    ensures r == Err(InvalidBase(b)) <==> !ValidBase(b)
    ensures r.Ok? <==> ValidBase(b) && IsNumeral(s, b)
    ensures r.Err? && ValidBase(b) ==> exists i | 0 <= i < |s| ::
              IsNumeral(s[..i], b) && !Admissible(UpperChar(s[i]), b) && r.error == CharError(UpperChar(s[i]), b)
    ensures r.Ok? ==> r.value.base == b && Valid(r.value) && |r.value.digits| == |s|
    ensures r.Ok? ==> forall i | 0 <= i < |s| :: r.value.digits[i] == SymbolValue(UpperChar(s[|s| - 1 - i]))
  {
    if !ValidBase(b) then Err(InvalidBase(b))
    else
      var ds :- ParseDigits(s, b);
      Ok(IntegerInBase(b, ds))
  }

  // -------------------------------------------------------------- rendering

  /** The numeral of a digit sequence, most significant digit first. */
  function Spell(ds: seq<Digit>): (s: string)
    ensures |s| == |ds|
    ensures forall i | 0 <= i < |s| :: IsSymbol(s[i]) && SymbolValue(s[i]) == ds[|ds| - 1 - i]
    decreases |ds|
  {
    if |ds| == 0 then ""
    else [DigitChar(ds[|ds| - 1])] + Spell(ds[..|ds| - 1])
  }

  /** ToString: the numeral of a number. */
  function Render(x: IntegerInBase): (s: string)
    ensures |s| == |x.digits|
    ensures forall i | 0 <= i < |s| :: IsSymbol(s[i]) && UpperChar(s[i]) == s[i]
  {
    var s := Spell(x.digits);
    assert forall i | 0 <= i < |s| :: DigitChar(SymbolValue(s[i])) == s[i];
    s
  }

  /** Spelling base-b digits and parsing the result gives the digits back. */
  lemma ParseSpell(ds: seq<Digit>, b: int)
    requires ValidBase(b) && DigitsBelow(ds, b)
    ensures Parse(Spell(ds), b) == Ok(IntegerInBase(b, ds))
  {
    var s := Spell(ds);
    assert forall i | 0 <= i < |s| :: UpperChar(s[i]) == s[i] by {
      forall i | 0 <= i < |s| ensures UpperChar(s[i]) == s[i] {
        SymbolRoundTrip(s[i]);
      }
    }
    var r := Parse(s, b);
    assert r.Ok?;
    assert r.value.digits == ds;
  }

  /** Parse then render: the upper-cased input comes back, leading zeros
      and all, and the empty numeral renders as the empty string. */
  lemma RenderParse(s: string, b: int)
    requires Parse(s, b).Ok?
    ensures Render(Parse(s, b).value) == Upper(s)
  {
    var x := Parse(s, b).value;
    var t := Render(x);
    forall i | 0 <= i < |s|
      ensures t[i] == UpperChar(s[i])
    {
      assert SymbolValue(t[i]) == SymbolValue(UpperChar(s[i]));
      SymbolRoundTrip(t[i]);
      SymbolRoundTrip(UpperChar(s[i]));
    }
  }

  /** Parsing reads lower and upper case alike: a numeral and its
      upper-cased form construct the same number, or fail the same way. */
  lemma ParseIgnoresCase(s: string, b: int)
    ensures Parse(Upper(s), b) == Parse(s, b)
  {
    UpperDigitsAgree(s, b);
  }

  lemma {:induction false} UpperDigitsAgree(s: string, b: int)
    ensures ParseDigits(Upper(s), b) == ParseDigits(s, b)
    decreases |s|
  {
    if |s| > 0 {
      var n := |s| - 1;
      var u := Upper(s);
      assert u[..n] == Upper(s[..n]);
      UpperDigitsAgree(s[..n], b);
      assert UpperChar(u[n]) == UpperChar(s[n]) by {
        UpperIdempotent(s);
        assert Upper(u)[n] == u[n];
      }
    }
  }

  /** Render then parse in the number's own base: the number comes back. */
  lemma ParseRender(x: IntegerInBase)
    requires Valid(x)
    ensures Parse(Render(x), x.base) == Ok(x)
  {
    ParseSpell(x.digits, x.base);
  }

  // ------------------------------------------------------------- evaluation

  /** ToDecimal: Σ digits[i]·base^i, exactly. The value of n digits lies in
      [0, base^n); no digits evaluate to 0. */
  function ToDecimal(x: IntegerInBase): (v: int)
    ensures Valid(x) ==> 0 <= v < Pow(x.base, |x.digits|)
    ensures x.digits == [] ==> v == 0
  {
    PositionalSum(x.digits, x.base)
  }

  /** ToDecimal as the source computes it: a running power of the base and
      an accumulator, both 32-bit and wrapping silently. The result is the
      exact value's 32-bit wrap, and so the exact value whenever that fits. */
  method ToDecimal32(x: IntegerInBase) returns (result: int)
    requires Valid(x)
    ensures result == Int32.Wrap(ToDecimal(x))
    ensures Int32.InRange(ToDecimal(x)) ==> result == ToDecimal(x)
  {
    var ds, b := x.digits, x.base;
    result := 0;
    var power := 1;
    var i := 0;
    while i < |ds|
      invariant 0 <= i <= |ds|
      invariant result == Int32.Wrap(PositionalSum(ds[..i], b))
      invariant power == Int32.Wrap(Pow(b, i))
    {
      assert ds[..i + 1][..i] == ds[..i];
      Int32.WrapAccumulate(PositionalSum(ds[..i], b), ds[i], Pow(b, i));
      Int32.WrapScale(Pow(b, i), b);
      result := Int32.Wrap(result + Int32.Wrap(ds[i] * power));
      power := Int32.Wrap(power * b);
      i := i + 1;
    }
    assert ds[..i] == ds;
  }

  /** Leading zeros are kept by parsing but never change the value. */
  lemma LeadingZerosKeepValue(x: IntegerInBase)
    ensures ToDecimal(IntegerInBase(x.base, x.digits + [0])) == ToDecimal(x)
  {
    LeadingZeroNeutral(x.digits, x.base);
  }

  // ------------------------------------------------------------- conversion

  /** The digits FromDecimal collects: [0] for zero, the mod/div expansion
      for a positive value, none for a negative one. */
  function NativeDigits(v: int, b: int): (ds: seq<Digit>)
    requires ValidBase(b)
    ensures DigitsBelow(ds, b)
    ensures v >= 0 ==> Canonical(ds) && PositionalSum(ds, b) == v
    ensures v == 0 ==> ds == [0]
    ensures v < 0 ==> ds == []
  {
    PositionalSumIsHorner(DivModDigits(v, b), b);
    if v == 0 then [0] else DivModDigits(v, b)
  }

  /** FromDecimal: collects the digits of v in base b, spells them and
      parses the numeral in base b. */
  function FromDecimal(v: int, b: int): (r: Result<IntegerInBase>)
    ensures r.Ok? <==> ValidBase(b)
    ensures r.Err? ==> r.error == InvalidBase(b)
    ensures r.Ok? ==> r.value.base == b && Valid(r.value)
    ensures r.Ok? && v >= 0 ==> ToDecimal(r.value) == v && Canonical(r.value.digits)
    ensures r.Ok? && v < 0 ==> r.value.digits == [] && Render(r.value) == "" && ToDecimal(r.value) == 0
  {
    if !ValidBase(b) then Err(InvalidBase(b))
    else
      var ds := NativeDigits(v, b);
      ParseSpell(ds, b);
      PositionalSumIsHorner(ds, b);
      Parse(Spell(ds), b)
  }

  /** Converting a number's own value back into its own base reproduces
      it exactly when its digits are canonical (no leading zero, and not
      empty). */
  lemma {:induction false} FromDecimalOfValue(x: IntegerInBase)
    requires Valid(x)
    ensures FromDecimal(ToDecimal(x), x.base) == Ok(x) <==> Canonical(x.digits)
  {
    if Canonical(x.digits) {
      var v := ToDecimal(x);
      PositionalSumIsHorner(x.digits, x.base);
      if x.digits != [0] {
        TopDigitPositive(x.digits, x.base);
        DivModDigitsOfValue(x.digits, x.base);
        assert NativeDigits(v, x.base) == x.digits;
      }
      ParseSpell(x.digits, x.base);
    }
  }

  /** Two non-negative values converted into one base give the same number
      exactly when they are equal. */
  lemma FromDecimalInjective(v: int, w: int, b: int)
    requires v >= 0 && w >= 0 && ValidBase(b)
    ensures FromDecimal(v, b) == FromDecimal(w, b) <==> v == w
  {
  }
}

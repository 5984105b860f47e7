/** Concrete cases of the behaviour of IntegerInBase, each proved about the
    model. */
module Examples {
  import opened Alphabet
  import opened Positional
  import opened NumberSystem
  import opened Operators

  /** "FF" in base 16 and "255" in base 10 are equal numbers; lower case is
      read as upper case. */
  lemma CrossBaseEquality()
    ensures Parse("FF", 16) == Ok(IntegerInBase(16, [15, 15]))
    ensures Parse("ff", 16) == Parse("FF", 16)
    ensures Parse("255", 10) == Ok(IntegerInBase(10, [5, 5, 2]))
    ensures ToDecimal(IntegerInBase(16, [15, 15])) == 255
    ensures Equals(IntegerInBase(16, [15, 15]), Some(IntegerInBase(10, [5, 5, 2])))
  {
    assert Spell([15, 15]) == "FF";
    ParseSpell([15, 15], 16);
    assert Spell([5, 5, 2]) == "255";
    ParseSpell([5, 5, 2], 10);
    assert UpperChar('f') == 'F';
    assert Parse("ff", 16).value.digits == [15, 15];
    assert ToDecimal(IntegerInBase(10, [5, 5, 2])) == 255 by {
      PositionalSumIsHorner([5, 5, 2], 10);
    }
    assert ToDecimal(IntegerInBase(16, [15, 15])) == 255 by {
      PositionalSumIsHorner([15, 15], 16);
    }
  }

  /** Each way construction fails, with the error of the first offending
      character. */
  lemma ParseErrors()
    ensures Parse("G", 16) == Err(DigitOutOfRange(16, 16))
    ensures Parse("2", 2) == Err(DigitOutOfRange(2, 2))
    ensures Parse("1", 1) == Err(InvalidBase(1))
    ensures Parse("1", 37) == Err(InvalidBase(37))
    ensures Parse("1-2", 10) == Err(InvalidChar('-'))
    ensures Parse("9-", 8) == Err(DigitOutOfRange(9, 8))
  {
  }

  /** The empty numeral is accepted, has no digits, renders as "" and is
      zero; leading zeros are kept as given. */
  lemma EmptyAndLeadingZeros()
    ensures Parse("", 10) == Ok(IntegerInBase(10, []))
    ensures Render(IntegerInBase(10, [])) == ""
    ensures ToDecimal(IntegerInBase(10, [])) == 0
    ensures Parse("007", 10) == Ok(IntegerInBase(10, [7, 0, 0]))
    ensures Render(IntegerInBase(10, [7, 0, 0])) == "007"
    ensures Equals(IntegerInBase(10, [7, 0, 0]), Some(IntegerInBase(10, [7])))
  {
    assert Spell([7, 0, 0]) == "007";
    ParseSpell([7, 0, 0], 10);
    LeadingZerosKeepValue(IntegerInBase(10, [7]));
    assert [7] + [0] == [7, 0];
    LeadingZerosKeepValue(IntegerInBase(10, [7, 0]));
    assert [7, 0] + [0] == [7, 0, 0];
  }

  /** FromDecimal writes zero as the single digit 0, a negative value as no
      digits at all, and refuses a base outside [2, 36]. */
  lemma FromDecimalCases()
    ensures FromDecimal(0, 10) == Ok(IntegerInBase(10, [0]))
    ensures FromDecimal(-5, 10) == Ok(IntegerInBase(10, []))
    ensures FromDecimal(255, 16) == Ok(IntegerInBase(16, [15, 15]))
    ensures FromDecimal(5, 37) == Err(InvalidBase(37))
  {
    ParseSpell([0], 10);
    ParseSpell([], 10);
    assert DivModDigits(255, 16) == [15, 15];
    ParseSpell([15, 15], 16);
  }

  /** "12" + "7" is "19" in base 10. */
  lemma DecimalSumCase()
    ensures Apply(Plus, IntegerInBase(10, [2, 1]), IntegerInBase(10, [7])) == Ok(IntegerInBase(10, [9, 1]))
  {
    var x := IntegerInBase(10, [9, 1]);
    assert ToDecimal(IntegerInBase(10, [2, 1])) == 12 by {
      PositionalSumIsHorner([2, 1], 10);
    }
    assert ToDecimal(x) == 19 by {
      PositionalSumIsHorner([9, 1], 10);
    }
    FromDecimalOfValue(x);
    assert FromDecimal(19, 10) == Ok(x);
    var a, b := IntegerInBase(10, [2, 1]), IntegerInBase(10, [7]);
    assert Native(Plus, ToDecimal(a), ToDecimal(b)) == 19;
  }

  /** "A" + "5" is "F" in base 16. */
  lemma HexSumCase()
    ensures Apply(Plus, IntegerInBase(16, [10]), IntegerInBase(16, [5])) == Ok(IntegerInBase(16, [15]))
  {
    var a, b := IntegerInBase(16, [10]), IntegerInBase(16, [5]);
    assert Native(Plus, ToDecimal(a), ToDecimal(b)) == 15;
    FromDecimalOfValue(IntegerInBase(16, [15]));
    assert FromDecimal(15, 16) == Ok(IntegerInBase(16, [15]));
  }

  /** "17" / "5" is "3" in base 10. */
  lemma QuotientCase()
    ensures Apply(Quotient, IntegerInBase(10, [7, 1]), IntegerInBase(10, [5])) == Ok(IntegerInBase(10, [3]))
  {
    var a, b := IntegerInBase(10, [7, 1]), IntegerInBase(10, [5]);
    assert ToDecimal(a) == 17 by {
      PositionalSumIsHorner([7, 1], 10);
    }
    assert Native(Quotient, ToDecimal(a), ToDecimal(b)) == 3;
    FromDecimalOfValue(IntegerInBase(10, [3]));
    assert FromDecimal(3, 10) == Ok(IntegerInBase(10, [3]));
  }

  /** "17" % "5" is "2" in base 10. */
  lemma RemainderCase()
    ensures Apply(Remainder, IntegerInBase(10, [7, 1]), IntegerInBase(10, [5])) == Ok(IntegerInBase(10, [2]))
  {
    var a, b := IntegerInBase(10, [7, 1]), IntegerInBase(10, [5]);
    assert ToDecimal(a) == 17 by {
      PositionalSumIsHorner([7, 1], 10);
    }
    assert Native(Remainder, ToDecimal(a), ToDecimal(b)) == 2;
    FromDecimalOfValue(IntegerInBase(10, [2]));
    assert FromDecimal(2, 10) == Ok(IntegerInBase(10, [2]));
  }

  /** "3" - "5" in base 10 has no digits. */
  lemma NegativeDifferenceCase()
    ensures Apply(Minus, IntegerInBase(10, [3]), IntegerInBase(10, [5])) == Ok(IntegerInBase(10, []))
  {
  }

  /** The operator errors: a zero divisor, and operands of different bases. */
  lemma OperatorErrors()
    ensures Apply(Quotient, IntegerInBase(10, [1]), IntegerInBase(10, [0])) == Err(DivisionByZero)
    ensures Apply(Remainder, IntegerInBase(10, [1]), IntegerInBase(10, [])) == Err(DivisionByZero)
    ensures Apply(Plus, IntegerInBase(10, [1]), IntegerInBase(16, [1])) == Err(MismatchedBase)
  {
  }

  /** "10" in base 2 is less than "3" in base 10. */
  lemma ComparisonCase()
    ensures Less(IntegerInBase(2, [0, 1]), IntegerInBase(10, [3]))
    ensures !AtLeast(IntegerInBase(2, [0, 1]), IntegerInBase(10, [3]))
  {
    assert ToDecimal(IntegerInBase(2, [0, 1])) == 2 by {
      PositionalSumIsHorner([0, 1], 2);
    }
  }
}

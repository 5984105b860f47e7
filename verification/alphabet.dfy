/** The 36-symbol alphabet of radix numerals: '0'-'9' stand for the digit
    values 0-9 and 'A'-'Z' for 10-35. Lower-case letters are accepted on
    input by upper-casing them first. Only ASCII is modelled. */
module Alphabet {

  /** A digit value that has a symbol in the alphabet. */
  type Digit = d: int | 0 <= d < 36

  /** Upper-casing restricted to ASCII: 'a'-'z' become 'A'-'Z', every
      other character is left as it is. */
  function UpperChar(c: char): char
  {
    if 'a' <= c <= 'z' then (c as int - 'a' as int + 'A' as int) as char else c
  }

  /** Upper-cases a whole string, one character at a time. */
  function Upper(s: string): string
  {
    seq(|s|, i requires 0 <= i < |s| => UpperChar(s[i]))
  }

  /** The characters that stand for a digit once upper-cased. */
  predicate IsSymbol(c: char)
  {
    '0' <= c <= '9' || 'A' <= c <= 'Z'
  }

  /** The digit value a symbol stands for. */
  function SymbolValue(c: char): Digit
    requires IsSymbol(c)
  {
    if c <= '9' then c as int - '0' as int else c as int - 'A' as int + 10
  }

  /** The symbol of a digit value: the inverse of SymbolValue. */
  function DigitChar(d: Digit): (c: char)
    ensures IsSymbol(c) && SymbolValue(c) == d
    ensures UpperChar(c) == c
  {
    if d < 10 then ('0' as int + d) as char else ('A' as int + d - 10) as char
  }

  /** Every symbol is the image of its own value, so DigitChar and
      SymbolValue are mutually inverse bijections. */
  lemma SymbolRoundTrip(c: char)
    requires IsSymbol(c)
    ensures DigitChar(SymbolValue(c)) == c
  {
  }

  /** Upper-casing is idempotent. */
  lemma UpperIdempotent(s: string)
    ensures Upper(Upper(s)) == Upper(s)
  {
  }
}

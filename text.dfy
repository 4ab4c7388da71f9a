/** ASCII stand-ins for the Python string operations the tool relies on:
    `str.upper`, `str.lower`, `str.isupper` and the `%d` conversion. */
module Text {

  predicate IsUpperLetter(c: char) { 'A' <= c <= 'Z' }
  predicate IsLowerLetter(c: char) { 'a' <= c <= 'z' }
  predicate IsDigit(c: char) { '0' <= c <= '9' }

  function UpperChar(c: char): char
  {
    if IsLowerLetter(c) then (c as int - 32) as char else c
  }

  function LowerChar(c: char): char
  {
    if IsUpperLetter(c) then (c as int + 32) as char else c
  }

  /** `s.upper()`: no lower-case letter survives, everything else is kept. */
  function Upper(s: string): (r: string)
    ensures |r| == |s|
    ensures forall i :: 0 <= i < |s| ==> r[i] == UpperChar(s[i])
  {
    seq(|s|, i requires 0 <= i < |s| => UpperChar(s[i]))
  }

  /** `s.lower()`. */
  function Lower(s: string): (r: string)
    ensures |r| == |s|
    ensures forall i :: 0 <= i < |s| ==> r[i] == LowerChar(s[i])
  {
    seq(|s|, i requires 0 <= i < |s| => LowerChar(s[i]))
  }

  /** `s.isupper()`: at least one cased character and none of them lower-case. */
  predicate IsUpper(s: string)
  {
    && (exists i | 0 <= i < |s| :: IsUpperLetter(s[i]))
    && (forall i | 0 <= i < |s| :: !IsLowerLetter(s[i]))
  }

  /** Lower-casing an all-upper-case string leaves no upper-case letter and
      does not change what the string upper-cases to. */
  lemma LowerOfUpperCase(s: string)
    ensures !IsUpper(Lower(s))
    ensures Upper(Lower(s)) == Upper(s)
  {
    forall i | 0 <= i < |s| ensures UpperChar(LowerChar(s[i])) == UpperChar(s[i]) {
    }
  }

  predicate AllDigits(s: string)
  {
    forall i | 0 <= i < |s| :: IsDigit(s[i])
  }

  /** A decimal numeral as `%d` prints a natural number: no leading zero. */
  predicate Canonical(s: string)
  {
    |s| >= 1 && AllDigits(s) && (|s| > 1 ==> s[0] != '0')
  }

  function DigitChar(d: nat): char
    requires d < 10
  {
    ('0' as int + d) as char
  }

  /** `"%d" % n` for a natural number n. */
  function Decimal(n: nat): (s: string)
    ensures Canonical(s)
    ensures n < 10 <==> |s| == 1
  {
    if n < 10 then [DigitChar(n)] else Decimal(n / 10) + [DigitChar(n % 10)]
  }

  /** A natural number below 1000 prints with at most three digits. */
  lemma {:induction false} DecimalBelowThousand(n: nat)
    requires n < 1000
    ensures 1 <= |Decimal(n)| <= 3
  {
    if n >= 10 {
      assert n / 10 < 100;
      if n / 10 >= 10 {
        assert n / 100 < 10;
        assert |Decimal(n / 10 / 10)| == 1;
      }
    }
  }

  /** The value of a string of decimal digits. */
  function ParseDecimal(s: string): nat
    requires AllDigits(s)
  {
    if s == [] then 0
    else 10 * ParseDecimal(s[..|s| - 1]) + (s[|s| - 1] as int - '0' as int)
  }

  /** Reading back what `%d` printed gives the number. */
  lemma {:induction false} ParseDecimalOfDecimal(n: nat)
    ensures ParseDecimal(Decimal(n)) == n
  {
    if n >= 10 {
      var s := Decimal(n);
      assert s[..|s| - 1] == Decimal(n / 10);
      ParseDecimalOfDecimal(n / 10);
    }
  }

  lemma {:induction false} ParseDecimalPositive(s: string)
    requires AllDigits(s) && |s| >= 1 && s[0] != '0'
    ensures ParseDecimal(s) > 0
  {
    if |s| > 1 {
      ParseDecimalPositive(s[..|s| - 1]);
    }
  }

  /** Every canonical numeral is what `%d` prints for its value. */
  lemma {:induction false} DecimalOfParseDecimal(s: string)
    requires Canonical(s)
    ensures Decimal(ParseDecimal(s)) == s
  {
    if |s| > 1 {
      var init := s[..|s| - 1];
      ParseDecimalPositive(init);
      DecimalOfParseDecimal(init);
      var v := ParseDecimal(s);
      assert v / 10 == ParseDecimal(init) && v % 10 == s[|s| - 1] as int - '0' as int;
      assert s == init + [s[|s| - 1]];
    }
  }
}

/** Decimal numbers: `str` of an integer and `int` of an ASCII text. */
module Decimal {
  import opened Seqs

  predicate IsDigit(c: char) {
    '0' <= c <= '9'
  }

  predicate AllDigits(s: string) {
    forall i | 0 <= i < |s| :: IsDigit(s[i])
  }

  /** A decimal number as printed: digits, no leading zero except in "0". */
  predicate Canonical(s: string) {
    s != [] && AllDigits(s) && (|s| > 1 ==> s[0] != '0')
  }

  function DigitChar(d: nat): (c: char)
    requires d < 10
    ensures IsDigit(c) && DigitValue(c) == d
  {
    '0' + d as char
  }

  function DigitValue(c: char): nat
    requires IsDigit(c)
  {
    c as int - '0' as int
  }

  function Digits(n: nat): (s: string)
    ensures Canonical(s)
    ensures s[0] == '0' <==> n == 0
  {
    if n < 10 then [DigitChar(n)] else Digits(n / 10) + [DigitChar(n % 10)]
  }

  /** `str(n)`. */
  function Dec(n: int): string {
    if n < 0 then "-" + Digits(-n) else Digits(n)
  }

  function Value(s: string): nat
    requires AllDigits(s)
  {
    if s == [] then 0 else Value(s[..|s| - 1]) * 10 + DigitValue(s[|s| - 1])
  }

  lemma {:induction false} ValueOfDigits(n: nat)
    ensures Value(Digits(n)) == n
  {
    if n >= 10 {
      ValueOfDigits(n / 10);
      assert Digits(n)[..|Digits(n)| - 1] == Digits(n / 10);
    }
  }

  lemma {:induction false} ValuePositive(s: string)
    requires AllDigits(s) && s != [] && s[0] != '0'
    ensures Value(s) > 0
  {
    if |s| > 1 {
      ValuePositive(s[..|s| - 1]);
    }
  }

  /** Printing and reading back are inverse on canonical numerals. */
  lemma {:induction false} DigitsOfValue(s: string)
    requires Canonical(s)
    ensures Digits(Value(s)) == s
  {
    if |s| == 1 {
      assert Value(s[..0]) == 0;
    } else {
      var front := s[..|s| - 1];
      ValuePositive(front);
      DigitsOfValue(front);
      var v, d := Value(front), DigitValue(s[|s| - 1]);
      assert (v * 10 + d) / 10 == v && (v * 10 + d) % 10 == d;
      assert DigitChar(d) == s[|s| - 1];
    }
  }

  lemma DecInjective(m: int, n: int)
    requires Dec(m) == Dec(n)
    ensures m == n
  {
    if m < 0 && n < 0 {
      assert Digits(-m) == Dec(m)[1..] == Dec(n)[1..] == Digits(-n);
      ValueOfDigits(-m);
      ValueOfDigits(-n);
    } else if m >= 0 && n >= 0 {
      ValueOfDigits(m);
      ValueOfDigits(n);
    }
  }

  /** White space that `int` strips. */
  predicate IsSpace(c: char) {
    c == ' ' || '\t' <= c <= '\r'
  }

  function StripLeft(s: string): string {
    if s != [] && IsSpace(s[0]) then StripLeft(s[1..]) else s
  }

  function StripRight(s: string): string {
    if s != [] && IsSpace(s[|s| - 1]) then StripRight(s[..|s| - 1]) else s
  }

  /** Digits, with single underscores allowed between two of them. */
  predicate IsNumeral(s: string) {
    && s != []
    && IsDigit(s[0]) && IsDigit(s[|s| - 1])
    && (forall i | 0 <= i < |s| :: IsDigit(s[i]) || s[i] == '_')
    && (forall i | 0 < i < |s| :: s[i - 1] == '_' ==> s[i] != '_')
  }

  function NumeralValue(s: string): nat
    requires forall i | 0 <= i < |s| :: IsDigit(s[i]) || s[i] == '_'
  {
    if s == [] then 0
    else if s[|s| - 1] == '_' then NumeralValue(s[..|s| - 1])
    else NumeralValue(s[..|s| - 1]) * 10 + DigitValue(s[|s| - 1])
  }

  /** `int(s)`; `None` where Python raises ValueError. */
  function ParseInt(s: string): Option<int> {
    var t := StripRight(StripLeft(s));
    var body := if t != [] && (t[0] == '-' || t[0] == '+') then t[1..] else t;
    if !IsNumeral(body) then None
    else if t[0] == '-' then Some(-(NumeralValue(body) as int))
    else Some(NumeralValue(body))
  }

  lemma {:induction false} NumeralIsValue(s: string)
    requires AllDigits(s)
    ensures NumeralValue(s) == Value(s)
  {
    if s != [] {
      NumeralIsValue(s[..|s| - 1]);
    }
  }

  lemma DigitsAreNumeral(s: string)
    requires Canonical(s)
    ensures IsNumeral(s) && !IsSpace(s[0]) && !IsSpace(s[|s| - 1]) && s[0] != '-' && s[0] != '+'
    ensures NumeralValue(s) == Value(s)
  {
    NumeralIsValue(s);
  }

  lemma NothingToStrip(s: string)
    requires s != [] && !IsSpace(s[0]) && !IsSpace(s[|s| - 1])
    ensures StripRight(StripLeft(s)) == s
  {
  }

  lemma ParseDec(n: int)
    ensures ParseInt(Dec(n)) == Some(n)
  {
    hide IsNumeral, NumeralValue, StripLeft, StripRight, IsSpace, Digits;
    var digits := if n < 0 then Digits(-n) else Digits(n);
    ValueOfDigits(if n < 0 then -n else n);
    DigitsAreNumeral(digits);
    NotSpace();
    NothingToStrip(Dec(n));
    if n < 0 {
      assert Dec(n)[1..] == digits;
    }
  }

  lemma NotSpace()
    ensures !IsSpace('-')
  {
  }

  lemma DecHasNo(n: int, c: char)
    requires !IsDigit(c) && c != '-'
    ensures c !in Dec(n)
  {
  }
}

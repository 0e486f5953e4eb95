/** `std::to_string`, `%u`, `%x` and `%04X`: unsigned numerals in base 10 and base 16. */
module Numerals {
  function DigitChar(d: nat): char
    requires d < 16
  {
    if d < 10 then ('0' as int + d) as char else ('a' as int + d - 10) as char
  }

  predicate IsDigit(c: char, base: nat)
    requires base == 10 || base == 16
  {
    '0' <= c <= '9' || (base == 16 && 'a' <= c <= 'f')
  }

  predicate AllDigits(s: string, base: nat)
    requires base == 10 || base == 16
  {
    forall i | 0 <= i < |s| :: IsDigit(s[i], base)
  }

  function DigitValue(c: char): nat
    requires IsDigit(c, 16)
  {
    if c <= '9' then c as int - '0' as int else c as int - 'a' as int + 10
  }

  /** The number that a digit string denotes, most significant digit first. */
  function Value(s: string, base: nat): nat
    requires base == 10 || base == 16
    requires AllDigits(s, base)
  {
    if s == [] then 0 else Value(s[..|s| - 1], base) * base + DigitValue(s[|s| - 1])
  }

  function Numeral(n: nat, base: nat): (s: string)
    requires base == 10 || base == 16
    ensures s != [] && AllDigits(s, base)
  {
    if n < base then [DigitChar(n)] else Numeral(n / base, base) + [DigitChar(n % base)]
  }

  function Decimal(n: nat): (s: string)
    ensures s != [] && AllDigits(s, 10)
  {
    Numeral(n, 10)
  }

  function Hex(n: nat): (s: string)
    ensures s != [] && AllDigits(s, 16)
  {
    Numeral(n, 16)
  }

  /** Reading a numeral back gives the number. */
  lemma {:induction false} ValueOfNumeral(n: nat, base: nat)
    requires base == 10 || base == 16
    ensures Value(Numeral(n, base), base) == n
    decreases n
  {
    if n >= base {
      ValueOfNumeral(n / base, base);
      var s := Numeral(n, base);
      assert s[..|s| - 1] == Numeral(n / base, base);
      assert DigitValue(s[|s| - 1]) == n % base;
      if base == 10 {
      } else {
      }
    } else {
      assert [DigitChar(n)][..0] == [];
    }
  }

  /** The sixteen digits. */
  lemma DigitsInOrder(d: nat)
    requires d < 16
    ensures DigitChar(d) == "0123456789abcdef"[d] && DigitValue("0123456789abcdef"[d]) == d
  {
  }

  /** A digit string without superfluous zeros in front. */
  predicate Canonical(s: string, base: nat)
    requires base == 10 || base == 16
  {
    s != [] && AllDigits(s, base) && (s[0] == '0' ==> |s| == 1)
  }

  lemma {:induction false} NumeralIsCanonical(n: nat, base: nat)
    requires base == 10 || base == 16
    ensures Canonical(Numeral(n, base), base)
    ensures Numeral(n, base)[0] == '0' ==> n == 0
    decreases n
  {
    if n >= base {
      QuotientSmaller(n, base);
      NumeralIsCanonical(n / base, base);
    }
  }

  lemma QuotientSmaller(n: nat, base: nat)
    requires n >= base && (base == 10 || base == 16)
    ensures 0 < n / base < n
  {
  }

  lemma DigitOf(c: char, base: nat)
    requires (base == 10 || base == 16) && IsDigit(c, base)
    ensures DigitValue(c) < base && DigitChar(DigitValue(c)) == c
  {
  }

  lemma QuotientOf(q: nat, d: nat, base: nat)
    requires (base == 10 || base == 16) && d < base
    ensures (q * base + d) / base == q && (q * base + d) % base == d
  {
  }

  lemma PositiveValue(s: string, base: nat)
    requires base == 10 || base == 16
    requires Canonical(s, base) && s[0] != '0'
    ensures Value(s, base) > 0
    decreases |s|
  {
    if |s| == 1 {
      assert s[..0] == [];
    } else {
      PositiveValue(s[..|s| - 1], base);
    }
  }

  lemma {:induction false} CanonicalIsNumeral(s: string, base: nat)
    requires base == 10 || base == 16
    requires Canonical(s, base)
    ensures s == Numeral(Value(s, base), base)
    decreases |s|
  {
    var q, d := s[..|s| - 1], s[|s| - 1];
    DigitOf(d, base);
    if |s| == 1 {
      assert q == [];
      assert s == [d];
    } else {
      CanonicalIsNumeral(q, base);
      PositiveValue(q, base);
      QuotientOf(Value(q, base), DigitValue(d), base);
      assert s == q + [d];
    }
  }

  /** The numeral of a number is the one digit string that denotes it without superfluous zeros. */
  lemma NumeralIsExact(s: string, n: nat, base: nat)
    requires base == 10 || base == 16
    ensures s == Numeral(n, base) <==> Canonical(s, base) && Value(s, base) == n
  {
    NumeralIsCanonical(n, base);
    ValueOfNumeral(n, base);
    hide Numeral, Value;
    if Canonical(s, base) {
      CanonicalIsNumeral(s, base);
    }
  }

  lemma NumeralInjective(m: nat, n: nat, base: nat)
    requires base == 10 || base == 16
    requires Numeral(m, base) == Numeral(n, base)
    ensures m == n
  {
    ValueOfNumeral(m, base);
    ValueOfNumeral(n, base);
  }

  // ----- text cut at separators -----

  /** `string::find` of one character: the index of its first occurrence. */
  function Find(s: string, c: char): (i: int)
    ensures -1 <= i < |s|
    ensures i >= 0 ==> s[i] == c && forall k | 0 <= k < i :: s[k] != c
    ensures i < 0 ==> c !in s
  {
    if s == [] then -1
    else if s[0] == c then 0
    else
      var i := Find(s[1..], c);
      if i < 0 then -1 else i + 1
  }

  /** The parts of a text between the separators. */
  function Split(s: string, c: char): (parts: seq<string>)
    ensures parts != []
  {
    var i := Find(s, c);
    if i < 0 then [s] else [s[..i]] + Split(s[i + 1..], c)
  }

  /** A prefix without the separator is cut off at the separator, whatever follows it. */
  lemma FindAfter(a: string, c: char, b: string)
    requires c !in a
    ensures Find(a + [c] + b, c) == |a|
  {
    var s := a + [c] + b;
    assert s[|a|] == c;
    forall k | 0 <= k < |a|
      ensures s[k] != c
    {
      assert s[k] == a[k];
    }
  }

  lemma CutUnique(a: string, b: string, a': string, b': string, c: char)
    requires c !in a && c !in a'
    requires a + [c] + b == a' + [c] + b'
    ensures a == a' && b == b'
  {
    FindAfter(a, c, b);
    FindAfter(a', c, b');
    var s := a + [c] + b;
    assert a == s[..|a|] && a' == s[..|a'|];
    assert b == s[|a| + 1..] && b' == s[|a'| + 1..];
  }

  /** Digit strings contain no separator. */
  lemma NotADigit(s: string, base: nat, c: char)
    requires base == 10 || base == 16
    requires AllDigits(s, base) && !IsDigit(c, base)
    ensures c !in s
  {
  }
}

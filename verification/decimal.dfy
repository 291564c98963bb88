/**
 * Decimal text for lengths: what `format!("{}", n)` prints for an unsigned
 * integer, and the reading a client applies to a Content-Length value.
 */
module Decimal {
  import opened Base

  predicate IsDigit(c: char) {
    '0' <= c <= '9'
  }

  predicate AllDigits(s: string) {
    forall k :: 0 <= k < |s| ==> IsDigit(s[k])
  }

  function DigitChar(d: nat): (c: char)
    requires d < 10
    ensures IsDigit(c) && c as int - '0' as int == d
  {
    ('0' as int + d) as char
  }

  /** A numeral without a leading zero, except "0" itself. */
  predicate Canonical(s: string) {
    s != [] && (s[0] == '0' ==> s == "0")
  }

  /** The shortest decimal numeral of n: no sign, no leading zero. */
  function Show(n: nat): (s: string)
    ensures |s| > 0 && AllDigits(s) && Canonical(s)
    ensures s[0] == '0' ==> n == 0
    decreases n
  {
    if n < 10 then [DigitChar(n)] else Show(n / 10) + [DigitChar(n % 10)]
  }

  /** The number a string of digits denotes. */
  function Value(s: string): nat
    requires AllDigits(s)
  {
    if s == [] then 0 else 10 * Value(s[..|s| - 1]) + (s[|s| - 1] as int - '0' as int)
  }

  /** Reads a non-empty run of digits; anything else is not a number. */
  function Parse(s: string): (r: Option<nat>)
    ensures r.Some? <==> s != [] && AllDigits(s)
  {
    if s != [] && AllDigits(s) then Some(Value(s)) else None
  }

  /** Printing then reading a length gives the length back. */
  lemma {:induction false} ParseShow(n: nat)
    ensures Parse(Show(n)) == Some(n)
    decreases n
  {
    if n >= 10 {
      var s := Show(n);
      ParseShow(n / 10);
      assert s[..|s| - 1] == Show(n / 10);
      assert s[|s| - 1] == DigitChar(n % 10);
      assert Value(s) == 10 * (n / 10) + n % 10;
    } else {
      assert Show(n)[..0] == [];
    }
  }

  /** Distinct lengths print as distinct numerals. */
  lemma ShowInjective(m: nat, n: nat)
    requires Show(m) == Show(n)
    ensures m == n
  {
    ParseShow(m);
    ParseShow(n);
  }

  /** A numeral that starts with a non-zero digit denotes a positive number. */
  lemma {:induction false} ValuePositive(s: string)
    requires s != [] && AllDigits(s) && s[0] != '0'
    ensures Value(s) >= 1
    decreases |s|
  {
    if |s| > 1 {
      ValuePositive(s[..|s| - 1]);
    }
  }

  /** The only canonical numeral of a number is the one Show prints. */
  lemma {:induction false} CanonicalIsShow(s: string, n: nat)
    requires Canonical(s) && Parse(s) == Some(n)
    ensures s == Show(n)
    decreases |s|
  {
    var init := s[..|s| - 1];
    var d := s[|s| - 1] as int - '0' as int;
    assert Value(s) == 10 * Value(init) + d;
    if |s| > 1 {
      ValuePositive(init);
      assert Parse(init) == Some(Value(init));
      CanonicalIsShow(init, Value(init));
      assert s == init + [DigitChar(d)];
    } else {
      assert s == [DigitChar(d)];
    }
  }
}

/** Decimal numerals as ASCII bytes. */
module Decimal {
  import opened Basics

  predicate IsDigit(c: byte) {
    48 <= c <= 57
  }

  /** Python's `bytes.isdigit`: at least one byte, and only ASCII digits. */
  predicate IsNumeral(s: seq<byte>) {
    s != [] && forall c :: c in s ==> IsDigit(c)
  }

  /** Python's `int` on a numeral; leading zeros are allowed. */
  function ParseNat(s: seq<byte>): nat
    requires forall c :: c in s ==> IsDigit(c)
  {
    if s == [] then 0
    else
      var digit: int := s[|s| - 1];
      assert IsDigit(digit) by { assert digit in s; }
      10 * ParseNat(s[..|s| - 1]) + (digit - 48)
  }

  /** Python's `str` on a natural number. */
  function PrintNat(n: nat): (s: seq<byte>)
    ensures IsNumeral(s)
  {
    if n < 10 then [48 + n] else PrintNat(n / 10) + [48 + n % 10]
  }

  lemma {:induction false} ParsePrint(n: nat)
    ensures ParseNat(PrintNat(n)) == n
  {
    if n >= 10 {
      var front := PrintNat(n / 10);
      assert PrintNat(n)[..|front|] == front;
      ParsePrint(n / 10);
    }
  }

  /** Leading zeros change nothing, and any other numeral is the number's own print. */
  lemma {:induction false} PrintParse(s: seq<byte>)
    requires IsNumeral(s)
    ensures s[0] == 48 && |s| > 1 ==> IsNumeral(s[1..]) && ParseNat(s) == ParseNat(s[1..])
    ensures s[0] != 48 || |s| == 1 ==> PrintNat(ParseNat(s)) == s
    ensures s[0] != 48 ==> ParseNat(s) > 0
    decreases |s|
  {
    var front, last := s[..|s| - 1], s[|s| - 1];
    assert last in s;
    if |s| > 1 {
      assert front[0] == s[0];
      PrintParse(front);
      if s[0] == 48 {
        assert s[1..][..|s| - 2] == front[1..];
        assert |s| == 2 ==> ParseNat(front) == 0;
      }
    }
  }

  // ---- numbers that count their own digits ----

  /** Adding one adds at most one digit. */
  lemma {:induction false} DigitsGrowSlowly(n: nat)
    ensures |PrintNat(n)| <= |PrintNat(n + 1)| <= |PrintNat(n)| + 1
  {
    if n >= 10 {
      DigitsGrowSlowly(n / 10);
      assert (n + 1) / 10 == n / 10 || (n + 1) / 10 == n / 10 + 1;
    }
  }

  lemma {:induction false} FewDigits(n: nat)
    ensures |PrintNat(n)| <= n / 2 + 1
  {
    if n >= 10 {
      FewDigits(n / 10);
    }
  }

  /** From `d` digits that are too few, some count of digits is exact. */
  lemma {:induction false} ExactCount(rest: nat, d: nat) returns (n: nat)
    requires d <= |PrintNat(rest + d)|
    ensures n == |PrintNat(n)| + rest
    decreases rest + 2 - d
  {
    if d == |PrintNat(rest + d)| {
      n := rest + d;
    } else {
      FewDigits(rest + d);
      DigitsGrowSlowly(rest + d);
      n := ExactCount(rest, d + 1);
    }
  }

  /** However long the rest of a record is, some number is the record's length with its own digits included. */
  lemma SelfCounting(rest: nat) returns (n: nat)
    ensures n == |PrintNat(n)| + rest
  {
    n := ExactCount(rest, 0);
  }
}

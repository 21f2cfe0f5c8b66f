/** Python text as code points: surrogates are ordinary elements, unlike in Dafny's `char`. */
module PythonText {
  import opened Basics
  import opened Decimal

  type Codepoint = c: int | 0 <= c < 0x11_0000
  type Text = seq<Codepoint>

  function FromAscii(s: string): (t: Text)
    ensures |t| == |s| && forall i :: 0 <= i < |s| ==> t[i] == s[i] as int
  {
    seq(|s|, i requires 0 <= i < |s| => s[i] as int)
  }

  predicate IsSurrogate(c: Codepoint) {
    0xD800 <= c <= 0xDFFF
  }

  predicate HasSurrogate(t: Text) {
    exists i :: 0 <= i < |t| && IsSurrogate(t[i])
  }

  const MINUS: Codepoint := 45

  /** Python's `str` on an integer. */
  function PrintInt(n: int): (t: Text) {
    if n < 0 then [MINUS] + AsText(PrintNat(-n)) else AsText(PrintNat(n))
  }

  function AsText(s: seq<byte>): (t: Text)
    ensures |t| == |s| && forall i :: 0 <= i < |s| ==> t[i] == s[i]
  {
    seq(|s|, i requires 0 <= i < |s| => s[i])
  }

  /** The integer a decimal text denotes; other texts read as 0. */
  function ParseInt(t: Text): int {
    if t != [] && t[0] == MINUS then 0 - ParseDigits(t[1..]) as int else ParseDigits(t)
  }

  function ParseDigits(t: Text): nat {
    if t == [] then 0
    else 10 * ParseDigits(t[..|t| - 1]) + if 48 <= t[|t| - 1] <= 57 then t[|t| - 1] - 48 else 0
  }

  lemma {:induction false} ParseDigitsPrint(n: nat)
    ensures ParseDigits(AsText(PrintNat(n))) == n
  {
    if n >= 10 {
      var t := AsText(PrintNat(n));
      assert t[..|t| - 1] == AsText(PrintNat(n / 10));
      ParseDigitsPrint(n / 10);
    }
  }

  lemma ParsePrintInt(n: int)
    ensures ParseInt(PrintInt(n)) == n
    ensures !HasSurrogate(PrintInt(n))
    ensures PrintInt(n) != [] && (PrintInt(n)[0] == 45 <==> n < 0)
  {
    if n < 0 {
      ParseDigitsPrint(-n);
      assert PrintInt(n)[1..] == AsText(PrintNat(-n));
    } else {
      ParseDigitsPrint(n);
      assert PrintNat(n)[0] in PrintNat(n);
    }
    forall i | 0 <= i < |PrintInt(n)| ensures !IsSurrogate(PrintInt(n)[i]) {
    }
  }
}

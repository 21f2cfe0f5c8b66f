/**
  The base64 body of a UTF-7 shift sequence (RFC 2152 Rule 2; RFC 4648 section 4) and the
  fixed corpora built from it (RFC 2781 section 2.1 for surrogate pairs).
*/
module Utf7Shift {
  import opened Basics
  import opened PackedWord

  type Unit = u: int | 0 <= u < 0x1_0000
  type Sextet = s: int | 0 <= s < 64

  /** The base64 alphabet. */
  function Letter(s: Sextet): (c: byte)
  {
    if s < 26 then 65 + s
    else if s < 52 then 97 + s - 26
    else if s < 62 then 48 + s - 52
    else if s == 62 then 43
    else 47
  }

  function LetterIndex(c: byte): Option<Sextet> {
    if 65 <= c <= 90 then Some(c - 65)
    else if 97 <= c <= 122 then Some(c - 97 + 26)
    else if 48 <= c <= 57 then Some(c - 48 + 52)
    else if c == 43 then Some(62)
    else if c == 47 then Some(63)
    else None
  }

  lemma LetterRoundTrip(s: Sextet)
    ensures LetterIndex(Letter(s)) == Some(s)
    ensures forall c :: LetterIndex(c) == Some(s) ==> c == Letter(s)
  {
  }

  /** Each unit as two bytes, high byte first. */
  function UnitBytes(units: seq<Unit>): (r: seq<byte>)
    ensures |r| == 2 * |units|
  {
    if units == [] then [] else [units[0] / 256, units[0] % 256] + UnitBytes(units[1..])
  }

  /** Base64 without its padding: three bytes to four sextets, and a rest of one or two bytes to two or three. */
  function Sextets(data: seq<byte>): seq<Sextet> {
    if data == [] then []
    else if |data| == 1 then OneByte(data[0])
    else if |data| == 2 then TwoBytes(data[0], data[1])
    else ThreeBytes(data[0], data[1], data[2]) + Sextets(data[3..])
  }

  function OneByte(a: int): (r: seq<Sextet>)
    requires 0 <= a < 256
  {
    [a * 16 / 64, a * 16 % 64]
  }

  function TwoBytes(a: int, b: int): (r: seq<Sextet>)
    requires 0 <= a < 256 && 0 <= b < 256
  {
    var n := (a * 256 + b) * 4;
    [n / 4096, n / 64 % 64, n % 64]
  }

  function ThreeBytes(a: int, b: int, c: int): (r: seq<Sextet>)
    requires 0 <= a < 256 && 0 <= b < 256 && 0 <= c < 256
    ensures |r| == 4
  {
    var n := a * 65536 + b * 256 + c;
    [n / 262144, n / 4096 % 64, n / 64 % 64, n % 64]
  }

  function Letters(sextets: seq<Sextet>): (r: seq<byte>)
    ensures |r| == |sextets| && forall i :: 0 <= i < |r| ==> r[i] == Letter(sextets[i])
  {
    seq(|sextets|, i requires 0 <= i < |sextets| => Letter(sextets[i]))
  }

  const PLUS: byte := 43
  const MINUS: byte := 45

  function Shift(units: seq<Unit>): seq<byte> {
    [PLUS] + Letters(Sextets(UnitBytes(units))) + [MINUS]
  }

  // ---- bits ----

  /** The `width` low bits of `n`, high bit first. */
  function Bits(n: nat, width: nat): (bits: seq<bool>)
    ensures |bits| == width
  {
    if width == 0 then [] else Bits(n / 2, width - 1) + [n % 2 == 1]
  }

  function Value(bits: seq<bool>): nat {
    if bits == [] then 0 else 2 * Value(bits[..|bits| - 1]) + if bits[|bits| - 1] then 1 else 0
  }

  lemma {:induction false} ValueBits(n: nat, width: nat)
    requires n < Pow2(width)
    ensures Value(Bits(n, width)) == n
  {
    if width > 0 {
      ValueBits(n / 2, width - 1);
      assert Bits(n, width)[..width - 1] == Bits(n / 2, width - 1);
    }
  }

  /** The bits of a number made of a high and a low part are theirs, one after the other. */
  lemma {:induction false} BitsSplit(high: nat, low: nat, width: nat, k: nat)
    requires low < Pow2(k)
    ensures Bits(high * Pow2(k) + low, width + k) == Bits(high, width) + Bits(low, k)
  {
    if k == 0 {
      assert Bits(low, 0) == [] && high * Pow2(0) + low == high;
    } else {
      var n := high * Pow2(k) + low;
      assert high * Pow2(k) == 2 * (high * Pow2(k - 1));
      assert n / 2 == high * Pow2(k - 1) + low / 2 && n % 2 == low % 2;
      BitsSplit(high, low / 2, width, k - 1);
      assert Bits(n, width + k) == Bits(high, width) + (Bits(low / 2, k - 1) + [low % 2 == 1]);
    }
  }

  /** The bits of numbers of `width` bits, one after the other. */
  function AllBits(ns: seq<nat>, width: nat): seq<bool> {
    if ns == [] then [] else AllBits(ns[..|ns| - 1], width) + Bits(ns[|ns| - 1], width)
  }

  lemma AllBitsSnoc(ns: seq<nat>, n: nat, width: nat)
    ensures AllBits(ns + [n], width) == AllBits(ns, width) + Bits(n, width)
  {
    assert (ns + [n])[..|ns|] == ns;
  }

  lemma SplitLast(ms: seq<nat>, ns: seq<nat>, front: seq<nat>, last: nat)
    requires ns == front + [last]
    ensures ms + ns == (ms + front) + [last]
  {
  }

  lemma {:induction false} AllBitsConcat(ms: seq<nat>, ns: seq<nat>, width: nat)
    ensures AllBits(ms + ns, width) == AllBits(ms, width) + AllBits(ns, width)
  {
    if ns == [] {
      assert ms + ns == ms;
    } else {
      var front, last := ns[..|ns| - 1], ns[|ns| - 1];
      AllBitsConcat(ms, front, width);
      SplitLast(ms, ns, front, last);
      AllBitsSnoc(ms + front, last, width);
      Associates(AllBits(ms, width), AllBits(front, width), Bits(last, width));
    }
  }

  lemma Bits1(a: nat, width: nat)
    ensures AllBits([a], width) == Bits(a, width)
  {
    AllBitsSnoc([], a, width);
    assert [] + [a] == [a];
  }

  lemma Bits2(a: nat, b: nat, width: nat, p: nat, n: nat)
    requires p == Pow2(width) && b < p && n == a * p + b
    ensures AllBits([a, b], width) == Bits(n, width + width)
  {
    Bits1(a, width);
    AllBitsSnoc([a], b, width);
    assert [a] + [b] == [a, b];
    BitsSplit(a, b, width, width);
  }

  lemma Bits3(a: nat, b: nat, c: nat, width: nat, p: nat, m: nat, n: nat)
    requires p == Pow2(width) && b < p && c < p && m == a * p + b && n == m * p + c
    ensures AllBits([a, b, c], width) == Bits(n, width + width + width)
  {
    Bits2(a, b, width, p, m);
    AllBitsSnoc([a, b], c, width);
    assert [a, b] + [c] == [a, b, c];
    BitsSplit(m, c, width + width, width);
  }

  lemma Bits4(a: nat, b: nat, c: nat, d: nat, width: nat, p: nat, l: nat, m: nat, n: nat)
    requires p == Pow2(width) && b < p && c < p && d < p && l == a * p + b && m == l * p + c && n == m * p + d
    ensures AllBits([a, b, c, d], width) == Bits(n, width + width + width + width)
  {
    Bits3(a, b, c, width, p, l, m);
    AllBitsSnoc([a, b, c], d, width);
    assert [a, b, c] + [d] == [a, b, c, d];
    BitsSplit(m, d, width + width + width, width);
  }

  lemma SmallPowers()
    ensures Pow2(2) == 4 && Pow2(4) == 16 && Pow2(6) == 64 && Pow2(8) == 256
  {
    assert Pow2(2) == 4;
    assert Pow2(4) == 16;
    assert Pow2(6) == 64;
  }

  lemma UnitBits(u: nat)
    requires u < 0x1_0000
    ensures AllBits([u / 256, u % 256], 8) == AllBits([u], 16)
  {
    SmallPowers();
    Bits2(u / 256, u % 256, 8, 256, u);
    Bits1(u, 16);
  }

  lemma {:induction false} UnitBytesBits(units: seq<Unit>)
    ensures AllBits(UnitBytes(units), 8) == AllBits(units, 16)
  {
    if units != [] {
      var u: nat := units[0];
      UnitBits(u);
      UnitBytesBits(units[1..]);
      AllBitsConcat([u / 256, u % 256], UnitBytes(units[1..]), 8);
      AllBitsConcat([u], units[1..], 16);
      assert units == [u] + units[1..];
    }
  }

  /** The base-64 digits of a number, from the top. */
  lemma Digits(n: nat)
    ensures n / 64 == n / 4096 * 64 + n / 64 % 64
    ensures n / 4096 == n / 262144 * 64 + n / 4096 % 64
    ensures n == n / 64 * 64 + n % 64
  {
  }

  lemma BytesAsNumber(a: nat, b: nat, c: nat, n: nat)
    requires a < 256 && b < 256 && c < 256 && n == a * 65536 + b * 256 + c
    ensures AllBits([a, b, c], 8) == Bits(n, 24)
  {
    SmallPowers();
    Bits3(a, b, c, 8, 256, a * 256 + b, n);
  }

  lemma FourSextets(n: nat, sextets: seq<nat>)
    requires sextets == [n / 262144, n / 4096 % 64, n / 64 % 64, n % 64]
    ensures AllBits(sextets, 6) == Bits(n, 24)
  {
    SmallPowers();
    Digits(n);
    Bits4(n / 262144, n / 4096 % 64, n / 64 % 64, n % 64, 6, 64, n / 4096, n / 64, n);
  }

  lemma ThreeBytesBits(a: nat, b: nat, c: nat)
    requires a < 256 && b < 256 && c < 256
    ensures AllBits(ThreeBytes(a, b, c), 6) == AllBits([a, b, c], 8)
  {
    var n := a * 65536 + b * 256 + c;
    BytesAsNumber(a, b, c, n);
    FourSextets(n, ThreeBytes(a, b, c));
  }

  lemma ThreeSextets(n: nat, sextets: seq<nat>)
    requires sextets == [n / 4096, n / 64 % 64, n % 64]
    ensures AllBits(sextets, 6) == Bits(n, 18)
  {
    SmallPowers();
    Digits(n);
    Bits3(n / 4096, n / 64 % 64, n % 64, 6, 64, n / 64, n);
  }

  /** Multiplying by a power of two appends zero bits. */
  lemma Shifted(m: nat, width: nat, k: nat, n: nat)
    requires n == m * Pow2(k)
    ensures Bits(n, width + k) == Bits(m, width) + Bits(0, k)
  {
    BitsSplit(m, 0, width, k);
  }

  lemma TwoBytesBits(a: nat, b: nat)
    requires a < 256 && b < 256
    ensures AllBits(TwoBytes(a, b), 6) == AllBits([a, b], 8) + Bits(0, 2)
  {
    SmallPowers();
    var m := a * 256 + b;
    Bits2(a, b, 8, 256, m);
    Shifted(m, 16, 2, m * 4);
    ThreeSextets(m * 4, TwoBytes(a, b));
  }

  lemma TwoSextets(n: nat, sextets: seq<nat>)
    requires sextets == [n / 64, n % 64]
    ensures AllBits(sextets, 6) == Bits(n, 12)
  {
    SmallPowers();
    Bits2(n / 64, n % 64, 6, 64, n);
  }

  lemma OneByteBits(a: nat)
    requires a < 256
    ensures AllBits(OneByte(a), 6) == AllBits([a], 8) + Bits(0, 4)
  {
    SmallPowers();
    Bits1(a, 8);
    Shifted(a, 8, 4, a * 16);
    TwoSextets(a * 16, OneByte(a));
  }

  predicate AllZero(bits: seq<bool>) {
    forall i :: 0 <= i < |bits| ==> !bits[i]
  }

  lemma {:induction false} ZeroBits(width: nat)
    ensures AllZero(Bits(0, width))
  {
    if width > 0 {
      ZeroBits(width - 1);
    }
  }

  lemma LastByte(data: seq<byte>)
    requires |data| == 1
    ensures AllBits(Sextets(data), 6) == AllBits(data, 8) + Bits(0, 4)
  {
    OneByteBits(data[0]);
    assert data == [data[0]];
  }

  lemma LastTwoBytes(data: seq<byte>)
    requires |data| == 2
    ensures AllBits(Sextets(data), 6) == AllBits(data, 8) + Bits(0, 2)
  {
    TwoBytesBits(data[0], data[1]);
    assert data == [data[0], data[1]];
  }

  /** The sextets carry the bits of the data, then fewer than six zero bits. */
  lemma {:induction false} SextetsCarryBits(data: seq<byte>) returns (padding: seq<bool>)
    ensures AllBits(Sextets(data), 6) == AllBits(data, 8) + padding
    ensures |padding| < 6 && AllZero(padding)
  {
    if data == [] {
      padding := [];
    } else if |data| == 1 {
      LastByte(data);
      ZeroBits(4);
      padding := Bits(0, 4);
    } else if |data| == 2 {
      LastTwoBytes(data);
      ZeroBits(2);
      padding := Bits(0, 2);
    } else {
      padding := SextetsCarryBits(data[3..]);
      ThreeMoreBytes(data[0], data[1], data[2], data[3..], padding);
      assert data == [data[0], data[1], data[2]] + data[3..];
    }
  }

  lemma ThreeMoreBytes(a: byte, b: byte, c: byte, rest: seq<byte>, padding: seq<bool>)
    requires AllBits(Sextets(rest), 6) == AllBits(rest, 8) + padding
    ensures AllBits(ThreeBytes(a, b, c) + Sextets(rest), 6) == AllBits([a, b, c] + rest, 8) + padding
  {
    ThreeBytesBits(a, b, c);
    AllBitsConcat(ThreeBytes(a, b, c), Sextets(rest), 6);
    AllBitsConcat([a, b, c], rest, 8);
    Associates(AllBits([a, b, c], 8), AllBits(rest, 8), padding);
  }

  // ---- reading a body back ----

  /** Sixteen bits at a time make units; what is left over is returned. */
  function ReadUnits(bits: seq<bool>): (seq<nat>, seq<bool>)
    decreases |bits|
  {
    if |bits| < 16 then ([], bits)
    else
      var (units, left) := ReadUnits(bits[16..]);
      ([Value(bits[..16])] + units, left)
  }

  function ReadLetters(letters: seq<byte>): Option<seq<Sextet>> {
    if letters == [] then Some([])
    else match (LetterIndex(letters[0]), ReadLetters(letters[1..]))
      case (Some(s), Some(rest)) => Some([s] + rest)
      case _ => None
  }

  /** The units and left-over bits of a base64 body, or None when a character is no letter of the alphabet. */
  function ReadBody(letters: seq<byte>): Option<(seq<nat>, seq<bool>)> {
    match ReadLetters(letters) case None => None case Some(sextets) => Some(ReadUnits(AllBits(sextets, 6)))
  }

  lemma {:induction false} ReadLettersBack(sextets: seq<Sextet>)
    ensures ReadLetters(Letters(sextets)) == Some(sextets)
  {
    if sextets != [] {
      ReadLettersBack(sextets[1..]);
      LetterRoundTrip(sextets[0]);
      assert Letters(sextets)[1..] == Letters(sextets[1..]);
      assert sextets == [sextets[0]] + sextets[1..];
    }
  }

  lemma AllBitsCons(units: seq<Unit>, padding: seq<bool>)
    requires units != []
    ensures AllBits(units, 16) + padding == Bits(units[0], 16) + (AllBits(units[1..], 16) + padding)
  {
    AllBitsConcat([units[0]], units[1..], 16);
    Bits1(units[0], 16);
    assert units == [units[0]] + units[1..];
    Associates(Bits(units[0], 16), AllBits(units[1..], 16), padding);
  }

  lemma {:induction false} ReadUnitsBack(units: seq<Unit>, padding: seq<bool>)
    requires |padding| < 16
    ensures ReadUnits(AllBits(units, 16) + padding) == (units, padding)
  {
    if units == [] {
      assert AllBits(units, 16) + padding == padding;
    } else {
      ReadUnitsBack(units[1..], padding);
      AllBitsCons(units, padding);
      ReadOne(units[0], AllBits(units[1..], 16) + padding);
      assert units == [units[0]] + units[1..];
    }
  }

  lemma ReadOne(u: Unit, rest: seq<bool>)
    ensures ReadUnits(Bits(u, 16) + rest) == ([u as nat] + ReadUnits(rest).0, ReadUnits(rest).1)
  {
    Powers();
    ValueBits(u, 16);
    var bits := Bits(u, 16) + rest;
    assert bits[..16] == Bits(u, 16) && bits[16..] == rest;
  }

  /** The body of a shift sequence reads back as its units, with fewer than six bits left over, all zero. */
  lemma ShiftRoundTrip(units: seq<Unit>) returns (left: seq<bool>)
    ensures ReadBody(Shift(units)[1..|Shift(units)| - 1]) == Some((units, left))
    ensures |left| < 6 && AllZero(left)
  {
    var sextets := Sextets(UnitBytes(units));
    assert Shift(units)[1..|Shift(units)| - 1] == Letters(sextets);
    ReadLettersBack(sextets);
    left := SextetsCarryBits(UnitBytes(units));
    UnitBytesBits(units);
    ReadUnitsBack(units, left);
  }

  const UPPER := "ABCDEFGHIJKLMNOPQRSTUVWXYZ"
  const LOWER := "abcdefghijklmnopqrstuvwxyz"
  const ALPHABET := UPPER + LOWER + "0123456789" + "+/"

  lemma LetterIs(s: Sextet)
    ensures |ALPHABET| == 64 && Letter(s) == ALPHABET[s] as int
  {
    if s < 26 {
      assert ALPHABET[s] == UPPER[s];
    } else if s < 52 {
      assert ALPHABET[s] == LOWER[s - 26];
    } else if s < 62 {
      assert ALPHABET[s] == "0123456789"[s - 52];
    } else {
      assert ALPHABET[s] == "+/"[s - 62];
    }
  }

  ghost predicate IsLetter(c: byte) {
    exists s: Sextet :: c == Letter(s)
  }

  /** A shift sequence is a plus, letters of the alphabet, and the first minus. */
  lemma ShiftShape(units: seq<Unit>)
    ensures var shifted := Shift(units);
            && |shifted| >= 2 && shifted[0] == '+' as int && shifted[|shifted| - 1] == '-' as int
            && forall i :: 0 < i < |shifted| - 1 ==> IsLetter(shifted[i]) && shifted[i] != '-' as int
  {
    var sextets, shifted := Sextets(UnitBytes(units)), Shift(units);
    forall i | 0 < i < |shifted| - 1
      ensures IsLetter(shifted[i]) && shifted[i] != '-' as int
    {
      assert shifted[i] == Letter(sextets[i - 1]);
    }
  }

  // ---- the corpora ----

  /** The body of one unit with its last letter moved `padding` places along the alphabet. */
  function PaddedBody(unit: Unit, padding: nat): (r: seq<Sextet>)
    requires padding < 4
    ensures r == [unit / 1024, unit / 16 % 64, unit % 16 * 4 + padding]
  {
    var body := Sextets(UnitBytes([unit]));
    OneUnitBody(unit);
    OrPadding(unit % 16, padding);
    [body[0], body[1], BitOr(body[2], padding)]
  }

  /** The eight payloads of one unit: four last letters, each without and with the closing minus. */
  method UnitInputs(unit: Unit) returns (payloads: seq<seq<byte>>)
    ensures |payloads| == 8
    ensures forall padding :: 0 <= padding < 4 ==>
              && payloads[2 * padding] == [43] + Letters(PaddedBody(unit, padding))
              && payloads[2 * padding + 1] == [43] + Letters(PaddedBody(unit, padding)) + [45]
  {
    var shifted := Shift([unit]);
    var body := shifted[1..|shifted| - 1];
    OneUnitBody(unit);
    assert body == Letters(Sextets(UnitBytes([unit])));
    var data := new byte[3](i requires 0 <= i < 3 => body[i]);
    LetterRoundTrip(unit % 16 * 4);
    var last := LetterIndex(data[2]).value;
    payloads := [];
    for padding := 0 to 4
      invariant |payloads| == 2 * padding && data[0] == body[0] && data[1] == body[1]
      invariant forall p :: 0 <= p < padding ==>
                  && payloads[2 * p] == [PLUS] + Letters(PaddedBody(unit, p))
                  && payloads[2 * p + 1] == [PLUS] + Letters(PaddedBody(unit, p)) + [MINUS]
    {
      OrPadding(unit % 16, padding);
      data[2] := Letter(BitOr(last, padding));
      assert data[..] == Letters(PaddedBody(unit, padding));
      payloads := payloads + [[PLUS] + data[..], [PLUS] + data[..] + [MINUS]];
    }
  }

  lemma OrPadding(high: nat, padding: nat)
    requires padding < 4
    ensures BitOr(high * 4, padding) == high * 4 + padding
  {
    SmallPowers();
    OrDisjoint(padding, high, 2);
    OrCommutes(high * 4, padding);
  }

  lemma OneUnitBody(unit: Unit)
    ensures Sextets(UnitBytes([unit])) == [unit / 1024, unit / 16 % 64, unit % 16 * 4]
  {
    var high, low := unit / 256, unit % 256;
    assert [unit][1..] == [];
    assert UnitBytes([unit]) == [high, low];
    QuarterDigits(unit, (high * 256 + low) * 4);
    assert TwoBytes(high, low) == [unit / 1024, unit / 16 % 64, unit % 16 * 4];
  }

  lemma QuarterDigits(unit: nat, n: nat)
    requires n == (unit / 256 * 256 + unit % 256) * 4
    ensures n / 4096 == unit / 1024 && n / 64 % 64 == unit / 16 % 64 && n % 64 == unit % 16 * 4
  {
    assert n == unit * 4;
    assert n / 64 == unit / 16;
  }

  /** Every three-sextet body arises from exactly one unit and padding. */
  lemma BodiesAreHitOnce(a: Sextet, b: Sextet, c: Sextet)
    ensures exists unit: Unit, padding: nat :: padding < 4 && PaddedBody(unit, padding) == [a, b, c]
    ensures forall u: Unit, v: Unit, p: nat, q: nat ::
              (p < 4 && q < 4 && PaddedBody(u, p) == [a, b, c] && PaddedBody(v, q) == [a, b, c]) ==> u == v && p == q
  {
    var unit := UnitOf(a, b, c / 4);
    UnitOfDigits(a, b, c / 4);
    assert PaddedBody(unit, c % 4) == [a, b, c];
    forall u: Unit, v: Unit, p: nat, q: nat
      | p < 4 && q < 4 && PaddedBody(u, p) == [a, b, c] && PaddedBody(v, q) == [a, b, c]
      ensures u == v && p == q
    {
      BodyDetermines(u, p, a, b, c);
      BodyDetermines(v, q, a, b, c);
    }
  }

  function UnitOf(a: int, b: int, d: int): Unit
    requires 0 <= a < 64 && 0 <= b < 64 && 0 <= d < 16
  {
    a * 1024 + b * 16 + d
  }

  lemma UnitOfDigits(a: int, b: int, d: int)
    requires 0 <= a < 64 && 0 <= b < 64 && 0 <= d < 16
    ensures UnitOf(a, b, d) / 1024 == a && UnitOf(a, b, d) / 16 % 64 == b && UnitOf(a, b, d) % 16 == d
  {
    assert UnitOf(a, b, d) / 16 == a * 64 + b;
  }

  lemma BodyDetermines(u: Unit, p: nat, a: int, b: int, c: int)
    requires p < 4 && PaddedBody(u, p) == [a, b, c]
    ensures 0 <= a < 64 && 0 <= b < 64 && 0 <= c < 64 && u == UnitOf(a, b, c / 4) && p == c % 4
  {
    var body := PaddedBody(u, p);
    assert body[0] == a && body[1] == b && body[2] == c;
    DigitsOfUnit(u, p);
  }

  lemma DigitsOfUnit(u: nat, p: nat)
    requires u < 0x1_0000 && p < 4
    ensures u == u / 1024 * 1024 + u / 16 % 64 * 16 + u % 16
    ensures (u % 16 * 4 + p) / 4 == u % 16 && (u % 16 * 4 + p) % 4 == p
  {
    assert u / 16 == u / 1024 * 64 + u / 16 % 64;
  }

  /** The surrogate pair of a supplementary code point. */
  function Surrogates(point: nat): (r: (Unit, Unit))
    requires 0x1_0000 <= point < 0x11_0000
    ensures 0xD800 <= r.0 < 0xDC00 <= r.1 < 0xE000
  {
    var value := point - 0x1_0000;
    (0xD800 + value / 1024, 0xDC00 + value % 1024)
  }

  /** Every pair of a high and a low surrogate comes from exactly one supplementary code point. */
  lemma PairsAreHitOnce(high: Unit, low: Unit)
    requires 0xD800 <= high < 0xDC00 <= low < 0xE000
    ensures var point := 0x1_0000 + (high - 0xD800) * 1024 + (low - 0xDC00);
            0x1_0000 <= point < 0x11_0000 && Surrogates(point) == (high, low)
    ensures forall point: nat :: 0x1_0000 <= point < 0x11_0000 && Surrogates(point) == (high, low) ==>
              point == 0x1_0000 + (high - 0xD800) * 1024 + (low - 0xDC00)
  {
  }
}

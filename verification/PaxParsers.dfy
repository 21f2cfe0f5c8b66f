/**
  How a tar reader takes the records out of the block of a PAX header.  It is given the whole padded block, not only the
  bytes that the header declares.  Two parsers of Python's library are modelled: a lenient one, which matches records by
  a pattern and stops at whatever does not match, and the strict one that replaced it.
*/
module PaxParsers {
  import opened Basics
  import opened Decimal
  import Pax

  datatype Pair = Pair(key: seq<byte>, value: seq<byte>)

  /** Invalid is the library's own header error; Crash is any other error. */
  datatype Parsed = Records(pairs: seq<Pair>) | Invalid | Crash

  type RecordParser = seq<byte> -> Parsed

  function PairsOf(rs: seq<Pax.Record>): (pairs: seq<Pair>)
    ensures |pairs| == |rs| && forall i :: 0 <= i < |rs| ==> pairs[i] == Pair(rs[i].key, rs[i].value)
  {
    seq(|rs|, i requires 0 <= i < |rs| => Pair(rs[i].key, rs[i].value))
  }

  ghost predicate AllWellFormed(rs: seq<Pax.Record>) {
    forall i :: 0 <= i < |rs| ==> Pax.WellFormed(rs[i])
  }

  /** The block holds these records and then nothing, or a NUL and anything. */
  ghost predicate Holds(block: seq<byte>, rs: seq<Pax.Record>) {
    && AllWellFormed(rs) && Pax.RenderAll(rs) <= block
    && (|block| == |Pax.RenderAll(rs)| || block[|Pax.RenderAll(rs)|] == 0)
  }

  /** Where well-formed records end at a NUL or with the block, the parser reads those records or none at all. */
  ghost predicate Lawful(parser: RecordParser) {
    forall block, rs :: Holds(block, rs) && parser(block).Records? ==> parser(block).pairs == PairsOf(rs)
  }

  // ---- taking a record off the front ----

  /** The number of digits at the front. */
  function DigitRun(s: seq<byte>): (n: nat)
    ensures n <= |s| && (forall i :: 0 <= i < n ==> IsDigit(s[i])) && (n < |s| ==> !IsDigit(s[n]))
  {
    if s == [] || !IsDigit(s[0]) then 0 else 1 + DigitRun(s[1..])
  }

  /** Python's slice from `i` to `j`, cut off at the end of the text. */
  function Slice(s: seq<byte>, i: nat, j: nat): seq<byte> {
    if i <= j && i <= |s| then s[i..Min(j, |s|)] else []
  }

  /** The number that the first `n` bytes spell, all digits. */
  function Number(s: seq<byte>, n: nat): nat
    requires n <= DigitRun(s)
  {
    assert forall c :: c in s[..n] ==> IsDigit(c);
    ParseNat(s[..n])
  }

  /** The record at the front and its length, the end of the records, or an error. */
  datatype First = Front(pair: Pair, length: nat) | Stop | Refuse

  function Cons(pair: Pair, rest: Parsed): Parsed {
    match rest case Records(pairs) => Records([pair] + pairs) case _ => rest
  }

  // ---- the lenient parser ----

  /** A pattern of digits, a space, a key and '='; neither the newline nor the room for the value is checked. */
  function LenientFirst(s: seq<byte>): (f: First)
    ensures f.Front? ==> s != [] && 0 < f.length
  {
    var n := DigitRun(s);
    if n == 0 || n == |s| || s[n] != Pax.SPACE then Stop
    else
      var equals := Pax.IndexOf(s, Pax.EQUALS, n + 1);
      if equals == n + 1 || equals == |s| then Stop
      else
        var length := Number(s, n);
        if length == 0 then Refuse else Front(Pair(s[n + 1..equals], Slice(s, equals + 1, length - 1)), length)
  }

  function LenientRecords(s: seq<byte>): Parsed
    decreases |s|
  {
    match LenientFirst(s)
    case Stop => Records([])
    case Refuse => Invalid
    case Front(pair, length) => Cons(pair, LenientRecords(s[Min(length, |s|)..]))
  }

  /** `charset` says whether the first `hdrcharset` value in the block, if there is one, can be decoded. */
  function Lenient(charset: seq<byte> -> bool, block: seq<byte>): Parsed {
    if charset(block) then LenientRecords(block) else Crash
  }

  // ---- the strict parser ----

  const MAX_LENGTH_DIGITS := 20

  /** Every byte up to a NUL must belong to a record whose length, '=' and newline are in place. */
  function StrictFirst(s: seq<byte>): (f: First)
    ensures f.Front? ==> 0 < f.length <= |s|
  {
    if s == [] || s[0] == 0 then Stop
    else
      var n := DigitRun(s);
      if n == 0 || n > MAX_LENGTH_DIGITS || n == |s| || s[n] != Pax.SPACE then Refuse
      else
        var length := Number(s, n);
        if length < 5 || length > |s| || length <= n + 1 || s[length - 1] != Pax.NEWLINE then Refuse
        else
          var body := s[n + 1..length - 1];
          var equals := Pax.IndexOf(body, Pax.EQUALS, 0);
          if equals == 0 || equals == |body| then Refuse
          else Front(Pair(body[..equals], body[equals + 1..]), length)
  }

  function Strict(s: seq<byte>): Parsed
    decreases |s|
  {
    match StrictFirst(s)
    case Stop => Records([])
    case Refuse => Invalid
    case Front(pair, length) => Cons(pair, Strict(s[length..]))
  }

  // ---- both are lawful ----

  /** The parts of a well-formed record at the front of a text. */
  lemma FrontRecord(s: seq<byte>, r: Pax.Record, rest: seq<byte>)
    requires Pax.WellFormed(r) && s == Pax.Render(r) + rest
    ensures var n := |r.length|;
            && DigitRun(s) == n && s[n] == Pax.SPACE && Number(s, n) == |Pax.Render(r)|
            && s[n + 1..|Pax.Render(r)|] == Pax.Body(r) && s[|Pax.Render(r)|..] == rest
            && s[|Pax.Render(r)| - 1] == Pax.NEWLINE
  {
    var n := |r.length|;
    assert s[..n] == r.length;
    assert forall i :: 0 <= i < n ==> s[i] == r.length[i] && r.length[i] in r.length;
    assert s[n] == Pax.SPACE;
    assert s[n + 1..|Pax.Render(r)|] == Pax.Body(r) && s[|Pax.Render(r)|..] == rest;
    assert s[|Pax.Render(r)| - 1] == Pax.Body(r)[|Pax.Body(r)| - 1];
  }

  lemma SliceInside(s: seq<byte>, i: nat, j: nat, k: nat, m: nat)
    requires i <= j <= |s| && k <= m <= j - i
    ensures s[i..j][k..m] == s[i + k..i + m]
  {
    forall x | 0 <= x < m - k ensures s[i..j][k..m][x] == s[i + k..i + m][x] {
      assert s[i..j][k + x] == s[i + k + x];
    }
  }

  /** Where a key, '=' and a value stand in a text, the first '=' cuts them. */
  lemma PairAt(s: seq<byte>, from: nat, to: nat, key: seq<byte>, value: seq<byte>)
    requires from <= to <= |s| && s[from..to] == key + [Pax.EQUALS] + value && Pax.EQUALS !in key
    ensures Pax.IndexOf(s, Pax.EQUALS, from) == from + |key| < to
    ensures s[from..from + |key|] == key && s[from + |key| + 1..to] == value
  {
    var t := s[from..to];
    assert t[..|key|] == key && t[|key|] == Pax.EQUALS && t[|key| + 1..] == value;
    SliceInside(s, from, to, 0, |key|);
    SliceInside(s, from, to, |key| + 1, to - from);
    assert s[from + |key|] == t[|key|];
    forall k | from <= k < from + |key| ensures s[k] != Pax.EQUALS {
      assert s[k] == t[k - from] == key[k - from];
    }
  }

  lemma BodyFront(s: seq<byte>, r: Pax.Record, rest: seq<byte>)
    requires Pax.WellFormed(r) && s == Pax.Render(r) + rest
    ensures s[|r.length| + 1..|Pax.Render(r)| - 1] == r.key + [Pax.EQUALS] + r.value
  {
    var from, body, end := |r.length| + 1, r.key + [Pax.EQUALS] + r.value, |Pax.Render(r)|;
    FrontRecord(s, r, rest);
    assert Pax.Body(r)[..|body|] == body;
    SliceInside(s, from, end, 0, |body|);
  }

  lemma LenientStep(s: seq<byte>, n: nat, length: nat, key: seq<byte>, value: seq<byte>)
    requires 0 < n < length <= |s| && DigitRun(s) == n && s[n] == Pax.SPACE && Number(s, n) == length && key != []
    requires n + |key| + |value| + 3 == length && Pax.IndexOf(s, Pax.EQUALS, n + 1) == n + 1 + |key|
    requires s[n + 1..n + 1 + |key|] == key && s[n + |key| + 2..length - 1] == value
    ensures LenientFirst(s) == Front(Pair(key, value), length)
  {
  }

  lemma LenientFront(s: seq<byte>, r: Pax.Record, rest: seq<byte>)
    requires Pax.WellFormed(r) && s == Pax.Render(r) + rest
    ensures LenientRecords(s) == Cons(Pair(r.key, r.value), LenientRecords(rest))
  {
    var n, length := |r.length|, |Pax.Render(r)|;
    FrontRecord(s, r, rest);
    BodyFront(s, r, rest);
    PairAt(s, n + 1, length - 1, r.key, r.value);
    LenientStep(s, n, length, r.key, r.value);
  }

  lemma StrictStep(s: seq<byte>, n: nat, length: nat, key: seq<byte>, value: seq<byte>)
    requires 0 < n && n + 3 < length <= |s| && 5 <= length && s[0] != 0
    requires DigitRun(s) == n && s[n] == Pax.SPACE && Number(s, n) == length && s[length - 1] == Pax.NEWLINE
    requires s[n + 1..length - 1] == key + [Pax.EQUALS] + value && key != [] && Pax.EQUALS !in key
    ensures StrictFirst(s) == if n > MAX_LENGTH_DIGITS then Refuse else Front(Pair(key, value), length)
  {
    var body := s[n + 1..length - 1];
    PairAt(body, 0, |body|, key, value);
  }

  lemma StrictFront(s: seq<byte>, r: Pax.Record, rest: seq<byte>)
    requires Pax.WellFormed(r) && s == Pax.Render(r) + rest
    ensures Strict(s) == if |r.length| > MAX_LENGTH_DIGITS then Invalid else Cons(Pair(r.key, r.value), Strict(rest))
  {
    FrontRecord(s, r, rest);
    BodyFront(s, r, rest);
    assert s[0] == r.length[0] && r.length[0] in r.length;
    StrictStep(s, |r.length|, |Pax.Render(r)|, r.key, r.value);
  }

  /** Behind the first record the block holds the others. */
  lemma HoldsRest(block: seq<byte>, rs: seq<Pax.Record>) returns (rest: seq<byte>)
    requires Holds(block, rs) && rs != []
    ensures Pax.WellFormed(rs[0]) && block == Pax.Render(rs[0]) + rest && Holds(rest, rs[1..])
  {
    var front := Pax.Render(rs[0]);
    var all, others := Pax.RenderAll(rs), Pax.RenderAll(rs[1..]);
    assert all == front + others;
    rest := block[|front|..];
    assert block[..|all|] == all;
    assert block == front + rest && rest[..|others|] == others;
  }

  lemma PairsCons(rs: seq<Pax.Record>)
    requires rs != []
    ensures PairsOf(rs) == [Pair(rs[0].key, rs[0].value)] + PairsOf(rs[1..])
  {
  }

  /** The lenient parser reads well-formed records as they are. */
  lemma {:induction false} LenientReads(block: seq<byte>, rs: seq<Pax.Record>)
    requires Holds(block, rs)
    ensures LenientRecords(block) == Records(PairsOf(rs))
    decreases |rs|
  {
    if rs != [] {
      var rest := HoldsRest(block, rs);
      LenientFront(block, rs[0], rest);
      LenientReads(rest, rs[1..]);
      PairsCons(rs);
    }
  }

  predicate ShortLengths(rs: seq<Pax.Record>) {
    forall i :: 0 <= i < |rs| ==> |rs[i].length| <= 20
  }

  /** So does the strict one, unless a length is written with more than twenty digits. */
  lemma {:induction false} StrictReads(block: seq<byte>, rs: seq<Pax.Record>)
    requires Holds(block, rs)
    ensures Strict(block) == if ShortLengths(rs) then Records(PairsOf(rs)) else Invalid
    decreases |rs|
  {
    if rs != [] {
      var rest := HoldsRest(block, rs);
      StrictFront(block, rs[0], rest);
      StrictReads(rest, rs[1..]);
      PairsCons(rs);
      assert ShortLengths(rs) <==> |rs[0].length| <= MAX_LENGTH_DIGITS && ShortLengths(rs[1..]);
    }
  }

  lemma LenientCrashes(charset: seq<byte> -> bool, block: seq<byte>)
    ensures Lenient(charset, block).Crash? <==> !charset(block)
  {
    NeverCrashes(block);
  }

  lemma {:induction false} NeverCrashes(s: seq<byte>)
    ensures !LenientRecords(s).Crash?
    decreases |s|
  {
    if LenientFirst(s).Front? {
      NeverCrashes(s[Min(LenientFirst(s).length, |s|)..]);
    }
  }

  /** Both parsers of the library are lawful, whatever is made of a `hdrcharset` value. */
  lemma ParsersAreLawful(charset: seq<byte> -> bool)
    ensures Lawful(block => Lenient(charset, block)) && Lawful(Strict)
  {
    forall block, rs | Holds(block, rs)
      ensures Lenient(charset, block).Records? ==> Lenient(charset, block).pairs == PairsOf(rs)
      ensures Strict(block).Records? ==> Strict(block).pairs == PairsOf(rs)
    {
      LenientReads(block, rs);
      StrictReads(block, rs);
    }
  }
}

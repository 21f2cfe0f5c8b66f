/** The byte records that feed the expectation digests: concatenated records determine the outcomes. */
module Records {
  import opened Basics

  type Word = n: int | 0 <= n < 0x1_0000_0000

  /** struct.pack("<I"): four bytes, low byte first. */
  function Little(n: Word): (r: seq<byte>)
    ensures |r| == 4
  {
    [n % 256, n / 256 % 256, n / 65536 % 256, n / 16777216]
  }

  function FromLittle(s: seq<byte>): Word
    requires |s| == 4
  {
    var a, b, c, d := s[0] as int, s[1] as int, s[2] as int, s[3] as int;
    a + b * 256 + c * 65536 + d * 16777216
  }

  lemma LittleRoundTrip(n: Word)
    ensures FromLittle(Little(n)) == n
  {
    assert n / 65536 == n / 16777216 * 256 + n / 65536 % 256;
    assert n / 256 == n / 65536 * 256 + n / 256 % 256;
  }

  function Words(ns: seq<Word>): (r: seq<byte>)
    ensures |r| == 4 * |ns|
  {
    if ns == [] then [] else Little(ns[0]) + Words(ns[1..])
  }

  function ReadWord(s: seq<byte>): Option<(Word, seq<byte>)> {
    if |s| < 4 then None else Some((FromLittle(s[..4]), s[4..]))
  }

  function ReadWords(s: seq<byte>, n: nat): Option<(seq<Word>, seq<byte>)> {
    if n == 0 then Some(([], s))
    else match ReadWord(s)
      case None => None
      case Some((w, rest)) =>
        match ReadWords(rest, n - 1) case None => None case Some((ws, rest')) => Some(([w] + ws, rest'))
  }

  lemma ReadWordBack(n: Word, rest: seq<byte>)
    ensures ReadWord(Little(n) + rest) == Some((n, rest))
  {
    LittleRoundTrip(n);
    var s := Little(n) + rest;
    assert s[..4] == Little(n) && s[4..] == rest;
  }

  lemma {:induction false} ReadWordsBack(ns: seq<Word>, rest: seq<byte>)
    ensures ReadWords(Words(ns) + rest, |ns|) == Some((ns, rest))
  {
    if ns == [] {
      assert Words(ns) + rest == rest;
    } else {
      assert Words(ns) + rest == Little(ns[0]) + (Words(ns[1..]) + rest);
      ReadWordBack(ns[0], Words(ns[1..]) + rest);
      ReadWordsBack(ns[1..], rest);
      assert ns == [ns[0]] + ns[1..];
    }
  }

  function Take(s: seq<byte>, n: nat): Option<(seq<byte>, seq<byte>)> {
    if |s| < n then None else Some((s[..n], s[n..]))
  }

  lemma TakeBack(a: seq<byte>, rest: seq<byte>)
    ensures Take(a + rest, |a|) == Some((a, rest))
  {
  }

  // ---- the UTF-7 oracle ----

  /** Decoded text as code points, surrogates included, or the span and reason of a decode error. */
  datatype Outcome = Text(points: seq<Word>) | Error(start: Word, end: Word, reason: seq<byte>)

  /** Lengths must fit a word, or struct.pack raises. */
  predicate Fits(o: Outcome) {
    match o case Text(points) => |points| < 0x1_0000_0000 case Error(_, _, reason) => |reason| < 0x1_0000_0000
  }

  function Record(o: Outcome): seq<byte>
    requires Fits(o)
  {
    match o
    case Text(points) => [1] + Little(|points|) + Words(points)
    case Error(start, end, reason) => [0] + Little(start) + Little(end) + Little(|reason|) + reason
  }

  function ReadRecord(s: seq<byte>): Option<(Outcome, seq<byte>)> {
    if s == [] then None
    else if s[0] == 1 then
      match ReadWord(s[1..])
      case None => None
      case Some((n, rest)) =>
        (match ReadWords(rest, n) case None => None case Some((points, rest')) => Some((Text(points), rest')))
    else if s[0] == 0 then
      match ReadWords(s[1..], 3)
      case None => None
      case Some((ns, rest)) =>
        if |ns| != 3 then None
        else (match Take(rest, ns[2])
              case None => None
              case Some((reason, rest')) => Some((Error(ns[0], ns[1], reason), rest')))
    else None
  }

  lemma ReadTextBack(points: seq<Word>, s: seq<byte>, rest: seq<byte>)
    requires |points| < 0x1_0000_0000 && s == [1] + (Little(|points|) + (Words(points) + rest))
    ensures ReadRecord(s) == Some((Text(points), rest))
  {
    assert s[1..] == Little(|points|) + (Words(points) + rest);
    ReadWordBack(|points|, Words(points) + rest);
    ReadWordsBack(points, rest);
  }

  lemma ReadErrorBack(ns: seq<Word>, reason: seq<byte>, s: seq<byte>, rest: seq<byte>)
    requires |ns| == 3 && |reason| == ns[2] && s == [0] + (Words(ns) + (reason + rest))
    ensures ReadRecord(s) == Some((Error(ns[0], ns[1], reason), rest))
  {
    assert s[1..] == Words(ns) + (reason + rest);
    ReadWordsBack(ns, reason + rest);
    TakeBack(reason, rest);
  }

  /** A record is read back whatever follows it. */
  lemma ReadRecordBack(o: Outcome, rest: seq<byte>)
    requires Fits(o)
    ensures ReadRecord(Record(o) + rest) == Some((o, rest))
  {
    match o
    case Text(points) =>
      assert Record(o) + rest == [1] + (Little(|points|) + (Words(points) + rest));
      ReadTextBack(points, Record(o) + rest, rest);
    case Error(start, end, reason) =>
      var ns := [start, end, |reason| as Word];
      ThreeWords(start, end, |reason|);
      assert Record(o) + rest == [0] + (Words(ns) + (reason + rest));
      ReadErrorBack(ns, reason, Record(o) + rest, rest);
  }

  lemma ThreeWords(a: Word, b: Word, c: Word)
    ensures Words([a, b, c]) == Little(a) + Little(b) + Little(c)
  {
    assert [a, b, c][1..] == [b, c] && [b, c][1..] == [c] && [c][1..] == [];
    assert Words([c]) == Little(c) + [];
    assert Words([b, c]) == Little(b) + Words([c]);
  }

  // ---- the table-driven oracles ----

  /** A strict text as its UTF-8 bytes, or None for a decode error. */
  function RecordOption(o: Option<seq<byte>>): seq<byte>
    requires o.Some? ==> |o.value| < 0x1_0000_0000
  {
    match o case None => [0] case Some(encoded) => [1] + Little(|encoded|) + encoded
  }

  function ReadOption(s: seq<byte>): Option<(Option<seq<byte>>, seq<byte>)> {
    if s == [] then None
    else if s[0] == 0 then Some((None, s[1..]))
    else if s[0] == 1 then
      match ReadWord(s[1..])
      case None => None
      case Some((n, rest)) =>
        (match Take(rest, n)
         case None => None
         case Some((encoded, rest')) => Some((Some(encoded), rest')))
    else None
  }

  lemma ReadOptionBack(o: Option<seq<byte>>, rest: seq<byte>)
    requires o.Some? ==> |o.value| < 0x1_0000_0000
    ensures ReadOption(RecordOption(o) + rest) == Some((o, rest))
  {
    var s := RecordOption(o) + rest;
    match o
    case None =>
    case Some(encoded) =>
      assert s[1..] == Little(|encoded|) + (encoded + rest);
      ReadWordBack(|encoded|, encoded + rest);
      TakeBack(encoded, rest);
  }

  // ---- streams ----

  function Stream(os: seq<Outcome>): seq<byte>
    requires forall i :: 0 <= i < |os| ==> Fits(os[i])
  {
    if os == [] then [] else Record(os[0]) + Stream(os[1..])
  }

  function OptionStream(os: seq<Option<seq<byte>>>): seq<byte>
    requires forall i :: 0 <= i < |os| ==> (os[i].Some? ==> |os[i].value| < 0x1_0000_0000)
  {
    if os == [] then [] else RecordOption(os[0]) + OptionStream(os[1..])
  }

  /** Different sequences of outcomes feed different bytes to the digest. */
  lemma {:induction false} StreamDetermines(os: seq<Outcome>, ps: seq<Outcome>)
    requires forall i :: 0 <= i < |os| ==> Fits(os[i])
    requires forall i :: 0 <= i < |ps| ==> Fits(ps[i])
    requires Stream(os) == Stream(ps)
    ensures os == ps
  {
    if os != [] && ps != [] {
      ReadRecordBack(os[0], Stream(os[1..]));
      ReadRecordBack(ps[0], Stream(ps[1..]));
      StreamDetermines(os[1..], ps[1..]);
      assert os == [os[0]] + os[1..] && ps == [ps[0]] + ps[1..];
    }
  }

  lemma {:induction false} OptionStreamDetermines(os: seq<Option<seq<byte>>>, ps: seq<Option<seq<byte>>>)
    requires forall i :: 0 <= i < |os| ==> (os[i].Some? ==> |os[i].value| < 0x1_0000_0000)
    requires forall i :: 0 <= i < |ps| ==> (ps[i].Some? ==> |ps[i].value| < 0x1_0000_0000)
    requires OptionStream(os) == OptionStream(ps)
    ensures os == ps
  {
    if os != [] && ps != [] {
      ReadOptionBack(os[0], OptionStream(os[1..]));
      ReadOptionBack(ps[0], OptionStream(ps[1..]));
      OptionStreamDetermines(os[1..], ps[1..]);
      assert os == [os[0]] + os[1..] && ps == [ps[0]] + ps[1..];
    }
  }
}

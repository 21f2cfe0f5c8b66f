/**
  PAX extended-header payloads: a run of self-counting records, "<length> <key>=<value>\n",
  where the length counts its own digits, then optionally only zero bytes (POSIX.1 pax,
  "pax Extended Header").
*/
module Pax {
  import opened Basics
  import opened Decimal

  const SPACE: byte := 32
  const EQUALS: byte := 61
  const NEWLINE: byte := 10
  const SIZE_KEY: seq<byte> := [115, 105, 122, 101]
  const SPARSE_PREFIX: seq<byte> := [71, 78, 85, 46, 115, 112, 97, 114, 115, 101, 46]

  /** A record: the numeral as written, the key and the value. */
  datatype Record = Record(length: seq<byte>, key: seq<byte>, value: seq<byte>)

  datatype Fault = Malformed | SparseKey | MalformedSize | SizeKey

  function Body(r: Record): (s: seq<byte>)
    ensures |s| == |r.key| + |r.value| + 2
  {
    r.key + [EQUALS] + r.value + [NEWLINE]
  }

  function Render(r: Record): (s: seq<byte>)
    ensures |s| == |r.length| + |r.key| + |r.value| + 3
  {
    r.length + [SPACE] + Body(r)
  }

  function RenderAll(rs: seq<Record>): seq<byte> {
    if rs == [] then [] else Render(rs[0]) + RenderAll(rs[1..])
  }

  predicate AllZero(s: seq<byte>) {
    forall i :: 0 <= i < |s| ==> s[i] == 0
  }

  /** The syntax of a record: a numeral that counts the record, and a nonempty key without '='. */
  ghost predicate WellFormed(r: Record) {
    && IsNumeral(r.length) && ParseNat(r.length) == |Render(r)|
    && r.key != [] && EQUALS !in r.key
  }

  /** The keys this scan refuses: sparse metadata and size overrides. */
  function Refusal(r: Record): Option<Fault> {
    if SPARSE_PREFIX <= r.key then Some(SparseKey)
    else if r.key == SIZE_KEY then Some(if IsNumeral(r.value) then SizeKey else MalformedSize)
    else None
  }

  // ---- reading ----

  /** Position of the first `c` at or after `i`, or the length of `s`. */
  function IndexOf(s: seq<byte>, c: byte, i: nat): (r: nat)
    requires i <= |s|
    ensures i <= r <= |s| && forall j :: i <= j < r ==> s[j] != c
    ensures r < |s| ==> s[r] == c
    decreases |s| - i
  {
    if i == |s| || s[i] == c then i else IndexOf(s, c, i + 1)
  }

  /** The record at the front of `p`, by its syntax alone. */
  function ReadRecord(p: seq<byte>): (r: Option<Record>) {
    var separator := IndexOf(p, SPACE, 0);
    if separator == 0 || separator == |p| || !IsNumeral(p[..separator]) then None
    else
      var length := ParseNat(p[..separator]);
      if length < 5 || length > |p| || length <= separator + 1 then None
      else ReadBody(p[..separator], p[separator + 1..length])
  }

  /** Key and value of a record body, which ends with a newline and is cut at its first '='. */
  function ReadBody(length: seq<byte>, body: seq<byte>): (r: Option<Record>)
    requires body != []
  {
    var last := |body| - 1;
    if body[last] != NEWLINE || EQUALS !in body then None
    else
      var equals := IndexOf(body, EQUALS, 0);
      if equals == 0 then None
      else Some(Record(length, body[..equals], body[equals + 1..last]))
  }

  lemma BodySound(length: seq<byte>, body: seq<byte>)
    requires body != [] && ReadBody(length, body).Some?
    ensures var r := ReadBody(length, body).value;
            && r.length == length && r.key != [] && EQUALS !in r.key
            && Body(r) == body
  {
  }

  lemma IndexOfFirst(s: seq<byte>, c: byte, front: seq<byte>, rest: seq<byte>)
    requires s == front + [c] + rest && c !in front
    ensures IndexOf(s, c, 0) == |front|
  {
    assert s[|front|] == c && forall i :: 0 <= i < |front| ==> s[i] == front[i];
  }

  lemma BodyComplete(r: Record)
    requires r.key != [] && EQUALS !in r.key
    ensures ReadBody(r.length, Body(r)) == Some(r)
  {
    var body := Body(r);
    assert body == r.key + [EQUALS] + (r.value + [NEWLINE]);
    IndexOfFirst(body, EQUALS, r.key, r.value + [NEWLINE]);
    assert body[|r.key|] == EQUALS;
    assert body[..|r.key|] == r.key && body[|r.key| + 1..|body| - 1] == r.value;
  }

  /** Reading is sound: what it returns is a well-formed record that stands at the front. */
  lemma ReadSound(p: seq<byte>)
    requires ReadRecord(p).Some?
    ensures WellFormed(ReadRecord(p).value) && Render(ReadRecord(p).value) <= p
  {
    var separator := IndexOf(p, SPACE, 0);
    var length := ParseNat(p[..separator]);
    BodySound(p[..separator], p[separator + 1..length]);
    CutAround(p, separator, length);
  }

  lemma CutAround(p: seq<byte>, i: nat, n: nat)
    requires i < n <= |p|
    ensures p[..n] == p[..i] + [p[i]] + p[i + 1..n]
  {
  }

  /** Reading is complete: a well-formed record is read back whatever follows it. */
  lemma ReadComplete(r: Record, rest: seq<byte>)
    requires WellFormed(r)
    ensures ReadRecord(Render(r) + rest) == Some(r)
  {
    var p := Render(r) + rest;
    var body := Body(r);
    assert p == r.length + [SPACE] + (body + rest);
    IndexOfFirst(p, SPACE, r.length, body + rest);
    assert p[..|r.length|] == r.length && p[|r.length| + 1..|Render(r)|] == body;
    BodyComplete(r);
  }

  // ---- accepting a payload ----

  /** The records of a payload up to its zero padding, by syntax alone, as any reader of the format sees them. */
  function ReadAll(p: seq<byte>): (r: Option<seq<Record>>)
    decreases |p|
  {
    if AllZero(p) then Some([])
    else match ReadRecord(p)
      case None => None
      case Some(r) =>
        ReadSound(p);
        match ReadAll(p[|Render(r)|..]) case None => None case Some(rs) => Some([r] + rs)
  }

  /** The first fault the scan raises on a payload, or None when it accepts. */
  function FirstFault(p: seq<byte>): (r: Option<Fault>)
    decreases |p|
  {
    if AllZero(p) then None
    else match ReadRecord(p)
      case None => Some(Malformed)
      case Some(r) =>
        ReadSound(p);
        if Refusal(r).Some? then Refusal(r) else FirstFault(p[|Render(r)|..])
  }

  ghost predicate Allowed(r: Record) {
    WellFormed(r) && Refusal(r).None?
  }

  ghost predicate AllAllowed(rs: seq<Record>) {
    forall i :: 0 <= i < |rs| ==> Allowed(rs[i])
  }

  /** Accepted payloads are read without gaps, and only into allowed records. */
  lemma {:induction false} AcceptedDecomposes(p: seq<byte>) returns (zeros: seq<byte>)
    requires FirstFault(p).None?
    ensures ReadAll(p).Some? && AllAllowed(ReadAll(p).value)
    ensures p == RenderAll(ReadAll(p).value) + zeros && AllZero(zeros)
    decreases |p|
  {
    if AllZero(p) {
      zeros := p;
    } else {
      var r := ReadRecord(p).value;
      ReadSound(p);
      var rest := p[|Render(r)|..];
      zeros := AcceptedDecomposes(rest);
      DecomposeCons(p, r, rest, ReadAll(rest).value, zeros);
    }
  }

  lemma DecomposeCons(p: seq<byte>, r: Record, rest: seq<byte>, rs: seq<Record>, zeros: seq<byte>)
    requires Render(r) <= p && rest == p[|Render(r)|..] && rest == RenderAll(rs) + zeros
    ensures p == RenderAll([r] + rs) + zeros
  {
    RenderCons(r, rs);
    assert p == Render(r) + rest;
  }

  lemma RenderCons(r: Record, rs: seq<Record>)
    ensures RenderAll([r] + rs) == Render(r) + RenderAll(rs)
  {
    assert ([r] + rs)[1..] == rs;
  }

  lemma StartsWithDigit(r: Record, rest: seq<byte>)
    requires WellFormed(r)
    ensures !AllZero(Render(r) + rest)
  {
    var p := Render(r) + rest;
    assert p[0] == r.length[0] && r.length[0] in r.length;
  }

  lemma AcceptOne(p: seq<byte>, r: Record, rest: seq<byte>, rs: seq<Record>)
    requires Allowed(r) && p == Render(r) + rest && FirstFault(rest).None? && ReadAll(rest) == Some(rs)
    ensures FirstFault(p).None? && ReadAll(p) == Some([r] + rs)
  {
    StartsWithDigit(r, rest);
    ReadComplete(r, rest);
    assert p[|Render(r)|..] == rest;
  }

  /** Printing allowed records, with or without zero padding, is accepted and reads back as the same records. */
  lemma {:induction false} PrintedIsAccepted(rs: seq<Record>, zeros: seq<byte>)
    requires AllAllowed(rs) && AllZero(zeros)
    ensures FirstFault(RenderAll(rs) + zeros).None?
    ensures ReadAll(RenderAll(rs) + zeros) == Some(rs)
  {
    if rs == [] {
      assert RenderAll(rs) + zeros == zeros;
    } else {
      assert Allowed(rs[0]);
      PrintedIsAccepted(rs[1..], zeros);
      assert RenderAll(rs) + zeros == Render(rs[0]) + (RenderAll(rs[1..]) + zeros);
      AcceptOne(RenderAll(rs) + zeros, rs[0], RenderAll(rs[1..]) + zeros, rs[1..]);
      assert rs == [rs[0]] + rs[1..];
    }
  }

  /** A payload is accepted iff it is allowed records back to back, then zeros. */
  lemma AcceptedIff(p: seq<byte>)
    ensures FirstFault(p).None? <==>
            exists rs: seq<Record>, zeros: seq<byte> :: AllAllowed(rs) && AllZero(zeros) && p == RenderAll(rs) + zeros
  {
    if FirstFault(p).None? {
      var zeros := AcceptedDecomposes(p);
    }
    forall rs: seq<Record>, zeros: seq<byte> | AllAllowed(rs) && AllZero(zeros) && p == RenderAll(rs) + zeros
      ensures FirstFault(p).None?
    {
      PrintedIsAccepted(rs, zeros);
    }
  }

  // ---- every key and value has a record ----

  /** A key and value as a record whose length counts its own digits. */
  lemma PrintRecord(key: seq<byte>, value: seq<byte>) returns (r: Record)
    requires key != [] && EQUALS !in key
    ensures WellFormed(r) && r.key == key && r.value == value && r.length[0] != 48
  {
    var n := SelfCounting(|key| + |value| + 3);
    ParsePrint(n);
    LeadingDigit(n);
    r := Record(PrintNat(n), key, value);
  }

  lemma {:induction false} LeadingDigit(n: nat)
    ensures PrintNat(n)[0] == 48 <==> n == 0
  {
    if n >= 10 {
      LeadingDigit(n / 10);
      assert PrintNat(n)[0] == PrintNat(n / 10)[0];
    }
  }

  ghost predicate AllowedEntry(entry: (seq<byte>, seq<byte>)) {
    entry.0 != [] && EQUALS !in entry.0 && !(SPARSE_PREFIX <= entry.0) && entry.0 != SIZE_KEY
  }

  /** Every list of allowed keys and values has a printed payload, and it reads back as that list. */
  lemma {:induction false} EntriesRoundTrip(entries: seq<(seq<byte>, seq<byte>)>, zeros: seq<byte>)
      returns (rs: seq<Record>)
    requires AllZero(zeros) && forall i :: 0 <= i < |entries| ==> AllowedEntry(entries[i])
    ensures |rs| == |entries| && forall i :: 0 <= i < |rs| ==> (rs[i].key, rs[i].value) == entries[i]
    ensures AllAllowed(rs) && FirstFault(RenderAll(rs) + zeros).None?
    ensures ReadAll(RenderAll(rs) + zeros) == Some(rs)
  {
    rs := [];
    for i := 0 to |entries|
      invariant |rs| == i && AllAllowed(rs)
      invariant forall j :: 0 <= j < i ==> (rs[j].key, rs[j].value) == entries[j]
    {
      assert AllowedEntry(entries[i]);
      var r := PrintRecord(entries[i].0, entries[i].1);
      rs := rs + [r];
    }
    PrintedIsAccepted(rs, zeros);
  }

  // ---- the loop of the source ----

  /** Cuts the record at `position` out of the payload. */
  method NextRecord(payload: seq<byte>, position: nat) returns (r: Option<Record>)
    requires position < |payload|
    ensures r == ReadRecord(payload[position..])
  {
    var separator := IndexOf(payload, SPACE, position);
    ghost var p := payload[position..];
    assert IndexOf(p, SPACE, 0) == separator - position by {
      IndexOfShift(payload, SPACE, position);
    }
    var lengthBytes := payload[position..separator];
    assert p[..separator - position] == lengthBytes;
    if separator <= position || separator == |payload| || !IsNumeral(lengthBytes) {
      return None;
    }
    var length := ParseNat(lengthBytes);
    var end := position + length;
    if length < 5 || end > |payload| || end <= separator + 1 {
      return None;
    }
    var record := payload[separator + 1..end];
    assert p[separator - position + 1..length] == record;
    return ReadBody(lengthBytes, record);
  }

  /** Walks a payload record by record. */
  method ValidatePaxMetadata(payload: seq<byte>) returns (fault: Option<Fault>)
    ensures fault == FirstFault(payload)
  {
    var position := 0;
    assert payload[0..] == payload;
    while position < |payload|
      invariant position <= |payload| && FirstFault(payload) == FirstFault(payload[position..])
    {
      if AllZero(payload[position..]) {
        return None;
      }
      var next := NextRecord(payload, position);
      if next.None? {
        return Some(Malformed);
      }
      if SPARSE_PREFIX <= next.value.key {
        return Some(SparseKey);
      }
      if next.value.key == SIZE_KEY {
        if !IsNumeral(next.value.value) {
          return Some(MalformedSize);
        }
        return Some(SizeKey);
      }
      ReadSound(payload[position..]);
      var end := position + ParseNat(next.value.length);
      assert payload[position..][end - position..] == payload[end..];
      position := end;
    }
    return None;
  }

  lemma {:induction false} IndexOfShift(s: seq<byte>, c: byte, i: nat)
    requires i <= |s|
    ensures IndexOf(s[i..], c, 0) == IndexOf(s, c, i) - i
    decreases |s| - i
  {
    if i < |s| && s[i] != c {
      IndexOfShift(s, c, i + 1);
      IndexOfDrop(s[i..], c);
      assert s[i..][1..] == s[i + 1..];
    }
  }

  lemma IndexOfDrop(s: seq<byte>, c: byte)
    requires s != [] && s[0] != c
    ensures IndexOf(s, c, 0) == IndexOf(s[1..], c, 0) + 1
  {
    var r := IndexOf(s[1..], c, 0);
    assert forall j :: 0 < j < |s| ==> s[j] == s[1..][j - 1];
  }
}

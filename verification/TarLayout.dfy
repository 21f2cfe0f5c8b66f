/**
  The archives the raw scan accepts, read off the bytes: positions of headers and records, and the flags, keys and
  bounds as the format and the script write them.  `TarScan.Acceptable`, which the scan decides, is exactly this.
*/
module TarLayout {
  import opened Basics
  import opened Decimal
  import Pax
  import opened TarScan

  // ---- PAX payloads ----

  /** "length key=value\n" from `a` to `b`, with the space at `i` and the first '=' of what follows at `j`. */
  ghost predicate RecordAt(p: seq<byte>, a: nat, b: nat, i: nat, j: nat) {
    && a < i && i + 1 < j < b - 1 && b <= |p|
    && p[i] == 32 && p[j] == 61 && p[b - 1] == 10 && (forall k :: i < k < j ==> p[k] != 61)
    && (forall k :: a <= k < i ==> 48 <= p[k] <= 57) && Numeral(p, a, i) == b - a
  }

  /** The number that the digits from `a` to `i` spell. */
  ghost function Numeral(p: seq<byte>, a: nat, i: nat): nat
    requires a <= i <= |p| && forall k :: a <= k < i ==> 48 <= p[k] <= 57
  {
    assert forall c :: c in p[a..i] ==> IsDigit(c);
    ParseNat(p[a..i])
  }

  /** A record whose key is neither "size" nor begins with "GNU.sparse.". */
  ghost predicate AllowedAt(p: seq<byte>, a: nat, b: nat) {
    exists i: nat, j: nat ::
      && RecordAt(p, a, b, i, j) && p[i + 1..j] != [115, 105, 122, 101]
      && !([71, 78, 85, 46, 115, 112, 97, 114, 115, 101, 46] <= p[i + 1..j])
  }

  /** From the first cut on, allowed records from each cut to the next, and zeros after the last. */
  ghost predicate Metadata(p: seq<byte>, cuts: seq<nat>) {
    && cuts != [] && (forall n, n' :: 0 <= n < n' < |cuts| && n' == n + 1 ==> AllowedAt(p, cuts[n], cuts[n']))
    && cuts[|cuts| - 1] <= |p| && forall k :: cuts[|cuts| - 1] <= k < |p| ==> p[k] == 0
  }

  lemma RecordReads(p: seq<byte>, a: nat, b: nat, i: nat, j: nat)
    requires RecordAt(p, a, b, i, j)
    ensures var r := Pax.Record(p[a..i], p[i + 1..j], p[j + 1..b - 1]);
            Pax.WellFormed(r) && |Pax.Render(r)| == b - a && Pax.ReadRecord(p[a..]) == Some(r)
  {
    var r := Pax.Record(p[a..i], p[i + 1..j], p[j + 1..b - 1]);
    assert Pax.Render(r) == p[a..b];
    assert p[a..] == p[a..b] + p[b..];
    Pax.ReadComplete(r, p[b..]);
  }

  lemma RecordParts(p: seq<byte>, a: nat, b: nat, r: Pax.Record)
    requires a <= b <= |p| && p[a..b] == Pax.Render(r)
    ensures var i := a + |r.length|;
            var j := i + 1 + |r.key|;
            p[a..i] == r.length && p[i] == 32 && p[i + 1..j] == r.key && p[j] == 61 && p[b - 1] == 10
  {
    var i, text := a + |r.length|, Pax.Render(r);
    var j := i + 1 + |r.key|;
    assert forall k :: a <= k < b ==> p[k] == text[k - a];
    assert text[i - a] == 32 && text[j - a] == 61 && text[b - 1 - a] == 10;
    assert text[..i - a] == r.length && text[i + 1 - a..j - a] == r.key;
  }

  lemma ReadIsRecord(p: seq<byte>, a: nat, r: Pax.Record)
    requires a <= |p| && Pax.WellFormed(r) && Pax.Render(r) <= p[a..]
    ensures var i, b := a + |r.length|, a + |Pax.Render(r)|;
            var j := i + 1 + |r.key|;
            && RecordAt(p, a, b, i, j) && p[i + 1..j] == r.key
  {
    var i, b := a + |r.length|, a + |Pax.Render(r)|;
    var j := i + 1 + |r.key|;
    assert p[a..b] == Pax.Render(r);
    RecordParts(p, a, b, r);
    assert forall k :: a <= k < i ==> p[k] == r.length[k - a] && r.length[k - a] in r.length;
    assert forall k :: i < k < j ==> p[k] == r.key[k - i - 1] && r.key[k - i - 1] in r.key;
  }

  lemma AllowedReads(p: seq<byte>, a: nat, b: nat)
    requires AllowedAt(p, a, b)
    ensures a <= b <= |p| && Pax.ReadRecord(p[a..]).Some?
    ensures var r := Pax.ReadRecord(p[a..]).value;
            Pax.Allowed(r) && b == a + |Pax.Render(r)|
  {
    var i: nat, j: nat :| && RecordAt(p, a, b, i, j) && p[i + 1..j] != [115, 105, 122, 101]
                          && !([71, 78, 85, 46, 115, 112, 97, 114, 115, 101, 46] <= p[i + 1..j]);
    RecordReads(p, a, b, i, j);
  }

  lemma ReadIsAllowed(p: seq<byte>, a: nat, b: nat, r: Pax.Record)
    requires a <= |p| && Pax.Allowed(r) && Pax.Render(r) <= p[a..] && b == a + |Pax.Render(r)|
    ensures AllowedAt(p, a, b)
  {
    ReadIsRecord(p, a, r);
  }

  lemma AllowedIs(p: seq<byte>, a: nat, b: nat)
    requires a <= |p|
    ensures AllowedAt(p, a, b) <==>
              var r := Pax.ReadRecord(p[a..]);
              r.Some? && Pax.Allowed(r.value) && b == a + |Pax.Render(r.value)|
  {
    var r := Pax.ReadRecord(p[a..]);
    if AllowedAt(p, a, b) {
      AllowedReads(p, a, b);
    }
    if r.Some? && Pax.Allowed(r.value) && b == a + |Pax.Render(r.value)| {
      Pax.ReadSound(p[a..]);
      ReadIsAllowed(p, a, b, r.value);
    }
  }

  lemma ZerosFrom(p: seq<byte>, a: nat)
    requires a <= |p|
    ensures Pax.AllZero(p[a..]) <==> forall k :: a <= k < |p| ==> p[k] == 0
  {
    if Pax.AllZero(p[a..]) {
      forall k | a <= k < |p| ensures p[k] == 0 {
        assert p[a..][k - a] == 0;
      }
    }
  }

  /** Cuts behind a first record. */
  lemma CutsCons(p: seq<byte>, a: nat, cuts: seq<nat>)
    requires cuts != [] && AllowedAt(p, a, cuts[0]) && Metadata(p, cuts)
    ensures Metadata(p, [a] + cuts)
  {
    var all := [a] + cuts;
    forall n, n' | 0 <= n < n' < |all| && n' == n + 1 ensures AllowedAt(p, all[n], all[n']) {
      assert n > 0 ==> all[n] == cuts[n - 1] && all[n'] == cuts[n' - 1];
    }
  }

  lemma CutsRest(p: seq<byte>, cuts: seq<nat>)
    requires Metadata(p, cuts) && |cuts| > 1
    ensures AllowedAt(p, cuts[0], cuts[1]) && Metadata(p, cuts[1..])
  {
    var rest := cuts[1..];
    forall n, n' | 0 <= n < n' < |rest| && n' == n + 1 ensures AllowedAt(p, rest[n], rest[n']) {
      assert rest[n] == cuts[n + 1] && rest[n'] == cuts[n' + 1];
    }
  }

  lemma NextCut(p: seq<byte>, a: nat) returns (b: nat)
    requires a <= |p| && !Pax.AllZero(p[a..]) && Pax.FirstFault(p[a..]).None?
    ensures a < b <= |p| && AllowedAt(p, a, b) && Pax.FirstFault(p[b..]).None?
  {
    var q := p[a..];
    Pax.ReadSound(q);
    var r := Pax.ReadRecord(q).value;
    b := a + |Pax.Render(r)|;
    ReadIsAllowed(p, a, b, r);
    assert q[|Pax.Render(r)|..] == p[b..];
  }

  lemma {:induction false} CutsFind(p: seq<byte>, a: nat) returns (cuts: seq<nat>)
    requires a <= |p| && Pax.FirstFault(p[a..]).None?
    ensures cuts != [] && cuts[0] == a && Metadata(p, cuts)
    decreases |p| - a
  {
    ZerosFrom(p, a);
    if Pax.AllZero(p[a..]) {
      cuts := [a];
    } else {
      var b := NextCut(p, a);
      var rest := CutsFind(p, b);
      CutsCons(p, a, rest);
      cuts := [a] + rest;
    }
  }

  lemma {:induction false} CutsAccept(p: seq<byte>, cuts: seq<nat>)
    requires Metadata(p, cuts) && cuts[0] <= |p|
    ensures Pax.FirstFault(p[cuts[0]..]).None?
    decreases |cuts|
  {
    var a := cuts[0];
    ZerosFrom(p, a);
    if |cuts| > 1 && !Pax.AllZero(p[a..]) {
      CutsRest(p, cuts);
      CutFits(p, a, cuts[1]);
      CutsAccept(p, cuts[1..]);
      CutAccepts(p, a, cuts[1]);
    }
  }

  lemma CutFits(p: seq<byte>, a: nat, b: nat)
    requires AllowedAt(p, a, b)
    ensures a <= b <= |p|
  {
  }

  lemma CutAccepts(p: seq<byte>, a: nat, b: nat)
    requires a <= b <= |p| && AllowedAt(p, a, b) && !Pax.AllZero(p[a..]) && Pax.FirstFault(p[b..]).None?
    ensures Pax.FirstFault(p[a..]).None?
  {
    AllowedIs(p, a, b);
    var r := Pax.ReadRecord(p[a..]).value;
    assert p[a..][|Pax.Render(r)|..] == p[b..];
    NoFault(p[a..], r, p[b..]);
  }

  lemma NoFault(q: seq<byte>, r: Pax.Record, rest: seq<byte>)
    requires !Pax.AllZero(q) && Pax.ReadRecord(q) == Some(r) && Pax.Allowed(r)
    requires |Pax.Render(r)| <= |q| && q[|Pax.Render(r)|..] == rest && Pax.FirstFault(rest).None?
    ensures Pax.FirstFault(q).None?
  {
  }

  /** The payloads that pass are those that cut into allowed records and zeros. */
  lemma MetadataIs(p: seq<byte>)
    ensures Pax.FirstFault(p).None? <==> exists cuts :: Metadata(p, cuts) && cuts[0] == 0
  {
    assert p[0..] == p;
    if Pax.FirstFault(p).None? {
      var cuts := CutsFind(p, 0);
    }
    forall cuts | Metadata(p, cuts) && cuts[0] == 0 ensures Pax.FirstFault(p).None? {
      CutsAccept(p, cuts);
    }
  }

  // ---- headers ----

  /** The flags x, g and X, which head PAX records, and L and K, which head GNU long names. */
  predicate SpecialFlag(flag: byte) {
    flag in {120, 103, 88, 76, 75}
  }

  ghost predicate PaxPayload(p: seq<byte>) {
    exists cuts :: Metadata(p, cuts) && cuts[0] == 0
  }

  /** What the flag and the size of a header allow, and its payload if it heads PAX records; 83 is S, for GNU sparse. */
  ghost predicate FlagAllows(flag: byte, size: nat, payload: seq<byte>) {
    && flag != 83
    && (SpecialFlag(flag) ==> size <= 65536)
    && (49 <= flag <= 54 ==> size == 0)
    && (flag == 120 || flag == 103 || flag == 88 ==> PaxPayload(payload))
  }

  /** A header block that is not all zeros at `a`, and its payload, padded to whole blocks, up to `b`. */
  ghost predicate Framed(nti: NumberParser, data: seq<byte>, a: nat, b: nat) {
    && a + 512 <= b <= |data| && (exists k :: a <= k < a + 512 && data[k] != 0)
    && var size := nti(data[a + 124..a + 136]);
    && size.Some? && 0 <= size.value <= b - a - 512 < size.value + 512 && (b - a) % 512 == 0
  }

  ghost predicate HeaderAt(nti: NumberParser, data: seq<byte>, a: nat, b: nat) {
    && Framed(nti, data, a, b)
    && var size := nti(data[a + 124..a + 136]).value;
    && FlagAllows(data[a + 156], size, data[a + 512..a + 512 + size])
  }

  predicate SpecialAt(data: seq<byte>, a: nat) {
    a + 512 <= |data| && SpecialFlag(data[a + 156])
  }

  function DeclaredAt(nti: NumberParser, data: seq<byte>, a: nat): int {
    if a + 512 <= |data| && nti(data[a + 124..a + 136]).Some? then nti(data[a + 124..a + 136]).value else 0
  }

  /** How many of the headers at the first `n` positions are special, and how many bytes these declare. */
  function SpecialHeaders(data: seq<byte>, at: seq<nat>, n: nat): nat
    requires n <= |at|
  {
    if n == 0 then 0 else SpecialHeaders(data, at, n - 1) + if SpecialAt(data, at[n - 1]) then 1 else 0
  }

  function SpecialSizes(nti: NumberParser, data: seq<byte>, at: seq<nat>, n: nat): int
    requires n <= |at|
  {
    if n == 0 then 0
    else
      SpecialSizes(nti, data, at, n - 1) + if SpecialAt(data, at[n - 1]) then DeclaredAt(nti, data, at[n - 1]) else 0
  }

  /** Headers stand at the first `n` positions, each reaching to the next one. */
  ghost predicate Headers(nti: NumberParser, data: seq<byte>, at: seq<nat>, n: nat)
    requires n < |at|
  {
    forall j, j' :: 0 <= j < j' <= n && j' == j + 1 ==> HeaderAt(nti, data, at[j], at[j'])
  }

  /** Headers stand at all of `at` but the last, where zeros begin: two blocks of them at least, up to the end. */
  ghost predicate Layout(nti: NumberParser, data: seq<byte>, streamBytes: nat, at: seq<nat>) {
    && streamBytes % 512 == 0 && streamBytes <= |data|
    && at != [] && at[0] == 0 && Headers(nti, data, at, |at| - 1)
    && at[|at| - 1] + 1024 <= streamBytes && forall k :: at[|at| - 1] <= k < streamBytes ==> data[k] == 0
  }

  /** The caps over all headers. */
  ghost predicate Bounded(nti: NumberParser, data: seq<byte>, at: seq<nat>, maximumMembers: nat)
    requires at != []
  {
    && |at| - 1 <= maximumMembers + 256 && SpecialHeaders(data, at, |at| - 1) <= 256
    && SpecialSizes(nti, data, at, |at| - 1) <= 4194304
  }

  // ---- a header is a member, and a layout a tiling ----

  lemma KindsAre(flag: byte)
    ensures IsSpecial(flag) <==> SpecialFlag(flag)
    ensures IsPax(flag) <==> flag == 120 || flag == 103 || flag == 88
    ensures IsNonData(flag) <==> 49 <= flag <= 54
  {
  }

  lemma PaddedIs(size: nat, padded: nat)
    ensures padded == Padded(size) <==> size <= padded < size + 512 && padded % 512 == 0
  {
  }

  /** The part of the data that a header and its payload take. */
  function MemberAt(data: seq<byte>, a: nat, b: nat): Member
    requires a + 512 <= b <= |data|
  {
    Member(data[a..a + 512], data[a + 512..b])
  }

  lemma Fields(data: seq<byte>, a: nat)
    requires a + 512 <= |data|
    ensures data[a..a + 512][124..136] == data[a + 124..a + 136] && data[a..a + 512][156] == data[a + 156]
  {
    var header := data[a..a + 512];
    forall k | 0 <= k < 12 ensures header[124..136][k] == data[a + 124..a + 136][k] {
      assert header[124..136][k] == header[124 + k];
    }
  }

  lemma FlagIs(nti: NumberParser, m: Member, size: nat)
    requires FramedMember(nti, m) && size == SizeOf(nti, m.header)
    ensures MemberOk(nti, m) <==> FlagAllows(m.header[156], size, m.body[..size])
  {
    KindsAre(m.header[156]);
    MetadataIs(m.body[..size]);
  }

  ghost predicate FramedMember(nti: NumberParser, m: Member) {
    && |m.header| == BLOCK && !Pax.AllZero(m.header)
    && SizeField(nti, m.header).Some? && SizeField(nti, m.header).value >= 0
    && |m.body| == Padded(SizeOf(nti, m.header))
  }

  lemma FrameIs(nti: NumberParser, data: seq<byte>, a: nat, b: nat)
    requires a + 512 <= b <= |data|
    ensures Framed(nti, data, a, b) <==> FramedMember(nti, MemberAt(data, a, b))
    ensures Framed(nti, data, a, b) ==>
              DeclaredAt(nti, data, a) == nti(data[a + 124..a + 136]).value == SizeOf(nti, data[a..a + 512])
  {
    Fields(data, a);
    NotAllZero(data, a);
    PaddedIs(SizeOf(nti, data[a..a + 512]), b - a - 512);
  }

  /** The headers are the members of the scan. */
  lemma HeaderIsMember(nti: NumberParser, data: seq<byte>, a: nat, b: nat, m: Member)
    requires a + 512 <= b <= |data| && m == MemberAt(data, a, b)
    ensures HeaderAt(nti, data, a, b) <==> MemberOk(nti, m)
    ensures HeaderAt(nti, data, a, b) ==> SpecialOne(m.header) == if SpecialAt(data, a) then 1 else 0
    ensures HeaderAt(nti, data, a, b) ==>
              SpecialSize(nti, m.header) == if SpecialAt(data, a) then DeclaredAt(nti, data, a) else 0
  {
    FrameIs(nti, data, a, b);
    Fields(data, a);
    KindsAre(data[a + 156]);
    if FramedMember(nti, m) {
      var size := SizeOf(nti, m.header);
      FlagIs(nti, m, size);
      assert m.body[..size] == data[a + 512..a + 512 + size];
    } else {
      assert !MemberOk(nti, m);
    }
  }

  lemma NotAllZero(data: seq<byte>, a: nat)
    requires a + 512 <= |data|
    ensures Pax.AllZero(data[a..a + 512]) <==> forall k :: a <= k < a + 512 ==> data[k] == 0
  {
    if Pax.AllZero(data[a..a + 512]) {
      forall k | a <= k < a + 512 ensures data[k] == 0 {
        assert data[a..a + 512][k - a] == 0;
      }
    }
  }

  /** The members between the positions. */
  lemma {:induction false} MembersBetween(nti: NumberParser, data: seq<byte>, at: seq<nat>, n: nat)
    returns (ms: seq<Member>)
    requires n < |at| && at[0] == 0 && Headers(nti, data, at, n)
    ensures |ms| == n && MembersOk(nti, ms) && at[n] <= |data| && Flatten(ms) == data[..at[n]]
    ensures SpecialCount(ms) == SpecialHeaders(data, at, n) && SpecialBytes(nti, ms) == SpecialSizes(nti, data, at, n)
  {
    ms := [];
    if n > 0 {
      ms := MembersBetween(nti, data, at, n - 1);
      var a, b := at[n - 1], at[n];
      assert HeaderAt(nti, data, a, b);
      ms := MoreMembers(nti, data, ms, a, b);
    }
  }

  lemma MoreMembers(nti: NumberParser, data: seq<byte>, front: seq<Member>, a: nat, b: nat) returns (ms: seq<Member>)
    requires HeaderAt(nti, data, a, b) && MembersOk(nti, front) && Flatten(front) == data[..a]
    ensures |ms| == |front| + 1 && MembersOk(nti, ms) && Flatten(ms) == data[..b]
    ensures SpecialCount(ms) == SpecialCount(front) + if SpecialAt(data, a) then 1 else 0
    ensures SpecialBytes(nti, ms) ==
            SpecialBytes(nti, front) + if SpecialAt(data, a) then DeclaredAt(nti, data, a) else 0
  {
    var m := MemberAt(data, a, b);
    HeaderIsMember(nti, data, a, b, m);
    FlattenOne(nti, front, m);
    CountOne(nti, front, m);
    assert data[..a] + Bytes(m) == data[..b];
    ms := front + [m];
  }

  lemma MemberStands(data: seq<byte>, streamBytes: nat, m: Member, a: nat)
    requires streamBytes <= |data| && |m.header| == 512 && StandsAt(data[..streamBytes], a, m)
    ensures a + 512 + |m.body| <= streamBytes && m == MemberAt(data, a, a + 512 + |m.body|)
  {
  }

  lemma HeaderStands(nti: NumberParser, data: seq<byte>, streamBytes: nat, front: seq<Member>, m: Member, a: nat,
      b: nat)
    requires streamBytes <= |data| && MemberOk(nti, m) && StandsAt(data[..streamBytes], a, m)
    requires a == |Flatten(front)| && b == |Flatten(front + [m])|
    ensures HeaderAt(nti, data, a, b)
    ensures SpecialCount(front + [m]) == SpecialCount(front) + if SpecialAt(data, a) then 1 else 0
    ensures SpecialBytes(nti, front + [m]) ==
            SpecialBytes(nti, front) + if SpecialAt(data, a) then DeclaredAt(nti, data, a) else 0
  {
    FlattenOne(nti, front, m);
    CountOne(nti, front, m);
    MemberStands(data, streamBytes, m, a);
    HeaderIsMember(nti, data, a, b, m);
  }

  lemma TiledHeader(nti: NumberParser, data: seq<byte>, streamBytes: nat, ms: seq<Member>, tail: seq<byte>, k: nat,
      a: nat, b: nat)
    requires streamBytes <= |data| && Tiles(nti, data[..streamBytes], ms, tail) && k < |ms|
    requires a == |Flatten(ms[..k])| && b == |Flatten(ms[..k + 1])|
    ensures HeaderAt(nti, data, a, b)
    ensures SpecialCount(ms[..k + 1]) == SpecialCount(ms[..k]) + if SpecialAt(data, a) then 1 else 0
    ensures SpecialBytes(nti, ms[..k + 1]) ==
            SpecialBytes(nti, ms[..k]) + if SpecialAt(data, a) then DeclaredAt(nti, data, a) else 0
  {
    TilingNext(nti, data[..streamBytes], ms[..k], ms, tail);
    assert ms[..k + 1] == ms[..k] + [ms[k]];
    HeaderStands(nti, data, streamBytes, ms[..k], ms[k], a, b);
  }

  /** The members of a tiling are headers at these positions. */
  lemma {:induction false} HeadersStand(nti: NumberParser, data: seq<byte>, streamBytes: nat, ms: seq<Member>,
      tail: seq<byte>, at: seq<nat>, n: nat)
    requires streamBytes <= |data| && Tiles(nti, data[..streamBytes], ms, tail)
    requires |at| == |ms| + 1 && (forall j :: 0 <= j <= |ms| ==> at[j] == |Flatten(ms[..j])|) && n <= |ms|
    ensures Headers(nti, data, at, n)
    ensures SpecialHeaders(data, at, n) == SpecialCount(ms[..n])
    ensures SpecialSizes(nti, data, at, n) == SpecialBytes(nti, ms[..n])
  {
    if n > 0 {
      HeadersStand(nti, data, streamBytes, ms, tail, at, n - 1);
      TiledHeader(nti, data, streamBytes, ms, tail, n - 1, at[n - 1], at[n]);
    }
  }

  lemma ZeroTail(data: seq<byte>, streamBytes: nat, before: nat, tail: seq<byte>)
    requires before <= streamBytes <= |data| && tail == data[before..streamBytes]
    ensures Pax.AllZero(tail) <==> forall k :: before <= k < streamBytes ==> data[k] == 0
  {
    if Pax.AllZero(tail) {
      forall k | before <= k < streamBytes ensures data[k] == 0 {
        assert tail[k - before] == 0;
      }
    }
  }

  lemma TilingIsLayout(nti: NumberParser, data: seq<byte>, streamBytes: nat, maximumMembers: nat, ms: seq<Member>,
      tail: seq<byte>) returns (at: seq<nat>)
    requires streamBytes % 512 == 0 && streamBytes <= |data|
    requires Tiles(nti, data[..streamBytes], ms, tail) && WithinCaps(nti, ms, maximumMembers)
    ensures Layout(nti, data, streamBytes, at) && Bounded(nti, data, at, maximumMembers)
  {
    at := seq(|ms| + 1, j requires 0 <= j <= |ms| => |Flatten(ms[..j])|);
    HeadersStand(nti, data, streamBytes, ms, tail, at, |ms|);
    assert ms[..|ms|] == ms;
    var before := |Flatten(ms)|;
    assert data[before..streamBytes] == data[..streamBytes][before..] == tail;
    ZeroTail(data, streamBytes, before, tail);
  }

  lemma LayoutIsTiling(nti: NumberParser, data: seq<byte>, streamBytes: nat, maximumMembers: nat, at: seq<nat>)
    requires Layout(nti, data, streamBytes, at) && Bounded(nti, data, at, maximumMembers)
    ensures Acceptable(nti, data, streamBytes, maximumMembers)
  {
    var n := |at| - 1;
    var ms := MembersBetween(nti, data, at, n);
    var tail := data[at[n]..streamBytes];
    ZeroTail(data, streamBytes, at[n], tail);
    assert data[..streamBytes] == data[..at[n]] + tail;
    assert Tiles(nti, data[..streamBytes], ms, tail) && WithinCaps(nti, ms, maximumMembers);
  }

  /**
    What the scan decides, read off the bytes: an archive is acceptable exactly when headers stand one behind the other
    from its start, all as their flags allow and within the caps, and then nothing but zeros.
  */
  lemma AcceptableIs(nti: NumberParser, data: seq<byte>, streamBytes: nat, maximumMembers: nat)
    ensures Acceptable(nti, data, streamBytes, maximumMembers) <==>
            exists at :: Layout(nti, data, streamBytes, at) && Bounded(nti, data, at, maximumMembers)
  {
    if Acceptable(nti, data, streamBytes, maximumMembers) {
      var ms: seq<Member>, tail: seq<byte> :|
        Tiles(nti, data[..streamBytes], ms, tail) && WithinCaps(nti, ms, maximumMembers);
      var at := TilingIsLayout(nti, data, streamBytes, maximumMembers, ms, tail);
    }
    forall at | Layout(nti, data, streamBytes, at) && Bounded(nti, data, at, maximumMembers)
      ensures Acceptable(nti, data, streamBytes, maximumMembers)
    {
      LayoutIsTiling(nti, data, streamBytes, maximumMembers, at);
    }
  }

  // ---- an archive that is refused ----

  /** Whatever follows it, a header of PAX records, local, global or Solaris, whose first record has the key "size". */
  lemma SizeRecordIsRefused(nti: NumberParser, data: seq<byte>, streamBytes: nat, maximumMembers: nat, size: nat,
      b: nat, i: nat, j: nat)
    requires 512 + size <= |data| && nti(data[124..136]) == Some(size) && data[156] in {120, 103, 88}
    requires RecordAt(data[512..512 + size], 0, b, i, j) && data[512..512 + size][i + 1..j] == [115, 105, 122, 101]
    ensures !Acceptable(nti, data, streamBytes, maximumMembers)
  {
    AcceptableIs(nti, data, streamBytes, maximumMembers);
    forall at | Layout(nti, data, streamBytes, at) ensures false {
      FirstStands(nti, data, streamBytes, at);
      PaxIsChecked(nti, data, at[1], size);
      var cuts :| Metadata(data[512..512 + size], cuts) && cuts[0] == 0;
      FirstRecord(data[512..512 + size], cuts, b, i, j);
    }
  }

  lemma PaxIsChecked(nti: NumberParser, data: seq<byte>, b: nat, size: nat)
    requires HeaderAt(nti, data, 0, b) && nti(data[124..136]) == Some(size) && data[156] in {120, 103, 88}
    ensures 512 + size <= |data| && PaxPayload(data[512..512 + size])
  {
  }

  lemma FirstStands(nti: NumberParser, data: seq<byte>, streamBytes: nat, at: seq<nat>)
    requires Layout(nti, data, streamBytes, at) && 157 <= |data| && data[156] != 0
    ensures |at| > 1 && HeaderAt(nti, data, 0, at[1])
  {
    if |at| > 1 {
      assert HeaderAt(nti, data, at[0], at[1]);
    }
  }

  lemma FirstRecord(p: seq<byte>, cuts: seq<nat>, b: nat, i: nat, j: nat)
    requires Metadata(p, cuts) && cuts[0] == 0 && RecordAt(p, 0, b, i, j)
    ensures p[i + 1..j] != [115, 105, 122, 101]
  {
    RecordReads(p, 0, b, i, j);
    assert p[0..] == p && p[0] != 0;
    AllowedIs(p, 0, cuts[1]);
    assert AllowedAt(p, cuts[0], cuts[1]);
  }

  /** A global header that makes what follows 1024 bytes long, "13 size=1024", is refused whatever follows it. */
  lemma GlobalSizeIsRefused(nti: NumberParser, header: seq<byte>, rest: seq<byte>, streamBytes: nat,
      maximumMembers: nat)
    requires |header| == 512 && header[156] == 103 && nti(header[124..136]) == Some(13)
    ensures var payload := [49, 51, 32, 115, 105, 122, 101, 61, 49, 48, 50, 52, 10];
            !Acceptable(nti, header + payload + rest, streamBytes, maximumMembers)
  {
    var payload: seq<byte> := [49, 51, 32, 115, 105, 122, 101, 61, 49, 48, 50, 52, 10];
    var data := header + payload + rest;
    assert data[512..512 + 13] == payload && data[124..136] == header[124..136];
    assert Numeral(payload, 0, 2) == 13 by {
      assert payload[0..2] == [49, 51] && [49, 51][..1] == [49];
      assert ParseNat([49]) == 1;
    }
    assert RecordAt(payload, 0, 13, 2, 7) && payload[3..7] == [115, 105, 122, 101];
    SizeRecordIsRefused(nti, data, streamBytes, maximumMembers, 13, 13, 2, 7);
  }
}

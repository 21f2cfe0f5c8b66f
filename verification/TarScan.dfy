/**
  The bounded scan of raw tar headers that runs before a tar reader is let loose on an archive
  (POSIX.1 pax, "ustar Interchange Format").  The number parser of the tar library is a parameter.
*/
module TarScan {
  import opened Basics
  import Pax

  const BLOCK := 512
  const MAX_SPECIAL_BYTES := 64 * 1024
  const MAX_TOTAL_SPECIAL_BYTES := 4 * 1024 * 1024
  const MAX_SPECIAL_HEADERS := 256
  const GNU_SPARSE: byte := 83

  /** Reads a numeric header field; None is the library's InvalidHeaderError. */
  type NumberParser = seq<byte> -> Option<int>

  datatype Fault =
    | TruncatedBlock | TruncatedHeader | MissingEnd | NonZeroTail | TooManyHeaders
    | MalformedSize | NegativeSize | GnuSparse | TooManySpecial | SpecialTooLarge | SpecialTotal
    | NonDataPayload | TruncatedMember | TruncatedPax | PaxFault(fault: Pax.Fault)

  /** PAX local, PAX global and Solaris extended headers. */
  predicate IsPax(kind: byte) {
    kind == 120 || kind == 103 || kind == 88
  }

  /** PAX headers and the GNU long-name and long-link headers. */
  predicate IsSpecial(kind: byte) {
    IsPax(kind) || kind == 76 || kind == 75
  }

  /** Links, devices, directories and fifos. */
  predicate IsNonData(kind: byte) {
    49 <= kind <= 54
  }

  function Padded(size: nat): (n: nat)
    ensures size <= n < size + BLOCK && n % BLOCK == 0
  {
    (size + BLOCK - 1) / BLOCK * BLOCK
  }

  // ---- well-formed members ----

  /** A header block and the padded payload that follows it. */
  datatype Member = Member(header: seq<byte>, body: seq<byte>)

  function KindOf(header: seq<byte>): byte {
    if |header| == BLOCK then header[156] else 0
  }

  /** The size field of a header block, when the library can read it. */
  function SizeField(nti: NumberParser, header: seq<byte>): Option<int>
    requires |header| == BLOCK
  {
    nti(header[124..136])
  }

  function SizeOf(nti: NumberParser, header: seq<byte>): nat {
    if |header| == BLOCK && SizeField(nti, header).Some? && SizeField(nti, header).value >= 0
    then SizeField(nti, header).value else 0
  }

  /** What the scan demands of one member. */
  ghost predicate MemberOk(nti: NumberParser, m: Member) {
    && |m.header| == BLOCK && !Pax.AllZero(m.header)
    && SizeField(nti, m.header).Some? && SizeField(nti, m.header).value >= 0
    && var size, kind := SizeOf(nti, m.header), KindOf(m.header);
    && |m.body| == Padded(size)
    && kind != GNU_SPARSE
    && (IsSpecial(kind) ==> size <= MAX_SPECIAL_BYTES)
    && (IsNonData(kind) ==> size == 0)
    && (IsPax(kind) ==> Pax.FirstFault(m.body[..size]).None?)
  }

  ghost predicate MembersOk(nti: NumberParser, ms: seq<Member>) {
    forall i :: 0 <= i < |ms| ==> MemberOk(nti, ms[i])
  }

  function Bytes(m: Member): seq<byte> {
    m.header + m.body
  }

  function Flatten(ms: seq<Member>): seq<byte> {
    if ms == [] then [] else Bytes(ms[0]) + Flatten(ms[1..])
  }

  function SpecialCount(ms: seq<Member>): nat {
    if ms == [] then 0
    else (if IsSpecial(KindOf(ms[0].header)) then 1 else 0) + SpecialCount(ms[1..])
  }

  function SpecialBytes(nti: NumberParser, ms: seq<Member>): nat {
    if ms == [] then 0
    else (if IsSpecial(KindOf(ms[0].header)) then SizeOf(nti, ms[0].header) else 0) + SpecialBytes(nti, ms[1..])
  }

  /** The caps over the whole run. */
  ghost predicate WithinCaps(nti: NumberParser, ms: seq<Member>, maximumMembers: nat) {
    && |ms| <= maximumMembers + MAX_SPECIAL_HEADERS
    && SpecialCount(ms) <= MAX_SPECIAL_HEADERS
    && SpecialBytes(nti, ms) <= MAX_TOTAL_SPECIAL_BYTES
  }

  /** The stream is members back to back, then at least two zero blocks and nothing else. */
  ghost predicate Tiles(nti: NumberParser, stream: seq<byte>, ms: seq<Member>, tail: seq<byte>) {
    MembersOk(nti, ms) && stream == Flatten(ms) + tail && |tail| >= 2 * BLOCK && Pax.AllZero(tail)
  }

  /** Archives the scan is meant to accept: `data` holds `streamBytes` bytes that tile within the caps. */
  ghost predicate Acceptable(nti: NumberParser, data: seq<byte>, streamBytes: nat, maximumMembers: nat) {
    && streamBytes % BLOCK == 0 && streamBytes <= |data|
    && exists ms: seq<Member>, tail: seq<byte> ::
         Tiles(nti, data[..streamBytes], ms, tail) && WithinCaps(nti, ms, maximumMembers)
  }

  // ---- tilings are unique ----

  lemma {:induction false} FlattenAppend(nti: NumberParser, ms: seq<Member>, ns: seq<Member>)
    ensures Flatten(ms + ns) == Flatten(ms) + Flatten(ns)
    ensures SpecialCount(ms + ns) == SpecialCount(ms) + SpecialCount(ns)
    ensures SpecialBytes(nti, ms + ns) == SpecialBytes(nti, ms) + SpecialBytes(nti, ns)
  {
    if ms == [] {
      assert ms + ns == ns;
    } else {
      assert (ms + ns)[1..] == ms[1..] + ns;
      FlattenAppend(nti, ms[1..], ns);
    }
  }

  /** The member that stands at `offset` of the stream. */
  ghost predicate StandsAt(stream: seq<byte>, offset: nat, m: Member) {
    && offset + |m.header| + |m.body| <= |stream|
    && stream[offset..offset + |m.header|] == m.header
    && stream[offset + |m.header|..offset + |m.header| + |m.body|] == m.body
  }

  lemma StandsAtSplit(stream: seq<byte>, before: seq<byte>, m: Member, after: seq<byte>)
    requires stream == before + (Bytes(m) + after)
    ensures StandsAt(stream, |before|, m)
  {
  }

  /** Two well-formed members at one place are the same. */
  lemma SameMember(nti: NumberParser, stream: seq<byte>, offset: nat, m: Member, n: Member)
    requires MemberOk(nti, m) && MemberOk(nti, n) && StandsAt(stream, offset, m) && StandsAt(stream, offset, n)
    ensures m == n
  {
  }

  /** In a tiling, the member after a front stands where the front's bytes end. */
  lemma TilingAt(stream: seq<byte>, front: seq<Member>, rest: seq<Member>, after: seq<byte>)
    requires rest != [] && stream == Flatten(front + rest) + after
    ensures StandsAt(stream, |Flatten(front)|, rest[0])
  {
    FlattenAppend(_ => None, front, rest);
    var more := Flatten(rest[1..]);
    Associates(Flatten(front), Bytes(rest[0]) + more, after);
    Associates(Bytes(rest[0]), more, after);
    StandsAtSplit(stream, Flatten(front), rest[0], more + after);
  }

  lemma ZerosAreNoMember(stream: seq<byte>, before: seq<byte>, tail: seq<byte>, m: Member)
    requires stream == before + tail && Pax.AllZero(tail) && StandsAt(stream, |before|, m)
    ensures Pax.AllZero(m.header)
  {
    forall i | 0 <= i < |m.header| ensures m.header[i] == 0 {
      assert stream[|before|..|before| + |m.header|][i] == tail[i];
    }
  }

  /** What a tiling that begins with `front` holds after it: its zero tail, or a well-formed member. */
  lemma TilingNext(nti: NumberParser, stream: seq<byte>, front: seq<Member>, ns: seq<Member>, tail: seq<byte>)
    requires front <= ns && Tiles(nti, stream, ns, tail)
    ensures Flatten(front) <= stream
    ensures ns == front ==> stream == Flatten(front) + tail
    ensures ns != front ==> MemberOk(nti, ns[|front|]) && StandsAt(stream, |Flatten(front)|, ns[|front|])
  {
    var rest := ns[|front|..];
    assert ns == front + rest;
    FlattenAppend(nti, front, rest);
    if rest != [] {
      TilingAt(stream, front, rest, tail);
    } else {
      assert ns == front;
    }
  }

  lemma TilingExtendsByOne(nti: NumberParser, stream: seq<byte>, front: seq<Member>, m: Member, ns: seq<Member>,
      tail: seq<byte>)
    requires front <= ns && Tiles(nti, stream, ns, tail)
    requires MemberOk(nti, m) && StandsAt(stream, |Flatten(front)|, m)
    ensures front + [m] <= ns
  {
    TilingNext(nti, stream, front, ns, tail);
    if ns == front {
      ZerosAreNoMember(stream, Flatten(front), tail, m);
      assert false;
    } else {
      SameMember(nti, stream, |Flatten(front)|, m, ns[|front|]);
    }
  }

  /** Members already scanned begin every tiling of the stream. */
  lemma {:induction false} TilingExtends(nti: NumberParser, stream: seq<byte>, ms: seq<Member>, ns: seq<Member>,
      tail: seq<byte>)
    requires MembersOk(nti, ms) && Flatten(ms) <= stream && Tiles(nti, stream, ns, tail)
    ensures ms <= ns
  {
    if ms != [] {
      var k := |ms| - 1;
      assert ms == ms[..k] + [ms[k]];
      FlattenAppend(nti, ms[..k], [ms[k]]);
      TilingExtends(nti, stream, ms[..k], ns, tail);
      assert stream == Flatten(ms) + stream[|Flatten(ms)|..];
      TilingAt(stream, ms[..k], [ms[k]], stream[|Flatten(ms)|..]);
      TilingExtendsByOne(nti, stream, ms[..k], ms[k], ns, tail);
    }
  }

  lemma FlattenPrefix(nti: NumberParser, stream: seq<byte>, ms: seq<Member>, tail: seq<byte>)
    requires Tiles(nti, stream, ms, tail)
    ensures MembersOk(nti, ms) && Flatten(ms) <= stream && |Flatten(ms)| + |tail| == |stream|
  {
    assert stream[..|Flatten(ms)|] == Flatten(ms);
  }

  /** A stream tiles in one way only, and the lengths of members and tail add up to its length. */
  lemma TilingIsUnique(nti: NumberParser, stream: seq<byte>, ms: seq<Member>, tail: seq<byte>, ns: seq<Member>,
      tail': seq<byte>)
    requires Tiles(nti, stream, ms, tail) && Tiles(nti, stream, ns, tail')
    ensures ms == ns && tail == tail' && |Flatten(ms)| + |tail| == |stream|
  {
    FlattenPrefix(nti, stream, ms, tail);
    FlattenPrefix(nti, stream, ns, tail');
    TilingExtends(nti, stream, ms, ns, tail');
    TilingExtends(nti, stream, ns, ms, tail);
    TailAfter(stream, Flatten(ms), tail);
    TailAfter(stream, Flatten(ns), tail');
  }

  // ---- the scan ----

  /** A seekable byte stream. */
  class Stream {
    const data: seq<byte>
    var position: nat

    constructor (data: seq<byte>)
      ensures this.data == data && position == 0
    {
      this.data, position := data, 0;
    }

    method Seek(offset: nat)
      modifies this
      ensures position == offset
    {
      position := offset;
    }

    /** Up to `n` bytes from the position on, fewer only at the end of the data. */
    method Read(n: nat) returns (chunk: seq<byte>)
      modifies this
      ensures |chunk| == Min(n, Max(0, |data| - old(position)))
      ensures chunk == data[Min(old(position), |data|)..Min(old(position), |data|) + |chunk|]
      ensures position == old(position) + |chunk|
    {
      var start := Min(position, |data|);
      chunk := data[start..Min(start + n, |data|)];
      position := position + |chunk|;
    }
  }

  predicate ZeroRange(s: seq<byte>, from: nat, to: nat)
    requires to <= |s|
  {
    forall i :: from <= i < to ==> s[i] == 0
  }

  /** Reads the tail after a zero header block: it must hold another block and only zeros. */
  method ScanTail(source: Stream, streamBytes: nat, offset: nat) returns (fault: Option<Fault>)
    requires offset + BLOCK <= streamBytes && source.position == offset + BLOCK <= |source.data|
    modifies source
    ensures fault.None? <==> streamBytes <= |source.data| && offset + 2 * BLOCK <= streamBytes
                             && ZeroRange(source.data, offset + BLOCK, streamBytes)
    ensures fault.Some? ==> fault.value == if streamBytes < offset + 1024 then MissingEnd else NonZeroTail
  {
    var remaining := streamBytes - offset - BLOCK;
    if remaining < BLOCK {
      return Some(MissingEnd);
    }
    while remaining > 0
      invariant remaining <= streamBytes - offset - BLOCK
      invariant source.position + remaining == streamBytes && source.position <= |source.data|
      invariant ZeroRange(source.data, offset + BLOCK, source.position)
    {
      ghost var before := source.position;
      var chunk := source.Read(Min(1024 * 1024, remaining));
      assert forall i :: before <= i < source.position ==> source.data[i] == chunk[i - before];
      if chunk == [] || !Pax.AllZero(chunk) {
        assert forall k :: 0 <= k < |chunk| ==> chunk[k] == source.data[before + k];
        return Some(NonZeroTail);
      }
      remaining := remaining - |chunk|;
    }
    return None;
  }

  /** What one header adds to the running counts. */
  function SpecialOne(header: seq<byte>): nat {
    if IsSpecial(KindOf(header)) then 1 else 0
  }

  function SpecialSize(nti: NumberParser, header: seq<byte>): nat {
    if IsSpecial(KindOf(header)) then SizeOf(nti, header) else 0
  }

  /** The part of the member with this header that does not depend on its payload bytes. */
  ghost predicate HeaderOk(nti: NumberParser, header: seq<byte>) {
    && |header| == BLOCK && SizeField(nti, header).Some? && SizeField(nti, header).value >= 0
    && KindOf(header) != GNU_SPARSE
    && (IsSpecial(KindOf(header)) ==> SizeOf(nti, header) <= MAX_SPECIAL_BYTES)
    && (IsNonData(KindOf(header)) ==> SizeOf(nti, header) == 0)
  }

  /** Why a header is refused, after `count` special headers that declare `bytes`. */
  ghost predicate HeaderReason(nti: NumberParser, header: seq<byte>, count: nat, bytes: nat, fault: Fault)
    requires |header| == 512
  {
    var size, flag := nti(header[124..136]), header[156];
    var special := flag in {120, 103, 88, 76, 75};
    match fault
    case MalformedSize => size.None?
    case NegativeSize => size.Some? && size.value < 0
    case GnuSparse => flag == 83
    case TooManySpecial => special && count + 1 > 256
    case SpecialTooLarge => special && size.Some? && size.value > 65536
    case SpecialTotal => special && size.Some? && bytes + size.value > 4194304
    case NonDataPayload => 49 <= flag <= 54 && size.Some? && size.value > 0
    case _ => false
  }

  /** Why the payload behind a header is refused. */
  ghost predicate PayloadReason(data: seq<byte>, streamBytes: nat, offset: nat, header: seq<byte>, size: nat,
      fault: Fault)
    requires |header| == 512
  {
    var start, pax := offset + 512, header[156] in {120, 103, 88};
    match fault
    case TruncatedMember => start + Padded(size) > streamBytes
    case TruncatedPax => pax && start + size > |data|
    case PaxFault(f) => pax && start + size <= |data| && Pax.FirstFault(data[start..start + size]) == Some(f)
    case _ => false
  }

  /** The checks on a header field by field, with the running counts of special headers. */
  method CheckHeader(nti: NumberParser, header: seq<byte>, specialCount: nat, specialBytes: nat)
    returns (r: Result<nat, Fault>, count: nat, bytes: nat)
    requires |header| == BLOCK && specialCount <= MAX_SPECIAL_HEADERS && specialBytes <= MAX_TOTAL_SPECIAL_BYTES
    ensures count == specialCount + SpecialOne(header) && (r.Ok? ==> bytes == specialBytes + SpecialSize(nti, header))
    ensures r.Ok? <==> HeaderOk(nti, header) && count <= MAX_SPECIAL_HEADERS
                       && specialBytes + SpecialSize(nti, header) <= MAX_TOTAL_SPECIAL_BYTES
    ensures r.Ok? ==> r.value == SizeOf(nti, header)
    ensures r.Err? ==> HeaderReason(nti, header, specialCount, specialBytes, r.error)
  {
    count, bytes := specialCount + SpecialOne(header), specialBytes;
    var field := SizeField(nti, header);
    if field.None? {
      return Err(MalformedSize), count, bytes;
    }
    if field.value < 0 {
      return Err(NegativeSize), count, bytes;
    }
    var rawSize: nat := field.value;
    var kind := header[156];
    if kind == GNU_SPARSE {
      return Err(GnuSparse), count, bytes;
    }
    if IsSpecial(kind) {
      bytes := specialBytes + rawSize;
      if count > MAX_SPECIAL_HEADERS {
        return Err(TooManySpecial), count, bytes;
      }
      if rawSize > MAX_SPECIAL_BYTES {
        return Err(SpecialTooLarge), count, bytes;
      }
      if bytes > MAX_TOTAL_SPECIAL_BYTES {
        return Err(SpecialTotal), count, bytes;
      }
    } else if IsNonData(kind) && rawSize != 0 {
      return Err(NonDataPayload), count, bytes;
    }
    return Ok(rawSize), count, bytes;
  }

  /** The payload lies in the stream `data[..streamBytes]`, and PAX metadata is acceptable. */
  ghost predicate PayloadFits(data: seq<byte>, streamBytes: nat, offset: nat, header: seq<byte>, size: nat)
    requires streamBytes <= |data|
  {
    && offset + BLOCK + Padded(size) <= streamBytes
    && (IsPax(KindOf(header)) ==> Pax.FirstFault(data[offset + BLOCK..offset + BLOCK + size]).None?)
  }

  /** The payload behind a checked header. */
  method CheckPayload(source: Stream, header: seq<byte>, rawSize: nat, streamBytes: nat, offset: nat)
    returns (r: Result<nat, Fault>)
    requires |header| == BLOCK && offset + BLOCK <= streamBytes && source.position == offset + BLOCK <= |source.data|
    modifies source
    ensures r.Ok? ==> r.value == offset + BLOCK + Padded(rawSize) <= streamBytes
    ensures streamBytes <= |source.data| ==> (r.Ok? <==> PayloadFits(source.data, streamBytes, offset, header, rawSize))
    ensures r.Err? ==> PayloadReason(source.data, streamBytes, offset, header, rawSize, r.error)
  {
    var paddedSize := (rawSize + BLOCK - 1) / BLOCK * BLOCK;
    var nextOffset := offset + BLOCK + paddedSize;
    if nextOffset > streamBytes {
      return Err(TruncatedMember);
    }
    if IsPax(header[156]) {
      var payload := source.Read(rawSize);
      if |payload| != rawSize {
        return Err(TruncatedPax);
      }
      assert payload == source.data[offset + BLOCK..offset + BLOCK + rawSize];
      var fault := Pax.ValidatePaxMetadata(payload);
      if fault.Some? {
        return Err(PaxFault(fault.value));
      }
    }
    return Ok(nextOffset);
  }

  /** The scan has passed `ms`, which fill the stream up to `offset` within the caps. */
  ghost predicate Passed(nti: NumberParser, stream: seq<byte>, ms: seq<Member>, offset: nat, maximumMembers: nat) {
    MembersOk(nti, ms) && |Flatten(ms)| == offset && Flatten(ms) <= stream && WithinCaps(nti, ms, maximumMembers)
  }

  /** If neither a zero tail nor a member within the caps stands at `offset`, no tiling exists. */
  lemma DeadEnd(nti: NumberParser, stream: seq<byte>, ms: seq<Member>, offset: nat, maximumMembers: nat)
    requires Passed(nti, stream, ms, offset, maximumMembers)
    requires |stream| - offset < 2 * BLOCK || !Pax.AllZero(stream[offset..])
    requires forall m :: MemberOk(nti, m) && StandsAt(stream, offset, m) ==> !WithinCaps(nti, ms + [m], maximumMembers)
    ensures !exists ns, tail :: Tiles(nti, stream, ns, tail) && WithinCaps(nti, ns, maximumMembers)
  {
    forall ns, tail | Tiles(nti, stream, ns, tail) && WithinCaps(nti, ns, maximumMembers) ensures false {
      TilingExtends(nti, stream, ms, ns, tail);
      TilingNext(nti, stream, ms, ns, tail);
      TailAfter(stream, Flatten(ms), tail);
      if ns != ms {
        var m := ns[|ms|];
        assert ns == (ms + [m]) + ns[|ms| + 1..];
        FlattenAppend(nti, ms + [m], ns[|ms| + 1..]);
      }
    }
  }

  lemma TailAfter(stream: seq<byte>, before: seq<byte>, tail: seq<byte>)
    ensures stream == before + tail ==> stream[|before|..] == tail
  {
  }

  lemma PrefixGrows(stream: seq<byte>, before: seq<byte>, m: Member)
    requires before <= stream && StandsAt(stream, |before|, m)
    ensures before + Bytes(m) <= stream
  {
    assert stream[..|before|] == before;
  }

  lemma FlattenOne(nti: NumberParser, ms: seq<Member>, m: Member)
    ensures Flatten(ms + [m]) == Flatten(ms) + Bytes(m)
  {
    FlattenAppend(nti, ms, [m]);
    assert Flatten([m]) == Bytes(m);
  }

  lemma PassOne(nti: NumberParser, stream: seq<byte>, ms: seq<Member>, offset: nat, m: Member, maximumMembers: nat)
    requires Passed(nti, stream, ms, offset, maximumMembers)
    requires MemberOk(nti, m) && StandsAt(stream, offset, m) && WithinCaps(nti, ms + [m], maximumMembers)
    ensures Passed(nti, stream, ms + [m], offset + BLOCK + |m.body|, maximumMembers)
  {
    FlattenOne(nti, ms, m);
    PrefixGrows(stream, Flatten(ms), m);
  }

  lemma CountOne(nti: NumberParser, ms: seq<Member>, m: Member)
    ensures SpecialCount(ms + [m]) == SpecialCount(ms) + SpecialOne(m.header)
    ensures SpecialBytes(nti, ms + [m]) == SpecialBytes(nti, ms) + SpecialSize(nti, m.header)
  {
    FlattenAppend(nti, ms, [m]);
  }

  ghost predicate SpecialsFit(nti: NumberParser, ms: seq<Member>, header: seq<byte>) {
    && SpecialCount(ms) + SpecialOne(header) <= MAX_SPECIAL_HEADERS
    && SpecialBytes(nti, ms) + SpecialSize(nti, header) <= MAX_TOTAL_SPECIAL_BYTES
  }

  /** An acceptable member at `offset` passes every check. */
  lemma MemberPasses(nti: NumberParser, data: seq<byte>, streamBytes: nat, ms: seq<Member>, offset: nat, n: Member,
      maximumMembers: nat)
    requires streamBytes <= |data| && StandsAt(data[..streamBytes], offset, n)
    requires MemberOk(nti, n) && WithinCaps(nti, ms + [n], maximumMembers)
    ensures n.header == data[offset..offset + BLOCK] && HeaderOk(nti, n.header) && SpecialsFit(nti, ms, n.header)
    ensures PayloadFits(data, streamBytes, offset, n.header, SizeOf(nti, n.header))
  {
    CountOne(nti, ms, n);
    var size := SizeOf(nti, n.header);
    assert n.header == data[offset..offset + BLOCK];
    assert n.body == data[offset + BLOCK..offset + BLOCK + |n.body|];
    assert n.body[..size] == data[offset + BLOCK..offset + BLOCK + size];
  }

  /** A header that passes every check heads an acceptable member. */
  lemma PassesIsMember(nti: NumberParser, data: seq<byte>, streamBytes: nat, ms: seq<Member>, offset: nat, m: Member,
                       maximumMembers: nat)
    requires offset + BLOCK <= streamBytes <= |data| && m.header == data[offset..offset + BLOCK]
    requires !Pax.AllZero(m.header)
    requires HeaderOk(nti, m.header) && SpecialsFit(nti, ms, m.header)
    requires |ms| + 1 <= maximumMembers + MAX_SPECIAL_HEADERS
    requires PayloadFits(data, streamBytes, offset, m.header, SizeOf(nti, m.header))
    requires m.body == data[offset + BLOCK..offset + BLOCK + Padded(SizeOf(nti, m.header))]
    ensures MemberOk(nti, m) && StandsAt(data[..streamBytes], offset, m) && WithinCaps(nti, ms + [m], maximumMembers)
  {
    CountOne(nti, ms, m);
    var size := SizeOf(nti, m.header);
    assert m.body[..size] == data[offset + BLOCK..offset + BLOCK + size];
    assert data[..streamBytes][offset..offset + BLOCK] == m.header;
  }

  ghost predicate MemberReason(nti: NumberParser, data: seq<byte>, streamBytes: nat, ms: seq<Member>, offset: nat,
      fault: Fault)
  {
    && offset + 512 <= |data|
    && var header := data[offset..offset + 512];
    || HeaderReason(nti, header, SpecialCount(ms), SpecialBytes(nti, ms), fault)
    || (nti(header[124..136]).Some? && nti(header[124..136]).value >= 0
        && PayloadReason(data, streamBytes, offset, header, nti(header[124..136]).value, fault))
  }

  /** Why the scan stops at `offset`, having passed `ms`. */
  ghost predicate Reason(nti: NumberParser, data: seq<byte>, streamBytes: nat, ms: seq<Member>, offset: nat,
      maximumMembers: nat, fault: Fault)
  {
    if streamBytes % 512 != 0 then fault == TruncatedBlock
    else if offset + 512 > streamBytes then fault == MissingEnd
    else if offset + 512 > |data| then fault == TruncatedHeader
    else if forall k :: offset <= k < offset + 512 ==> data[k] == 0
      then fault == if streamBytes < offset + 1024 then MissingEnd else NonZeroTail
    else if |ms| + 1 > maximumMembers + 256 then fault == TooManyHeaders
    else MemberReason(nti, data, streamBytes, ms, offset, fault)
  }

  /** One nonzero header and its payload: the next offset, or the fault that shows no acceptable member stands here. */
  method ScanMember(nti: NumberParser, source: Stream, streamBytes: nat, offset: nat,
        specialCount: nat, specialBytes: nat, ghost ms: seq<Member>, ghost maximumMembers: nat)
    returns (r: Result<nat, Fault>, count: nat, bytes: nat, ghost m: Member)
    requires offset + BLOCK <= streamBytes && source.position == offset + BLOCK <= |source.data|
    requires !Pax.AllZero(source.data[offset..offset + BLOCK])
    requires streamBytes <= |source.data| ==> Passed(nti, source.data[..streamBytes], ms, offset, maximumMembers)
    requires |ms| + 1 <= maximumMembers + MAX_SPECIAL_HEADERS
    requires specialCount == SpecialCount(ms) <= MAX_SPECIAL_HEADERS
    requires specialBytes == SpecialBytes(nti, ms) <= MAX_TOTAL_SPECIAL_BYTES
    modifies source
    ensures r.Ok? ==>
              && offset < r.value <= streamBytes && r.value % BLOCK == offset % BLOCK
              && count == SpecialCount(ms + [m]) <= MAX_SPECIAL_HEADERS
              && bytes == SpecialBytes(nti, ms + [m]) <= MAX_TOTAL_SPECIAL_BYTES
    ensures streamBytes <= |source.data| && r.Ok? ==>
              && MemberOk(nti, m) && StandsAt(source.data[..streamBytes], offset, m)
              && WithinCaps(nti, ms + [m], maximumMembers)
              && r.value == offset + BLOCK + |m.body|
    ensures streamBytes <= |source.data| && r.Err? ==>
              forall n :: MemberOk(nti, n) && StandsAt(source.data[..streamBytes], offset, n)
                ==> !WithinCaps(nti, ms + [n], maximumMembers)
    ensures r.Err? ==> MemberReason(nti, source.data, streamBytes, ms, offset, r.error)
  {
    var header := source.data[offset..offset + BLOCK];
    m := Member(header, []);
    CountOne(nti, ms, m);
    var checked;
    checked, count, bytes := CheckHeader(nti, header, specialCount, specialBytes);
    if checked.Ok? {
      r := CheckPayload(source, header, checked.value, streamBytes, offset);
    } else {
      r := Err(checked.error);
    }
    if streamBytes <= |source.data| {
      if r.Ok? {
        m := Member(header, source.data[offset + BLOCK..r.value]);
        CountOne(nti, ms, m);
        PassesIsMember(nti, source.data, streamBytes, ms, offset, m, maximumMembers);
      } else {
        assert !(HeaderOk(nti, header) && SpecialsFit(nti, ms, header)
                 && PayloadFits(source.data, streamBytes, offset, header, SizeOf(nti, header)));
        Rejected(nti, source.data, streamBytes, ms, offset, header, maximumMembers);
      }
    }
  }

  lemma Rejected(nti: NumberParser, data: seq<byte>, streamBytes: nat, ms: seq<Member>, offset: nat,
      header: seq<byte>, maximumMembers: nat)
    requires offset + BLOCK <= streamBytes <= |data| && header == data[offset..offset + BLOCK]
    requires !(HeaderOk(nti, header) && SpecialsFit(nti, ms, header)
               && PayloadFits(data, streamBytes, offset, header, SizeOf(nti, header)))
    ensures forall n :: MemberOk(nti, n) && StandsAt(data[..streamBytes], offset, n) ==>
              !WithinCaps(nti, ms + [n], maximumMembers)
  {
    forall n | MemberOk(nti, n) && StandsAt(data[..streamBytes], offset, n)
      ensures !WithinCaps(nti, ms + [n], maximumMembers)
    {
      if WithinCaps(nti, ms + [n], maximumMembers) {
        MemberPasses(nti, data, streamBytes, ms, offset, n, maximumMembers);
      }
    }
  }

  /** The raw scan accepts exactly the archives that tile into acceptable members and a zero tail. */
  method ScanTarHeaders(nti: NumberParser, source: Stream, streamBytes: nat, maximumMembers: nat)
      returns (fault: Option<Fault>, ghost ms: seq<Member>, ghost at: nat)
    modifies source
    ensures fault.None? <==> Acceptable(nti, source.data, streamBytes, maximumMembers)
    ensures fault.Some? ==> Reason(nti, source.data, streamBytes, ms, at, maximumMembers, fault.value)
    ensures streamBytes <= |source.data| && streamBytes % 512 == 0 ==>
              Passed(nti, source.data[..streamBytes], ms, at, maximumMembers)
  {
    ms, at := [], 0;
    if streamBytes % BLOCK != 0 {
      return Some(TruncatedBlock), ms, at;
    }
    source.Seek(0);
    var offset, memberCount, specialCount, specialBytes := 0, 0, 0, 0;
    while offset + BLOCK <= streamBytes
      invariant offset <= streamBytes && offset % BLOCK == 0
      invariant memberCount == |ms| <= maximumMembers + MAX_SPECIAL_HEADERS
      invariant specialCount == SpecialCount(ms) <= MAX_SPECIAL_HEADERS
      invariant specialBytes == SpecialBytes(nti, ms) <= MAX_TOTAL_SPECIAL_BYTES
      invariant streamBytes <= |source.data| ==> Passed(nti, source.data[..streamBytes], ms, offset, maximumMembers)
      decreases streamBytes - offset
    {
      source.Seek(offset);
      var header := source.Read(BLOCK);
      if |header| != BLOCK {
        return Some(TruncatedHeader), ms, offset;
      }
      HeaderZeros(source.data, offset, header);
      if Pax.AllZero(header) {
        fault := ScanTail(source, streamBytes, offset);
        EndDecides(nti, source.data, ms, offset, streamBytes, maximumMembers);
        at := offset;
        return;
      }
      memberCount := memberCount + 1;
      if memberCount > maximumMembers + MAX_SPECIAL_HEADERS {
        NoMember(nti, source.data, ms, offset, streamBytes, maximumMembers);
        return Some(TooManyHeaders), ms, offset;
      }
      var next; ghost var m;
      next, specialCount, specialBytes, m :=
        ScanMember(nti, source, streamBytes, offset, specialCount, specialBytes, ms, maximumMembers);
      if next.Err? {
        NoMember(nti, source.data, ms, offset, streamBytes, maximumMembers);
        return Some(next.error), ms, offset;
      }
      if streamBytes <= |source.data| {
        PassOne(nti, source.data[..streamBytes], ms, offset, m, maximumMembers);
      }
      offset, ms := next.value, ms + [m];
    }
    NoMember(nti, source.data, ms, offset, streamBytes, maximumMembers);
    return Some(MissingEnd), ms, offset;
  }

  lemma HeaderZeros(data: seq<byte>, offset: nat, header: seq<byte>)
    requires offset + BLOCK <= |data| && header == data[offset..offset + BLOCK]
    ensures Pax.AllZero(header) <==> ZeroRange(data, offset, offset + BLOCK)
  {
    assert forall i :: offset <= i < offset + BLOCK ==> data[i] == header[i - offset];
  }

  lemma ZeroHeader(nti: NumberParser, data: seq<byte>, streamBytes: nat, offset: nat, m: Member)
    requires offset + BLOCK <= streamBytes <= |data| && ZeroRange(data, offset, offset + BLOCK)
    requires StandsAt(data[..streamBytes], offset, m)
    ensures !MemberOk(nti, m)
  {
    if |m.header| == BLOCK {
      assert forall i :: 0 <= i < BLOCK ==>
               m.header[i] == data[..streamBytes][offset..offset + BLOCK][i] == data[offset + i];
    }
  }

  /** At a zero header the stream must end with zeros, and two blocks of them. */
  lemma EndDecides(nti: NumberParser, data: seq<byte>, ms: seq<Member>, offset: nat, streamBytes: nat,
      maximumMembers: nat)
    requires streamBytes % BLOCK == 0
    requires offset + BLOCK <= streamBytes && offset + BLOCK <= |data| && ZeroRange(data, offset, offset + BLOCK)
    requires streamBytes <= |data| ==> Passed(nti, data[..streamBytes], ms, offset, maximumMembers)
    ensures Acceptable(nti, data, streamBytes, maximumMembers) <==>
              streamBytes <= |data| && offset + 2 * BLOCK <= streamBytes && ZeroRange(data, offset + BLOCK, streamBytes)
  {
    if streamBytes <= |data| {
      var stream := data[..streamBytes];
      var tail := stream[offset..];
      TailIs(data, streamBytes, offset);
      if offset + 2 * BLOCK <= streamBytes && ZeroRange(data, offset + BLOCK, streamBytes) {
        assert stream == Flatten(ms) + tail;
        assert Tiles(nti, stream, ms, tail);
      } else {
        forall m | StandsAt(stream, offset, m) ensures !MemberOk(nti, m) {
          ZeroHeader(nti, data, streamBytes, offset, m);
        }
        DeadEnd(nti, stream, ms, offset, maximumMembers);
      }
    }
  }

  lemma TailIs(data: seq<byte>, streamBytes: nat, offset: nat)
    requires offset <= streamBytes <= |data|
    ensures Pax.AllZero(data[..streamBytes][offset..]) <==> ZeroRange(data, offset, streamBytes)
  {
    var tail := data[..streamBytes][offset..];
    assert forall i :: offset <= i < streamBytes ==> data[i] == tail[i - offset];
  }

  /** Without an acceptable member at `offset`, and with no zero block there, the archive is not acceptable. */
  lemma NoMember(nti: NumberParser, data: seq<byte>, ms: seq<Member>, offset: nat, streamBytes: nat,
      maximumMembers: nat)
    requires streamBytes <= |data| ==>
               && Passed(nti, data[..streamBytes], ms, offset, maximumMembers)
               && (offset + BLOCK <= streamBytes ==> !ZeroRange(data, offset, offset + BLOCK))
               && forall m :: MemberOk(nti, m) && StandsAt(data[..streamBytes], offset, m)
                    ==> !WithinCaps(nti, ms + [m], maximumMembers)
    ensures !Acceptable(nti, data, streamBytes, maximumMembers)
  {
    if streamBytes <= |data| {
      TailIs(data, streamBytes, offset);
      DeadEnd(nti, data[..streamBytes], ms, offset, maximumMembers);
    }
  }
}

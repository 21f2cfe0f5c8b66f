/**
  A reader that does what Python's library does with an archive that the raw scan has accepted.  It honours PAX `size`
  overrides and sparse metadata wherever it finds them, skips the payloads of members that carry none, types a member by
  its flag and its name, and refuses headers that are not intact.  This module proves on which accepted archives the
  reader finds the member boundaries of the scan, and shows two on which it does not.
*/
module TarReader {
  import opened Basics
  import opened Decimal
  import opened PaxParsers
  import opened TarScan

  /** Where a header stands and where the next one does. */
  datatype Boundary = Boundary(header: nat, next: nat)

  /**
    The records that apply to what follows: those of all global headers, and for each local header since the last
    ordinary member what applied right after it; and whether a header must follow, as after a special one.
  */
  datatype Carried = Carried(globals: seq<Pair>, locals: seq<seq<Pair>>, chained: bool)

  const FRESH := Carried([], [], false)

  /**
    What the reader is built from: the number parser; the checks on the rest of a header, its checksum and its other
    numbers; the parser of PAX blocks; what it makes of the text of a size; and how far a sparse member reaches, if it
    does not raise an error there.
  */
  datatype Reader = Reader(
    nti: NumberParser, intact: seq<byte> -> bool, records: RecordParser, number: seq<byte> -> int,
    sparse: (seq<byte>, Carried) -> Option<int>)

  // ---- what kind of member a header heads, and how far it reaches ----

  const SLASH: byte := 47

  /** The name field up to its first NUL. */
  function NameOf(header: seq<byte>): seq<byte>
    requires |header| == BLOCK
  {
    header[..Pax.IndexOf(header[..100], 0, 0)]
  }

  /** Before there was a flag for directories, a NUL flag and a name that ends in a slash made one. */
  predicate IsOldDirectory(header: seq<byte>) {
    && |header| == BLOCK && header[156] == 0
    && var name := NameOf(header);
    name != [] && name[|name| - 1] == SLASH
  }

  /** The name ends before byte `n`. */
  ghost predicate NameEnds(header: seq<byte>, n: nat)
    requires |header| == 512
  {
    n <= 100 && (forall k :: 0 <= k < n ==> header[k] != 0) && (n < 100 ==> header[n] == 0)
  }

  lemma OldDirectoryIs(header: seq<byte>, n: nat)
    requires |header| == 512 && NameEnds(header, n)
    ensures IsOldDirectory(header) <==> header[156] == 0 && n > 0 && header[n - 1] == 47
  {
    var field := header[..100];
    assert forall k :: 0 <= k < 100 ==> field[k] == header[k];
    assert Pax.IndexOf(field, 0, 0) == n;
    assert NameOf(header) == header[..n];
  }

  /** Of records with one key the last one counts. */
  function Lookup(pairs: seq<Pair>, key: seq<byte>): Option<seq<byte>> {
    if pairs == [] then None
    else
      var last := pairs[|pairs| - 1];
      if last.key == key then Some(last.value) else Lookup(pairs[..|pairs| - 1], key)
  }

  lemma {:induction false} LookupIs(pairs: seq<Pair>, key: seq<byte>)
    ensures Lookup(pairs, key).None? <==> forall i :: 0 <= i < |pairs| ==> pairs[i].key != key
    ensures forall i :: 0 <= i < |pairs| && pairs[i].key == key && (forall j :: i < j < |pairs| ==> pairs[j].key != key)
              ==> Lookup(pairs, key) == Some(pairs[i].value)
  {
    if pairs != [] && pairs[|pairs| - 1].key != key {
      LookupIs(pairs[..|pairs| - 1], key);
    }
  }

  /** The first local header under which a size applies decides; global sizes count only below a local header. */
  function SizeText(locals: seq<seq<Pair>>): Option<seq<byte>> {
    if locals == [] then None
    else if Lookup(locals[0], Pax.SIZE_KEY).Some? then Lookup(locals[0], Pax.SIZE_KEY)
    else SizeText(locals[1..])
  }

  /** The first of the headers that has a size. */
  ghost predicate FirstWithSize(locals: seq<seq<Pair>>, key: seq<byte>, i: nat) {
    i < |locals| && Lookup(locals[i], key).Some? && forall j :: 0 <= j < i ==> Lookup(locals[j], key).None?
  }

  lemma {:induction false} SizeTextIs(locals: seq<seq<Pair>>, key: seq<byte>, i: nat)
    requires key == [115, 105, 122, 101]
    ensures SizeText(locals).None? <==> forall j :: 0 <= j < |locals| ==> Lookup(locals[j], key).None?
    ensures FirstWithSize(locals, key, i) ==> SizeText(locals) == Lookup(locals[i], key)
  {
    if locals != [] && Lookup(locals[0], key).None? {
      SizeTextIs(locals[1..], key, if i > 0 then i - 1 else 0);
      assert forall j :: 0 < j < |locals| ==> locals[j] == locals[1..][j - 1];
    }
  }

  predicate HasSparse(pairs: seq<Pair>) {
    exists i :: 0 <= i < |pairs| && Pax.SPARSE_PREFIX <= pairs[i].key
  }

  predicate AnySparse(carried: Carried) {
    HasSparse(carried.globals) || exists i :: 0 <= i < |carried.locals| && HasSparse(carried.locals[i])
  }

  /** Python's rounding up to blocks, which a negative size does not stop. */
  function Blocks(size: int): int {
    (size + BLOCK - 1) / BLOCK * BLOCK
  }

  /** How far the next header is from the end of an ordinary one. */
  function Extent(reader: Reader, header: seq<byte>, raw: nat, carried: Carried): Option<int> {
    if KindOf(header) == GNU_SPARSE || AnySparse(carried) then reader.sparse(header, carried)
    else if IsNonData(KindOf(header)) || IsOldDirectory(header) then Some(0)
    else
      match SizeText(carried.locals) case None => Some(Blocks(raw)) case Some(text) => Some(Blocks(reader.number(text)))
  }

  // ---- the reader ----

  /** What the reader does at one place: raise an error, end its list, or move on with what then applies. */
  datatype Turn = Raise | End | Move(boundary: Boundary, carried: Carried)

  /** A header it cannot take ends the list silently, unless it is the first one or had to follow another. */
  function Untaken(offset: nat, chained: bool): Turn {
    if chained || offset == 0 then Raise else End
  }

  /** A global header adds to what holds from then on, a local one to what its member gets on top of that. */
  function Absorb(kind: byte, pairs: seq<Pair>, carried: Carried): Carried {
    if kind == 103 then Carried(carried.globals + pairs, carried.locals, true)
    else Carried(carried.globals, carried.locals + [carried.globals + pairs], true)
  }

  function SpecialTurn(reader: Reader, stream: seq<byte>, offset: nat, kind: byte, size: nat, carried: Carried): Turn
    requires offset + BLOCK <= |stream|
  {
    var next := offset + BLOCK + Padded(size);
    if !IsPax(kind) then (if next > |stream| then Raise else Move(Boundary(offset, next), carried.(chained := true)))
    else
      match reader.records(stream[offset + BLOCK..Min(next, |stream|)])
      case Invalid => Untaken(offset, carried.chained)
      case Crash => Raise
      case Records(pairs) =>
        if next > |stream| then Raise else Move(Boundary(offset, next), Absorb(kind, pairs, carried))
  }

  /** Going back, as a negative size makes it, is taken for an error. */
  function OrdinaryTurn(reader: Reader, offset: nat, header: seq<byte>, raw: nat, carried: Carried): Turn {
    match Extent(reader, header, raw, carried)
    case None => Raise
    case Some(extent) =>
      if extent < 0 then Raise
      else Move(Boundary(offset, offset + BLOCK + extent), Carried(carried.globals, [], false))
  }

  function TurnAt(reader: Reader, stream: seq<byte>, offset: nat, carried: Carried): (t: Turn)
    ensures t.Move? ==> t.boundary.header == offset < t.boundary.next && offset + BLOCK <= |stream|
  {
    if offset > |stream| then Raise
    else if offset + BLOCK > |stream| then Untaken(offset, carried.chained)
    else
      var header := stream[offset..offset + BLOCK];
      if Pax.AllZero(header) then (if carried.chained then Raise else End)
      else if !reader.intact(header) || SizeField(reader.nti, header).None? || SizeField(reader.nti, header).value < 0
      then Untaken(offset, carried.chained)
      else
        var raw: nat := SizeField(reader.nti, header).value;
        if IsSpecial(KindOf(header)) then SpecialTurn(reader, stream, offset, KindOf(header), raw, carried)
        else OrdinaryTurn(reader, offset, header, raw, carried)
  }

  /** The boundaries the reader finds from `offset` on; None when it raises an error. */
  function Walk(reader: Reader, stream: seq<byte>, offset: nat, carried: Carried): Option<seq<Boundary>>
    decreases |stream| - offset
  {
    match TurnAt(reader, stream, offset, carried)
    case Raise => None
    case End => Some([])
    case Move(b, carried') =>
      match Walk(reader, stream, b.next, carried') case None => None case Some(bs) => Some([b] + bs)
  }

  /** The boundaries of the plain scan, which takes every size from the header field. */
  function Boundaries(ms: seq<Member>, offset: nat): seq<Boundary> {
    if ms == [] then []
    else [Boundary(offset, offset + |Bytes(ms[0])|)] + Boundaries(ms[1..], offset + |Bytes(ms[0])|)
  }

  /** A size in a global header counts below a local one, and only there. */
  lemma GlobalSize(pairs: seq<Pair>, key: seq<byte>)
    requires key == [115, 105, 122, 101]
    ensures SizeText(Absorb(103, pairs, FRESH).locals).None?
    ensures SizeText(Absorb(120, [], Absorb(103, pairs, FRESH)).locals) == Lookup(pairs, key)
  {
    var carried := Absorb(120, [], Absorb(103, pairs, FRESH));
    assert pairs + [] == pairs && [] + pairs == pairs && carried.locals == [pairs];
  }

  /** Sparse metadata counts wherever it is carried. */
  lemma SparseCounts(reader: Reader, header: seq<byte>, raw: nat, carried: Carried, pairs: seq<Pair>, pair: Pair)
    requires pair in pairs && [71, 78, 85, 46, 115, 112, 97, 114, 115, 101, 46] <= pair.key
    requires pairs == carried.globals || pairs in carried.locals
    ensures Extent(reader, header, raw, carried) == reader.sparse(header, carried)
  {
    var i :| 0 <= i < |pairs| && pairs[i] == pair;
    assert HasSparse(pairs);
  }

  // ---- when the two agree ----

  /** What applies after a member. */
  function After(reader: Reader, m: Member, carried: Carried): (c: Carried)
    ensures c.chained <==> IsSpecial(KindOf(m.header))
  {
    var kind := KindOf(m.header);
    if IsPax(kind) then Absorb(kind, (match reader.records(m.body) case Records(pairs) => pairs case _ => []), carried)
    else if IsSpecial(kind) then carried.(chained := true)
    else Carried(carried.globals, [], false)
  }

  /** What applies before the member at `k`. */
  function CarriedAt(reader: Reader, ms: seq<Member>, k: nat): (c: Carried)
    requires k <= |ms|
    ensures c.chained <==> k > 0 && IsSpecial(KindOf(ms[k - 1].header))
  {
    if k == 0 then FRESH else After(reader, ms[k - 1], CarriedAt(reader, ms, k - 1))
  }

  /** The reader takes the header, and for a PAX header its whole block. */
  predicate Taken(reader: Reader, m: Member) {
    reader.intact(m.header) && (IsPax(KindOf(m.header)) ==> reader.records(m.body).Records?)
  }

  /** It takes the member, and an ordinary one reaches as far for it as its padded payload does. */
  predicate ReadsAlike(reader: Reader, m: Member, carried: Carried) {
    && Taken(reader, m)
    && (!IsSpecial(KindOf(m.header)) ==>
        Extent(reader, m.header, SizeOf(reader.nti, m.header), carried) == Some(|m.body|))
  }

  /** The last member is a special header with nothing to describe. */
  predicate Dangles(ms: seq<Member>) {
    ms != [] && IsSpecial(KindOf(ms[|ms| - 1].header))
  }

  ghost predicate AlikeFrom(reader: Reader, ms: seq<Member>, k: nat) {
    (forall i :: k <= i < |ms| ==> ReadsAlike(reader, ms[i], CarriedAt(reader, ms, i))) && !Dangles(ms)
  }

  lemma HeaderAt(stream: seq<byte>, offset: nat, m: Member)
    requires StandsAt(stream, offset, m) && |m.header| == BLOCK
    ensures stream[offset..offset + BLOCK] == m.header
    ensures stream[offset + BLOCK..offset + BLOCK + |m.body|] == m.body
  {
  }

  /** Where a member reads alike, the reader moves to where the scan does. */
  lemma WalkStep(reader: Reader, stream: seq<byte>, offset: nat, m: Member, carried: Carried)
    requires MemberOk(reader.nti, m) && StandsAt(stream, offset, m) && ReadsAlike(reader, m, carried)
    ensures TurnAt(reader, stream, offset, carried) ==
            Move(Boundary(offset, offset + |Bytes(m)|), After(reader, m, carried))
  {
    HeaderAt(stream, offset, m);
  }

  /** Where it does not, the reader stops or moves to another place. */
  lemma WalkStrays(reader: Reader, stream: seq<byte>, offset: nat, m: Member, carried: Carried)
    requires MemberOk(reader.nti, m) && StandsAt(stream, offset, m) && !ReadsAlike(reader, m, carried)
    ensures var turn := TurnAt(reader, stream, offset, carried);
            && (turn.Move? ==>
                  Taken(reader, m) && !IsSpecial(KindOf(m.header)) && turn.boundary.next != offset + |Bytes(m)|)
            && (!Taken(reader, m) ==>
                  turn == if reader.intact(m.header) && reader.records(m.body).Crash? then Raise
                          else Untaken(offset, carried.chained))
  {
    HeaderAt(stream, offset, m);
  }

  lemma WalkEnds(reader: Reader, stream: seq<byte>, before: seq<byte>, tail: seq<byte>, carried: Carried)
    requires stream == before + tail && |tail| >= BLOCK && Pax.AllZero(tail)
    ensures TurnAt(reader, stream, |before|, carried) == if carried.chained then Raise else End
  {
    assert stream[|before|..|before| + BLOCK] == tail[..BLOCK];
  }

  /** A walk gives a list exactly when its turn gives the head and what follows gives the rest. */
  lemma WalkUnfolds(reader: Reader, stream: seq<byte>, offset: nat, carried: Carried, turn: Turn, b: Boundary,
      bs: seq<Boundary>)
    requires turn == TurnAt(reader, stream, offset, carried)
    ensures Walk(reader, stream, offset, carried) == Some([b] + bs) <==>
              turn.Move? && turn.boundary == b && Walk(reader, stream, b.next, turn.carried) == Some(bs)
  {
    var rest := if turn.Move? then Walk(reader, stream, turn.boundary.next, turn.carried) else None;
    if rest.Some? {
      ConsInjective(turn.boundary, rest.value, b, bs);
    }
  }

  lemma ConsInjective(a: Boundary, s: seq<Boundary>, b: Boundary, t: seq<Boundary>)
    ensures [a] + s == [b] + t <==> a == b && s == t
  {
    if [a] + s == [b] + t {
      assert a == ([a] + s)[0] == b;
      assert s == ([a] + s)[1..] == ([b] + t)[1..] == t;
    }
  }

  lemma BoundariesCons(ms: seq<Member>, k: nat, offset: nat)
    requires k < |ms|
    ensures var next := offset + |Bytes(ms[k])|;
            Boundaries(ms[k..], offset) == [Boundary(offset, next)] + Boundaries(ms[k + 1..], next)
  {
    assert ms[k..][1..] == ms[k + 1..];
  }

  lemma WalkGoesOn(reader: Reader, stream: seq<byte>, ms: seq<Member>, k: nat, offset: nat, next: nat,
      carried: Carried, after: Carried)
    requires k < |ms| && next == offset + |Bytes(ms[k])|
    requires TurnAt(reader, stream, offset, carried) == Move(Boundary(offset, next), after)
    ensures Walk(reader, stream, offset, carried) == Some(Boundaries(ms[k..], offset)) <==>
              Walk(reader, stream, next, after) == Some(Boundaries(ms[k + 1..], next))
  {
    BoundariesCons(ms, k, offset);
    WalkUnfolds(reader, stream, offset, carried, Move(Boundary(offset, next), after),
                Boundary(offset, next), Boundaries(ms[k + 1..], next));
  }

  lemma WalkGoesWrong(reader: Reader, stream: seq<byte>, ms: seq<Member>, k: nat, offset: nat, carried: Carried)
    requires k < |ms| && MemberOk(reader.nti, ms[k]) && StandsAt(stream, offset, ms[k])
    requires !ReadsAlike(reader, ms[k], carried)
    ensures Walk(reader, stream, offset, carried) != Some(Boundaries(ms[k..], offset))
  {
    var next := offset + |Bytes(ms[k])|;
    BoundariesCons(ms, k, offset);
    WalkStrays(reader, stream, offset, ms[k], carried);
    WalkUnfolds(reader, stream, offset, carried, TurnAt(reader, stream, offset, carried),
                Boundary(offset, next), Boundaries(ms[k + 1..], next));
  }

  lemma WalkAgreesAt(reader: Reader, stream: seq<byte>, ms: seq<Member>, k: nat, offset: nat, next: nat,
      carried: Carried, after: Carried)
    requires k < |ms| && MemberOk(reader.nti, ms[k]) && StandsAt(stream, offset, ms[k])
    requires next == offset + |Bytes(ms[k])|
    requires carried == CarriedAt(reader, ms, k) && after == After(reader, ms[k], carried)
    requires Walk(reader, stream, next, after) == Some(Boundaries(ms[k + 1..], next)) <==> AlikeFrom(reader, ms, k + 1)
    ensures Walk(reader, stream, offset, carried) == Some(Boundaries(ms[k..], offset)) <==> AlikeFrom(reader, ms, k)
  {
    AlikeUnfolds(reader, ms, k);
    if ReadsAlike(reader, ms[k], carried) {
      WalkStep(reader, stream, offset, ms[k], carried);
      WalkGoesOn(reader, stream, ms, k, offset, next, carried, after);
    } else {
      WalkGoesWrong(reader, stream, ms, k, offset, carried);
    }
  }

  lemma {:induction false} WalkAgreesFrom(reader: Reader, stream: seq<byte>, ms: seq<Member>, k: nat, offset: nat,
      tail: seq<byte>, carried: Carried)
    requires Tiles(reader.nti, stream, ms, tail) && k <= |ms| && offset == |Flatten(ms[..k])|
    requires carried == CarriedAt(reader, ms, k)
    ensures Walk(reader, stream, offset, carried) == Some(Boundaries(ms[k..], offset)) <==> AlikeFrom(reader, ms, k)
    decreases |ms| - k
  {
    TilingNext(reader.nti, stream, ms[..k], ms, tail);
    if k == |ms| {
      assert ms[..k] == ms;
      WalkEnds(reader, stream, Flatten(ms[..k]), tail, carried);
    } else {
      MoveOne(reader.nti, ms, k);
      var next, after := offset + |Bytes(ms[k])|, After(reader, ms[k], carried);
      WalkAgreesFrom(reader, stream, ms, k + 1, next, tail, after);
      WalkAgreesAt(reader, stream, ms, k, offset, next, carried, after);
    }
  }

  lemma AlikeUnfolds(reader: Reader, ms: seq<Member>, k: nat)
    requires k < |ms|
    ensures AlikeFrom(reader, ms, k) <==>
              ReadsAlike(reader, ms[k], CarriedAt(reader, ms, k)) && AlikeFrom(reader, ms, k + 1)
  {
  }

  lemma MoveOne(nti: NumberParser, ms: seq<Member>, k: nat)
    requires k < |ms|
    ensures |Flatten(ms[..k + 1])| == |Flatten(ms[..k])| + |Bytes(ms[k])|
  {
    FlattenOne(nti, ms[..k], ms[k]);
    assert ms[..k + 1] == ms[..k] + [ms[k]];
  }

  /**
    On an archive the scan accepts, the reader finds the members of its one tiling exactly when it takes every header
    and PAX block, every ordinary member reaches for it as far as its padded payload, whatever records then apply, and
    no special header comes last.
  */
  lemma AcceptedReadsAlike(reader: Reader, data: seq<byte>, streamBytes: nat, maximumMembers: nat)
    returns (ms: seq<Member>, tail: seq<byte>)
    requires Acceptable(reader.nti, data, streamBytes, maximumMembers)
    ensures Tiles(reader.nti, data[..streamBytes], ms, tail) && WithinCaps(reader.nti, ms, maximumMembers)
    ensures forall ns, other :: Tiles(reader.nti, data[..streamBytes], ns, other) ==> ns == ms && other == tail
    ensures Walk(reader, data[..streamBytes], 0, FRESH) == Some(Boundaries(ms, 0)) <==>
              (forall k :: 0 <= k < |ms| ==> ReadsAlike(reader, ms[k], CarriedAt(reader, ms, k))) && !Dangles(ms)
  {
    var stream := data[..streamBytes];
    ms, tail :| Tiles(reader.nti, stream, ms, tail) && WithinCaps(reader.nti, ms, maximumMembers);
    TilingWalk(reader, stream, ms, tail);
    forall ns, other | Tiles(reader.nti, stream, ns, other) ensures ns == ms && other == tail {
      TilingIsUnique(reader.nti, stream, ms, tail, ns, other);
    }
  }

  lemma TilingWalk(reader: Reader, stream: seq<byte>, ms: seq<Member>, tail: seq<byte>)
    requires Tiles(reader.nti, stream, ms, tail)
    ensures Walk(reader, stream, 0, FRESH) == Some(Boundaries(ms, 0)) <==> AlikeFrom(reader, ms, 0)
  {
    assert ms[0..] == ms && ms[..0] == [];
    WalkAgreesFrom(reader, stream, ms, 0, 0, tail, FRESH);
  }

  // ---- what suffices: PAX blocks that end with their records ----

  lemma AcceptedPayload(payload: seq<byte>)
    requires Pax.FirstFault(payload).None?
    ensures Pax.ReadAll(payload).Some?
    ensures var rs := Pax.ReadAll(payload).value;
            Pax.AllAllowed(rs) && Pax.RenderAll(rs) <= payload && Pax.AllZero(payload[|Pax.RenderAll(rs)|..])
  {
    var zeros := Pax.AcceptedDecomposes(payload);
    assert payload[|Pax.RenderAll(Pax.ReadAll(payload).value)|..] == zeros;
  }

  /** The records that the scan found in a PAX member. */
  ghost function ScannedRecords(nti: NumberParser, m: Member): (rs: seq<Pax.Record>)
    requires MemberOk(nti, m) && IsPax(KindOf(m.header))
    ensures Pax.AllAllowed(rs) && Pax.RenderAll(rs) <= m.body[..SizeOf(nti, m.header)]
    ensures Pax.AllZero(m.body[|Pax.RenderAll(rs)|..SizeOf(nti, m.header)])
  {
    var payload := m.body[..SizeOf(nti, m.header)];
    AcceptedPayload(payload);
    var rs := Pax.ReadAll(payload).value;
    assert payload[|Pax.RenderAll(rs)|..] == m.body[|Pax.RenderAll(rs)|..SizeOf(nti, m.header)];
    rs
  }

  /** Behind those records the block ends or has a NUL. */
  ghost predicate Terminated(nti: NumberParser, m: Member)
    requires MemberOk(nti, m)
  {
    IsPax(KindOf(m.header)) ==>
      var end := |Pax.RenderAll(ScannedRecords(nti, m))|;
      end == |m.body| || m.body[end] == 0
  }

  /** Padding of zeros, or of nothing but a NUL at its front, terminates the records, and so do zeros in the payload. */
  lemma ZerosTerminate(nti: NumberParser, m: Member)
    requires MemberOk(nti, m)
    requires SizeOf(nti, m.header) < |m.body| ==> m.body[SizeOf(nti, m.header)] == 0
    ensures Terminated(nti, m)
  {
    if IsPax(KindOf(m.header)) {
      var end, size := |Pax.RenderAll(ScannedRecords(nti, m))|, SizeOf(nti, m.header);
      if end < size {
        assert m.body[end] == m.body[end..size][0];
      }
    }
  }

  /** No size and no sparse record applies. */
  predicate Harmless(pairs: seq<Pair>) {
    forall i :: 0 <= i < |pairs| ==> pairs[i].key != Pax.SIZE_KEY && !(Pax.SPARSE_PREFIX <= pairs[i].key)
  }

  predicate Clean(carried: Carried) {
    Harmless(carried.globals) && forall i :: 0 <= i < |carried.locals| ==> Harmless(carried.locals[i])
  }

  lemma {:induction false} NoSize(pairs: seq<Pair>)
    requires Harmless(pairs)
    ensures Lookup(pairs, Pax.SIZE_KEY).None? && !HasSparse(pairs)
  {
    if pairs != [] {
      NoSize(pairs[..|pairs| - 1]);
    }
  }

  lemma {:induction false} NoSizeText(locals: seq<seq<Pair>>)
    requires forall i :: 0 <= i < |locals| ==> Harmless(locals[i])
    ensures SizeText(locals).None? && forall i :: 0 <= i < |locals| ==> !HasSparse(locals[i])
  {
    if locals != [] {
      NoSize(locals[0]);
      NoSizeText(locals[1..]);
      assert forall i :: 0 < i < |locals| ==> locals[i] == locals[1..][i - 1];
    }
  }

  lemma CleanExtent(reader: Reader, m: Member, carried: Carried)
    requires MemberOk(reader.nti, m) && Clean(carried)
    ensures Extent(reader, m.header, SizeOf(reader.nti, m.header), carried) ==
            Some(if IsOldDirectory(m.header) then 0 else |m.body|)
  {
    NoSize(carried.globals);
    NoSizeText(carried.locals);
  }

  lemma AllowedIsHarmless(rs: seq<Pax.Record>)
    requires Pax.AllAllowed(rs)
    ensures Harmless(PairsOf(rs))
  {
    forall i | 0 <= i < |rs| ensures PairsOf(rs)[i].key != Pax.SIZE_KEY && !(Pax.SPARSE_PREFIX <= PairsOf(rs)[i].key) {
      assert Pax.Allowed(rs[i]);
    }
  }

  lemma TerminatedIsHarmless(reader: Reader, m: Member)
    requires MemberOk(reader.nti, m) && IsPax(KindOf(m.header)) && Terminated(reader.nti, m) && Lawful(reader.records)
    ensures reader.records(m.body).Records? ==> Harmless(reader.records(m.body).pairs)
  {
    var rs := ScannedRecords(reader.nti, m);
    AllowedIsHarmless(rs);
    assert Pax.RenderAll(rs) <= m.body && Holds(m.body, rs);
  }

  ghost predicate AllTerminated(nti: NumberParser, ms: seq<Member>)
    requires MembersOk(nti, ms)
  {
    forall i :: 0 <= i < |ms| ==> Terminated(nti, ms[i])
  }

  lemma CleanAfter(reader: Reader, m: Member, carried: Carried)
    requires MemberOk(reader.nti, m) && Terminated(reader.nti, m) && Lawful(reader.records) && Clean(carried)
    ensures Clean(After(reader, m, carried))
  {
    if IsPax(KindOf(m.header)) {
      TerminatedIsHarmless(reader, m);
    }
  }

  lemma {:induction false} CleanAt(reader: Reader, ms: seq<Member>, k: nat)
    requires MembersOk(reader.nti, ms) && AllTerminated(reader.nti, ms) && Lawful(reader.records) && k <= |ms|
    ensures Clean(CarriedAt(reader, ms, k))
  {
    if k > 0 {
      CleanAt(reader, ms, k - 1);
      CleanAfter(reader, ms[k - 1], CarriedAt(reader, ms, k - 1));
    }
  }

  /** An old-style directory that declares a payload. */
  predicate Phantom(nti: NumberParser, m: Member) {
    IsOldDirectory(m.header) && SizeOf(nti, m.header) > 0
  }

  lemma CleanReadsAlike(reader: Reader, m: Member, carried: Carried)
    requires MemberOk(reader.nti, m) && Clean(carried)
    ensures ReadsAlike(reader, m, carried) <==> Taken(reader, m) && !Phantom(reader.nti, m)
  {
    CleanExtent(reader, m, carried);
  }

  /**
    Where every PAX block ends with its records or has a NUL behind them, the two agree exactly when the reader takes
    every header and PAX block, no old-style directory declares a payload, and no special header comes last.
  */
  lemma TerminatedReadsAlike(reader: Reader, stream: seq<byte>, ms: seq<Member>, tail: seq<byte>)
    requires Tiles(reader.nti, stream, ms, tail) && AllTerminated(reader.nti, ms) && Lawful(reader.records)
    ensures Walk(reader, stream, 0, FRESH) == Some(Boundaries(ms, 0)) <==>
              (forall k :: 0 <= k < |ms| ==> Taken(reader, ms[k]) && !Phantom(reader.nti, ms[k])) && !Dangles(ms)
  {
    TilingWalk(reader, stream, ms, tail);
    forall k | 0 <= k < |ms|
      ensures ReadsAlike(reader, ms[k], CarriedAt(reader, ms, k)) <==>
                Taken(reader, ms[k]) && !Phantom(reader.nti, ms[k])
    {
      CleanAt(reader, ms, k);
      CleanReadsAlike(reader, ms[k], CarriedAt(reader, ms, k));
    }
  }

  /** What is left of the list when it ends silently before `k`, or nothing where that is an error. */
  function CutAt(ms: seq<Member>, j: nat, k: nat, offset: nat): Option<seq<Boundary>>
    requires j <= k <= |ms|
  {
    if k == 0 || IsSpecial(KindOf(ms[k - 1].header)) then None else Some(Boundaries(ms[j..k], offset))
  }

  lemma CutAtUnfolds(ms: seq<Member>, j: nat, k: nat, offset: nat)
    requires j < k <= |ms|
    ensures var next := offset + |Bytes(ms[j])|;
            CutAt(ms, j, k, offset) ==
            match CutAt(ms, j + 1, k, next) case None => None case Some(bs) => Some([Boundary(offset, next)] + bs)
  {
    assert ms[j..k][1..] == ms[j + 1..k];
  }

  lemma CutOn(reader: Reader, stream: seq<byte>, ms: seq<Member>, j: nat, k: nat, offset: nat, next: nat,
      carried: Carried, after: Carried)
    requires j < k <= |ms| && next == offset + |Bytes(ms[j])|
    requires TurnAt(reader, stream, offset, carried) == Move(Boundary(offset, next), after)
    requires Walk(reader, stream, next, after) == CutAt(ms, j + 1, k, next)
    ensures Walk(reader, stream, offset, carried) == CutAt(ms, j, k, offset)
  {
    CutAtUnfolds(ms, j, k, offset);
  }

  lemma CutPast(reader: Reader, stream: seq<byte>, ms: seq<Member>, j: nat, k: nat, offset: nat, next: nat,
      carried: Carried, after: Carried)
    requires j < k <= |ms| && MemberOk(reader.nti, ms[j]) && StandsAt(stream, offset, ms[j])
    requires ReadsAlike(reader, ms[j], carried) && next == offset + |Bytes(ms[j])|
    requires after == After(reader, ms[j], carried)
    requires Walk(reader, stream, next, after) == CutAt(ms, j + 1, k, next)
    ensures Walk(reader, stream, offset, carried) == CutAt(ms, j, k, offset)
  {
    WalkStep(reader, stream, offset, ms[j], carried);
    CutOn(reader, stream, ms, j, k, offset, next, carried, after);
  }

  lemma CutHere(reader: Reader, stream: seq<byte>, ms: seq<Member>, k: nat, offset: nat, carried: Carried)
    requires k < |ms| && MemberOk(reader.nti, ms[k]) && StandsAt(stream, offset, ms[k]) && (offset == 0 <==> k == 0)
    requires CutsSilently(reader, ms[k]) && carried == CarriedAt(reader, ms, k)
    ensures Walk(reader, stream, offset, carried) == CutAt(ms, k, k, offset)
  {
    WalkStrays(reader, stream, offset, ms[k], carried);
    assert ms[k..k] == [];
  }

  /** A header that is not intact, or a PAX block that is no list of records. */
  predicate CutsSilently(reader: Reader, m: Member) {
    !Taken(reader, m) && (reader.intact(m.header) ==> reader.records(m.body).Invalid?)
  }

  lemma {:induction false} CutShortFrom(reader: Reader, stream: seq<byte>, ms: seq<Member>, j: nat, k: nat, offset: nat,
      tail: seq<byte>, carried: Carried)
    requires Tiles(reader.nti, stream, ms, tail) && j <= k < |ms| && offset == |Flatten(ms[..j])|
    requires carried == CarriedAt(reader, ms, j) && CutsSilently(reader, ms[k])
    requires forall i :: j <= i < k ==> ReadsAlike(reader, ms[i], CarriedAt(reader, ms, i))
    ensures Walk(reader, stream, offset, carried) == CutAt(ms, j, k, offset)
    decreases k - j
  {
    TilingNext(reader.nti, stream, ms[..j], ms, tail);
    if j == k {
      FlattenNonempty(ms[..k]);
      CutHere(reader, stream, ms, k, offset, carried);
    } else {
      MoveOne(reader.nti, ms, j);
      var next, after := offset + |Bytes(ms[j])|, After(reader, ms[j], carried);
      assert ReadsAlike(reader, ms[j], carried);
      CutShortFrom(reader, stream, ms, j + 1, k, next, tail, after);
      CutPast(reader, stream, ms, j, k, offset, next, carried, after);
    }
  }

  lemma FlattenNonempty(ms: seq<Member>)
    requires forall i :: 0 <= i < |ms| ==> |ms[i].header| == BLOCK
    ensures Flatten(ms) == [] <==> ms == []
  {
  }

  /**
    A first header that is not intact, or a first PAX block that is no list of records, is an error at the start and
    after a special header; elsewhere the reader's list ends there without one, and what is behind is not seen.
  */
  lemma CutShort(reader: Reader, stream: seq<byte>, ms: seq<Member>, k: nat, tail: seq<byte>)
    requires Tiles(reader.nti, stream, ms, tail) && k < |ms| && CutsSilently(reader, ms[k])
    requires forall i :: 0 <= i < k ==> ReadsAlike(reader, ms[i], CarriedAt(reader, ms, i))
    ensures Walk(reader, stream, 0, FRESH) ==
            if k == 0 || IsSpecial(KindOf(ms[k - 1].header)) then None else Some(Boundaries(ms[..k], 0))
  {
    assert ms[..0] == [] && ms[0..k] == ms[..k];
    CutShortFrom(reader, stream, ms, 0, k, 0, tail, FRESH);
  }

  // ---- an archive on which they differ ----

  /** A header block with a name, a size field, a checksum field and a flag, and zeros elsewhere. */
  function HeaderBlock(name: seq<byte>, size: seq<byte>, checksum: seq<byte>, flag: byte): (header: seq<byte>)
    requires |name| <= 100 && |size| == 12 && |checksum| == 8
    ensures |header| == BLOCK
  {
    seq(BLOCK, i requires 0 <= i < BLOCK =>
      if i < |name| then name[i] else if 124 <= i < 136 then size[i - 124]
      else if 148 <= i < 156 then checksum[i - 148] else if i == 156 then flag else 0)
  }

  function Zeros(n: nat): (s: seq<byte>)
    ensures |s| == n && Pax.AllZero(s)
  {
    seq(n, i => 0)
  }

  /** The octal numerals 1000 and 0 as size fields. */
  const SIZE_512: seq<byte> := [48, 48, 48, 48, 48, 48, 48, 49, 48, 48, 48, 0]
  const SIZE_0: seq<byte> := [48, 48, 48, 48, 48, 48, 48, 48, 48, 48, 48, 0]

  /** The number that octal digits spell. */
  function Octal(digits: seq<byte>): int {
    if digits == [] then 0 else 8 * Octal(digits[..|digits| - 1]) + digits[|digits| - 1] - 48
  }

  function ByteSum(s: seq<byte>): nat {
    if s == [] then 0 else ByteSum(s[..|s| - 1]) + s[|s| - 1]
  }

  /** The sum of a header's bytes, with blanks for those of the checksum itself. */
  function Checksum(header: seq<byte>): nat
    requires |header| == 512
  {
    ByteSum(header[..148]) + 8 * 32 + ByteSum(header[156..])
  }

  lemma {:induction false} SumConcat(a: seq<byte>, b: seq<byte>)
    ensures ByteSum(a + b) == ByteSum(a) + ByteSum(b)
  {
    if b == [] {
      assert a + b == a;
    } else {
      assert (a + b)[..|a + b| - 1] == a + b[..|b| - 1];
      SumConcat(a, b[..|b| - 1]);
    }
  }

  lemma {:induction false} SumZeros(n: nat)
    ensures ByteSum(Zeros(n)) == 0
  {
    if n > 0 {
      assert Zeros(n)[..n - 1] == Zeros(n - 1);
      SumZeros(n - 1);
    }
  }

  lemma BlockChecksum(name: seq<byte>, size: seq<byte>, checksum: seq<byte>, flag: byte)
    requires |name| <= 100 && |size| == 12 && |checksum| == 8
    ensures Checksum(HeaderBlock(name, size, checksum, flag)) == ByteSum(name) + ByteSum(size) + 256 + flag
    ensures HeaderBlock(name, size, checksum, flag)[148..156] == checksum
  {
    var header, gap := HeaderBlock(name, size, checksum, flag), Zeros(124 - |name|);
    assert header[..148] == name + gap + size + Zeros(12);
    SumConcat(name, gap);
    SumConcat(name + gap, size);
    SumConcat(name + gap + size, Zeros(12));
    SumZeros(124 - |name|);
    SumZeros(12);
    assert header[156..] == [flag] + Zeros(355);
    SumConcat([flag], Zeros(355));
    SumZeros(355);
    assert ByteSum([flag]) == flag by {
      assert [flag][..0] == [];
    }
  }

  /** "a/" with a NUL flag and 512 bytes of payload; "b", a regular file without any; the checksums are right. */
  const OUTER := HeaderBlock([97, 47], SIZE_512, [48, 48, 49, 54, 52, 49, 0, 32], 0)
  const INNER := HeaderBlock([98], SIZE_0, [48, 48, 49, 54, 52, 50, 0, 32], 48)

  lemma SumSnoc(s: seq<byte>, b: byte)
    ensures ByteSum(s + [b]) == ByteSum(s) + b
    ensures Octal(s + [b]) == 8 * Octal(s) + b - 48
  {
    assert (s + [b])[..|s|] == s;
  }

  /** What a numeral of zeros and two digits more spells, and its bytes' sum. */
  lemma {:induction false} LeadingZeros(zeros: seq<byte>, rest: seq<byte>)
    requires forall i :: 0 <= i < |zeros| ==> zeros[i] == 48
    ensures ByteSum(zeros + rest) == 48 * |zeros| + ByteSum(rest)
    ensures Octal(zeros + rest) == Octal(rest)
    decreases |zeros| + |rest|
  {
    if rest != [] {
      var front, last := rest[..|rest| - 1], rest[|rest| - 1];
      LeadingZeros(zeros, front);
      SumSnoc(zeros + front, last);
      SumSnoc(front, last);
      assert zeros + rest == (zeros + front) + [last] && rest == front + [last];
    } else if zeros != [] {
      var front := zeros[..|zeros| - 1];
      LeadingZeros(front, []);
      SumSnoc(front, 48);
      assert zeros + [] == front + [48] && front + [] == front;
    }
  }

  lemma OuterIsOldDirectory()
    ensures IsOldDirectory(OUTER) && !Pax.AllZero(OUTER) && KindOf(OUTER) == 0 && OUTER[124..136] == SIZE_512
  {
    var field := OUTER[..100];
    assert field[0] == 97 && field[1] == SLASH && field[2] == 0;
    assert NameOf(OUTER) == [97, 47];
  }

  lemma InnerIsFile()
    ensures !IsOldDirectory(INNER) && !Pax.AllZero(INNER) && KindOf(INNER) == 48 && INNER[124..136] == SIZE_0
  {
    assert INNER[0] == 98;
  }

  lemma HiddenTiles(nti: NumberParser, stream: seq<byte>, maximumMembers: nat)
    requires nti(SIZE_512) == Some(512) && stream == OUTER + INNER + Zeros(1024)
    ensures MemberOk(nti, Member(OUTER, INNER)) && |Bytes(Member(OUTER, INNER))| == 1024
    ensures Tiles(nti, stream, [Member(OUTER, INNER)], Zeros(1024)) && Acceptable(nti, stream, |stream|, maximumMembers)
  {
    var ms := [Member(OUTER, INNER)];
    OuterIsOldDirectory();
    FlattenOne(nti, [], ms[0]);
    assert [] + [ms[0]] == ms && Flatten(ms) == OUTER + INNER;
    CountOne(nti, [], ms[0]);
    assert stream[..|stream|] == stream;
    assert Tiles(nti, stream[..|stream|], ms, Zeros(1024)) && WithinCaps(nti, ms, maximumMembers);
  }

  lemma WalkCons(reader: Reader, stream: seq<byte>, offset: nat, carried: Carried, after: Carried, bs: seq<Boundary>)
    requires bs != [] && TurnAt(reader, stream, offset, carried) == Move(bs[0], after)
    requires Walk(reader, stream, bs[0].next, after) == Some(bs[1..])
    ensures Walk(reader, stream, offset, carried) == Some(bs)
  {
    assert [bs[0]] + bs[1..] == bs;
  }

  /** A walk of two turns without records. */
  lemma TwoTurns(reader: Reader, stream: seq<byte>, offset: nat, carried: Carried, first: Boundary, second: Boundary)
    requires TurnAt(reader, stream, offset, carried) == Move(first, FRESH)
    requires TurnAt(reader, stream, first.next, FRESH) == Move(second, FRESH)
    requires TurnAt(reader, stream, second.next, FRESH) == End
    ensures Walk(reader, stream, offset, carried) == Some([first, second])
  {
    assert [second][1..] == [] && [first, second][1..] == [second];
    WalkCons(reader, stream, first.next, FRESH, FRESH, [second]);
    WalkCons(reader, stream, offset, carried, FRESH, [first, second]);
  }

  lemma HiddenTurns(reader: Reader, stream: seq<byte>)
    requires reader.nti(SIZE_512) == Some(512) && reader.nti(SIZE_0) == Some(0)
    requires reader.intact(OUTER) && reader.intact(INNER) && stream == OUTER + INNER + Zeros(1024)
    requires MemberOk(reader.nti, Member(OUTER, INNER))
    ensures TurnAt(reader, stream, 0, FRESH) == Move(Boundary(0, 512), FRESH)
    ensures TurnAt(reader, stream, 512, FRESH) == Move(Boundary(512, 1024), FRESH)
    ensures TurnAt(reader, stream, 1024, FRESH) == End
  {
    OuterIsOldDirectory();
    InnerIsFile();
    WalkStrays(reader, stream, 0, Member(OUTER, INNER), FRESH);
    WalkStep(reader, stream, 512, Member(INNER, []), FRESH);
    WalkEnds(reader, stream, OUTER + INNER, Zeros(1024), FRESH);
  }

  /** The scan sees one member here; the reader sees an empty directory and a file in its would-be payload. */
  lemma HiddenMember(reader: Reader, maximumMembers: nat)
    requires reader.nti(SIZE_512) == Some(512) && reader.nti(SIZE_0) == Some(0)
    requires reader.intact(OUTER) && reader.intact(INNER)
    ensures var stream := OUTER + INNER + Zeros(1024);
            && Acceptable(reader.nti, stream, |stream|, maximumMembers)
            && Tiles(reader.nti, stream, [Member(OUTER, INNER)], Zeros(1024))
            && Boundaries([Member(OUTER, INNER)], 0) == [Boundary(0, 1024)]
            && Walk(reader, stream, 0, FRESH) == Some([Boundary(0, 512), Boundary(512, 1024)])
  {
    var stream, outer := OUTER + INNER + Zeros(1024), Member(OUTER, INNER);
    HiddenTiles(reader.nti, stream, maximumMembers);
    BoundariesCons([outer], 0, 0);
    assert [outer][0..] == [outer] && [outer][1..] == [];
    HiddenTurns(reader, stream);
    TwoTurns(reader, stream, 0, FRESH, Boundary(0, 512), Boundary(512, 1024));
  }

  // ---- and another: a size record in the padding ----

  /** The octal numeral 6 as a size field. */
  const SIZE_6: seq<byte> := [48, 48, 48, 48, 48, 48, 48, 48, 48, 48, 54, 0]

  /** "6 a=b" and "10 size=0"; a header that declares the first, and the block behind it that holds both. */
  const SHOWN := Pax.Record([54], [97], [98])
  const UNSHOWN := Pax.Record([49, 48], Pax.SIZE_KEY, [48])
  const LOCAL := HeaderBlock([120], SIZE_6, [48, 48, 50, 48, 48, 54, 0, 32], 120)
  const PADDED := Pax.Render(SHOWN) + Pax.Render(UNSHOWN) + Zeros(496)

  /** "f", a regular file with 512 bytes. */
  const FILE := HeaderBlock([102], SIZE_512, [48, 48, 49, 54, 52, 55, 0, 32], 48)

  lemma PaddedHolds()
    ensures |PADDED| == BLOCK && Holds(PADDED, [SHOWN, UNSHOWN]) && PADDED[..6] == Pax.Render(SHOWN)
    ensures Pax.FirstFault(PADDED[..6]).None?
  {
    assert Pax.WellFormed(SHOWN) by {
      assert ParseNat([54]) == 6;
    }
    assert Pax.WellFormed(UNSHOWN) by {
      assert [49, 48][..1] == [49];
      assert ParseNat([49]) == 1 && ParseNat([49, 48]) == 10;
    }
    Pax.RenderCons(SHOWN, [UNSHOWN]);
    Pax.RenderCons(UNSHOWN, []);
    Pax.RenderCons(SHOWN, []);
    assert [SHOWN] + [UNSHOWN] == [SHOWN, UNSHOWN] && [UNSHOWN] + [] == [UNSHOWN] && [SHOWN] + [] == [SHOWN];
    assert Pax.RenderAll([SHOWN, UNSHOWN]) == Pax.Render(SHOWN) + Pax.Render(UNSHOWN);
    assert Pax.RenderAll([SHOWN]) + [] == Pax.Render(SHOWN);
    Pax.PrintedIsAccepted([SHOWN], []);
  }

  /** The parsers of the library read both records. */
  lemma PaddedIsRead(charset: seq<byte> -> bool)
    requires charset(PADDED)
    ensures Lenient(charset, PADDED) == Strict(PADDED) == Records([Pair([97], [98]), Pair(Pax.SIZE_KEY, [48])])
  {
    PaddedHolds();
    LenientReads(PADDED, [SHOWN, UNSHOWN]);
    StrictReads(PADDED, [SHOWN, UNSHOWN]);
  }

  lemma LocalIsPax()
    ensures !Pax.AllZero(LOCAL) && KindOf(LOCAL) == 120 && LOCAL[124..136] == SIZE_6
    ensures !Pax.AllZero(FILE) && KindOf(FILE) == 48 && FILE[124..136] == SIZE_512 && !IsOldDirectory(FILE)
  {
    assert LOCAL[0] == 120 && FILE[0] == 102;
  }

  lemma OneDigit(a: byte)
    ensures ByteSum([a]) == a && Octal([a]) == a - 48
  {
    SumSnoc([], a);
    assert [] + [a] == [a];
  }

  lemma FourDigits(a: byte, b: byte, c: byte, d: byte)
    ensures ByteSum([a, b, c, d]) == a + b + c + d
    ensures Octal([a, b, c, d]) == 512 * (a - 48) + 64 * (b - 48) + 8 * (c - 48) + d - 48
  {
    var two, three := [a] + [b], [a] + [b] + [c];
    OneDigit(a);
    SumSnoc([a], b);
    SumSnoc(two, c);
    SumSnoc(three, d);
    assert three + [d] == [a, b, c, d];
  }

  /** A size field of seven zeros, four digits and a NUL. */
  lemma SizeFieldIs(size: seq<byte>, a: byte, b: byte, c: byte, d: byte)
    requires size == [48, 48, 48, 48, 48, 48, 48, a, b, c, d, 0]
    ensures ByteSum(size) == 7 * 48 + a + b + c + d && Octal(size[..11]) == Octal([a, b, c, d])
  {
    var zeros := [48, 48, 48, 48, 48, 48, 48];
    FourDigits(a, b, c, d);
    LeadingZeros(zeros, [a, b, c, d]);
    assert size[..11] == zeros + [a, b, c, d];
    SumSnoc(size[..11], 0);
    assert size == size[..11] + [0];
  }

  lemma ChecksumIsRight(name: byte, slash: seq<byte>, size: seq<byte>, digits: seq<byte>, flag: byte, sum: nat)
    requires |slash| <= 1 && |size| == 12 && |digits| == 4
    requires sum == name + (if slash == [] then 0 else slash[0]) + ByteSum(size) + 256 + flag && Octal(digits) == sum
    ensures var header := HeaderBlock([name] + slash, size, [48, 48] + digits + [0, 32], flag);
            Checksum(header) == Octal(header[148..154]) == sum
  {
    var checksum := [48, 48] + digits + [0, 32];
    var header := HeaderBlock([name] + slash, size, checksum, flag);
    BlockChecksum([name] + slash, size, checksum, flag);
    SumSnoc([], name);
    assert [] + [name] == [name] && [name] + [] == [name];
    if slash != [] {
      SumSnoc([name], slash[0]);
      assert slash == [slash[0]];
    }
    LeadingZeros([48, 48], digits);
    assert header[148..154] == header[148..156][..6] == [48, 48] + digits;
  }

  /** The size fields of these headers spell 512, 0 and 6, and their checksum fields their checksums. */
  lemma NumbersAreRight()
    ensures Octal(SIZE_512[..11]) == 512 && Octal(SIZE_0[..11]) == 0 && Octal(SIZE_6[..11]) == 6
    ensures Checksum(OUTER) == Octal(OUTER[148..154]) && Checksum(INNER) == Octal(INNER[148..154])
    ensures Checksum(LOCAL) == Octal(LOCAL[148..154]) && Checksum(FILE) == Octal(FILE[148..154])
  {
    SizeFieldIs(SIZE_512, 49, 48, 48, 48);
    SizeFieldIs(SIZE_0, 48, 48, 48, 48);
    SizeFieldIs(SIZE_6, 48, 48, 48, 54);
    FourDigits(49, 48, 48, 48);
    FourDigits(48, 48, 48, 48);
    FourDigits(48, 48, 48, 54);
    FourDigits(49, 54, 52, 49);
    FourDigits(49, 54, 52, 50);
    FourDigits(50, 48, 48, 54);
    FourDigits(49, 54, 52, 55);
    ChecksumIsRight(97, [47], SIZE_512, [49, 54, 52, 49], 0, 929);
    ChecksumIsRight(98, [], SIZE_0, [49, 54, 52, 50], 48, 930);
    ChecksumIsRight(120, [], SIZE_6, [50, 48, 48, 54], 120, 1030);
    ChecksumIsRight(102, [], SIZE_512, [49, 54, 52, 55], 48, 935);
    SameHeaders();
  }

  lemma SameHeaders()
    ensures OUTER == HeaderBlock([97] + [47], SIZE_512, [48, 48] + [49, 54, 52, 49] + [0, 32], 0)
    ensures INNER == HeaderBlock([98] + [], SIZE_0, [48, 48] + [49, 54, 52, 50] + [0, 32], 48)
    ensures LOCAL == HeaderBlock([120] + [], SIZE_6, [48, 48] + [50, 48, 48, 54] + [0, 32], 120)
    ensures FILE == HeaderBlock([102] + [], SIZE_512, [48, 48] + [49, 54, 52, 55] + [0, 32], 48)
  {
    assert [97] + [47] == [97, 47] && [98] + [] == [98] && [120] + [] == [120] && [102] + [] == [102];
    assert [48, 48] + [49, 54, 52, 49] + [0, 32] == [48, 48, 49, 54, 52, 49, 0, 32];
    assert [48, 48] + [49, 54, 52, 50] + [0, 32] == [48, 48, 49, 54, 52, 50, 0, 32];
    assert [48, 48] + [50, 48, 48, 54] + [0, 32] == [48, 48, 50, 48, 48, 54, 0, 32];
    assert [48, 48] + [49, 54, 52, 55] + [0, 32] == [48, 48, 49, 54, 52, 55, 0, 32];
  }

  lemma OverrideTiles(nti: NumberParser, stream: seq<byte>, maximumMembers: nat)
    requires nti(SIZE_512) == Some(512) && nti(SIZE_6) == Some(6)
    requires stream == LOCAL + PADDED + FILE + INNER + Zeros(1024)
    ensures |PADDED| == BLOCK && MembersOk(nti, [Member(LOCAL, PADDED), Member(FILE, INNER)])
    ensures Tiles(nti, stream, [Member(LOCAL, PADDED), Member(FILE, INNER)], Zeros(1024))
    ensures Acceptable(nti, stream, |stream|, maximumMembers)
  {
    var local, file := Member(LOCAL, PADDED), Member(FILE, INNER);
    var ms := [local, file];
    PaddedHolds();
    LocalIsPax();
    FlattenOne(nti, [], local);
    FlattenOne(nti, [local], file);
    CountOne(nti, [], local);
    CountOne(nti, [local], file);
    assert [] + [local] == [local] && [local] + [file] == ms;
    assert Flatten(ms) == LOCAL + PADDED + FILE + INNER;
    assert MemberOk(nti, local) && MemberOk(nti, file);
    assert stream[..|stream|] == stream;
    assert Tiles(nti, stream[..|stream|], ms, Zeros(1024)) && WithinCaps(nti, ms, maximumMembers);
  }

  /** What the reader carries from the local header to the file. */
  const OVERRIDE := Carried([], [[Pair([97], [98]), Pair(Pax.SIZE_KEY, [48])]], true)

  lemma OverrideSize(reader: Reader)
    requires reader.number([48]) == 0
    ensures Extent(reader, FILE, 512, OVERRIDE) == Some(0)
  {
    LocalIsPax();
    var pairs := OVERRIDE.locals[0];
    assert pairs[..1] == [Pair([97], [98])];
    assert Lookup(pairs, Pax.SIZE_KEY) == Some([48]);
  }

  lemma OverrideFirst(reader: Reader, stream: seq<byte>)
    requires reader.nti(SIZE_6) == Some(6) && reader.intact(LOCAL)
    requires reader.records(PADDED) == Records(OVERRIDE.locals[0])
    requires stream == LOCAL + PADDED + FILE + INNER + Zeros(1024) && |PADDED| == BLOCK
    requires MemberOk(reader.nti, Member(LOCAL, PADDED))
    ensures TurnAt(reader, stream, 0, FRESH) == Move(Boundary(0, 1024), OVERRIDE)
  {
    LocalIsPax();
    WalkStep(reader, stream, 0, Member(LOCAL, PADDED), FRESH);
    assert [] + OVERRIDE.locals[0] == OVERRIDE.locals[0] && [] + [OVERRIDE.locals[0]] == OVERRIDE.locals;
  }

  lemma OverrideTurns(reader: Reader, stream: seq<byte>)
    requires reader.nti(SIZE_512) == Some(512) && reader.nti(SIZE_0) == Some(0)
    requires reader.intact(FILE) && reader.intact(INNER) && reader.number([48]) == 0
    requires stream == LOCAL + PADDED + FILE + INNER + Zeros(1024) && |PADDED| == BLOCK
    ensures TurnAt(reader, stream, 1024, OVERRIDE) == Move(Boundary(1024, 1536), FRESH)
    ensures TurnAt(reader, stream, 1536, FRESH) == Move(Boundary(1536, 2048), FRESH)
    ensures TurnAt(reader, stream, 2048, FRESH) == End
  {
    LocalIsPax();
    InnerIsFile();
    OverrideSize(reader);
    assert stream[1024..1536] == FILE;
    WalkStep(reader, stream, 1536, Member(INNER, []), FRESH);
    WalkEnds(reader, stream, LOCAL + PADDED + FILE + INNER, Zeros(1024), FRESH);
  }

  /**
    The scan reads the declared six bytes of a PAX block and finds no size in them; the reader reads the block, and for
    it the file that follows is empty and what the scan took for its payload is one more member.
  */
  lemma HiddenOverride(reader: Reader, maximumMembers: nat)
    requires reader.nti(SIZE_512) == Some(512) && reader.nti(SIZE_6) == Some(6) && reader.nti(SIZE_0) == Some(0)
    requires reader.intact(LOCAL) && reader.intact(FILE) && reader.intact(INNER) && reader.number([48]) == 0
    requires reader.records(PADDED) == Records([Pair([97], [98]), Pair(Pax.SIZE_KEY, [48])])
    ensures var stream, ms := LOCAL + PADDED + FILE + INNER + Zeros(1024), [Member(LOCAL, PADDED), Member(FILE, INNER)];
            && Acceptable(reader.nti, stream, |stream|, maximumMembers) && Tiles(reader.nti, stream, ms, Zeros(1024))
            && Boundaries(ms, 0) == [Boundary(0, 1024), Boundary(1024, 2048)]
            && Walk(reader, stream, 0, FRESH) == Some([Boundary(0, 1024), Boundary(1024, 1536), Boundary(1536, 2048)])
  {
    var stream, ms := LOCAL + PADDED + FILE + INNER + Zeros(1024), [Member(LOCAL, PADDED), Member(FILE, INNER)];
    OverrideTiles(reader.nti, stream, maximumMembers);
    BoundariesCons(ms, 0, 0);
    BoundariesCons(ms, 1, 1024);
    assert ms[0..] == ms && ms[1..] == [ms[1]] && ms[2..] == [];
    assert MemberOk(reader.nti, ms[0]);
    OverrideFirst(reader, stream);
    OverrideTurns(reader, stream);
    TwoTurns(reader, stream, 1024, OVERRIDE, Boundary(1024, 1536), Boundary(1536, 2048));
    var bs := [Boundary(0, 1024), Boundary(1024, 1536), Boundary(1536, 2048)];
    assert bs[1..] == [Boundary(1024, 1536), Boundary(1536, 2048)];
    WalkCons(reader, stream, 0, FRESH, OVERRIDE, bs);
  }
}

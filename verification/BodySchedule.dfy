/** One JSON body delivered in nonempty chunks on a fixed flush schedule. */
module BodySchedule {
  import opened Basics
  import opened JsonText

  const MAX_BODY := 65536
  const MAX_CHUNKS := 16
  const MAX_SECONDS := 60.0

  // ---- splitting ----

  lemma Distribute(q: nat, p: nat, count: nat)
    ensures (q + p) * count == q * count + p * count
  {
  }

  lemma SumOfQuotients(q: nat, r: nat, p: nat, s: nat, count: nat)
    requires r < count && s < count
    ensures q + p <= (q * count + r + (p * count + s)) / count <= q + p + 1
  {
    Distribute(q, p, count);
    Distribute(q + p, 1, count);
    if r + s < count {
      Quotient(q + p, r + s, count);
    } else {
      Quotient(q + p + 1, r + s - count, count);
    }
  }

  lemma DivideSum(a: nat, b: nat, count: nat)
    requires count > 0
    ensures a / count + b / count <= (a + b) / count <= a / count + b / count + 1
  {
    SumOfQuotients(a / count, a % count, b / count, b % count, count);
  }

  lemma {:induction false} Product(a: nat, b: nat, count: nat)
    requires a < b
    ensures a * count + count <= b * count
  {
    assert b * count == (b - 1) * count + count;
    if a < b - 1 {
      Product(a, b - 1, count);
    }
  }

  lemma Quotient(q: nat, r: nat, count: nat)
    requires r < count
    ensures (q * count + r) / count == q
  {
    var d := (q * count + r) / count;
    if d < q {
      Product(d, q, count);
    } else if q < d {
      Product(q, d, count);
    }
  }

  /** Where part `i` of `count` equal parts begins, rounded down. */
  function Cut(length: nat, count: nat, i: nat): nat
    requires count > 0
  {
    length * i / count
  }

  /** Where each chunk begins, and where the last one ends. */
  function Cuts(length: nat, count: nat): (cuts: seq<nat>)
    requires count > 0
    ensures |cuts| == count + 1 && forall i :: 0 <= i <= count ==> cuts[i] == Cut(length, count, i)
  {
    seq(count + 1, i requires 0 <= i <= count => Cut(length, count, i))
  }

  lemma CutStep(length: nat, count: nat, i: nat)
    requires 0 < count
    ensures Cut(length, count, i) + length / count <= Cut(length, count, i + 1)
    ensures Cut(length, count, i + 1) <= Cut(length, count, i) + length / count + 1
  {
    Distribute(i, 1, length);
    DivideSum(length * i, length, count);
  }

  lemma CutEnds(length: nat, count: nat)
    requires 0 < count
    ensures Cut(length, count, 0) == 0 && Cut(length, count, count) == length
  {
    Quotient(length, 0, count);
    Quotient(0, 0, count);
  }

  /** Later cuts are no earlier, and a whole average part later where there is a part between. */
  lemma {:induction false} CutRises(length: nat, count: nat, i: nat, j: nat)
    requires 0 < count && i <= j
    ensures Cut(length, count, i) <= Cut(length, count, j)
    ensures i < j ==> Cut(length, count, i) + length / count <= Cut(length, count, j)
    decreases j - i
  {
    if i < j {
      CutStep(length, count, i);
      CutRises(length, count, i + 1, j);
    }
  }

  lemma AverageIsPositive(length: nat, count: nat)
    requires 0 < count <= length
    ensures 1 <= length / count
  {
    assert length == count + (length - count);
    DivideSum(count, length - count, count);
    Quotient(1, 0, count);
  }

  lemma CutsFit(length: nat, count: nat, i: nat, j: nat)
    requires 0 < count && i <= j <= count
    ensures Cuts(length, count)[i] <= Cuts(length, count)[j] <= length
  {
    CutRises(length, count, i, j);
    CutRises(length, count, j, count);
    CutEnds(length, count);
  }

  function Chunk(body: string, count: nat, index: nat): string
    requires index < count
  {
    CutsFit(|body|, count, index, index + 1);
    body[Cuts(|body|, count)[index]..Cuts(|body|, count)[index + 1]]
  }

  function Chunks(body: string, count: nat): (r: seq<string>)
    ensures |r| == count
  {
    seq(count, i requires 0 <= i < count => Chunk(body, count, i))
  }

  function Joined(chunks: seq<string>): string {
    if chunks == [] then "" else Joined(chunks[..|chunks| - 1]) + chunks[|chunks| - 1]
  }

  /** After `k` chunks exactly the body up to cut `k` has been delivered. */
  lemma {:induction false} JoinedIsPrefix(body: string, count: nat, k: nat)
    requires 0 < count && k <= count
    ensures Cuts(|body|, count)[k] <= |body|
    ensures Joined(Chunks(body, count)[..k]) == body[..Cuts(|body|, count)[k]]
  {
    CutEnds(|body|, count);
    CutsFit(|body|, count, k, k);
    if k > 0 {
      JoinedIsPrefix(body, count, k - 1);
      CutsFit(|body|, count, k - 1, k);
      JoinedLast(Chunks(body, count), k);
      Adjacent(body, Cuts(|body|, count)[k - 1], Cuts(|body|, count)[k]);
    }
  }

  lemma JoinedLast(chunks: seq<string>, k: nat)
    requires 0 < k <= |chunks|
    ensures Joined(chunks[..k]) == Joined(chunks[..k - 1]) + chunks[k - 1]
  {
    assert chunks[..k][..k - 1] == chunks[..k - 1];
  }

  lemma Adjacent(body: string, a: nat, b: nat)
    requires a <= b <= |body|
    ensures body[..a] + body[a..b] == body[..b]
  {
  }

  /** The chunks make up the body, none is empty, and their sizes differ by at most one. */
  lemma ChunksPartition(body: string, count: nat)
    requires 0 < count <= |body|
    ensures Joined(Chunks(body, count)) == body
    ensures forall i :: 0 <= i < count ==> |body| / count <= |Chunks(body, count)[i]| <= |body| / count + 1
    ensures forall i :: 0 <= i < count ==> Chunks(body, count)[i] != ""
  {
    JoinedIsPrefix(body, count, count);
    CutEnds(|body|, count);
    assert Chunks(body, count)[..count] == Chunks(body, count);
    AverageIsPositive(|body|, count);
    forall i | 0 <= i < count
      ensures |body| / count <= |Chunks(body, count)[i]| <= |body| / count + 1
    {
      ChunkSize(body, count, i);
    }
  }

  lemma ChunkSize(body: string, count: nat, i: nat)
    requires i < count
    ensures |body| / count <= |Chunk(body, count, i)| <= |body| / count + 1
  {
    CutsFit(|body|, count, i, i + 1);
    CutStep(|body|, count, i);
  }

  /** Padding a short container with leading spaces keeps every chunk nonempty and every proper delivery incomplete. */
  function Pad(encoded: string, count: nat): (body: string)
    ensures |body| == Max(|encoded|, count)
  {
    Spaces(Max(0, count - |encoded|)) + encoded
  }

  function Spaces(n: nat): (s: string)
    ensures |s| == n && forall i :: 0 <= i < n ==> s[i] == ' '
  {
    seq(n, i => ' ')
  }

  /** A cut of a container text with leading spaces is complete only when it cuts nothing off. */
  lemma CutIsComplete(lead: string, n: Node, body: string, at: nat)
    requires NodeOk(n) && IsContainer(n) && AllWs(lead) && body == lead + Print(n) && at <= |body|
    ensures IsDocument(body[..at]) <==> at == |body|
  {
    if at == |body| {
      var after := "";
      assert AllWs(after) && body[..at] == lead + Print(n) + after;
    } else if IsDocument(body[..at]) {
      NoProperPrefix(lead, n, body[..at]);
      assert false;
    }
  }

  /** What has been delivered after `k` chunks is a complete JSON text only when that is everything. */
  lemma OnlyAllIsComplete(n: Node, count: nat, k: nat)
    requires NodeOk(n) && IsContainer(n) && 0 < count && k <= count
    ensures IsDocument(Joined(Chunks(Pad(Print(n), count), count)[..k])) <==> k == count
  {
    var body := Pad(Print(n), count);
    var at := Cuts(|body|, count)[k];
    JoinedIsPrefix(body, count, k);
    CutReachesEnd(|body|, count, k);
    CutIsComplete(Spaces(Max(0, count - |Print(n)|)), n, body, at);
  }

  lemma CutReachesEnd(length: nat, count: nat, k: nat)
    requires 0 < count <= length && k <= count
    ensures Cuts(length, count)[k] == length <==> k == count
  {
    CutEnds(length, count);
    AverageIsPositive(length, count);
    CutRises(length, count, k, count);
  }

  // ---- the schedule ----

  datatype Schedule = Schedule(body: string, chunks: seq<string>, offsets: seq<real>, late: Option<int>)

  /** The construction checks: 2 to 16 strictly rising offsets from 0 within a minute, and only a final late close. */
  predicate OffsetsOk(offsets: seq<real>, late: Option<int>) {
    && 2 <= |offsets| <= MAX_CHUNKS && offsets[0] == 0.0
    && (forall i :: 0 <= i < |offsets| - 1 ==> offsets[i] < offsets[i + 1])
    && offsets[|offsets| - 1] <= MAX_SECONDS
    && (late.Some? ==> late.value == |offsets| - 1)
  }

  /** None where the source rejects its arguments. */
  function Plan(encoded: string, offsets: seq<real>, late: Option<int>): (r: Option<Schedule>) {
    if !OffsetsOk(offsets, late) || |encoded| > MAX_BODY then None
    else
      var body := Pad(encoded, |offsets|);
      Some(Schedule(body, Chunks(body, |offsets|), offsets, late))
  }

  /** A plan's chunks make up its body, and what has been delivered is a complete JSON text only after all of them. */
  lemma PlanIsSound(n: Node, offsets: seq<real>, late: Option<int>)
    requires NodeOk(n) && IsContainer(n)
    ensures var plan := Plan(Print(n), offsets, late);
            && (plan.Some? <==> OffsetsOk(offsets, late) && |Print(n)| <= MAX_BODY)
            && (plan.Some? ==>
                  var chunks := plan.value.chunks;
                  && |chunks| == |offsets| && plan.value.offsets == offsets && plan.value.late == late
                  && Joined(chunks) == plan.value.body
                  && (forall i :: 0 <= i < |chunks| ==> chunks[i] != "")
                  && forall k :: 0 <= k <= |chunks| ==> (IsDocument(Joined(chunks[..k])) <==> k == |chunks|))
  {
    if OffsetsOk(offsets, late) {
      var count, chunks := |offsets|, Chunks(Pad(Print(n), |offsets|), |offsets|);
      ChunksPartition(Pad(Print(n), count), count);
      forall k | 0 <= k <= count ensures IsDocument(Joined(chunks[..k])) <==> k == count {
        OnlyAllIsComplete(n, count, k);
      }
    }
  }

  lemma CutIs(length: nat, count: nat, i: nat)
    requires count > 0
    ensures Cut(length, count, i) * count <= length * i < (Cut(length, count, i) + 1) * count
  {
    Distribute(Cut(length, count, i), 1, count);
  }

  /** Which arguments are accepted, and that the body is the text behind as many blanks as it needs. */
  lemma PlanIs(encoded: string, offsets: seq<real>, late: Option<int>)
    ensures Plan(encoded, offsets, late).Some? <==>
            && 2 <= |offsets| <= 16 && offsets[0] == 0.0 && offsets[|offsets| - 1] <= 60.0
            && (forall i, j :: 0 <= i < j < |offsets| ==> offsets[i] < offsets[j])
            && (late.Some? ==> late.value == |offsets| - 1) && |encoded| <= 65536
    ensures Plan(encoded, offsets, late).Some? ==>
              var body := Plan(encoded, offsets, late).value.body;
              var blanks := |body| - |encoded|;
              && 0 <= blanks == Max(0, |offsets| - |encoded|) && body[blanks..] == encoded
              && forall k :: 0 <= k < blanks ==> body[k] == ' '
  {
    if OffsetsOk(offsets, late) {
      forall i, j | 0 <= i < j < |offsets| ensures offsets[i] < offsets[j] {
        OffsetsRise(offsets, i, j);
      }
    }
  }

  lemma {:induction false} OffsetsRise(offsets: seq<real>, i: nat, j: nat)
    requires i < j < |offsets| && forall k :: 0 <= k < |offsets| - 1 ==> offsets[k] < offsets[k + 1]
    ensures offsets[i] < offsets[j]
  {
    if i < j - 1 {
      OffsetsRise(offsets, i, j - 1);
    }
    var k := j - 1;
    assert offsets[k] < offsets[k + 1];
  }

  /** Chunk `i` of `count` runs between the last positions that are no more than its share of the body. */
  lemma ChunkIs(encoded: string, offsets: seq<real>, late: Option<int>, i: nat) returns (a: nat, b: nat)
    requires Plan(encoded, offsets, late).Some? && i < |offsets|
    ensures var count, plan := |offsets|, Plan(encoded, offsets, late).value;
            && a <= b <= |plan.body| && |plan.chunks| == count && plan.chunks[i] == plan.body[a..b]
            && a * count <= |plan.body| * i < (a + 1) * count
            && b * count <= |plan.body| * (i + 1) < (b + 1) * count
  {
    var count, body := |offsets|, Plan(encoded, offsets, late).value.body;
    a, b := Cut(|body|, count, i), Cut(|body|, count, i + 1);
    CutsFit(|body|, count, i, i + 1);
    CutIs(|body|, count, i);
    CutIs(|body|, count, i + 1);
  }

  /** What a slot may raise; Derived is a subclass of a disconnect, without category; ShortWrite the refusal of one. */
  datatype Raised = BrokenPipe | ConnectionReset | TlsEof | TlsClosed | Derived | ShortWrite | OtherError

  predicate HasCategory(raised: Raised) {
    raised.BrokenPipe? || raised.ConnectionReset? || raised.TlsEof? || raised.TlsClosed?
  }

  datatype Outcome = Flushed | PeerClosed(category: Raised)

  datatype Observation = Observation(
    index: nat, scheduled: real, started: real, completed: real,
    byteCount: nat, flushedByteCount: Option<nat>, outcome: Outcome)

  /** The peer and the clock; `buffered` has been written, and `delivered` is what successful flushes have sent. */
  class Wire {
    var clock: real
    var cancelled: bool

    /** How often a wait may still return before its time. */
    var earlyReturns: nat
    ghost var buffered: string
    ghost var delivered: string
    /** What the last failing call raised. */
    ghost var raised: Option<Raised>
    /** The last write took less than the whole chunk. */
    ghost var short: bool

    constructor (now: real, earlyReturns: nat)
      ensures clock == now && this.earlyReturns == earlyReturns && buffered == delivered == "" && !cancelled
    {
      clock, cancelled, buffered, delivered, raised, short := now, false, "", "", None, false;
      this.earlyReturns := earlyReturns;
    }

    /** Time passes, and another thread may cancel the schedule. */
    method Tick()
      modifies `clock, `cancelled
      ensures clock >= old(clock) && (old(cancelled) ==> cancelled)
    {
      var passed: nat, cancels: bool := *, *;
      clock := clock + passed as real;
      cancelled := cancelled || cancels;
    }

    /** Event.wait: returns when cancelled, when the time has passed, or, finitely often, before that. */
    method WaitCancelled(seconds: real)
      modifies `clock, `cancelled, `earlyReturns
      ensures old(cancelled) ==> cancelled
      ensures clock >= old(clock) && earlyReturns <= old(earlyReturns)
      ensures cancelled || clock >= old(clock) + seconds || earlyReturns < old(earlyReturns)
    {
      Tick();
      var early: bool := *;
      if early && earlyReturns > 0 {
        earlyReturns := earlyReturns - 1;
      } else if !cancelled && seconds > 0.0 {
        clock := clock + seconds;
      }
    }

    /** Takes some front part of the chunk and says how much, or raises. */
    method Write(chunk: string) returns (r: Result<nat, Raised>)
      modifies `clock, `cancelled, `buffered, `raised, `short
      ensures clock >= old(clock) && (old(cancelled) ==> cancelled)
      ensures r.Ok? ==> r.value <= |chunk| && buffered == old(buffered) + chunk[..r.value]
      ensures short <==> r.Ok? && r.value < |chunk|
      ensures r.Err? ==> r.error != ShortWrite && raised == Some(r.error)
    {
      Tick();
      var fails: bool, error: Raised, taken: nat := *, *, *;
      buffered := buffered + chunk[..Min(taken, |chunk|)];
      short := !fails && taken < |chunk|;
      if fails {
        raised := Some(if error == ShortWrite then OtherError else error);
        return Err(if error == ShortWrite then OtherError else error);
      }
      return Ok(Min(taken, |chunk|));
    }

    /** Sends everything written so far, or raises. */
    method Flush() returns (r: Result<(), Raised>)
      modifies `clock, `cancelled, `buffered, `delivered, `raised
      ensures clock >= old(clock) && (old(cancelled) ==> cancelled)
      ensures r.Ok? ==> delivered == old(delivered) + old(buffered) && buffered == ""
      ensures r.Err? ==> delivered == old(delivered) && r.error != ShortWrite && raised == Some(r.error)
    {
      Tick();
      var fails: bool, error: Raised := *, *;
      if fails {
        raised := Some(if error == ShortWrite then OtherError else error);
        return Err(if error == ShortWrite then OtherError else error);
      }
      delivered, buffered := delivered + buffered, "";
      return Ok(());
    }
  }

  /** Slot `i` was attempted in order, once due, with its whole chunk, and only the declared last slot may close. */
  ghost predicate SlotOk(plan: Schedule, observations: seq<Observation>, i: nat)
    requires i < |observations| <= |plan.chunks| == |plan.offsets|
  {
    var o := observations[i];
    && o.index == i && o.scheduled == plan.offsets[i]
    && plan.offsets[i] <= o.started <= o.completed
    && o.byteCount == |plan.chunks[i]|
    && (o.outcome.Flushed? ==> o.flushedByteCount == Some(|plan.chunks[i]|))
    && (o.outcome.PeerClosed? ==>
          && o.flushedByteCount.None? && plan.late == Some(i) && i == |plan.chunks| - 1
          && o.outcome.category !in {Derived, ShortWrite, OtherError})
    && (i > 0 ==> observations[i - 1].completed <= o.started)
  }

  class Fixture {
    const plan: Schedule
    const wire: Wire
    var startedAt: real
    var observations: seq<Observation>
    var completed: bool
    var finished: bool

    constructor (plan: Schedule, wire: Wire)
      requires OffsetsOk(plan.offsets, plan.late) && |plan.chunks| == |plan.offsets|
      ensures this.plan == plan && this.wire == wire && Valid() && observations == [] && !completed
      ensures startedAt == wire.clock
    {
      this.plan, this.wire, startedAt := plan, wire, wire.clock;
      observations, completed, finished := [], false, false;
    }

    ghost predicate Valid()
      reads this
    {
      && OffsetsOk(plan.offsets, plan.late) && |plan.chunks| == |plan.offsets|
      && |observations| <= |plan.chunks|
      && (forall i :: 0 <= i < |observations| ==> SlotOk(plan, observations, i))
      && (completed ==> |observations| == |plan.chunks|)
    }

    /** True once the offset is due, false when cancelled; a wait that returns early is repeated for what remains. */
    method WaitUntil(offset: real) returns (due: bool)
      modifies wire`clock, wire`cancelled, wire`earlyReturns
      ensures wire.clock >= old(wire.clock)
      ensures due ==> wire.clock >= startedAt + offset
      ensures !due ==> wire.cancelled
    {
      var deadline := startedAt + offset;
      while !wire.cancelled
        invariant wire.clock >= old(wire.clock)
        decreases wire.earlyReturns, if wire.cancelled || wire.clock >= deadline then 0 else 1
      {
        wire.Tick();
        var remaining := deadline - wire.clock;
        if remaining <= 0.0 {
          return true;
        }
        wire.WaitCancelled(remaining);
      }
      return false;
    }

    method Record(index: nat, started: real, ended: real, outcome: Outcome)
      requires Valid() && index == |observations| < |plan.chunks| && !completed
      requires startedAt + plan.offsets[index] <= started <= ended
      requires index > 0 ==> observations[index - 1].completed <= started - startedAt
      requires outcome.PeerClosed? ==>
                 plan.late == Some(index) && HasCategory(outcome.category)
      modifies `observations
      ensures Valid() && |observations| == index + 1 && observations[..index] == old(observations)
      ensures observations[index].outcome == outcome && observations[index].completed == ended - startedAt
    {
      ghost var before := observations;
      observations := observations + [Observation(index, plan.offsets[index], started - startedAt, ended - startedAt,
        |plan.chunks[index]|, if outcome.Flushed? then Some(|plan.chunks[index]|) else None, outcome)];
      forall i | 0 <= i < index ensures SlotOk(plan, observations, i) {
        assert SlotOk(plan, before, i);
      }
    }

    /** How many slots have been flushed: all that were observed, but for a peer close in the last. */
    static function FlushedCount(observations: seq<Observation>): (k: nat)
      ensures k <= |observations|
    {
      if observations != [] && observations[|observations| - 1].outcome.PeerClosed?
      then |observations| - 1
      else |observations|
    }

    /** What the slot tries: a write that takes the whole chunk, and a flush. */
    method Send(chunk: string) returns (r: Result<(), Raised>)
      requires wire.buffered == ""
      modifies wire
      ensures wire.clock >= old(wire.clock)
      ensures r.Ok? ==> wire.delivered == old(wire.delivered) + chunk && wire.buffered == ""
      ensures r.Err? ==> wire.delivered == old(wire.delivered)
      ensures r.Err? ==> if r.error.ShortWrite? then wire.short else wire.raised == Some(r.error)
    {
      var written := wire.Write(chunk);
      if written.Err? {
        return Err(written.error);
      }
      if written.value != |chunk| {
        return Err(ShortWrite);
      }
      r := wire.Flush();
    }

    /** One slot: wait, send, record. Err carries what the source raises; Ok(false) is a cancelled schedule. */
    method WriteChunk(index: nat) returns (r: Result<bool, Raised>)
      requires Valid() && index == |observations| < |plan.chunks| && !completed
      requires index > 0 ==> observations[index - 1].completed <= wire.clock - startedAt
      requires wire.delivered == Joined(plan.chunks[..index]) && wire.buffered == ""
      modifies `observations, wire
      ensures Valid()
      ensures r.Ok? && r.value ==>
                && |observations| == index + 1 && observations[..index] == old(observations)
                && observations[index].completed <= wire.clock - startedAt
                && wire.delivered == Joined(plan.chunks[..FlushedCount(observations)])
                && (observations[index].outcome.Flushed? ==> wire.buffered == "")
      ensures r.Err? || !r.value ==> observations == old(observations) && wire.delivered == old(wire.delivered)
      ensures r.Ok? && !r.value ==> wire.cancelled
      ensures r.Err? && plan.late == Some(index) ==> r.error in {Derived, ShortWrite, OtherError}
      ensures r.Err? ==> if r.error.ShortWrite? then wire.short else wire.raised == Some(r.error)
    {
      var due := WaitUntil(plan.offsets[index]);
      if !due {
        return Ok(false);
      }
      var started := wire.clock;
      var sent := Send(plan.chunks[index]);
      wire.Tick();
      if sent.Err? {
        if Some(index as int) != plan.late || !HasCategory(sent.error) {
          return Err(sent.error);
        }
        Record(index, started, wire.clock, PeerClosed(sent.error));
      } else {
        JoinedLast(plan.chunks, index + 1);
        Record(index, started, wire.clock, Flushed);
      }
      return Ok(true);
    }

    /** The whole schedule; `finished` is set however it ends, `completed` only when every slot was observed. */
    method WriteResponseBody() returns (r: Result<bool, Raised>)
      requires Valid() && observations == [] && !completed && startedAt <= wire.clock
      requires wire.delivered == wire.buffered == ""
      modifies this`observations, this`completed, this`finished, wire
      ensures Valid() && finished
      ensures completed <==> r.Ok? && r.value
      ensures r.Ok? && !r.value ==> wire.cancelled
      ensures wire.delivered == Joined(plan.chunks[..FlushedCount(observations)])
      ensures r.Err? && plan.late == Some(|observations|) ==> r.error in {Derived, ShortWrite, OtherError}
      ensures r.Err? ==> if r.error.ShortWrite? then wire.short else wire.raised == Some(r.error)
    {
      var index := 0;
      while index < |plan.chunks|
        invariant Valid() && !completed && index == |observations| <= |plan.chunks|
        invariant startedAt == old(startedAt)
        invariant index > 0 ==> observations[index - 1].completed <= wire.clock - startedAt
        invariant wire.delivered == Joined(plan.chunks[..FlushedCount(observations)])
        invariant index < |plan.chunks| ==> FlushedCount(observations) == index && wire.buffered == ""
      {
        var written := WriteChunk(index);
        if written.Err? || !written.value {
          finished := true;
          return written;
        }
        assert SlotOk(plan, observations, index);
        index := index + 1;
      }
      completed, finished := true, true;
      return Ok(true);
    }
  }
}

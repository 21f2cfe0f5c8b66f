/**
  The release barrier of one held response: a request handler, a controller that releases it on
  its own schedule, and a closer, interleaved step by step.  Each step is one access to shared
  state; events are never cleared.
*/
module ReleaseBarrier {
  import opened Basics

  /**
    The controller.  Each of its two waits repeats three steps under a deadline: ask whether what it waits for has
    come, wait for a cancellation, look at the clock.  Asking whether a delay is over reads the clock, then the arrival.
  */
  datatype Controller =
    | NotStarted
    | AskRequest(deadline: real) | RequestMissing(deadline: real) | RequestLate(deadline: real) | RequestSeen
    | Arm
    | AskRelease(deadline: real) | Compare(deadline: real, now: real)
    | ReleaseMissing(deadline: real) | ReleaseLate(deadline: real) | ReleaseDue
    | Ready | Timed(now: real) | Stamped
    | Failing | FailureNoted
    | Done

  /** The handler of the one admitted request. */
  datatype Handler =
    | Absent | Admitted | Clocked(now: real) | Received | Announced
    | Waiting(deadline: real) | Freed | Answered | Refused

  /** close(): cancel, release, join, and the rest. */
  datatype Closer = Open | Cancelling | Joining | Closed

  datatype State = State(
    clock: real,
    controller: Controller, handler: Handler, closer: Closer,
    requestStarted: bool, promptReady: bool, responseUnblocked: bool, cancel: bool, release: bool,
    receivedAt: Option<real>, releasedAt: Option<real>, failures: nat)

  function Start(now: real): State {
    State(now, NotStarted, Absent, Open, false, false, false, false, false, None, None, 0)
  }

  // ---- the controller's steps ----

  /** Where the controller goes next. */
  function NextControl(delay: real, s: State): Controller {
    match s.controller
    case NotStarted => AskRequest(s.clock + 35.0)
    case AskRequest(deadline) => if s.requestStarted then RequestSeen else RequestMissing(deadline)
    case RequestMissing(deadline) => if s.cancel then Done else RequestLate(deadline)
    case RequestLate(deadline) => if s.clock < deadline then AskRequest(deadline) else Failing
    case RequestSeen => if s.cancel then Done else Arm
    case Arm => AskRelease(s.clock + if delay > 0.0 then 25.0 else 3.0)
    case AskRelease(deadline) =>
      if delay > 0.0 then Compare(deadline, s.clock)
      else if s.promptReady then ReleaseDue else ReleaseMissing(deadline)
    case Compare(deadline, now) =>
      if s.receivedAt.None? then Failing
      else if now >= s.receivedAt.value + delay then ReleaseDue else ReleaseMissing(deadline)
    case ReleaseMissing(deadline) => if s.cancel then Done else ReleaseLate(deadline)
    case ReleaseLate(deadline) => if s.clock < deadline then AskRelease(deadline) else Failing
    case ReleaseDue => if s.cancel then Done else Ready
    case Ready => Timed(s.clock)
    case Timed(_) => Stamped
    case Stamped => Done
    case Failing => FailureNoted
    case FailureNoted => Done
    case Done => Done
  }

  /** What the controller writes: the release time, its failures and the release. */
  ghost predicate ControllerStep(delay: real, s: State, t: State) {
    var c := s.controller;
    && !c.Done?
    && t == s.(controller := NextControl(delay, s),
               releasedAt := if c.Timed? then Some(c.now) else s.releasedAt,
               failures := s.failures + if c.Failing? then 1 else 0,
               release := s.release || c.Stamped? || c.FailureNoted?)
  }

  // ---- the handler's steps ----

  /** Where the handler may go next. */
  predicate HandlerMoves(s: State, next: Handler) {
    match s.handler
    case Absent => next == Admitted || next == Refused
    case Admitted => next == Clocked(s.clock)
    case Clocked(_) => next == Received
    case Received => next == Announced
    case Announced => next == Waiting(s.clock + 30.0)
    case Waiting(deadline) => (s.release && next == Freed) || (!s.release && s.clock >= deadline && next == Refused)
    case Freed => next == Answered
    case Answered => false
    case Refused => false
  }

  /** What the handler writes: the arrival time, then its announcement, and at the end that it was freed. */
  ghost predicate HandlerStep(s: State, t: State) {
    var h := s.handler;
    && HandlerMoves(s, t.handler)
    && t == s.(handler := t.handler,
               receivedAt := if h.Clocked? then Some(h.now) else s.receivedAt,
               requestStarted := s.requestStarted || h.Received?,
               responseUnblocked := s.responseUnblocked || h.Freed?)
  }

  // ---- the closer, the clock and the prompt ----

  function NextCloser(c: Closer): Closer {
    match c
    case Open => Cancelling
    case Cancelling => Joining
    case Joining => Closed
    case Closed => Cancelling
  }

  ghost predicate CloserStep(s: State, t: State) {
    t == s.(closer := NextCloser(s.closer),
            cancel := s.cancel || s.closer.Open? || s.closer.Closed?,
            release := s.release || s.closer.Cancelling?)
  }

  ghost predicate WorldStep(s: State, t: State) {
    || (t.clock >= s.clock && t == s.(clock := t.clock))
    || t == s.(promptReady := true)
  }

  ghost predicate Next(delay: real, s: State, t: State) {
    ControllerStep(delay, s, t) || HandlerStep(s, t) || CloserStep(s, t) || WorldStep(s, t)
  }

  /** Each state follows from the one before by somebody's step. */
  ghost predicate Linked(delay: real, ss: seq<State>) {
    forall i, j :: 0 <= i < j < |ss| && j == i + 1 ==> Next(delay, ss[i], ss[j])
  }

  /** A finite run from a fresh fixture. */
  ghost predicate Run(delay: real, ss: seq<State>) {
    ss != [] && ss[0] == Start(ss[0].clock) && Linked(delay, ss)
  }

  // ---- what every reachable state satisfies ----

  /** The controller is past its first wait. */
  predicate PastRequest(c: Controller) {
    || c.RequestSeen? || c.Arm? || c.AskRelease? || c.Compare? || c.ReleaseMissing? || c.ReleaseLate?
    || c.ReleaseDue? || c.Ready? || c.Timed? || c.Stamped?
  }

  predicate HasArrived(h: Handler) {
    h.Received? || h.Announced? || h.Waiting? || h.Freed? || h.Answered?
  }

  /** The arrival is stamped before it is announced, and never in the future. */
  ghost predicate ArrivalInv(s: State) {
    && (s.handler.Clocked? ==> s.handler.now <= s.clock)
    && (HasArrived(s.handler) ==> s.receivedAt.Some?)
    && (s.receivedAt.Some? ==> s.receivedAt.value <= s.clock && (HasArrived(s.handler) || s.handler.Refused?))
    && (s.requestStarted ==> s.receivedAt.Some?)
    && (PastRequest(s.controller) ==> s.requestStarted)
  }

  /** What the second wait is for has come by the time `now`. */
  ghost predicate Due(delay: real, s: State, now: real) {
    now <= s.clock && if delay > 0.0 then s.receivedAt.Some? && now >= s.receivedAt.value + delay else s.promptReady
  }

  /** A release time is the schedule's. */
  ghost predicate ScheduleInv(delay: real, s: State) {
    && (s.controller.Compare? ==> delay > 0.0 && s.controller.now <= s.clock)
    && (s.controller.ReleaseDue? || s.controller.Ready? ==> Due(delay, s, s.clock))
    && (s.controller.Timed? ==> Due(delay, s, s.controller.now))
    && (s.controller.Stamped? ==> s.releasedAt.Some?)
    && (s.releasedAt.Some? ==>
          && s.receivedAt.Some? && Due(delay, s, s.releasedAt.value)
          && (s.controller.Stamped? || s.controller.Done?))
  }

  /** The response follows a release, which has a reason, and nobody who stops leaves the handler waiting. */
  ghost predicate FreedInv(s: State) {
    && (s.handler.Freed? || s.handler.Answered? ==> s.release)
    && (s.responseUnblocked ==> s.handler.Answered?)
    && (s.release ==> s.cancel || s.releasedAt.Some? || s.failures > 0)
    && (s.controller.Stamped? ==> s.releasedAt.Some?)
    && (s.controller.FailureNoted? ==> s.failures > 0)
    && (s.controller.Done? ==> s.release || s.cancel)
    && (!s.closer.Open? ==> s.cancel)
    && (s.cancel ==> s.release || s.closer.Cancelling?)
    && (s.closer.Joining? || s.closer.Closed? ==> s.release)
  }

  ghost predicate Inv(delay: real, s: State) {
    ArrivalInv(s) && ScheduleInv(delay, s) && FreedInv(s)
  }

  lemma ControllerKeepsArrival(delay: real, s: State, t: State)
    requires ArrivalInv(s) && ControllerStep(delay, s, t)
    ensures ArrivalInv(t)
  {
  }

  lemma ControllerKeepsSchedule(delay: real, s: State, t: State)
    requires ArrivalInv(s) && ScheduleInv(delay, s) && ControllerStep(delay, s, t)
    ensures ScheduleInv(delay, t)
  {
  }

  lemma ControllerKeepsFreed(delay: real, s: State, t: State)
    requires FreedInv(s) && ControllerStep(delay, s, t)
    ensures FreedInv(t)
  {
  }

  lemma HandlerKeepsInv(delay: real, s: State, t: State)
    requires Inv(delay, s) && HandlerStep(s, t)
    ensures Inv(delay, t)
  {
  }

  lemma OthersKeepInv(delay: real, s: State, t: State)
    requires Inv(delay, s) && (CloserStep(s, t) || WorldStep(s, t))
    ensures Inv(delay, t)
  {
  }

  lemma {:induction false} RunKeepsInv(delay: real, ss: seq<State>, k: nat)
    requires Run(delay, ss) && k < |ss|
    ensures Inv(delay, ss[k])
  {
    if k > 0 {
      RunKeepsInv(delay, ss, k - 1);
      var s, t := ss[k - 1], ss[k];
      if ControllerStep(delay, s, t) {
        ControllerKeepsArrival(delay, s, t);
        ControllerKeepsSchedule(delay, s, t);
        ControllerKeepsFreed(delay, s, t);
      } else if HandlerStep(s, t) {
        HandlerKeepsInv(delay, s, t);
      } else {
        OthersKeepInv(delay, s, t);
      }
    }
  }

  // ---- the promises ----

  /** Whenever the controller reads the arrival time, it is there, so that read never fails. */
  lemma ArrivalIsThere(delay: real, ss: seq<State>, k: nat)
    requires Run(delay, ss) && k < |ss| && ss[k].controller.Compare?
    ensures ss[k].receivedAt.Some?
  {
    RunKeepsInv(delay, ss, k);
  }

  /** A recorded release is at least the delay after the arrival or, without a delay, after the prompt. */
  lemma ReleaseIsScheduled(delay: real, ss: seq<State>, k: nat)
    requires Run(delay, ss) && k < |ss| && ss[k].releasedAt.Some?
    ensures ss[k].receivedAt.Some? && ss[k].releasedAt.value <= ss[k].clock
    ensures delay > 0.0 ==> ss[k].releasedAt.value >= ss[k].receivedAt.value + delay
    ensures delay <= 0.0 ==> ss[k].promptReady
  {
    RunKeepsInv(delay, ss, k);
  }

  /** A response goes out only after a release that was scheduled, cancelled by a close, or forced by a failure. */
  lemma ResponseFollowsRelease(delay: real, ss: seq<State>, k: nat)
    requires Run(delay, ss) && k < |ss| && ss[k].responseUnblocked
    ensures ss[k].release && (ss[k].releasedAt.Some? || ss[k].cancel || ss[k].failures > 0)
  {
    RunKeepsInv(delay, ss, k);
  }

  /** Nothing clears the release or reopens a fixture. */
  lemma StepStays(delay: real, s: State, t: State)
    requires Next(delay, s, t)
    ensures (s.release ==> t.release) && (!s.closer.Open? ==> !t.closer.Open?)
  {
  }

  lemma {:induction false} ReleaseStays(delay: real, ss: seq<State>, j: nat, k: nat)
    requires Run(delay, ss) && j <= k < |ss| && ss[j].release
    ensures ss[k].release
    decreases k - j
  {
    if j < k {
      StepStays(delay, ss[j], ss[j + 1]);
      ReleaseStays(delay, ss, j + 1, k);
    }
  }

  /**
    Once a close has passed its release, or the controller has stopped without a close being under way, a waiting
    handler can only be freed, at that moment and at every later one.
  */
  lemma WaitingHandlerIsFreed(delay: real, ss: seq<State>, j: nat, k: nat, t: State)
    requires Run(delay, ss) && j <= k < |ss|
    requires ss[j].closer.Joining? || ss[j].closer.Closed? || (ss[j].controller.Done? && !ss[j].closer.Cancelling?)
    requires ss[k].handler.Waiting?
    ensures HandlerStep(ss[k], t) <==> t == ss[k].(handler := Freed)
  {
    RunKeepsInv(delay, ss, j);
    ReleaseStays(delay, ss, j, k);
  }

  lemma {:induction false} CloseStays(delay: real, ss: seq<State>, j: nat, k: nat)
    requires Run(delay, ss) && j <= k < |ss| && !ss[j].closer.Open?
    ensures !ss[k].closer.Open?
    decreases k - j
  {
    if j < k {
      StepStays(delay, ss[j], ss[j + 1]);
      CloseStays(delay, ss, j + 1, k);
    }
  }

  /** Once a close has begun, the release is set whenever the closer is past its cancelling step. */
  lemma CloseReleases(delay: real, ss: seq<State>, j: nat, k: nat)
    requires Run(delay, ss) && j <= k < |ss| && !ss[j].closer.Open? && !ss[k].closer.Cancelling?
    ensures ss[k].cancel && ss[k].release
  {
    CloseStays(delay, ss, j, k);
    RunKeepsInv(delay, ss, k);
  }

  /** The controller is about to look at the clock, and its deadline has come. */
  predicate IsLate(s: State) {
    (s.controller.RequestLate? || s.controller.ReleaseLate?) && s.clock >= s.controller.deadline
  }

  /** The controller fails nowhere else: it never misses the arrival time it reads. */
  lemma FailsLate(delay: real, ss: seq<State>, k: nat)
    requires Run(delay, ss) && k + 1 < |ss| && !ss[k].controller.Failing? && ss[k + 1].controller.Failing?
    ensures IsLate(ss[k])
  {
    RunKeepsInv(delay, ss, k);
    assert Next(delay, ss[k], ss[k + 1]);
  }

  /** In no run does a controller fail that has always looked at the clock before its deadline. */
  lemma {:induction false} NoFailureInTime(delay: real, ss: seq<State>, k: nat)
    requires Run(delay, ss) && k < |ss| && forall i :: 0 <= i < k ==> !IsLate(ss[i])
    ensures ss[k].failures == 0 && !ss[k].controller.Failing? && !ss[k].controller.FailureNoted?
  {
    if k > 0 {
      NoFailureInTime(delay, ss, k - 1);
      assert Next(delay, ss[k - 1], ss[k]);
      if ss[k].controller.Failing? {
        FailsLate(delay, ss, k - 1);
      }
    }
  }

  // ---- how long everybody waits ----

  predicate InFirstWait(c: Controller) {
    c.AskRequest? || c.RequestMissing? || c.RequestLate?
  }

  lemma FirstWaitStep(delay: real, s: State, t: State)
    requires Next(delay, s, t) && InFirstWait(t.controller)
    ensures if s.controller.NotStarted? then t.controller.deadline == s.clock + 35.0
            else InFirstWait(s.controller) && t.controller.deadline == s.controller.deadline
  {
    if ControllerStep(delay, s, t) {
      assert t.controller == NextControl(delay, s);
    } else {
      assert t.controller == s.controller;
    }
  }

  lemma SecondWaitStep(delay: real, s: State, t: State)
    requires Next(delay, s, t) && InSecondWait(t.controller)
    ensures if s.controller.Arm? then t.controller.deadline == s.clock + if delay > 0.0 then 25.0 else 3.0
            else InSecondWait(s.controller) && t.controller.deadline == s.controller.deadline
  {
    if ControllerStep(delay, s, t) {
      assert t.controller == NextControl(delay, s);
    } else {
      assert t.controller == s.controller;
    }
  }

  /** The first wait has 35 seconds from its start. */
  lemma {:induction false} RequestDeadline(delay: real, ss: seq<State>, k: nat) returns (j: nat)
    requires Run(delay, ss) && k < |ss| && InFirstWait(ss[k].controller)
    ensures j < k && ss[j].controller.NotStarted? && ss[k].controller.deadline == ss[j].clock + 35.0
  {
    assert k > 0 && Next(delay, ss[k - 1], ss[k]);
    FirstWaitStep(delay, ss[k - 1], ss[k]);
    if ss[k - 1].controller.NotStarted? {
      j := k - 1;
    } else {
      j := RequestDeadline(delay, ss, k - 1);
    }
  }

  predicate InSecondWait(c: Controller) {
    c.AskRelease? || c.Compare? || c.ReleaseMissing? || c.ReleaseLate?
  }

  /** The second wait has 25 seconds from its start, or 3 when there is no delay. */
  lemma {:induction false} ReleaseDeadline(delay: real, ss: seq<State>, k: nat) returns (j: nat)
    requires Run(delay, ss) && k < |ss| && InSecondWait(ss[k].controller)
    ensures j < k && ss[j].controller.Arm?
    ensures ss[k].controller.deadline == ss[j].clock + if delay > 0.0 then 25.0 else 3.0
  {
    assert k > 0 && Next(delay, ss[k - 1], ss[k]);
    SecondWaitStep(delay, ss[k - 1], ss[k]);
    if ss[k - 1].controller.Arm? {
      j := k - 1;
    } else {
      j := ReleaseDeadline(delay, ss, k - 1);
    }
  }

  /** A controller that fails has waited its whole time: 35 seconds for the request, or 25 or 3 for the release. */
  lemma FailsAfterWaiting(delay: real, ss: seq<State>, k: nat) returns (j: nat)
    requires Run(delay, ss) && k + 1 < |ss| && !ss[k].controller.Failing? && ss[k + 1].controller.Failing?
    ensures j < k
    ensures || (ss[j].controller.NotStarted? && ss[k].clock >= ss[j].clock + 35.0)
            || (ss[j].controller.Arm? && ss[k].clock >= ss[j].clock + if delay > 0.0 then 25.0 else 3.0)
  {
    FailsLate(delay, ss, k);
    if ss[k].controller.RequestLate? {
      j := RequestDeadline(delay, ss, k);
    } else {
      j := ReleaseDeadline(delay, ss, k);
    }
  }

  lemma {:induction false} HandlerDeadline(delay: real, ss: seq<State>, k: nat) returns (j: nat)
    requires Run(delay, ss) && k < |ss| && ss[k].handler.Waiting?
    ensures j < k && ss[j].handler.Announced? && ss[k].handler.deadline == ss[j].clock + 30.0
  {
    assert k > 0 && Next(delay, ss[k - 1], ss[k]);
    if ss[k - 1].handler.Announced? {
      j := k - 1;
    } else {
      j := HandlerDeadline(delay, ss, k - 1);
    }
  }

  /** A handler that gives up has waited 30 seconds since it announced itself, and found no release. */
  lemma GivesUpAfterWaiting(delay: real, ss: seq<State>, k: nat) returns (j: nat)
    requires Run(delay, ss) && k + 1 < |ss| && ss[k].handler.Waiting? && ss[k + 1].handler.Refused?
    ensures j < k && ss[j].handler.Announced? && ss[k].clock >= ss[j].clock + 30.0 && !ss[k].release
  {
    j := HandlerDeadline(delay, ss, k);
    assert Next(delay, ss[k], ss[k + 1]);
  }

  /** The handler has arrived at time 0 and waits for the release. */
  function Held(c: Controller): State {
    Start(0.0).(controller := c, handler := Waiting(30.0), requestStarted := true, receivedAt := Some(0.0))
  }

  lemma HandlerArrives(delay: real) returns (ss: seq<State>)
    ensures Run(delay, ss) && ss[|ss| - 1] == Held(AskRequest(35.0))
  {
    var started := Start(0.0).(controller := AskRequest(35.0));
    var arrived := started.(handler := Received, receivedAt := Some(0.0));
    ss := [
      Start(0.0), started, started.(handler := Admitted), started.(handler := Clocked(0.0)), arrived,
      arrived.(handler := Announced, requestStarted := true), Held(AskRequest(35.0))];
  }

  lemma DelayIsNotOver(delay: real) returns (ss: seq<State>)
    requires delay > 0.0
    ensures Linked(delay, ss) && ss != [] && ss[0] == Held(RequestSeen) && ss[|ss| - 1] == Held(ReleaseLate(25.0))
  {
    ss := [
      Held(RequestSeen), Held(Arm), Held(AskRelease(25.0)), Held(Compare(25.0, 0.0)), Held(ReleaseMissing(25.0)),
      Held(ReleaseLate(25.0))];
  }

  lemma WaitFails(delay: real) returns (ss: seq<State>)
    ensures Linked(delay, ss) && ss != [] && ss[0] == Held(ReleaseLate(25.0)).(clock := 25.0)
    ensures ss[|ss| - 1] == Held(Done).(clock := 25.0, failures := 1, release := true)
  {
    var late := Held(ReleaseLate(25.0)).(clock := 25.0);
    ss := [late, late.(controller := Failing), late.(controller := FailureNoted, failures := 1),
           late.(controller := Done, failures := 1, release := true)];
  }

  lemma LinkedConcat(delay: real, ss: seq<State>, ts: seq<State>)
    requires Linked(delay, ss) && Linked(delay, ts) && ss != [] && ts != [] && Next(delay, ss[|ss| - 1], ts[0])
    ensures Linked(delay, ss + ts)
  {
  }

  /**
    A controller held up between asking for the release and looking at the clock fails although the release has come
    due, and frees the handler all the same.
  */
  lemma StalledControllerFails(delay: real) returns (ss: seq<State>)
    requires 0.0 < delay < 20.0
    ensures Run(delay, ss)
    ensures var last := ss[|ss| - 1];
            && last.failures == 1 && last.releasedAt.None? && !last.cancel && last.handler.Waiting? && last.release
            && last.receivedAt.Some? && last.clock > last.receivedAt.value + delay
  {
    var arrival := HandlerArrives(delay);
    var asking := DelayIsNotOver(delay);
    var failing := WaitFails(delay);
    assert ControllerStep(delay, Held(AskRequest(35.0)), Held(RequestSeen));
    LinkedConcat(delay, arrival, asking);
    LinkedConcat(delay, arrival + asking, failing);
    ss := arrival + asking + failing;
  }
}

/**
  Freezing an incremental decoder into a table.

  The decoder is abstract: a start state and step functions for its "replace" and its
  "strict" error mode.  `Capture` walks the reachable states breadth first and packs
  every step into one word.  The table then replaces the decoder on every byte string.
*/
module CodecCapture {
  import opened Basics
  import opened PackedWord

  /** The strict functions return None where the codec raises a decode error. */
  datatype Decoder<!S> = Decoder(
    initial: S,
    step: (S, byte) -> (string, S),
    finish: S -> string,
    strictStep: (S, byte) -> Option<(string, S)>,
    strictFinish: S -> Option<string>)

  // ---- what the decoder does with a byte string ----

  function After<S>(d: Decoder<S>, s: S, w: seq<byte>): S {
    if w == [] then s else After(d, d.step(s, w[0]).1, w[1..])
  }

  /** The text decoded with replacement, final flush included. */
  function Replaced<S>(d: Decoder<S>, s: S, w: seq<byte>): string {
    if w == [] then d.finish(s) else d.step(s, w[0]).0 + Replaced(d, d.step(s, w[0]).1, w[1..])
  }

  /** The strictly decoded text, or None when any step or the final flush raises. */
  function Strict<S>(d: Decoder<S>, s: S, w: seq<byte>): Option<string> {
    if w == [] then d.strictFinish(s)
    else match d.strictStep(s, w[0])
      case None => None
      case Some(out) =>
        match Strict(d, out.1, w[1..]) case None => None case Some(rest) => Some(out.0 + rest)
  }

  function Reach<S>(d: Decoder<S>, w: seq<byte>): S {
    After(d, d.initial, w)
  }

  lemma {:induction false} AfterSnoc<S>(d: Decoder<S>, s: S, w: seq<byte>, b: byte)
    ensures After(d, s, w + [b]) == d.step(After(d, s, w), b).1
  {
    if w == [] {
      assert (w + [b])[1..] == [];
    } else {
      assert (w + [b])[1..] == w[1..] + [b];
      AfterSnoc(d, d.step(s, w[0]).1, w[1..], b);
    }
  }

  // ---- the order of words ----

  /** Of two words of one length the one that is lower where they first differ. */
  predicate Lower(u: seq<int>, v: seq<int>)
    requires |u| == |v|
  {
    && u != []
    && var n := |u| - 1;
    Lower(u[..n], v[..n]) || (u[..n] == v[..n] && u[n] < v[n])
  }

  /** Shorter words come first. */
  predicate Earlier(u: seq<int>, v: seq<int>) {
    |u| < |v| || (|u| == |v| && Lower(u, v))
  }

  predicate NotLater(u: seq<int>, v: seq<int>) {
    u == v || Earlier(u, v)
  }

  lemma {:induction false} LowerIff(u: seq<int>, v: seq<int>)
    requires |u| == |v|
    ensures Lower(u, v) <==> exists k :: 0 <= k < |u| && u[k] < v[k] && u[..k] == v[..k]
  {
    if u != [] {
      var n := |u| - 1;
      LowerIff(u[..n], v[..n]);
      forall k | 0 <= k < n ensures u[..n][..k] == u[..k] && v[..n][..k] == v[..k] {
      }
      if k :| 0 <= k < n && u[..n][k] < v[..n][k] && u[..n][..k] == v[..n][..k] {
        assert u[k] < v[k];
      }
      forall k | 0 <= k < n && u[k] < v[k] && u[..k] == v[..k] ensures Lower(u[..n], v[..n]) {
        assert u[..n][k] < v[..n][k] && u[..n][..k] == v[..n][..k];
      }
    }
  }

  lemma {:induction false} LowerTransitive(u: seq<int>, v: seq<int>, w: seq<int>)
    requires |u| == |v| == |w| && Lower(u, v) && Lower(v, w)
    ensures Lower(u, w)
  {
    var n := |u| - 1;
    if Lower(u[..n], v[..n]) && Lower(v[..n], w[..n]) {
      LowerTransitive(u[..n], v[..n], w[..n]);
    }
  }

  lemma {:induction false} LowerIsStrict(u: seq<int>)
    ensures !Lower(u, u)
  {
    if u != [] {
      LowerIsStrict(u[..|u| - 1]);
    }
  }

  lemma EarlierTransitive(u: seq<int>, v: seq<int>, w: seq<int>)
    requires NotLater(u, v) && NotLater(v, w)
    ensures NotLater(u, w)
    ensures Earlier(u, v) || Earlier(v, w) ==> Earlier(u, w)
  {
    if |u| == |v| == |w| && u != v && v != w {
      LowerTransitive(u, v, w);
    }
  }

  lemma EarlierIsStrict(u: seq<int>, v: seq<int>)
    requires Earlier(u, v)
    ensures u != v && !Earlier(v, u)
  {
    LowerIsStrict(u);
    if |u| == |v| && Lower(v, u) {
      LowerTransitive(u, v, u);
    }
  }

  lemma EarlierAppend(u: seq<int>, v: seq<int>, x: int, y: int)
    ensures Earlier(u, v) ==> Earlier(u + [x], v + [y])
    ensures u == v && x < y ==> Earlier(u + [x], v + [y])
    ensures u == v && x == y ==> u + [x] == v + [y]
  {
    assert (u + [x])[..|u|] == u && (v + [y])[..|v|] == v;
  }

  // ---- when a capture completes ----

  /** Wherever strict decoding does not raise, it does what replacement decoding does. */
  ghost predicate StrictAgreesAt<S(!new)>(d: Decoder<S>, s: S) {
    && (d.strictFinish(s).Some? ==> d.strictFinish(s).value == d.finish(s))
    && forall b: byte :: d.strictStep(s, b).Some? ==> d.strictStep(s, b).value == d.step(s, b)
  }

  ghost predicate StrictAgrees<S(!new)>(d: Decoder<S>) {
    forall w: seq<byte> :: StrictAgreesAt(d, Reach(d, w))
  }

  ghost predicate Reachable<S(!new)>(d: Decoder<S>, s: S) {
    exists w: seq<byte> :: Reach(d, w) == s
  }

  ghost predicate Emitted<S(!new)>(d: Decoder<S>, text: string) {
    || text == ""
    || (exists w: seq<byte> :: d.finish(Reach(d, w)) == text)
    || (exists w: seq<byte>, b: byte :: d.step(Reach(d, w), b).0 == text)
  }

  ghost predicate StatesFit<S(!new)>(d: Decoder<S>) {
    forall ss: seq<S> :: Distinct(ss) && (forall i :: 0 <= i < |ss| ==> Reachable(d, ss[i])) ==> |ss| < STATE_FIELD
  }

  ghost predicate OutputsFit<S(!new)>(d: Decoder<S>) {
    forall ts: seq<string> :: Distinct(ts) && (forall i :: 0 <= i < |ts| ==> Emitted(d, ts[i])) ==> |ts| <= OUTPUT_FIELD
  }

  // ---- the table ----

  datatype Table<S> = Table(
    states: seq<S>, prefixes: seq<seq<byte>>, outputs: seq<string>,
    transitions: seq<nat>, finals: seq<nat>)

  datatype Failure = TooManyStates | TooManyOutputs | StrictDiffers

  /** The sizes fit, every word fits 32 bits, and every word points into the table. */
  ghost predicate WellFormed<S>(t: Table<S>) {
    && 0 < |t.states| < STATE_FIELD && |t.finals| == |t.states| && |t.transitions| == 256 * |t.states|
    && (forall k :: 0 <= k < |t.finals| ==> t.finals[k] < WORD && Output(t.finals[k]) < |t.outputs|)
    && (forall k :: 0 <= k < |t.transitions| ==>
          t.transitions[k] < WORD && Output(t.transitions[k]) < |t.outputs| && State(t.transitions[k]) < |t.states|)
  }

  /** The texts of a finished table are numbered in the order in which the visit first uses them. */
  predicate InOrder<S>(t: Table<S>) {
    FirstUses(Visits(OutputFields(t.finals), OutputFields(t.transitions)), |t.outputs|)
  }

  function OutputFields(words: seq<nat>): (r: seq<nat>)
    ensures |r| == |words| && forall k :: 0 <= k < |words| ==> r[k] == Output(words[k])
  {
    seq(|words|, k requires 0 <= k < |words| => Output(words[k]))
  }

  /** Reading the table from state `i`: the text, and the conjunction of the validity bits. */
  function RunTable<S>(t: Table<S>, i: nat, w: seq<byte>): (string, bool)
    requires WellFormed(t) && i < |t.states|
    decreases |w|
  {
    if w == [] then (t.outputs[Output(t.finals[i])], Valid(t.finals[i]))
    else
      var word := t.transitions[256 * i + w[0]];
      var (text, valid) := RunTable(t, State(word), w[1..]);
      (t.outputs[Output(word)] + text, Valid(word) && valid)
  }

  /** The word of state `i` and byte `b` is that step of the decoder. */
  ghost predicate EntryOk<S(!new)>(d: Decoder<S>, t: Table<S>, i: nat, b: byte)
    requires WellFormed(t) && i < |t.states|
  {
    var word := t.transitions[256 * i + b];
    && (t.outputs[Output(word)], t.states[State(word)]) == d.step(t.states[i], b)
    && Valid(word) == d.strictStep(t.states[i], b).Some?
  }

  ghost predicate FinalOk<S(!new)>(d: Decoder<S>, t: Table<S>, i: nat)
    requires WellFormed(t) && i < |t.states|
  {
    && t.outputs[Output(t.finals[i])] == d.finish(t.states[i])
    && Valid(t.finals[i]) == d.strictFinish(t.states[i]).Some?
  }

  /** The table holds each state and each text once, the start state and "" first, and all steps of its states. */
  ghost predicate Captured<S(!new)>(d: Decoder<S>, t: Table<S>) {
    && WellFormed(t) && t.states[0] == d.initial && Distinct(t.states)
    && 0 < |t.outputs| <= OUTPUT_FIELD && t.outputs[0] == "" && Distinct(t.outputs)
    && (forall i :: 0 <= i < |t.outputs| ==> Emitted(d, t.outputs[i]))
    && (forall i :: 0 <= i < |t.finals| ==> State(t.finals[i]) == 0)
    && (forall i :: 0 <= i < |t.states| ==> FinalOk(d, t, i) && StrictAgreesAt(d, t.states[i]))
    && (forall i, b :: 0 <= i < |t.states| && 0 <= b < 256 ==> EntryOk(d, t, i, b))
  }

  lemma {:induction false} TableSimulatesFrom<S(!new)>(d: Decoder<S>, t: Table<S>, i: nat, w: seq<byte>)
    requires Captured(d, t) && i < |t.states|
    ensures RunTable(t, i, w) == (Replaced(d, t.states[i], w), Strict(d, t.states[i], w).Some?)
    ensures Strict(d, t.states[i], w).Some? ==> Strict(d, t.states[i], w).value == Replaced(d, t.states[i], w)
    decreases |w|
  {
    assert FinalOk(d, t, i) && StrictAgreesAt(d, t.states[i]);
    if w != [] {
      assert EntryOk(d, t, i, w[0]);
      TableSimulatesFrom(d, t, State(t.transitions[256 * i + w[0]]), w[1..]);
    }
  }

  /** On every byte string the table gives the replacement text, with all bits valid iff strict decoding succeeds. */
  lemma TableSimulates<S(!new)>(d: Decoder<S>, t: Table<S>, w: seq<byte>)
    requires Captured(d, t)
    ensures RunTable(t, 0, w) == (Replaced(d, d.initial, w), Strict(d, d.initial, w).Some?)
    ensures Strict(d, d.initial, w).Some? ==> Strict(d, d.initial, w).value == Replaced(d, d.initial, w)
  {
    TableSimulatesFrom(d, t, 0, w);
  }

  // ---- shortest prefixes ----

  ghost predicate Sorted(prefixes: seq<seq<byte>>) {
    forall i, j :: 0 <= i < j < |prefixes| ==> Earlier(prefixes[i], prefixes[j])
  }

  /** Each state is reached by its prefix, prefixes are in order, and no step leads behind the prefix it makes. */
  ghost predicate Layered<S(!new)>(d: Decoder<S>, t: Table<S>)
    requires WellFormed(t)
  {
    && |t.prefixes| == |t.states| && t.prefixes[0] == [] && Sorted(t.prefixes)
    && (forall i :: 0 <= i < |t.states| ==> Reach(d, t.prefixes[i]) == t.states[i])
    && (forall k :: 0 <= k < |t.transitions| ==>
          NotLater(t.prefixes[State(t.transitions[k])], t.prefixes[k / 256] + [k % 256]))
  }

  /** Every reachable state is in the table, under the first of all words that reach it. */
  lemma {:induction false} PrefixIsShortest<S(!new)>(d: Decoder<S>, t: Table<S>, w: seq<byte>) returns (i: nat)
    requires Captured(d, t) && Layered(d, t)
    ensures i < |t.states| && t.states[i] == Reach(d, w)
    ensures NotLater(t.prefixes[i], w) && |t.prefixes[i]| <= |w|
    decreases |w|
  {
    if w == [] {
      i := 0;
    } else {
      var n := |w| - 1;
      assert w == w[..n] + [w[n]];
      AfterSnoc(d, d.initial, w[..n], w[n]);
      var j := PrefixIsShortest(d, t, w[..n]);
      assert EntryOk(d, t, j, w[n]);
      var k := 256 * j + w[n];
      assert k / 256 == j && k % 256 == w[n];
      i := State(t.transitions[k]);
      EarlierAppend(t.prefixes[j], w[..n], w[n], w[n]);
      EarlierTransitive(t.prefixes[i], t.prefixes[j] + [w[n]], w);
    }
  }

  // ---- a finished capture is complete ----

  lemma EmittedIsListed<S(!new)>(d: Decoder<S>, t: Table<S>, text: string)
    requires Captured(d, t) && Layered(d, t) && Emitted(d, text)
    ensures text in t.outputs
  {
    if w: seq<byte> :| d.finish(Reach(d, w)) == text {
      var i := PrefixIsShortest(d, t, w);
      assert FinalOk(d, t, i);
    } else if w: seq<byte>, b: byte :| d.step(Reach(d, w), b).0 == text {
      var i := PrefixIsShortest(d, t, w);
      assert EntryOk(d, t, i, b);
    }
  }

  /** A table exists only for a decoder with few enough states and outputs whose strict mode never disagrees. */
  lemma CaptureIsComplete<S(!new)>(d: Decoder<S>, t: Table<S>)
    requires Captured(d, t) && Layered(d, t)
    ensures StatesFit(d) && OutputsFit(d) && StrictAgrees(d)
  {
    forall ss: seq<S> | Distinct(ss) && (forall i :: 0 <= i < |ss| ==> Reachable(d, ss[i]))
      ensures |ss| < STATE_FIELD
    {
      forall x | x in ss ensures x in t.states {
        var w: seq<byte> :| Reach(d, w) == x;
        var i := PrefixIsShortest(d, t, w);
      }
      DistinctFits(ss, t.states);
    }
    forall ts: seq<string> | Distinct(ts) && (forall i :: 0 <= i < |ts| ==> Emitted(d, ts[i]))
      ensures |ts| <= OUTPUT_FIELD
    {
      forall x | x in ts ensures x in t.outputs {
        EmittedIsListed(d, t, x);
      }
      DistinctFits(ts, t.outputs);
    }
    forall w: seq<byte> ensures StrictAgreesAt(d, Reach(d, w)) {
      var i := PrefixIsShortest(d, t, w);
      assert FinalOk(d, t, i);
    }
  }

  // ---- the capture ----

  /** The lists and dictionaries that grow together. */
  datatype Progress<S> = Progress(
    states: seq<S>, prefixes: seq<seq<byte>>, indices: map<S, nat>,
    outputs: seq<string>, outputIndices: map<string, nat>)

  /** The dictionary is the inverse of the list. */
  ghost predicate Indexed<T(!new)>(items: seq<T>, index: map<T, nat>) {
    && (forall x :: x in index ==> index[x] < |items| && items[index[x]] == x)
    && (forall i :: 0 <= i < |items| ==> items[i] in index && index[items[i]] == i)
  }

  ghost predicate Sound<S(!new)>(d: Decoder<S>, p: Progress<S>) {
    && Indexed(p.states, p.indices) && Indexed(p.outputs, p.outputIndices)
    && |p.states| > 0 && p.states[0] == d.initial
    && |p.prefixes| == |p.states| && p.prefixes[0] == []
    && 0 < |p.outputs| <= OUTPUT_FIELD && p.outputs[0] == ""
    && (forall i :: 0 <= i < |p.states| ==> Reach(d, p.prefixes[i]) == p.states[i])
    && (forall i :: 0 <= i < |p.outputs| ==> Emitted(d, p.outputs[i]))
  }

  ghost predicate Grows<S(!new)>(p: Progress<S>, q: Progress<S>) {
    p.states <= q.states && p.prefixes <= q.prefixes && p.outputs <= q.outputs
  }

  /** Prefixes are listed in order, and all come before the word that byte `b` makes of the current one. */
  ghost predicate BreadthFirst(prefixes: seq<seq<byte>>, index: nat, b: nat) {
    && Sorted(prefixes)
    && (index < |prefixes| ==> forall i :: 0 <= i < |prefixes| ==> Earlier(prefixes[i], prefixes[index] + [b]))
  }

  lemma BreadthFirstNext(prefixes: seq<seq<byte>>, index: nat, b: nat)
    requires BreadthFirst(prefixes, index, b) && index < |prefixes|
    ensures BreadthFirst(prefixes, index, b + 1)
  {
    EarlierAppend(prefixes[index], prefixes[index], b, b + 1);
    forall i | 0 <= i < |prefixes| ensures Earlier(prefixes[i], prefixes[index] + [b + 1]) {
      EarlierTransitive(prefixes[i], prefixes[index] + [b], prefixes[index] + [b + 1]);
    }
  }

  /** A new prefix goes behind all others. */
  lemma BreadthFirstMore(prefixes: seq<seq<byte>>, index: nat, b: byte, word: seq<byte>)
    requires BreadthFirst(prefixes, index, b) && index < |prefixes| && word == prefixes[index] + [b]
    ensures BreadthFirst(prefixes + [word], index, b + 1)
  {
    BreadthFirstNext(prefixes, index, b);
    EarlierAppend(prefixes[index], prefixes[index], b, b + 1);
  }

  ghost predicate Why<S(!new)>(d: Decoder<S>, failure: Failure) {
    match failure
    case TooManyStates => !StatesFit(d)
    case TooManyOutputs => !OutputsFit(d)
    case StrictDiffers => !StrictAgrees(d)
  }

  /** Position `at` of a list that had `before` entries and has `after`: listed already, or the one new entry. */
  predicate Lists(before: nat, after: nat, at: nat) {
    at < after && (after == before || (after == before + 1 && at == before))
  }

  method OutputIndex<S(!new,==)>(d: Decoder<S>, p: Progress<S>, value: string)
    returns (r: Result<(Progress<S>, nat), Failure>)
    requires Sound(d, p) && Emitted(d, value)
    ensures r.Err? <==> value !in p.outputs && |p.outputs| == OUTPUT_FIELD
    ensures r.Err? ==> Why(d, r.error)
    ensures r.Ok? ==>
              var (q, at) := r.value;
              && Sound(d, q) && Grows(p, q) && q.states == p.states && q.prefixes == p.prefixes
              && q.indices == p.indices && Lists(|p.outputs|, |q.outputs|, at) && q.outputs[at] == value
  {
    var q := p;
    if value !in p.outputIndices {
      q := p.(outputs := p.outputs + [value], outputIndices := p.outputIndices[value := |p.outputs|]);
    }
    if |q.outputs| > OUTPUT_FIELD {
      assert Distinct(q.outputs);
      return Err(TooManyOutputs);
    }
    return Ok((q, q.outputIndices[value]));
  }

  /** The operands of a packed word. */
  datatype Cell = Cell(output: nat, state: nat, valid: bool)

  ghost predicate Packs(words: seq<nat>, cells: seq<Cell>) {
    |words| == |cells| &&
    forall k :: 0 <= k < |words| ==> words[k] == Pack(cells[k].output, cells[k].state, cells[k].valid)
  }

  /** The operands describe the step of state `i` on byte `b`, to a state whose prefix comes no later than theirs. */
  ghost predicate CellOk<S(!new)>(d: Decoder<S>, p: Progress<S>, c: Cell, i: nat, b: byte) {
    && i < |p.states| == |p.prefixes| && c.output < |p.outputs| && c.state < |p.states|
    && (p.outputs[c.output], p.states[c.state]) == d.step(p.states[i], b)
    && NotLater(p.prefixes[c.state], p.prefixes[i] + [b])
    && c.valid == d.strictStep(p.states[i], b).Some?
    && (c.valid ==> d.strictStep(p.states[i], b).value == d.step(p.states[i], b))
  }

  ghost predicate CellsOk<S(!new)>(d: Decoder<S>, p: Progress<S>, cells: seq<Cell>) {
    forall k :: 0 <= k < |cells| ==> CellOk(d, p, cells[k], k / 256, k % 256)
  }

  ghost predicate LastOk<S(!new)>(d: Decoder<S>, p: Progress<S>, c: Cell, i: nat) {
    && i < |p.states| && c.output < |p.outputs| && c.state == 0
    && p.outputs[c.output] == d.finish(p.states[i])
    && c.valid == d.strictFinish(p.states[i]).Some?
    && (c.valid ==> d.strictFinish(p.states[i]).value == d.finish(p.states[i]))
  }

  ghost predicate LastsOk<S(!new)>(d: Decoder<S>, p: Progress<S>, lasts: seq<Cell>) {
    forall i :: 0 <= i < |lasts| ==> LastOk(d, p, lasts[i], i)
  }

  lemma CellsGrow<S(!new)>(d: Decoder<S>, p: Progress<S>, q: Progress<S>, cells: seq<Cell>)
    requires Grows(p, q) && |q.states| == |q.prefixes| && CellsOk(d, p, cells)
    ensures CellsOk(d, q, cells)
  {
    forall k | 0 <= k < |cells| ensures CellOk(d, q, cells[k], k / 256, k % 256) {
      assert CellOk(d, p, cells[k], k / 256, k % 256);
    }
  }

  lemma LastsGrow<S(!new)>(d: Decoder<S>, p: Progress<S>, q: Progress<S>, lasts: seq<Cell>)
    requires Grows(p, q) && LastsOk(d, p, lasts)
    ensures LastsOk(d, q, lasts)
  {
    forall i | 0 <= i < |lasts| ensures LastOk(d, q, lasts[i], i) {
      assert LastOk(d, p, lasts[i], i);
    }
  }

  lemma ListState<S(!new)>(d: Decoder<S>, p: Progress<S>, after: S, prefix: seq<byte>, q: Progress<S>)
    requires Sound(d, p) && after !in p.indices && Reach(d, prefix) == after
    requires q == p.(states := p.states + [after], prefixes := p.prefixes + [prefix],
                     indices := p.indices[after := |p.states|])
    ensures Sound(d, q) && Grows(p, q) && q.prefixes[q.indices[after]] == prefix
  {
  }

  /** Registers a state the first time it is seen, under the prefix that found it. */
  method StateIndex<S(!new,==)>(d: Decoder<S>, p: Progress<S>, index: nat, b: byte) returns (q: Progress<S>)
    requires Sound(d, p) && index < |p.states| && BreadthFirst(p.prefixes, index, b)
    ensures Sound(d, q) && Grows(p, q) && BreadthFirst(q.prefixes, index, b + 1) && q.outputs == p.outputs
    ensures var after := d.step(p.states[index], b).1;
            after in q.indices && NotLater(q.prefixes[q.indices[after]], p.prefixes[index] + [b])
  {
    BreadthFirstNext(p.prefixes, index, b);
    var after := d.step(p.states[index], b).1;
    q := p;
    if after !in p.indices {
      var prefix := p.prefixes[index] + [b];
      assert Reach(d, prefix) == after by {
        AfterSnoc(d, d.initial, p.prefixes[index], b);
      }
      BreadthFirstMore(p.prefixes, index, b, prefix);
      q := p.(states := p.states + [after], prefixes := p.prefixes + [prefix],
              indices := p.indices[after := |p.states|]);
      ListState(d, p, after, prefix, q);
    }
  }

  /** One round of the inner loop: the packed step of the current state on one byte. */
  method VisitByte<S(!new,==)>(d: Decoder<S>, p: Progress<S>, index: nat, b: byte)
    returns (r: Result<(Progress<S>, nat), Failure>, ghost cell: Cell)
    requires Sound(d, p) && index < |p.states| && BreadthFirst(p.prefixes, index, b)
    ensures r.Err? ==> Why(d, r.error)
    ensures r.Ok? ==>
              var (q, word) := r.value;
              && Sound(d, q) && Grows(p, q) && BreadthFirst(q.prefixes, index, b + 1)
              && Lists(|p.outputs|, |q.outputs|, cell.output)
              && word == Pack(cell.output, cell.state, cell.valid) && CellOk(d, q, cell, index, b)
  {
    cell := Cell(0, 0, false);
    var (value, after) := d.step(p.states[index], b);
    var strict := d.strictStep(p.states[index], b);
    if strict.Some? && strict.value != (value, after) {
      assert !StrictAgreesAt(d, Reach(d, p.prefixes[index]));
      return Err(StrictDiffers), cell;
    }
    var q := StateIndex(d, p, index, b);
    assert d.step(Reach(d, p.prefixes[index]), b).0 == value;
    var output := OutputIndex(d, q, value);
    if output.Err? {
      return Err(output.error), cell;
    }
    var (u, at) := output.value;
    cell := Cell(at, u.indices[after], strict.Some?);
    return Ok((u, Pack(at, u.indices[after], strict.Some?))), cell;
  }

  /** The packed flush of a state. */
  method VisitFinal<S(!new,==)>(d: Decoder<S>, p: Progress<S>, index: nat)
    returns (r: Result<(Progress<S>, nat), Failure>, ghost cell: Cell)
    requires Sound(d, p) && index < |p.states|
    ensures r.Err? ==> Why(d, r.error)
    ensures r.Ok? ==>
              var (q, word) := r.value;
              && Sound(d, q) && Grows(p, q) && q.prefixes == p.prefixes && q.states == p.states
              && Lists(|p.outputs|, |q.outputs|, cell.output)
              && word == Pack(cell.output, cell.state, cell.valid) && LastOk(d, q, cell, index)
  {
    cell := Cell(0, 0, false);
    var value := d.finish(p.states[index]);
    var strict := d.strictFinish(p.states[index]);
    if strict.Some? && strict.value != value {
      assert !StrictAgreesAt(d, Reach(d, p.prefixes[index]));
      return Err(StrictDiffers), cell;
    }
    assert d.finish(Reach(d, p.prefixes[index])) == value;
    var output := OutputIndex(d, p, value);
    if output.Err? {
      return Err(output.error), cell;
    }
    var (q, at) := output.value;
    cell := Cell(at, 0, strict.Some?);
    OrZero(at);
    return Ok((q, BitOr(at, if strict.Some? then VALID else 0))), cell;
  }

  lemma CellsAppend<S(!new)>(d: Decoder<S>, p: Progress<S>, q: Progress<S>, cells: seq<Cell>, cell: Cell, i: nat,
      b: byte)
    requires Grows(p, q) && |q.states| == |q.prefixes| && CellsOk(d, p, cells)
    requires |cells| == 256 * i + b && CellOk(d, q, cell, i, b)
    ensures CellsOk(d, q, cells + [cell])
  {
    CellsGrow(d, p, q, cells);
    assert (256 * i + b) / 256 == i && (256 * i + b) % 256 == b;
  }

  lemma LastsAppend<S(!new)>(d: Decoder<S>, p: Progress<S>, q: Progress<S>, lasts: seq<Cell>, last: Cell)
    requires Grows(p, q) && LastsOk(d, p, lasts) && LastOk(d, q, last, |lasts|)
    ensures LastsOk(d, q, lasts + [last])
  {
    LastsGrow(d, p, q, lasts);
  }

  // ---- the numbers of texts ----

  /** Each use is of an entry that is listed already or of the next one; there are `count` entries in the end. */
  predicate FirstUses(uses: seq<nat>, count: nat) {
    if uses == [] then count == 1
    else
      var n := |uses| - 1;
      || (uses[n] < count && FirstUses(uses[..n], count))
      || (count > 1 && uses[n] == count - 1 && FirstUses(uses[..n], count - 1))
  }

  /** Entries are numbered in the order in which they are first used. */
  lemma {:induction false} NumberedByUse(uses: seq<nat>, count: nat)
    requires FirstUses(uses, count)
    ensures count > 0 && forall k :: 0 <= k < |uses| ==> uses[k] < count
    ensures forall u: nat :: 0 < u < count ==> UsedInTurn(uses, u)
  {
    if uses != [] {
      var n := |uses| - 1;
      var before := if FirstUses(uses[..n], count) then count else count - 1;
      NumberedByUse(uses[..n], before);
      forall u: nat | 0 < u < count ensures UsedInTurn(uses, u) {
        if u < before {
          assert UsedInTurn(uses[..n], u);
          var k :| 0 <= k < n && uses[..n][k] == u && forall j :: 0 <= j < k ==> uses[..n][j] < u;
          assert uses[k] == u && forall j :: 0 <= j < k ==> uses[j] == uses[..n][j];
        } else {
          assert uses[n] == u && forall j :: 0 <= j < n ==> uses[j] == uses[..n][j];
        }
      }
    }
  }

  /** Entry `u` is used, and all uses before its first one are of smaller entries. */
  ghost predicate UsedInTurn(uses: seq<nat>, u: nat) {
    exists k :: 0 <= k < |uses| && uses[k] == u && forall j :: 0 <= j < k ==> uses[j] < u
  }

  /** What belongs to the flushes and the steps in the order of the visit: each state's flush, then its 256 steps. */
  function Visits(flushes: seq<nat>, steps: seq<nat>): seq<nat>
    decreases |flushes|
  {
    if flushes == [] then []
    else
      var n := |flushes| - 1;
      var cut := Min(256 * n, |steps|);
      Visits(flushes[..n], steps[..cut]) + [flushes[n]] + steps[cut..]
  }

  lemma VisitsStep(flushes: seq<nat>, steps: seq<nat>, x: nat)
    requires flushes != [] && 256 * (|flushes| - 1) <= |steps|
    ensures Visits(flushes, steps + [x]) == Visits(flushes, steps) + [x]
  {
    var cut := 256 * (|flushes| - 1);
    assert (steps + [x])[..cut] == steps[..cut] && (steps + [x])[cut..] == steps[cut..] + [x];
  }

  lemma VisitsFlush(flushes: seq<nat>, steps: seq<nat>, x: nat)
    requires |steps| == 256 * |flushes|
    ensures Visits(flushes + [x], steps) == Visits(flushes, steps) + [x]
  {
    assert (flushes + [x])[..|flushes|] == flushes && steps[..|steps|] == steps;
  }

  function OutputsOf(cells: seq<Cell>): (r: seq<nat>)
    ensures |r| == |cells| && forall k :: 0 <= k < |cells| ==> r[k] == cells[k].output
  {
    seq(|cells|, k requires 0 <= k < |cells| => cells[k].output)
  }

  /** The texts used so far are numbered in the order of their first use. */
  predicate Numbered(count: nat, lasts: seq<Cell>, cells: seq<Cell>) {
    FirstUses(Visits(OutputsOf(lasts), OutputsOf(cells)), count)
  }

  lemma OneMoreUse(uses: seq<nat>, before: nat, after: nat, at: nat)
    requires FirstUses(uses, before) && Lists(before, after, at)
    ensures FirstUses(uses + [at], after)
  {
    assert (uses + [at])[..|uses|] == uses;
  }

  lemma NumberedStep(before: nat, after: nat, lasts: seq<Cell>, cells: seq<Cell>, cell: Cell)
    requires Numbered(before, lasts, cells) && Lists(before, after, cell.output)
    requires lasts != [] && 256 * (|lasts| - 1) <= |cells|
    ensures Numbered(after, lasts, cells + [cell])
  {
    assert OutputsOf(cells + [cell]) == OutputsOf(cells) + [cell.output];
    VisitsStep(OutputsOf(lasts), OutputsOf(cells), cell.output);
    OneMoreUse(Visits(OutputsOf(lasts), OutputsOf(cells)), before, after, cell.output);
  }

  lemma NumberedFlush(before: nat, after: nat, lasts: seq<Cell>, cells: seq<Cell>, last: Cell)
    requires Numbered(before, lasts, cells) && Lists(before, after, last.output) && |cells| == 256 * |lasts|
    ensures Numbered(after, lasts + [last], cells)
  {
    assert OutputsOf(lasts + [last]) == OutputsOf(lasts) + [last.output];
    VisitsFlush(OutputsOf(lasts), OutputsOf(cells), last.output);
    OneMoreUse(Visits(OutputsOf(lasts), OutputsOf(cells)), before, after, last.output);
  }

  // ---- the loops ----

  /** What holds before byte `b` of the state at `index`, when `cells` describe every step so far. */
  ghost predicate Visited<S(!new)>(d: Decoder<S>, p: Progress<S>, index: nat, b: nat, words: seq<nat>,
      cells: seq<Cell>)
  {
    Sound(d, p) && BreadthFirst(p.prefixes, index, b) && Packs(words, cells) && CellsOk(d, p, cells)
  }

  lemma VisitedNext<S(!new)>(d: Decoder<S>, p: Progress<S>, q: Progress<S>, index: nat, b: byte, words: seq<nat>,
      word: nat, cells: seq<Cell>, cell: Cell)
    requires Visited(d, p, index, b, words, cells) && |cells| == 256 * index + b
    requires Sound(d, q) && Grows(p, q) && BreadthFirst(q.prefixes, index, b + 1)
    requires word == Pack(cell.output, cell.state, cell.valid) && CellOk(d, q, cell, index, b)
    ensures Visited(d, q, index, b + 1, words + [word], cells + [cell])
  {
    CellsAppend(d, p, q, cells, cell, index, b);
  }

  /** One step is packed and appended to the table. */
  method VisitNext<S(!new,==)>(d: Decoder<S>, p: Progress<S>, index: nat, b: byte, words: seq<nat>,
      ghost cells: seq<Cell>, ghost lasts: seq<Cell>)
    returns (r: Result<(Progress<S>, seq<nat>), Failure>, ghost all: seq<Cell>)
    requires index < |p.states| && Visited(d, p, index, b, words, cells) && |cells| == 256 * index + b
    requires |lasts| == index + 1 && Numbered(|p.outputs|, lasts, cells)
    ensures r.Err? ==> Why(d, r.error)
    ensures r.Ok? ==>
              var (q, more) := r.value;
              && Visited(d, q, index, b + 1, more, all) && Grows(p, q) && |all| == |cells| + 1
              && Numbered(|q.outputs|, lasts, all)
  {
    all := cells;
    var visited, cell := VisitByte(d, p, index, b);
    if visited.Err? {
      return Err(visited.error), all;
    }
    var (q, word) := visited.value;
    VisitedNext(d, p, q, index, b, words, word, cells, cell);
    NumberedStep(|p.outputs|, |q.outputs|, lasts, cells, cell);
    all := cells + [cell];
    return Ok((q, words + [word])), all;
  }

  /** The inner loop: all 256 steps of the state at `index`. */
  method VisitBytes<S(!new,==)>(d: Decoder<S>, p: Progress<S>, index: nat, transitions: seq<nat>,
      ghost cells: seq<Cell>, ghost lasts: seq<Cell>)
    returns (r: Result<(Progress<S>, seq<nat>), Failure>, ghost all: seq<Cell>)
    requires index < |p.states| && Visited(d, p, index, 0, transitions, cells) && |cells| == 256 * index
    requires |lasts| == index + 1 && Numbered(|p.outputs|, lasts, cells)
    ensures r.Err? ==> Why(d, r.error)
    ensures r.Ok? ==>
              var (q, words) := r.value;
              && Visited(d, q, index, 256, words, all) && Grows(p, q) && |all| == 256 * (index + 1)
              && Numbered(|q.outputs|, lasts, all)
  {
    all := cells;
    var q, words := p, transitions;
    for b := 0 to 256
      invariant Visited(d, q, index, b, words, all) && Grows(p, q) && |all| == 256 * index + b
      invariant Numbered(|q.outputs|, lasts, all)
    {
      var visited;
      visited, all := VisitNext(d, q, index, b, words, all, lasts);
      if visited.Err? {
        return visited, all;
      }
      q, words := visited.value.0, visited.value.1;
    }
    return Ok((q, words)), all;
  }

  /** The flush of the state at `index` is packed and appended. */
  method VisitFlush<S(!new,==)>(d: Decoder<S>, p: Progress<S>, index: nat, finals: seq<nat>,
        ghost transitions: seq<nat>, ghost cells: seq<Cell>, ghost lasts: seq<Cell>)
    returns (r: Result<(Progress<S>, seq<nat>), Failure>, ghost ends: seq<Cell>)
    requires index < |p.states| && Visited(d, p, index, 0, transitions, cells) && |cells| == 256 * index
    requires |lasts| == index && Packs(finals, lasts) && LastsOk(d, p, lasts) && Numbered(|p.outputs|, lasts, cells)
    ensures r.Err? ==> Why(d, r.error)
    ensures r.Ok? ==>
              var (q, flushes) := r.value;
              && Visited(d, q, index, 0, transitions, cells) && q.states == p.states
              && |ends| == index + 1 && Packs(flushes, ends) && LastsOk(d, q, ends)
              && Numbered(|q.outputs|, ends, cells)
  {
    ends := lasts;
    var flushed, last := VisitFinal(d, p, index);
    if flushed.Err? {
      return Err(flushed.error), ends;
    }
    var (q, word) := flushed.value;
    CellsGrow(d, p, q, cells);
    LastsAppend(d, p, q, lasts, last);
    NumberedFlush(|p.outputs|, |q.outputs|, lasts, cells, last);
    ends := lasts + [last];
    return Ok((q, finals + [word])), ends;
  }

  /** One round of the outer loop: the flush and all steps of the state at `index`. */
  method VisitState<S(!new,==)>(d: Decoder<S>, p: Progress<S>, index: nat, transitions: seq<nat>, finals: seq<nat>,
        ghost cells: seq<Cell>, ghost lasts: seq<Cell>)
    returns (r: Result<(Progress<S>, seq<nat>, seq<nat>), Failure>, ghost all: seq<Cell>, ghost ends: seq<Cell>)
    requires index < |p.states| && Visited(d, p, index, 0, transitions, cells) && |cells| == 256 * index
    requires |lasts| == index && Packs(finals, lasts) && LastsOk(d, p, lasts) && Numbered(|p.outputs|, lasts, cells)
    ensures r.Err? ==> Why(d, r.error)
    ensures r.Ok? ==>
              var (q, words, flushes) := r.value;
              && Visited(d, q, index + 1, 0, words, all) && |all| == 256 * (index + 1) && index < |q.states|
              && |ends| == index + 1 && Packs(flushes, ends) && LastsOk(d, q, ends)
              && Numbered(|q.outputs|, ends, all)
  {
    all := cells;
    var flushed;
    flushed, ends := VisitFlush(d, p, index, finals, transitions, cells, lasts);
    if flushed.Err? {
      return Err(flushed.error), all, ends;
    }
    var (q, flushes) := flushed.value;
    var stepped;
    stepped, all := VisitBytes(d, q, index, transitions, cells, ends);
    if stepped.Err? {
      return Err(stepped.error), all, ends;
    }
    LastsGrow(d, q, stepped.value.0, ends);
    NextState(stepped.value.0.prefixes, index);
    return Ok((stepped.value.0, stepped.value.1, flushes)), all, ends;
  }

  /** The breadth-first capture: it completes exactly for decoders that fit the table, and then the table is right. */
  method Capture<S(!new,==)>(d: Decoder<S>) returns (r: Result<Table<S>, Failure>)
    ensures r.Ok? <==> StatesFit(d) && OutputsFit(d) && StrictAgrees(d)
    ensures r.Ok? ==> Captured(d, r.value) && Layered(d, r.value) && InOrder(r.value)
    ensures r.Err? ==> Why(d, r.error)
  {
    var p := Progress([d.initial], [[]], map[d.initial := 0], [""], map["" := 0]);
    var transitions, finals := [], [];
    ghost var cells, lasts := [], [];
    var index := 0;
    while index < |p.states|
      invariant index <= |p.states| && Visited(d, p, index, 0, transitions, cells) && |cells| == 256 * index
      invariant |lasts| == index && Packs(finals, lasts) && LastsOk(d, p, lasts) && Numbered(|p.outputs|, lasts, cells)
      invariant |p.states| >= STATE_FIELD ==> index < |p.states|
      decreases STATE_FIELD - index
    {
      if |p.states| >= STATE_FIELD {
        Overfull(d, p);
        return Err(TooManyStates);
      }
      var visited;
      visited, cells, lasts := VisitState(d, p, index, transitions, finals, cells, lasts);
      if visited.Err? {
        return Err(visited.error);
      }
      p, transitions, finals := visited.value.0, visited.value.1, visited.value.2;
      index := index + 1;
    }
    var table := Table(p.states, p.prefixes, p.outputs, transitions, finals);
    Assembled(d, p, table, cells, lasts);
    CaptureIsComplete(d, table);
    return Ok(table);
  }

  lemma NextState(prefixes: seq<seq<byte>>, index: nat)
    requires BreadthFirst(prefixes, index, 256) && index < |prefixes|
    ensures BreadthFirst(prefixes, index + 1, 0)
  {
    if index + 1 < |prefixes| {
      EarlierAppend(prefixes[index], prefixes[index + 1], 256, 0);
      forall i | 0 <= i < |prefixes| ensures Earlier(prefixes[i], prefixes[index + 1] + [0]) {
        var last: seq<int> := prefixes[index];
        EarlierTransitive(prefixes[i], last + [256], prefixes[index + 1] + [0]);
      }
    }
  }

  lemma Overfull<S(!new)>(d: Decoder<S>, p: Progress<S>)
    requires Sound(d, p) && |p.states| >= STATE_FIELD
    ensures !StatesFit(d)
  {
    assert Distinct(p.states);
    forall i | 0 <= i < |p.states| ensures Reachable(d, p.states[i]) {
      assert Reach(d, p.prefixes[i]) == p.states[i];
    }
  }

  /** The fields of a word are the operands it was packed from. */
  ghost predicate Unpacks(words: seq<nat>, cells: seq<Cell>) {
    |words| == |cells| && forall k :: 0 <= k < |words| ==>
      && words[k] < WORD && Output(words[k]) == cells[k].output
      && State(words[k]) == cells[k].state && Valid(words[k]) == cells[k].valid
  }

  lemma UnpackAll(words: seq<nat>, cells: seq<Cell>)
    requires Packs(words, cells)
    requires forall k :: 0 <= k < |cells| ==> cells[k].output < OUTPUT_FIELD && cells[k].state < STATE_FIELD
    ensures Unpacks(words, cells)
  {
    forall k | 0 <= k < |words|
      ensures words[k] < WORD && Output(words[k]) == cells[k].output
      ensures State(words[k]) == cells[k].state && Valid(words[k]) == cells[k].valid
    {
      PackUnpack(cells[k].output, cells[k].state, cells[k].valid);
    }
  }

  lemma AssembledEntry<S(!new)>(d: Decoder<S>, p: Progress<S>, t: Table<S>, cells: seq<Cell>, i: nat, b: byte)
    requires WellFormed(t) && t.states == p.states && t.outputs == p.outputs && i < |t.states|
    requires |cells| == 256 * |p.states| && Unpacks(t.transitions, cells) && CellsOk(d, p, cells)
    ensures EntryOk(d, t, i, b)
    ensures d.strictStep(t.states[i], b).Some? ==> d.strictStep(t.states[i], b).value == d.step(t.states[i], b)
  {
    var k := 256 * i + b;
    assert k / 256 == i && k % 256 == b;
    assert CellOk(d, p, cells[k], k / 256, k % 256);
  }

  lemma AssembledFinal<S(!new)>(d: Decoder<S>, p: Progress<S>, t: Table<S>, lasts: seq<Cell>, i: nat)
    requires WellFormed(t) && t.states == p.states && t.outputs == p.outputs && i < |t.states|
    requires Unpacks(t.finals, lasts) && LastsOk(d, p, lasts)
    requires forall b: byte :: d.strictStep(t.states[i], b).Some? ==>
               d.strictStep(t.states[i], b).value == d.step(t.states[i], b)
    ensures FinalOk(d, t, i) && StrictAgreesAt(d, t.states[i])
  {
    assert LastOk(d, p, lasts[i], i);
  }

  lemma FieldsFit<S(!new)>(d: Decoder<S>, p: Progress<S>, cells: seq<Cell>, lasts: seq<Cell>)
    requires Sound(d, p) && |p.states| < STATE_FIELD && CellsOk(d, p, cells) && LastsOk(d, p, lasts)
    ensures forall k :: 0 <= k < |cells| ==> cells[k].output < OUTPUT_FIELD && cells[k].state < STATE_FIELD
    ensures forall i :: 0 <= i < |lasts| ==> lasts[i].output < OUTPUT_FIELD && lasts[i].state < STATE_FIELD
  {
    forall k | 0 <= k < |cells| ensures cells[k].output < OUTPUT_FIELD && cells[k].state < STATE_FIELD {
      assert CellOk(d, p, cells[k], k / 256, k % 256);
    }
    forall i | 0 <= i < |lasts| ensures lasts[i].output < OUTPUT_FIELD && lasts[i].state < STATE_FIELD {
      assert LastOk(d, p, lasts[i], i);
    }
  }

  lemma AssembledRows<S(!new)>(d: Decoder<S>, p: Progress<S>, t: Table<S>, cells: seq<Cell>, lasts: seq<Cell>)
    requires WellFormed(t) && t.states == p.states && t.outputs == p.outputs
    requires |cells| == 256 * |p.states| && Unpacks(t.transitions, cells) && CellsOk(d, p, cells)
    requires |lasts| == |p.states| && Unpacks(t.finals, lasts) && LastsOk(d, p, lasts)
    ensures forall i :: 0 <= i < |t.states| ==> FinalOk(d, t, i) && StrictAgreesAt(d, t.states[i])
    ensures forall i, b :: 0 <= i < |t.states| && 0 <= b < 256 ==> EntryOk(d, t, i, b)
  {
    forall i, b: byte | 0 <= i < |t.states|
      ensures EntryOk(d, t, i, b)
      ensures d.strictStep(t.states[i], b).Some? ==> d.strictStep(t.states[i], b).value == d.step(t.states[i], b)
    {
      AssembledEntry(d, p, t, cells, i, b);
    }
    forall i | 0 <= i < |t.states| ensures FinalOk(d, t, i) && StrictAgreesAt(d, t.states[i]) {
      AssembledFinal(d, p, t, lasts, i);
    }
  }

  lemma AssembledSizes<S(!new)>(d: Decoder<S>, p: Progress<S>, t: Table<S>, cells: seq<Cell>, lasts: seq<Cell>)
    requires 0 < |p.states| < STATE_FIELD
    requires t.states == p.states && t.prefixes == p.prefixes && t.outputs == p.outputs
    requires |cells| == 256 * |p.states| && Unpacks(t.transitions, cells) && CellsOk(d, p, cells)
    requires |lasts| == |p.states| && Unpacks(t.finals, lasts) && LastsOk(d, p, lasts)
    ensures WellFormed(t)
    ensures forall k :: 0 <= k < |t.transitions| ==>
              NotLater(t.prefixes[State(t.transitions[k])], t.prefixes[k / 256] + [k % 256])
    ensures forall i :: 0 <= i < |t.finals| ==> State(t.finals[i]) == 0
  {
    forall k | 0 <= k < |cells| ensures CellOk(d, p, cells[k], k / 256, k % 256) {
    }
    forall i | 0 <= i < |lasts| ensures LastOk(d, p, lasts[i], i) {
    }
  }

  /** With fewer than 2^15 states no field of a packed word has overflowed. */
  lemma Assembled<S(!new)>(d: Decoder<S>, p: Progress<S>, t: Table<S>, cells: seq<Cell>, lasts: seq<Cell>)
    requires Sound(d, p) && |p.states| < STATE_FIELD
    requires t == Table(p.states, p.prefixes, p.outputs, t.transitions, t.finals)
    requires |cells| == 256 * |p.states| && Packs(t.transitions, cells) && CellsOk(d, p, cells)
    requires |lasts| == |p.states| && Packs(t.finals, lasts) && LastsOk(d, p, lasts)
    requires BreadthFirst(p.prefixes, |p.states|, 0) && Numbered(|p.outputs|, lasts, cells)
    ensures Captured(d, t) && Layered(d, t) && InOrder(t)
  {
    FieldsFit(d, p, cells, lasts);
    UnpackAll(t.transitions, cells);
    UnpackAll(t.finals, lasts);
    AssembledSizes(d, p, t, cells, lasts);
    AssembledRows(d, p, t, cells, lasts);
    assert OutputFields(t.finals) == OutputsOf(lasts) && OutputFields(t.transitions) == OutputsOf(cells);
  }
}

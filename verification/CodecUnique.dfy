/** There is one table: whatever is captured from a decoder with the contents and the order that `Capture` promises. */
module CodecUnique {
  import opened Basics
  import opened PackedWord
  import opened CodecCapture

  // ---- the states and their prefixes ----

  /** Two sorted lists with the same entries are the same. */
  lemma {:induction false} SortedOnce(ps: seq<seq<byte>>, qs: seq<seq<byte>>)
    requires Sorted(ps) && Sorted(qs) && forall p :: p in ps <==> p in qs
    ensures ps == qs
  {
    HasLast(ps);
    HasLast(qs);
    if ps != [] {
      var n, m := |ps| - 1, |qs| - 1;
      LastIsLast(ps, qs[m]);
      LastIsLast(qs, ps[n]);
      SameLast(ps[n], qs[m]);
      SortedFront(ps);
      SortedFront(qs);
      forall p ensures p in ps[..n] <==> p in qs[..m] {
        assert p in ps <==> p in qs;
      }
      SortedOnce(ps[..n], qs[..m]);
      assert ps == ps[..n] + [ps[n]] && qs == qs[..m] + [qs[m]];
    }
  }

  lemma HasLast(ps: seq<seq<byte>>)
    ensures ps != [] ==> ps[|ps| - 1] in ps
  {
  }

  lemma LastIsLast(ps: seq<seq<byte>>, p: seq<byte>)
    requires Sorted(ps) && p in ps
    ensures NotLater(p, ps[|ps| - 1])
  {
    var i :| 0 <= i < |ps| && ps[i] == p;
  }

  lemma SameLast(p: seq<byte>, q: seq<byte>)
    requires NotLater(p, q) && NotLater(q, p)
    ensures p == q
  {
    if Earlier(p, q) {
      EarlierIsStrict(p, q);
    }
  }

  lemma SortedFront(ps: seq<seq<byte>>)
    requires Sorted(ps) && ps != []
    ensures Sorted(ps[..|ps| - 1])
    ensures forall p :: p in ps[..|ps| - 1] <==> p in ps && p != ps[|ps| - 1]
  {
    var n := |ps| - 1;
    forall i | 0 <= i < n ensures ps[i] != ps[n] {
      EarlierIsStrict(ps[i], ps[n]);
    }
    forall p | p in ps && p != ps[n] ensures p in ps[..n] {
      var i :| 0 <= i < |ps| && ps[i] == p;
      assert ps[..n][i] == p;
    }
  }

  ghost predicate Complete<S(!new)>(d: Decoder<S>, t: Table<S>) {
    Captured(d, t) && Layered(d, t) && InOrder(t)
  }

  /** Each prefix of one table is a prefix of the other. */
  lemma PrefixIsThere<S(!new)>(d: Decoder<S>, t: Table<S>, u: Table<S>, i: nat)
    requires Complete(d, t) && Complete(d, u) && i < |t.prefixes|
    ensures t.prefixes[i] in u.prefixes
  {
    var j := PrefixIsShortest(d, u, t.prefixes[i]);
    var k := PrefixIsShortest(d, t, u.prefixes[j]);
    assert t.states[k] == Reach(d, u.prefixes[j]) == u.states[j] == Reach(d, t.prefixes[i]) == t.states[i];
    assert k == i;
    SameLast(t.prefixes[i], u.prefixes[j]);
  }

  lemma SameStates<S(!new)>(d: Decoder<S>, t: Table<S>, u: Table<S>)
    requires Complete(d, t) && Complete(d, u)
    ensures t.prefixes == u.prefixes && t.states == u.states
  {
    forall p ensures p in t.prefixes <==> p in u.prefixes {
      if p in t.prefixes {
        var i :| 0 <= i < |t.prefixes| && t.prefixes[i] == p;
        PrefixIsThere(d, t, u, i);
      }
      if p in u.prefixes {
        var i :| 0 <= i < |u.prefixes| && u.prefixes[i] == p;
        PrefixIsThere(d, u, t, i);
      }
    }
    SortedOnce(t.prefixes, u.prefixes);
    forall i | 0 <= i < |t.states| ensures t.states[i] == u.states[i] {
      assert Reach(d, t.prefixes[i]) == t.states[i] && Reach(d, u.prefixes[i]) == u.states[i];
    }
  }

  // ---- the texts ----

  /** Uses of the same texts in the same order number them alike. */
  lemma {:induction false} SameUses(items: seq<string>, uses: seq<nat>, items': seq<string>, uses': seq<nat>)
    requires |uses| == |uses'| && FirstUses(uses, |items|) && FirstUses(uses', |items'|)
    requires Distinct(items) && Distinct(items') && items != [] && items' != [] && items[0] == items'[0]
    requires forall k :: 0 <= k < |uses| ==>
               uses[k] < |items| && uses'[k] < |items'| && items[uses[k]] == items'[uses'[k]]
    ensures items == items' && uses == uses'
    decreases |uses|
  {
    if uses == [] {
      assert items == [items[0]] && items' == [items'[0]];
    } else {
      var n := |uses| - 1;
      var count := if FirstUses(uses[..n], |items|) then |items| else |items| - 1;
      var count' := if FirstUses(uses'[..n], |items'|) then |items'| else |items'| - 1;
      NumberedByUse(uses[..n], count);
      NumberedByUse(uses'[..n], count');
      forall k | 0 <= k < n
        ensures uses[..n][k] < count && uses'[..n][k] < count'
        ensures items[..count][uses[..n][k]] == items'[..count'][uses'[..n][k]]
      {
        assert uses[..n][k] == uses[k] && uses'[..n][k] == uses'[k];
      }
      SameUses(items[..count], uses[..n], items'[..count'], uses'[..n]);
      OneMoreItem(items, items', count, uses[n], uses'[n]);
      assert uses == uses[..n] + [uses[n]] && uses' == uses'[..n] + [uses'[n]];
    }
  }

  lemma OneMoreItem(items: seq<string>, items': seq<string>, count: nat, use: nat, use': nat)
    requires count <= |items| && count <= |items'| && items[..count] == items'[..count]
    requires Distinct(items) && Distinct(items') && use < |items| && use' < |items'| && items[use] == items'[use']
    requires |items| == count || (|items| == count + 1 && use == count)
    requires |items'| == count || (|items'| == count + 1 && use' == count)
    ensures items == items' && use == use'
  {
    assert forall k :: 0 <= k < count ==> items[k] == items[..count][k] == items'[k];
    if use < count {
      assert items'[use] == items'[use'];
    }
  }

  ghost predicate SameText<S(!new)>(t: Table<S>, u: Table<S>, x: nat, y: nat) {
    x < |t.outputs| && y < |u.outputs| && t.outputs[x] == u.outputs[y]
  }

  ghost predicate AllSame<S(!new)>(t: Table<S>, u: Table<S>, xs: seq<nat>, ys: seq<nat>) {
    |xs| == |ys| && forall k :: 0 <= k < |xs| ==> SameText(t, u, xs[k], ys[k])
  }

  lemma AllSameConcat<S(!new)>(t: Table<S>, u: Table<S>, a: seq<nat>, x: nat, c: seq<nat>, a': seq<nat>, x': nat,
      c': seq<nat>)
    requires AllSame(t, u, a, a') && SameText(t, u, x, x') && AllSame(t, u, c, c')
    ensures AllSame(t, u, a + [x] + c, a' + [x'] + c')
  {
  }

  /** A step of the decoder has one text, one target and one verdict. */
  lemma SameStep<S(!new)>(d: Decoder<S>, t: Table<S>, u: Table<S>, i: nat, b: byte)
    requires Captured(d, t) && Captured(d, u) && t.states == u.states && i < |t.states|
    ensures var w, v := t.transitions[256 * i + b], u.transitions[256 * i + b];
            && w < WORD && v < WORD && SameText(t, u, Output(w), Output(v))
            && State(w) == State(v) && Valid(w) == Valid(v)
  {
    assert EntryOk(d, t, i, b) && EntryOk(d, u, i, b);
  }

  lemma SameFlush<S(!new)>(d: Decoder<S>, t: Table<S>, u: Table<S>, i: nat)
    requires Captured(d, t) && Captured(d, u) && t.states == u.states && i < |t.states|
    ensures var w, v := t.finals[i], u.finals[i];
            && w < WORD && v < WORD && SameText(t, u, Output(w), Output(v))
            && State(w) == State(v) && Valid(w) == Valid(v)
  {
    assert FinalOk(d, t, i) && FinalOk(d, u, i);
  }

  lemma SameSteps<S(!new)>(d: Decoder<S>, t: Table<S>, u: Table<S>, i: nat)
    requires Captured(d, t) && Captured(d, u) && t.states == u.states && i < |t.states|
    ensures AllSame(t, u, OutputFields(t.transitions)[256 * i..256 * (i + 1)],
                    OutputFields(u.transitions)[256 * i..256 * (i + 1)])
  {
    var g, g' := OutputFields(t.transitions), OutputFields(u.transitions);
    var c, c' := g[256 * i..256 * (i + 1)], g'[256 * i..256 * (i + 1)];
    forall k | 0 <= k < |c| ensures SameText(t, u, c[k], c'[k]) {
      SameStep(d, t, u, i, k);
    }
  }

  /** The texts that the visit of the first `n` states uses are the same for both tables. */
  lemma {:induction false} SameTexts<S(!new)>(d: Decoder<S>, t: Table<S>, u: Table<S>, n: nat)
    requires Captured(d, t) && Captured(d, u) && t.states == u.states && n <= |t.states|
    ensures AllSame(t, u, Visits(OutputFields(t.finals)[..n], OutputFields(t.transitions)[..256 * n]),
                    Visits(OutputFields(u.finals)[..n], OutputFields(u.transitions)[..256 * n]))
  {
    if n > 0 {
      var i := n - 1;
      SameTexts(d, t, u, i);
      SameFlush(d, t, u, i);
      SameSteps(d, t, u, i);
      var f, g := OutputFields(t.finals), OutputFields(t.transitions);
      var f', g' := OutputFields(u.finals), OutputFields(u.transitions);
      VisitsOfState(f, g, n);
      VisitsOfState(f', g', n);
      AllSameConcat(t, u, Visits(f[..i], g[..256 * i]), f[i], g[256 * i..256 * n],
                    Visits(f'[..i], g'[..256 * i]), f'[i], g'[256 * i..256 * n]);
    }
  }

  lemma VisitsOfState(flushes: seq<nat>, steps: seq<nat>, n: nat)
    requires 0 < n <= |flushes| && |steps| == 256 * |flushes|
    ensures Visits(flushes[..n], steps[..256 * n]) ==
            Visits(flushes[..n - 1], steps[..256 * (n - 1)]) + [flushes[n - 1]] + steps[256 * (n - 1)..256 * n]
  {
    assert flushes[..n][..n - 1] == flushes[..n - 1];
    assert steps[..256 * n][..256 * (n - 1)] == steps[..256 * (n - 1)];
    assert steps[..256 * n][256 * (n - 1)..] == steps[256 * (n - 1)..256 * n];
  }

  lemma {:induction false} VisitsSplit(flushes: seq<nat>, steps: seq<nat>, flushes': seq<nat>, steps': seq<nat>)
    requires |flushes| == |flushes'| && |steps| == |steps'| == 256 * |flushes|
    requires Visits(flushes, steps) == Visits(flushes', steps')
    ensures flushes == flushes' && steps == steps'
    decreases |flushes|
  {
    if flushes != [] {
      var n := |flushes| - 1;
      var cut := 256 * n;
      var a, a' := Visits(flushes[..n], steps[..cut]), Visits(flushes'[..n], steps'[..cut]);
      VisitsLength(flushes[..n], steps[..cut]);
      VisitsLength(flushes'[..n], steps'[..cut]);
      SplitThree(a, flushes[n], steps[cut..], a', flushes'[n], steps'[cut..]);
      VisitsSplit(flushes[..n], steps[..cut], flushes'[..n], steps'[..cut]);
      assert steps == steps[..cut] + steps[cut..] && steps' == steps'[..cut] + steps'[cut..];
      assert flushes == flushes[..n] + [flushes[n]] && flushes' == flushes'[..n] + [flushes'[n]];
    }
  }

  lemma SplitThree(a: seq<nat>, x: nat, c: seq<nat>, a': seq<nat>, x': nat, c': seq<nat>)
    requires |a| == |a'| && a + [x] + c == a' + [x'] + c'
    ensures a == a' && x == x' && c == c'
  {
    var s, s' := a + [x] + c, a' + [x'] + c';
    assert a == s[..|a|] && a' == s'[..|a|];
    assert s[|a|] == x && s'[|a|] == x';
    assert c == s[|a| + 1..] && c' == s'[|a| + 1..];
  }

  lemma {:induction false} VisitsLength(flushes: seq<nat>, steps: seq<nat>)
    requires |steps| == 256 * |flushes|
    ensures |Visits(flushes, steps)| == |flushes| + |steps|
    decreases |flushes|
  {
    if flushes != [] {
      VisitsLength(flushes[..|flushes| - 1], steps[..256 * (|flushes| - 1)]);
    }
  }

  // ---- the words ----

  lemma SameWord(w: nat, v: nat)
    requires w < WORD && v < WORD && Output(w) == Output(v) && State(w) == State(v) && Valid(w) == Valid(v)
    ensures w == v
  {
    WordIs(w);
    WordIs(v);
  }

  lemma WordIs(w: nat)
    requires w < WORD
    ensures w == Output(w) + State(w) * OUTPUT_FIELD + if Valid(w) then VALID else 0
  {
    assert w / OUTPUT_FIELD == w / VALID * STATE_FIELD + State(w);
    assert w / VALID < 2;
  }

  lemma SameOutputs<S(!new)>(t: Table<S>, u: Table<S>, f: seq<nat>, g: seq<nat>, f': seq<nat>, g': seq<nat>)
    requires Distinct(t.outputs) && Distinct(u.outputs) && t.outputs != [] && u.outputs != []
    requires t.outputs[0] == u.outputs[0] && |f| == |f'| && |g| == |g'| == 256 * |f|
    requires AllSame(t, u, Visits(f, g), Visits(f', g'))
    requires FirstUses(Visits(f, g), |t.outputs|) && FirstUses(Visits(f', g'), |u.outputs|)
    ensures t.outputs == u.outputs && f == f' && g == g'
  {
    var a, b := Visits(f, g), Visits(f', g');
    forall k | 0 <= k < |a|
      ensures a[k] < |t.outputs| && b[k] < |u.outputs| && t.outputs[a[k]] == u.outputs[b[k]]
    {
      assert SameText(t, u, a[k], b[k]);
    }
    SameUses(t.outputs, a, u.outputs, b);
    VisitsSplit(f, g, f', g');
  }

  lemma SameFields<S(!new)>(d: Decoder<S>, t: Table<S>, u: Table<S>)
    requires Complete(d, t) && Complete(d, u) && t.states == u.states
    ensures t.outputs == u.outputs
    ensures OutputFields(t.finals) == OutputFields(u.finals)
    ensures OutputFields(t.transitions) == OutputFields(u.transitions)
  {
    AllTextsSame(d, t, u);
    SameOutputs(t, u, OutputFields(t.finals), OutputFields(t.transitions), OutputFields(u.finals),
                OutputFields(u.transitions));
  }

  lemma AllTextsSame<S(!new)>(d: Decoder<S>, t: Table<S>, u: Table<S>)
    requires Captured(d, t) && Captured(d, u) && t.states == u.states
    ensures AllSame(t, u, Visits(OutputFields(t.finals), OutputFields(t.transitions)),
                    Visits(OutputFields(u.finals), OutputFields(u.transitions)))
  {
    var n := |t.states|;
    SameTexts(d, t, u, n);
    WholeSlices(OutputFields(t.finals), OutputFields(t.transitions), n);
    WholeSlices(OutputFields(u.finals), OutputFields(u.transitions), n);
  }

  lemma WholeSlices(f: seq<nat>, g: seq<nat>, n: nat)
    requires |f| == n && |g| == 256 * n
    ensures f[..n] == f && g[..256 * n] == g
  {
  }

  lemma SameTransition<S(!new)>(d: Decoder<S>, t: Table<S>, u: Table<S>, k: nat)
    requires Captured(d, t) && Captured(d, u) && t.states == u.states && k < |t.transitions|
    requires OutputFields(t.transitions) == OutputFields(u.transitions)
    ensures t.transitions[k] == u.transitions[k]
  {
    var i, b: byte := k / 256, k % 256;
    SameStep(d, t, u, i, b);
    assert k == 256 * i + b && OutputFields(t.transitions)[k] == OutputFields(u.transitions)[k];
    SameWord(t.transitions[k], u.transitions[k]);
  }

  lemma SameFinal<S(!new)>(d: Decoder<S>, t: Table<S>, u: Table<S>, i: nat)
    requires Captured(d, t) && Captured(d, u) && t.states == u.states && i < |t.states|
    requires OutputFields(t.finals) == OutputFields(u.finals)
    ensures t.finals[i] == u.finals[i]
  {
    SameFlush(d, t, u, i);
    assert OutputFields(t.finals)[i] == OutputFields(u.finals)[i];
    SameWord(t.finals[i], u.finals[i]);
  }

  lemma SameWords<S(!new)>(d: Decoder<S>, t: Table<S>, u: Table<S>)
    requires Captured(d, t) && Captured(d, u) && t.states == u.states
    requires OutputFields(t.finals) == OutputFields(u.finals)
    requires OutputFields(t.transitions) == OutputFields(u.transitions)
    ensures t.transitions == u.transitions && t.finals == u.finals
  {
    forall k | 0 <= k < |t.transitions| ensures t.transitions[k] == u.transitions[k] {
      SameTransition(d, t, u, k);
    }
    forall i | 0 <= i < |t.finals| ensures t.finals[i] == u.finals[i] {
      SameFinal(d, t, u, i);
    }
  }

  /** What `Capture` promises of its table leaves no choice: two such tables of a decoder are equal. */
  lemma TableIsUnique<S(!new)>(d: Decoder<S>, t: Table<S>, u: Table<S>)
    requires Captured(d, t) && Layered(d, t) && InOrder(t)
    requires Captured(d, u) && Layered(d, u) && InOrder(u)
    ensures t == u
  {
    SameStates(d, t, u);
    SameFields(d, t, u);
    SameWords(d, t, u);
  }
}

/** Greedy word wrapping: it keeps the words in order and uses as few lines as any wrapping can. */
module WrapText {
  import opened Basics

  // ---- words ----

  /** The first position at or after `i` whose character is (or is not) whitespace. */
  function Scan(s: string, i: nat, space: bool): (r: nat)
    requires i <= |s|
    ensures i <= r <= |s| && forall k :: i <= k < r ==> IsSpace(s[k]) != space
    ensures r < |s| ==> IsSpace(s[r]) == space
    decreases |s| - i
  {
    if i == |s| || IsSpace(s[i]) == space then i else Scan(s, i + 1, space)
  }

  /** Python's `split`: the maximal runs without whitespace. */
  function Split(s: string): (words: seq<string>)
    ensures forall w :: w in words ==> IsWord(w)
    decreases |s|
  {
    var a := Scan(s, 0, false);
    if a == |s| then []
    else
      var b := Scan(s, a, true);
      [s[a..b]] + Split(s[b..])
  }

  predicate IsWord(w: string) {
    w != "" && forall i :: 0 <= i < |w| ==> !IsSpace(w[i])
  }

  /** Words joined by single spaces. */
  function Join(words: seq<string>): string {
    if words == [] then ""
    else if |words| == 1 then words[0]
    else words[0] + " " + Join(words[1..])
  }

  function Concat(lines: seq<seq<string>>): seq<string> {
    if lines == [] then [] else lines[0] + Concat(lines[1..])
  }

  /** A line fits the width or is a single word. */
  predicate Legal(line: seq<string>, width: int) {
    |line| == 1 || (|line| > 1 && |Join(line)| <= width)
  }

  predicate AllLegal(lines: seq<seq<string>>, width: int) {
    forall i :: 0 <= i < |lines| ==> Legal(lines[i], width)
  }

  /** What the loop produces from a line in progress and the words still to come. */
  function Greedy(current: seq<string>, rest: seq<string>, width: int): seq<seq<string>>
    decreases |rest|
  {
    if rest == [] then (if current == [] then [] else [current])
    else if |Join(current + [rest[0]])| > width && current != [] then [current] + Greedy([rest[0]], rest[1..], width)
    else Greedy(current + [rest[0]], rest[1..], width)
  }

  function Texts(lines: seq<seq<string>>): (r: seq<string>)
    ensures |r| == |lines|
  {
    seq(|lines|, i requires 0 <= i < |lines| => Join(lines[i]))
  }

  method WrapText(value: string, width: int) returns (lines: seq<string>)
    ensures lines == Texts(Greedy([], Split(value), width))
  {
    var words := Split(value);
    lines := [];
    var current: seq<string> := [];
    ghost var done: seq<seq<string>> := [];
    for i := 0 to |words|
      invariant lines == Texts(done)
      invariant Greedy([], words, width) == done + Greedy(current, words[i..], width)
    {
      assert words[i..][1..] == words[i + 1..];
      var candidate := Join(current + [words[i]]);
      if |candidate| > width && current != [] {
        lines := lines + [Join(current)];
        ghost var after := Greedy([words[i]], words[i + 1..], width);
        assert done + ([current] + after) == (done + [current]) + after;
        done := done + [current];
        current := [words[i]];
      } else {
        current := current + [words[i]];
      }
    }
    if current != [] {
      lines := lines + [Join(current)];
      done := done + [current];
    }
  }

  // ---- the words are kept, and every line is legal ----

  lemma {:induction false} GreedyKeepsWords(current: seq<string>, rest: seq<string>, width: int)
    ensures Concat(Greedy(current, rest, width)) == current + rest
    decreases |rest|
  {
    if rest != [] {
      assert current + rest == (current + [rest[0]]) + rest[1..];
      GreedyKeepsWords(current + [rest[0]], rest[1..], width);
      GreedyKeepsWords([rest[0]], rest[1..], width);
      assert [rest[0]] + rest[1..] == rest;
    }
  }

  lemma {:induction false} GreedyIsLegal(current: seq<string>, rest: seq<string>, width: int)
    requires current == [] || Legal(current, width)
    ensures AllLegal(Greedy(current, rest, width), width)
    decreases |rest|
  {
    if rest != [] {
      if |Join(current + [rest[0]])| > width && current != [] {
        GreedyIsLegal([rest[0]], rest[1..], width);
      } else {
        GreedyIsLegal(current + [rest[0]], rest[1..], width);
      }
    }
  }

  // ---- no wrapping has fewer lines ----

  lemma {:induction false} JoinGrows(a: seq<string>, b: seq<string>)
    ensures |Join(a)| <= |Join(a + b)| && |Join(b)| <= |Join(a + b)|
  {
    if a == [] {
      assert a + b == b;
    } else {
      assert (a + b)[1..] == a[1..] + b;
      JoinGrows(a[1..], b);
      if |a| == 1 && b == [] {
        assert a + b == a;
      }
    }
  }

  /** Words dropped from the front leave a wrapping with no more lines, and fewer if a whole line goes. */
  lemma {:induction false} DropWords(lines: seq<seq<string>>, n: nat, width: int) returns (left: seq<seq<string>>)
    requires AllLegal(lines, width) && n <= |Concat(lines)|
    ensures AllLegal(left, width) && Concat(left) == Concat(lines)[n..]
    ensures |left| <= |lines| && (lines != [] && |lines[0]| <= n ==> |left| < |lines|)
    decreases |lines|
  {
    if lines == [] || n == 0 {
      left := lines;
    } else if |lines[0]| <= n {
      left := DropWords(lines[1..], n - |lines[0]|, width);
    } else {
      var head := lines[0][n..];
      left := [head] + lines[1..];
      assert lines[0] == lines[0][..n] + head;
      JoinGrows(lines[0][..n], head);
      assert Legal(lines[0], width) && Legal(head, width);
      assert left[1..] == lines[1..];
    }
  }

  lemma {:induction false} GreedyIsOptimalFrom(current: seq<string>, rest: seq<string>, width: int,
      lines: seq<seq<string>>)
    requires current == [] || Legal(current, width)
    requires AllLegal(lines, width) && Concat(lines) == current + rest
    ensures |Greedy(current, rest, width)| <= |lines|
    decreases |rest|
  {
    if rest != [] {
      var more := current + [rest[0]];
      assert current + rest == more + rest[1..];
      if |Join(more)| > width && current != [] {
        assert lines != [] && Legal(lines[0], width);
        if |lines[0]| > |current| {
          assert lines[0] == (current + rest)[..|lines[0]|] == more + lines[0][|more|..];
          JoinGrows(more, lines[0][|more|..]);
          assert false;
        }
        var left := DropWords(lines, |current|, width);
        assert Concat(left) == rest == [rest[0]] + rest[1..];
        GreedyIsOptimalFrom([rest[0]], rest[1..], width, left);
      } else {
        GreedyIsOptimalFrom(more, rest[1..], width, lines);
      }
    } else if current != [] {
      assert lines != [];
    }
  }

  /** The lines hold exactly the words, each is legal, and no other legal wrapping of them has fewer lines. */
  lemma GreedyIsOptimal(words: seq<string>, width: int)
    ensures Concat(Greedy([], words, width)) == words && AllLegal(Greedy([], words, width), width)
    ensures forall lines :: AllLegal(lines, width) && Concat(lines) == words ==> |Greedy([], words, width)| <= |lines|
  {
    GreedyKeepsWords([], words, width);
    GreedyIsLegal([], words, width);
    assert [] + words == words;
    forall lines | AllLegal(lines, width) && Concat(lines) == words ensures |Greedy([], words, width)| <= |lines| {
      GreedyIsOptimalFrom([], words, width, lines);
    }
  }

  // ---- each line takes all it can ----

  /** No line but the last has room for the word after it. */
  ghost predicate Filled(lines: seq<seq<string>>, width: int) {
    forall i, j :: 0 <= i < j < |lines| && j == i + 1 ==> FullBefore(lines[i], lines[j], width)
  }

  predicate FullBefore(line: seq<string>, next: seq<string>, width: int) {
    next != [] && |Join(line + [next[0]])| > width
  }

  lemma {:induction false} GreedyFills(current: seq<string>, rest: seq<string>, width: int)
    ensures Filled(Greedy(current, rest, width), width)
    ensures current != [] ==> Greedy(current, rest, width) != [] && current <= Greedy(current, rest, width)[0]
    decreases |rest|
  {
    if rest != [] {
      if |Join(current + [rest[0]])| > width && current != [] {
        GreedyFills([rest[0]], rest[1..], width);
        FilledCons(current, rest[0], Greedy([rest[0]], rest[1..], width), width);
      } else {
        GreedyFills(current + [rest[0]], rest[1..], width);
      }
    }
  }

  lemma FilledCons(current: seq<string>, word: string, lines: seq<seq<string>>, width: int)
    requires Filled(lines, width) && lines != [] && [word] <= lines[0] && |Join(current + [word])| > width
    ensures Filled([current] + lines, width)
  {
    var all := [current] + lines;
    forall i, j | 0 <= i < j < |all| && j == i + 1 ensures FullBefore(all[i], all[j], width) {
      if i == 0 {
        assert all[i] == current && all[j] == lines[0] && lines[0][0] == word;
      } else {
        var k := i - 1;
        assert all[i] == lines[k] && all[j] == lines[i] && FullBefore(lines[k], lines[i], width);
      }
    }
  }

  lemma FilledRest(lines: seq<seq<string>>, width: int)
    requires Filled(lines, width) && AllLegal(lines, width) && lines != []
    ensures Filled(lines[1..], width) && AllLegal(lines[1..], width)
  {
    forall i, j | 0 <= i < j < |lines[1..]| && j == i + 1
      ensures FullBefore(lines[1..][i], lines[1..][j], width)
    {
      var k := i + 1;
      assert lines[1..][i] == lines[k] && lines[1..][j] == lines[j + 1] && FullBefore(lines[k], lines[j + 1], width);
    }
  }

  lemma LongLine(current: seq<string>, rest: seq<string>, width: int, head: seq<string>, tail: seq<string>)
    requires Legal(head, width) && head + tail == current + rest && rest != [] && |head| > |current|
    ensures current + [rest[0]] <= head
    ensures current != [] ==> |Join(current + [rest[0]])| <= width
  {
    var n, more := |current|, current + [rest[0]];
    assert head[n] == (head + tail)[n] == (current + rest)[n] == rest[0];
    assert head[..n] == (head + tail)[..n] == (current + rest)[..n] == current;
    assert head == more + head[n + 1..];
    JoinGrows(more, head[n + 1..]);
  }

  lemma SameTail<T>(a: seq<T>, b: seq<T>, c: seq<T>)
    requires a + b == a + c
    ensures b == c
  {
    assert b == (a + b)[|a|..] && c == (a + c)[|a|..];
  }

  lemma NextWord(lines: seq<seq<string>>, width: int, current: seq<string>, rest: seq<string>)
    requires AllLegal(lines, width) && lines != [] && lines[0] == current
    requires Concat(lines) == current + rest && rest != []
    ensures |lines| > 1 && Concat(lines[1..]) == rest && lines[1] != [] && lines[1][0] == rest[0]
  {
    SameTail(current, Concat(lines[1..]), rest);
    assert |lines| > 1;
    assert Legal(lines[1], width) && lines[1..][0] == lines[1];
    assert Concat(lines[1..]) == lines[1] + Concat(lines[1..][1..]);
  }

  /** The first line of such a wrapping ends where the greedy one does. */
  lemma FirstLine(current: seq<string>, rest: seq<string>, width: int, lines: seq<seq<string>>)
    requires AllLegal(lines, width) && Filled(lines, width) && Concat(lines) == current + rest && rest != []
    requires lines != [] && current <= lines[0]
    ensures |Join(current + [rest[0]])| > width && current != [] ==> lines[0] == current
    ensures !(|Join(current + [rest[0]])| > width && current != []) ==> current + [rest[0]] <= lines[0]
  {
    assert Legal(lines[0], width);
    if |lines[0]| > |current| {
      LongLine(current, rest, width, lines[0], Concat(lines[1..]));
    } else {
      NextWord(lines, width, current, rest);
      var i, j := 0, 1;
      assert FullBefore(lines[i], lines[j], width);
    }
  }

  lemma OnlyLine(lines: seq<seq<string>>, width: int, current: seq<string>)
    requires AllLegal(lines, width) && lines != [] && current <= lines[0] && Concat(lines) == current
    ensures lines == [current] && current != []
  {
    assert Legal(lines[0], width) && lines[0] == current;
    assert current + [] == current;
    SameTail(current, Concat(lines[1..]), []);
    SomeWords(lines[1..], width);
  }

  lemma SomeWords(lines: seq<seq<string>>, width: int)
    requires AllLegal(lines, width)
    ensures lines != [] ==> Concat(lines) != []
  {
    if lines != [] {
      assert Legal(lines[0], width);
    }
  }

  /** Any wrapping into legal lines that take all they can is the greedy one. */
  lemma {:induction false} FilledIsGreedy(current: seq<string>, rest: seq<string>, width: int, lines: seq<seq<string>>)
    requires AllLegal(lines, width) && Filled(lines, width) && Concat(lines) == current + rest
    requires lines != [] ==> current <= lines[0]
    ensures lines == Greedy(current, rest, width)
    decreases |rest|
  {
    if lines == [] {
      assert current + rest == [];
    } else if rest == [] {
      assert current + rest == current;
      OnlyLine(lines, width, current);
    } else {
      var more := current + [rest[0]];
      FirstLine(current, rest, width, lines);
      if |Join(more)| > width && current != [] {
        FilledRest(lines, width);
        NextWord(lines, width, current, rest);
        assert rest == [rest[0]] + rest[1..];
        FilledIsGreedy([rest[0]], rest[1..], width, lines[1..]);
        assert lines == [lines[0]] + lines[1..];
      } else {
        assert current + rest == more + rest[1..];
        FilledIsGreedy(more, rest[1..], width, lines);
      }
    }
  }

  /** The greedy wrapping is the one wrapping into legal lines of which each takes all it can. */
  lemma GreedyIsFilled(words: seq<string>, width: int)
    ensures forall lines :: lines == Greedy([], words, width) <==>
              AllLegal(lines, width) && Concat(lines) == words && Filled(lines, width)
  {
    GreedyIsOptimal(words, width);
    GreedyFills([], words, width);
    assert [] + words == words;
    forall lines | AllLegal(lines, width) && Concat(lines) == words && Filled(lines, width)
      ensures lines == Greedy([], words, width)
    {
      FilledIsGreedy([], words, width, lines);
    }
  }

  // ---- the same on text ----

  lemma SplitOne(s: string, w: string, rest: string)
    requires s == w + rest && IsWord(w) && (rest == "" || IsSpace(rest[0]))
    ensures Split(s) == [w] + Split(rest)
  {
    assert s[0] == w[0];
    var b := Scan(s, 0, true);
    assert forall k :: 0 <= k < |w| ==> s[k] == w[k];
    assert rest != "" ==> s[|w|] == rest[0];
    assert b == |w|;
    assert s[0..b] == w && s[b..] == rest;
  }

  lemma SplitFrom(s: string, a: nat, b: nat)
    requires a == Scan(s, 0, false) < |s| && b == Scan(s, a, true)
    ensures Split(s) == [s[a..b]] + Split(s[b..])
  {
  }

  lemma ScanPast(s: string, rest: string)
    requires s == " " + rest
    ensures Scan(s, 0, false) == Scan(rest, 0, false) + 1
  {
    ScanShift(s, rest, 0, false);
    assert IsSpace(s[0]);
  }

  lemma SplitSpace(s: string, rest: string)
    requires s == " " + rest
    ensures Split(s) == Split(rest)
  {
    ScanPast(s, rest);
    var a := Scan(rest, 0, false);
    if a < |rest| {
      var b := Scan(rest, a, true);
      ScanShift(s, rest, a, true);
      SplitFrom(rest, a, b);
      SplitFrom(s, a + 1, b + 1);
      SameSlices(s, rest, a, b);
    }
  }

  lemma SameSlices(s: string, rest: string, a: nat, b: nat)
    requires s == " " + rest && a <= b <= |rest|
    ensures s[a + 1..b + 1] == rest[a..b] && s[b + 1..] == rest[b..]
  {
  }

  lemma {:induction false} ScanShift(s: string, rest: string, i: nat, space: bool)
    requires s == " " + rest && i <= |rest|
    ensures Scan(s, i + 1, space) == Scan(rest, i, space) + 1
    decreases |rest| - i
  {
    if i < |rest| && IsSpace(rest[i]) != space {
      ScanShift(s, rest, i + 1, space);
    }
  }

  lemma {:induction false} SplitJoin(words: seq<string>)
    requires forall w :: w in words ==> IsWord(w)
    ensures Split(Join(words)) == words
  {
    if |words| == 1 {
      SplitOne(words[0], words[0], "");
      assert words[0] + "" == words[0] && words == [words[0]];
    } else if |words| > 1 {
      SplitJoin(words[1..]);
      SplitSpace(" " + Join(words[1..]), Join(words[1..]));
      assert Join(words) == words[0] + (" " + Join(words[1..]));
      SplitOne(Join(words), words[0], " " + Join(words[1..]));
    }
  }

  /** Splitting the lines gives back the words of the text, in order. */
  lemma {:induction false} LinesKeepWords(lines: seq<seq<string>>)
    requires forall w :: w in Concat(lines) ==> IsWord(w)
    ensures Concat(seq(|lines|, i requires 0 <= i < |lines| => Split(Texts(lines)[i]))) == Concat(lines)
  {
    if lines != [] {
      forall w | w in lines[0] ensures IsWord(w) {
        assert w in Concat(lines);
      }
      SplitJoin(lines[0]);
      LinesKeepWords(lines[1..]);
      var splits := seq(|lines|, i requires 0 <= i < |lines| => Split(Texts(lines)[i]));
      var tail := lines[1..];
      assert splits[1..] == seq(|tail|, i requires 0 <= i < |tail| => Split(Texts(tail)[i]));
    }
  }

  lemma {:induction false} InConcat(lines: seq<seq<string>>, i: nat, w: string)
    requires i < |lines| && w in lines[i]
    ensures w in Concat(lines)
  {
    if i > 0 {
      InConcat(lines[1..], i - 1, w);
    }
  }

  /** The text produced: its words are the input's words, and every line fits the width or is one word. */
  lemma WrappedText(value: string, width: int)
    ensures var texts := Texts(Greedy([], Split(value), width));
            && Concat(seq(|texts|, i requires 0 <= i < |texts| => Split(texts[i]))) == Split(value)
            && forall i :: 0 <= i < |texts| ==> |texts[i]| <= width || IsWord(texts[i])
  {
    var lines := Greedy([], Split(value), width);
    GreedyIsOptimal(Split(value), width);
    LinesKeepWords(lines);
    forall i | 0 <= i < |lines| ensures |Texts(lines)[i]| <= width || IsWord(Texts(lines)[i]) {
      assert Legal(lines[i], width);
      if |lines[i]| == 1 {
        InConcat(lines, i, lines[i][0]);
      }
    }
  }

  /** One more word is one more space and that word. */
  lemma {:induction false} JoinOneMore(words: seq<string>, word: string)
    ensures Join(words + [word]) == if words == [] then word else Join(words) + " " + word
  {
    if words != [] {
      assert (words + [word])[1..] == words[1..] + [word];
      JoinOneMore(words[1..], word);
    }
  }

  /** Where the words of a text stand: whitespace before, between and behind them, and none inside. */
  ghost predicate Runs(s: string, from: nat, cuts: seq<(nat, nat)>) {
    && (forall i :: 0 <= i < |cuts| ==> from <= cuts[i].0 < cuts[i].1 <= |s|)
    && (forall i, j :: 0 <= i < j < |cuts| ==> cuts[i].1 < cuts[j].0)
    && forall k :: from <= k < |s| ==> (IsSpace(s[k]) <==> forall i :: 0 <= i < |cuts| ==> !InRun(cuts[i], k))
  }

  ghost predicate Cut(s: string, cuts: seq<(nat, nat)>, words: seq<string>) {
    && |words| == |cuts|
    && forall i :: 0 <= i < |cuts| ==> cuts[i].0 <= cuts[i].1 <= |s| && words[i] == s[cuts[i].0..cuts[i].1]
  }

  predicate InRun(cut: (nat, nat), k: nat) {
    cut.0 <= k < cut.1
  }

  lemma {:induction false} ScanDrop(s: string, from: nat, i: nat, space: bool)
    requires from + i <= |s|
    ensures Scan(s[from..], i, space) == Scan(s, from + i, space) - from
    decreases |s| - i
  {
    if from + i < |s| && IsSpace(s[from + i]) != space {
      ScanDrop(s, from, i + 1, space);
    }
  }

  lemma SplitDrop(s: string, from: nat, a: nat, b: nat)
    requires from <= a < b <= |s|
    requires a - from == Scan(s[from..], 0, false) && b - from == Scan(s[from..], a - from, true)
    ensures Split(s[from..]) == [s[a..b]] + Split(s[b..])
  {
    DropSlices(s, from, a, b);
    var rest, word, more := s[from..], s[a..b], s[b..];
    SplitParts(rest, a - from, b - from, word, more);
  }

  lemma SplitParts(rest: string, a: nat, b: nat, word: string, more: string)
    requires a < b <= |rest| && a == Scan(rest, 0, false) && b == Scan(rest, a, true)
    requires word == rest[a..b] && more == rest[b..]
    ensures Split(rest) == [word] + Split(more)
  {
    SplitFrom(rest, a, b);
  }

  lemma DropSlices(s: string, from: nat, a: nat, b: nat)
    requires from <= a <= b <= |s|
    ensures s[from..][a - from..b - from] == s[a..b] && s[from..][b - from..] == s[b..]
  {
  }

  lemma {:induction false} SplitRuns(s: string, from: nat) returns (cuts: seq<(nat, nat)>)
    requires from <= |s| && (from == 0 || from == |s| || IsSpace(s[from]))
    ensures Runs(s, from, cuts) && Cut(s, cuts, Split(s[from..]))
    ensures from > 0 && cuts != [] ==> from < cuts[0].0
    decreases |s| - from
  {
    var a := Scan(s, from, false);
    if a == |s| {
      cuts := [];
      LastRun(s, from);
    } else {
      var b := Scan(s, a, true);
      var rest := SplitRuns(s, b);
      NextRun(s, from, a, b, rest);
      cuts := [(a, b)] + rest;
    }
  }

  lemma LastRun(s: string, from: nat)
    requires from <= |s| && Scan(s, from, false) == |s|
    ensures Runs(s, from, []) && Split(s[from..]) == []
  {
    ScanDrop(s, from, 0, false);
  }

  lemma NextRun(s: string, from: nat, a: nat, b: nat, rest: seq<(nat, nat)>)
    requires from <= |s| && a == Scan(s, from, false) < |s| && b == Scan(s, a, true)
    requires Runs(s, b, rest) && (rest != [] ==> b < rest[0].0) && Cut(s, rest, Split(s[b..]))
    ensures Runs(s, from, [(a, b)] + rest) && Cut(s, [(a, b)] + rest, Split(s[from..]))
  {
    RunsCons(s, from, a, b, rest);
    ScanDrop(s, from, 0, false);
    ScanDrop(s, from, a - from, true);
    SplitDrop(s, from, a, b);
    CutCons(s, a, b, rest, Split(s[b..]));
  }

  lemma CutCons(s: string, a: nat, b: nat, rest: seq<(nat, nat)>, words: seq<string>)
    requires a <= b <= |s| && Cut(s, rest, words)
    ensures Cut(s, [(a, b)] + rest, [s[a..b]] + words)
  {
  }

  lemma RunsCons(s: string, from: nat, a: nat, b: nat, rest: seq<(nat, nat)>)
    requires from <= a < b <= |s| && Runs(s, b, rest) && (rest != [] ==> b < rest[0].0)
    requires (forall k :: from <= k < a ==> IsSpace(s[k])) && (forall k :: a <= k < b ==> !IsSpace(s[k]))
    ensures Runs(s, from, [(a, b)] + rest)
  {
    var cuts := [(a, b)] + rest;
    forall k | from <= k < |s| ensures IsSpace(s[k]) <==> forall i :: 0 <= i < |cuts| ==> !InRun(cuts[i], k) {
      assert InRun(cuts[0], k) <==> a <= k < b;
      assert forall i :: 0 <= i < |rest| ==> cuts[i + 1] == rest[i];
      assert forall i :: 0 < i < |cuts| ==> cuts[i] == rest[i - 1];
    }
  }

  /** The words of a text are its maximal runs without whitespace, in order. */
  lemma SplitIs(s: string) returns (cuts: seq<(nat, nat)>)
    ensures Runs(s, 0, cuts) && Cut(s, cuts, Split(s))
  {
    assert s[0..] == s;
    cuts := SplitRuns(s, 0);
  }
}

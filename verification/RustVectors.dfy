/**
  The callers of the masker that take an index found in one mask and use it in the source,
  in the other mask, or in a slice of the source.
*/
module RustVectors {
  import opened Basics
  import opened RustMask

  function LineStart(s: string, i: nat): (r: nat)
    requires i <= |s|
    ensures r <= i && (r == 0 || s[r - 1] == '\n') && forall k :: r <= k < i ==> s[k] != '\n'
  {
    if i == 0 || s[i - 1] == '\n' then i else LineStart(s, i - 1)
  }

  function SkipTabs(s: string, i: nat): (r: nat)
    requires i <= |s|
    ensures i <= r <= |s| && forall k :: i <= k < r ==> IsTab(s[k])
    ensures r < |s| ==> !IsTab(s[r])
    decreases |s| - i
  {
    if i < |s| && IsTab(s[i]) then SkipTabs(s, i + 1) else i
  }

  predicate IsTab(c: char) {
    c == ' ' || c == '\t'
  }

  /** A line of `code` from `i` on that holds the indentation, a closing brace and nothing else. */
  predicate ClosingLine(code: string, indentation: string, i: nat) {
    && i + |indentation| < |code|
    && code[i..i + |indentation|] == indentation && code[i + |indentation|] == '}'
    && var after := SkipTabs(code, i + |indentation| + 1);
    && (after == |code| || code[after] == '\n')
  }

  /** The first closing line at or after `i`; lines begin at `from` and after every newline. */
  function FindClosing(code: string, indentation: string, from: nat, i: nat): (r: Option<nat>)
    requires from <= i <= |code|
    ensures r.Some? ==> i <= r.value < |code| && ClosingLine(code, indentation, r.value)
    ensures r.Some? ==> r.value == from || code[r.value - 1] == '\n'
    ensures forall j :: i <= j < (if r.Some? then r.value else |code|) && (j == from || code[j - 1] == '\n')
              ==> !ClosingLine(code, indentation, j)
    decreases |code| - i
  {
    if i == |code| then None
    else if (i == from || code[i - 1] == '\n') && ClosingLine(code, indentation, i) then Some(i)
    else FindClosing(code, indentation, from, i + 1)
  }

  /** Where the body of the function declared at [start, end) ends; None is the source's assertion. */
  function BodyEnd(source: string, start: nat, end: nat): (r: Option<nat>)
    requires start <= end <= |source|
    ensures r.Some? ==> end <= r.value <= |source|
  {
    var lineStart := LineStart(source, start);
    var indentation := source[lineStart..SkipTabs(source, lineStart)];
    FindClosing(Mask(true, source), indentation, end, end)
  }

  function RustFunctionBody(source: string, start: nat, end: nat): Option<string>
    requires start <= end <= |source|
  {
    match BodyEnd(source, start, end) case None => None case Some(q) => Some(source[end..q])
  }

  // ---- which text that is ----

  /** The line that holds `start` begins at `from`, and `n` blanks and tabs lead it. */
  ghost predicate DeclaredOn(source: string, start: nat, from: nat, n: nat) {
    && from <= start <= |source| && (from == 0 || source[from - 1] == '\n')
    && (forall k :: from <= k < start ==> source[k] != '\n')
    && from + n <= |source| && (forall k :: from <= k < from + n ==> source[k] == ' ' || source[k] == '\t')
    && (from + n == |source| || (source[from + n] != ' ' && source[from + n] != '\t'))
  }

  /** A line from `end` on: the same indentation, a brace, and blanks and tabs up to its newline or the end. */
  ghost predicate ClosesAt(source: string, from: nat, n: nat, end: nat, q: nat)
    requires from + n <= |source|
  {
    var code := Mask(true, source);
    && end <= q && q + n < |code| && (q == end || code[q - 1] == '\n')
    && code[q..q + n] == source[from..from + n] && code[q + n] == '}'
    && RestIsBlank(code, q + n + 1)
  }

  ghost predicate RestIsBlank(code: string, i: nat) {
    exists t :: BlankUpTo(code, i, t)
  }

  /** Blanks and tabs from `i` to `t`, where the line or the text ends. */
  ghost predicate BlankUpTo(code: string, i: nat, t: nat) {
    i <= t <= |code| && (t == |code| || code[t] == '\n') && forall k :: i <= k < t ==> code[k] == ' ' || code[k] == '\t'
  }

  lemma ClosingLineIs(code: string, indentation: string, i: nat)
    requires i + |indentation| < |code|
    ensures ClosingLine(code, indentation, i) <==>
            && code[i..i + |indentation|] == indentation && code[i + |indentation|] == '}'
            && RestIsBlank(code, i + |indentation| + 1)
  {
    var next := i + |indentation| + 1;
    var after := SkipTabs(code, next);
    if after == |code| || code[after] == '\n' {
      assert BlankUpTo(code, next, after);
    }
    forall t | BlankUpTo(code, next, t) ensures t == after {
    }
  }

  /** Every declaration has its line. */
  lemma DeclarationLine(source: string, start: nat) returns (from: nat, n: nat)
    requires start <= |source|
    ensures DeclaredOn(source, start, from, n)
  {
    from := LineStart(source, start);
    n := SkipTabs(source, from) - from;
  }

  lemma ClosesAtIs(source: string, from: nat, n: nat, end: nat, q: nat)
    requires from + n <= |source|
    ensures ClosesAt(source, from, n, end, q) <==>
            && end <= q < |source| && (q == end || Mask(true, source)[q - 1] == '\n')
            && ClosingLine(Mask(true, source), source[from..from + n], q)
  {
    var indentation := source[from..from + n];
    if q + |indentation| < |source| {
      ClosingLineIs(Mask(true, source), indentation, q);
    }
  }

  lemma BodyEndIs(source: string, start: nat, end: nat, from: nat, n: nat)
    requires start <= end <= |source| && DeclaredOn(source, start, from, n)
    ensures BodyEnd(source, start, end) == FindClosing(Mask(true, source), source[from..from + n], end, end)
  {
    assert LineStart(source, start) == from && SkipTabs(source, from) == from + n;
  }

  lemma FirstClosing(source: string, end: nat, from: nat, n: nat, r: Option<nat>)
    requires end <= |source| && from + n <= |source|
    requires r == FindClosing(Mask(true, source), source[from..from + n], end, end)
    ensures r.Some? ==> ClosesAt(source, from, n, end, r.value)
    ensures forall q: nat :: ClosesAt(source, from, n, end, q) ==> r.Some? && r.value <= q
  {
    if r.Some? {
      ClosesAtIs(source, from, n, end, r.value);
    }
    forall q: nat | ClosesAt(source, from, n, end, q) ensures r.Some? && r.value <= q {
      ClosesAtIs(source, from, n, end, q);
    }
  }

  lemma BodyEndCloses(source: string, start: nat, end: nat, from: nat, n: nat, r: Option<nat>)
    requires start <= end <= |source| && DeclaredOn(source, start, from, n) && r == BodyEnd(source, start, end)
    ensures r.Some? ==> ClosesAt(source, from, n, end, r.value)
    ensures forall q: nat :: ClosesAt(source, from, n, end, q) ==> r.Some? && r.value <= q
  {
    BodyEndIs(source, start, end, from, n);
    FirstClosing(source, end, from, n, r);
  }

  /** The body goes up to the first line that closes the declaration at its own indentation, if there is one. */
  lemma BodyIsFirst(source: string, start: nat, end: nat, from: nat, n: nat)
    requires start <= end <= |source| && DeclaredOn(source, start, from, n)
    ensures RustFunctionBody(source, start, end).None? <==> forall q: nat :: !ClosesAt(source, from, n, end, q)
    ensures forall q: nat ::
              ClosesAt(source, from, n, end, q) && (forall p: nat :: p < q ==> !ClosesAt(source, from, n, end, p)) ==>
                RustFunctionBody(source, start, end) == Some(source[end..q])
  {
    BodyEndCloses(source, start, end, from, n, BodyEnd(source, start, end));
  }

  /** The body cut out of the source masks to the window of the source's own mask: nested calls agree. */
  lemma FunctionBodyMask(m: bool, source: string, start: nat, end: nat)
    requires start <= end <= |source| && 0 < end && !Blank(Mask(true, source)[end - 1])
    requires RustFunctionBody(source, start, end).Some?
    ensures var q := BodyEnd(source, start, end).value;
            Mask(m, RustFunctionBody(source, start, end).value) == Mask(m, source)[end..q]
  {
    var q := BodyEnd(source, start, end).value;
    if q != end {
      MaskKeepsPlace(true, source, 0, q - 1);
    }
    MaskSlice(m, source, end, q);
  }

  function SkipSpaces(s: string, i: nat): (r: nat)
    requires i <= |s|
    ensures i <= r <= |s| && forall k :: i <= k < r ==> IsSpace(s[k])
    ensures r < |s| ==> !IsSpace(s[r])
    decreases |s| - i
  {
    if i < |s| && IsSpace(s[i]) then SkipSpaces(s, i + 1) else i
  }

  const MACRO := "include_str!"

  /** The end of a macro call head `include_str!(` that begins at `i`. */
  function MacroEnd(isWord: char -> bool, code: string, i: nat): (r: Option<nat>)
    ensures r.Some? ==> i + |MACRO| < r.value <= |code| && code[r.value - 1] == '('
  {
    if i + |MACRO| <= |code| && (i == 0 || !isWord(code[i - 1])) && code[i..i + |MACRO|] == MACRO then
      var open := SkipSpaces(code, i + |MACRO|);
      if open < |code| && code[open] == '(' then Some(open + 1) else None
    else None
  }

  /** The first quote or newline at or after `i`. */
  function PathEnd(s: string, i: nat): (r: nat)
    requires i <= |s|
    ensures i <= r <= |s| && forall k :: i <= k < r ==> s[k] != '"' && s[k] != '\n'
    decreases |s| - i
  {
    if i < |s| && s[i] != '"' && s[i] != '\n' then PathEnd(s, i + 1) else i
  }

  /** The quoted argument after `e`, as the positions of its two quotes. */
  function Argument(clean: string, e: nat): (r: Option<(nat, nat)>)
    requires e <= |clean|
    ensures r.Some? ==> e <= r.value.0 && r.value.0 + 1 < r.value.1 < |clean|
  {
    var a := SkipSpaces(clean, e);
    if a < |clean| && clean[a] == '"' then
      var b := PathEnd(clean, a + 1);
      if a + 1 < b < |clean| && clean[b] == '"' then
        var close := SkipSpaces(clean, b + 1);
        if close < |clean| && clean[close] == ')' then Some((a, b)) else None
      else None
    else None
  }

  predicate EndsWith(s: string, suffix: string) {
    |suffix| <= |s| && s[|s| - |suffix|..] == suffix
  }

  /** A call at `i` of the code mask whose argument in the comment mask names the vector. */
  predicate LoadsAt(isWord: char -> bool, code: string, clean: string, name: string, i: nat)
    requires |code| == |clean|
  {
    && MacroEnd(isWord, code, i).Some?
    && var argument := Argument(clean, MacroEnd(isWord, code, i).value);
    && argument.Some?
    && EndsWith(clean[argument.value.0 + 1..argument.value.1], "/" + name)
  }

  /** Heads of calls do not overlap, so trying every position visits what a left-to-right search visits. */
  method SearchCalls(isWord: char -> bool, code: string, clean: string, name: string) returns (found: bool)
    requires |code| == |clean|
    ensures found <==> exists i :: 0 <= i < |code| && LoadsAt(isWord, code, clean, name, i)
  {
    for i := 0 to |code|
      invariant forall j :: 0 <= j < i ==> !LoadsAt(isWord, code, clean, name, j)
    {
      var hit := LoadsAt(isWord, code, clean, name, i);
      if hit {
        return true;
      }
    }
    return false;
  }

  method LoadsVector(isWord: char -> bool, source: string, name: string) returns (found: bool)
    ensures found <==>
            exists i :: 0 <= i < |source| && LoadsAt(isWord, Mask(true, source), Mask(false, source), name, i)
  {
    var clean := WithoutRustComments(source, false);
    var code := WithoutRustComments(source, true);
    found := SearchCalls(isWord, code, clean, name);
  }

  // ---- what the search looks for ----

  /** The head of a call in the code mask: the macro's name as a word, whitespace, and a parenthesis before `e`. */
  ghost predicate HeadAt(isWord: char -> bool, code: string, i: nat, e: nat) {
    && i + 12 < e <= |code| && code[i..i + 12] == "include_str!" && (i == 0 || !isWord(code[i - 1]))
    && code[e - 1] == '(' && forall k :: i + 12 <= k < e - 1 ==> IsSpace(code[k])
  }

  /** In the comment mask: whitespace, a quoted path in one line between `a` and `b`, whitespace, and ')' at `c`. */
  ghost predicate PathAt(clean: string, e: nat, a: nat, b: nat, c: nat) {
    && e <= a && a + 1 < b < c < |clean| && clean[a] == '"' && clean[b] == '"' && clean[c] == ')'
    && (forall k :: e <= k < a ==> IsSpace(clean[k]))
    && (forall k :: a < k < b ==> clean[k] != '"' && clean[k] != '\n')
    && (forall k :: b < k < c ==> IsSpace(clean[k]))
  }

  lemma HeadIs(isWord: char -> bool, code: string, i: nat)
    ensures forall e: nat :: HeadAt(isWord, code, i, e) <==> MacroEnd(isWord, code, i) == Some(e)
  {
    assert MACRO == "include_str!" && |MACRO| == 12;
  }

  lemma {:induction false} PathEndIs(s: string, i: nat, b: nat)
    requires i <= b < |s| && (s[b] == '"' || s[b] == '\n') && forall k :: i <= k < b ==> s[k] != '"' && s[k] != '\n'
    ensures PathEnd(s, i) == b
    decreases b - i
  {
    if i < b {
      PathEndIs(s, i + 1, b);
    }
  }

  lemma PathIs(clean: string, e: nat)
    requires e <= |clean|
    ensures forall a: nat, b: nat, c: nat :: PathAt(clean, e, a, b, c) ==> Argument(clean, e) == Some((a, b))
    ensures Argument(clean, e).Some? ==>
              var (a, b) := Argument(clean, e).value;
              exists c: nat :: PathAt(clean, e, a, b, c)
  {
    forall a: nat, b: nat, c: nat | PathAt(clean, e, a, b, c) ensures Argument(clean, e) == Some((a, b)) {
      PathEndIs(clean, a + 1, b);
      assert SkipSpaces(clean, e) == a && SkipSpaces(clean, b + 1) == c;
    }
    if Argument(clean, e).Some? {
      var (a, b) := Argument(clean, e).value;
      assert PathAt(clean, e, a, b, SkipSpaces(clean, b + 1));
    }
  }

  /** A call is accepted exactly when the two masks show one at the same place whose path ends with the name. */
  lemma LoadsAtIs(isWord: char -> bool, code: string, clean: string, name: string, i: nat)
    requires |code| == |clean|
    ensures LoadsAt(isWord, code, clean, name, i) <==>
            exists e: nat, a: nat, b: nat, c: nat ::
              && HeadAt(isWord, code, i, e) && PathAt(clean, e, a, b, c)
              && a + 1 <= b - |name| - 1 && clean[b - |name| - 1..b] == "/" + name
  {
    HeadIs(isWord, code, i);
    if MacroEnd(isWord, code, i).Some? {
      var e := MacroEnd(isWord, code, i).value;
      PathIs(clean, e);
    }
  }

  // ---- what the search accepts is a call in the code ----

  /** An accepted call: its name at `i`, its parenthesis before `e`, its argument's quotes at `a` and `b`. */
  ghost predicate CallShape(code: string, clean: string, i: nat, e: nat, a: nat, b: nat) {
    && i + |MACRO| < e <= a && a + 1 < b < |clean| == |code|
    && code[i..i + |MACRO|] == MACRO && code[e - 1] == '(' && clean[a] == '"' && clean[b] == '"'
    && (forall k :: e <= k < a ==> IsSpace(clean[k]))
    && (forall k :: a < k < b ==> clean[k] != '"')
  }

  /** A call in the code of `s`, outside every comment and string, whose argument is a string literal. */
  ghost predicate Genuine(s: string, clean: string, i: nat, e: nat, a: nat, b: nat) {
    && i + |MACRO| < e <= a && a + 1 < b < |clean| == |s|
    && (forall k :: i <= k < i + |MACRO| ==> IsCode(s, k) && s[k] == MACRO[k - i])
    && IsCode(s, e - 1) && s[e - 1] == '('
    && TokenAt(s, 0, a) == a && KindAt(s, a) == Quoted
    && ('\\' !in clean[a + 1..b] ==> TokenEnd(s, a) == b + 1 && s[a + 1..b] == clean[a + 1..b])
  }

  lemma LoadsShape(isWord: char -> bool, code: string, clean: string, name: string, i: nat)
      returns (e: nat, a: nat, b: nat)
    requires |code| == |clean| && LoadsAt(isWord, code, clean, name, i)
    ensures MacroEnd(isWord, code, i) == Some(e) && Argument(clean, e) == Some((a, b))
    ensures CallShape(code, clean, i, e, a, b) && EndsWith(clean[a + 1..b], "/" + name)
  {
    e := MacroEnd(isWord, code, i).value;
    a, b := Argument(clean, e).value.0, Argument(clean, e).value.1;
  }

  /** Every accepted call is genuine: the whole name is code, and so is the parenthesis; the argument is a literal. */
  lemma CallIsGenuine(s: string, i: nat, e: nat, a: nat, b: nat)
    requires CallShape(Mask(true, s), Mask(false, s), i, e, a, b)
    ensures Genuine(s, Mask(false, s), i, e, a, b)
  {
    var code, clean := Mask(true, s), Mask(false, s);
    forall k | i <= k < i + |MACRO| ensures IsCode(s, k) && s[k] == MACRO[k - i] {
      assert code[k] == code[i..i + |MACRO|][k - i];
      SurvivorIsCode(s, k);
    }
    SurvivorIsCode(s, e - 1);
    QuoteBeginsToken(s, e, a);
    LiteralShown(s, a, b);
  }

  /** After a token boundary, a quote that the comment mask shows behind nothing but whitespace begins a token. */
  lemma QuoteBeginsToken(s: string, e: nat, a: nat)
    requires e <= a < |s| && TokenAt(s, 0, e) == e && Mask(false, s)[a] == '"'
    requires forall k :: e <= k < a ==> IsSpace(Mask(false, s)[k])
    ensures TokenAt(s, 0, a) == a && KindAt(s, a) == Quoted
  {
    var t := TokenAt(s, 0, a);
    TokenFrom(s, 0, e, a);
    TokenStarts(s, 0, a);
    MaskedShows(false, s, 0, a);
    MaskedShows(false, s, 0, t);
    assert s[t] == Mask(false, s)[t];
  }

  lemma {:induction false} QuotedUpTo(s: string, i: nat, b: nat)
    requires i <= b < |s| && s[b] == '"'
    requires forall k :: i <= k < b ==> s[k] != '"' && s[k] != '\\'
    ensures QuotedEnd(s, i) == b + 1
    decreases b - i
  {
    if i < b {
      QuotedUpTo(s, i + 1, b);
    }
  }

  lemma {:induction false} QuotedClosed(s: string, i: nat)
    requires i <= |s|
    ensures QuotedEnd(s, i) < |s| ==> i < QuotedEnd(s, i) && s[QuotedEnd(s, i) - 1] == '"'
    decreases |s| - i
  {
    if i < |s| && s[i] == '\\' {
      QuotedClosed(s, Min(i + 2, |s|));
    } else if i < |s| && s[i] != '"' {
      QuotedClosed(s, i + 1);
    }
  }

  lemma TokenIsShown(s: string, a: nat, k: nat)
    requires a <= k < |s| && TokenAt(s, 0, a) == a && KindAt(s, a) == Quoted && k < TokenEnd(s, a)
    ensures Mask(false, s)[k] == s[k]
  {
    TokenFrom(s, 0, a, k);
    MaskedShows(false, s, 0, k);
  }

  /** A quoted token whose shown text has no inner quote or escape up to the quote at `b` ends there. */
  lemma LiteralShown(s: string, a: nat, b: nat)
    requires a + 1 < b < |s| && TokenAt(s, 0, a) == a && KindAt(s, a) == Quoted
    requires Mask(false, s)[b] == '"' && forall k :: a < k < b ==> Mask(false, s)[k] != '"'
    ensures '\\' !in Mask(false, s)[a + 1..b] ==> TokenEnd(s, a) == b + 1 && s[a + 1..b] == Mask(false, s)[a + 1..b]
  {
    var clean := Mask(false, s);
    forall k | a <= k < TokenEnd(s, a) ensures clean[k] == s[k] {
      TokenIsShown(s, a, k);
    }
    QuotedClosed(s, a + 1);
    assert b < TokenEnd(s, a);
    if '\\' !in clean[a + 1..b] {
      forall k | a + 1 <= k < b ensures s[k] != '\\' {
        assert clean[k] == clean[a + 1..b][k - (a + 1)];
      }
      QuotedUpTo(s, a + 1, b);
    }
  }

  /** A call that `LoadsVector` accepts is a genuine call of the source, and its argument names the vector. */
  lemma ArgumentIsLiteral(isWord: char -> bool, s: string, name: string, i: nat) returns (e: nat, a: nat, b: nat)
    requires LoadsAt(isWord, Mask(true, s), Mask(false, s), name, i)
    ensures Genuine(s, Mask(false, s), i, e, a, b) && EndsWith(Mask(false, s)[a + 1..b], "/" + name)
  {
    e, a, b := LoadsShape(isWord, Mask(true, s), Mask(false, s), name, i);
    CallIsGenuine(s, i, e, a, b);
  }

  // ---- the callers, end to end ----

  lemma SliceOfSlice(s: string, from: nat, to: nat, i: nat, j: nat)
    requires from <= to <= |s| && i <= j <= to - from
    ensures s[from..to][i..j] == s[from + i..from + j]
  {
    forall k | 0 <= k < j - i ensures s[from..to][i..j][k] == s[from + i..from + j][k] {
      assert s[from..to][i + k] == s[from + i + k];
    }
  }

  lemma ShapeShift(code: string, clean: string, from: nat, n: nat, codePart: string, cleanPart: string,
                   i: nat, e: nat, a: nat, b: nat)
    requires from + n <= |code| == |clean| && codePart == code[from..from + n] && cleanPart == clean[from..from + n]
    requires CallShape(codePart, cleanPart, i, e, a, b)
    ensures CallShape(code, clean, from + i, from + e, from + a, from + b)
    ensures cleanPart[a + 1..b] == clean[from + a + 1..from + b]
  {
    SliceOfSlice(code, from, from + n, i, i + |MACRO|);
    SliceOfSlice(clean, from, from + n, a + 1, b);
    forall k | from + e <= k < from + a ensures IsSpace(clean[k]) {
      assert clean[k] == cleanPart[k - from];
    }
    forall k | from + a < k < from + b ensures clean[k] != '"' {
      assert clean[k] == cleanPart[k - from];
    }
  }

  /** The masks of a part are windows of the masks of the whole. */
  ghost predicate MasksLike(s: string, from: nat, part: string) {
    && from + |part| <= |s|
    && Mask(true, part) == Mask(true, s)[from..from + |part|]
    && Mask(false, part) == Mask(false, s)[from..from + |part|]
  }

  /** The body of a function cut from the comment mask masks to windows of the masks of the original text. */
  lemma SectionMasks(original: string, start: nat, end: nat, body: string)
    requires start <= end <= |original| && 0 < end && !Blank(Mask(true, original)[end - 1])
    requires RustFunctionBody(Mask(false, original), start, end) == Some(body)
    ensures MasksLike(original, end, body)
  {
    var source := Mask(false, original);
    MaskTwice(false, true, original);
    MaskTwice(false, false, original);
    FunctionBodyMask(true, source, start, end);
    FunctionBodyMask(false, source, start, end);
  }

  /** A call found in a window of two texts has its shape in the whole. */
  lemma WindowShape(isWord: char -> bool, code: string, clean: string, from: nat, n: nat,
                    codePart: string, cleanPart: string, name: string, i: nat)
    returns (e: nat, a: nat, b: nat)
    requires from + n <= |code| == |clean| && codePart == code[from..from + n] && cleanPart == clean[from..from + n]
    requires LoadsAt(isWord, codePart, cleanPart, name, i)
    ensures CallShape(code, clean, from + i, e, a, b) && EndsWith(clean[a + 1..b], "/" + name)
  {
    e, a, b := LoadsShape(isWord, codePart, cleanPart, name, i);
    ShapeShift(code, clean, from, n, codePart, cleanPart, i, e, a, b);
    e, a, b := from + e, from + a, from + b;
  }

  /** A call found in a window of the masks is a genuine call of the whole text. */
  lemma WindowLoads(isWord: char -> bool, s: string, from: nat, n: nat,
                    codePart: string, cleanPart: string, name: string, i: nat)
    returns (e: nat, a: nat, b: nat)
    requires from + n <= |s|
    requires codePart == Mask(true, s)[from..from + n] && cleanPart == Mask(false, s)[from..from + n]
    requires LoadsAt(isWord, codePart, cleanPart, name, i)
    ensures Genuine(s, Mask(false, s), from + i, e, a, b) && EndsWith(Mask(false, s)[a + 1..b], "/" + name)
  {
    e, a, b := WindowShape(isWord, Mask(true, s), Mask(false, s), from, n, codePart, cleanPart, name, i);
    CallIsGenuine(s, from + i, e, a, b);
  }

  lemma PartLoads(isWord: char -> bool, s: string, from: nat, part: string, codePart: string, cleanPart: string,
                  name: string, i: nat)
    returns (e: nat, a: nat, b: nat)
    requires MasksLike(s, from, part) && codePart == Mask(true, part) && cleanPart == Mask(false, part)
    requires LoadsAt(isWord, codePart, cleanPart, name, i)
    ensures Genuine(s, Mask(false, s), from + i, e, a, b) && EndsWith(Mask(false, s)[a + 1..b], "/" + name)
  {
    var n := |part|;
    e, a, b := WindowLoads(isWord, s, from, n, codePart, cleanPart, name, i);
  }

  /**
    What the check of a test section establishes about the original text: every call it accepts in the body cut from
    the comment mask is a genuine call of the original, at the same place, and names the vector.
  */
  lemma SectionLoads(isWord: char -> bool, original: string, start: nat, end: nat, body: string, name: string, i: nat)
    returns (e: nat, a: nat, b: nat)
    requires start <= end <= |original| && 0 < end && !Blank(Mask(true, original)[end - 1])
    requires RustFunctionBody(Mask(false, original), start, end) == Some(body)
    requires LoadsAt(isWord, Mask(true, body), Mask(false, body), name, i)
    ensures Genuine(original, Mask(false, original), end + i, e, a, b)
    ensures EndsWith(Mask(false, original)[a + 1..b], "/" + name)
  {
    SectionMasks(original, start, end, body);
    e, a, b := PartLoads(isWord, original, end, body, Mask(true, body), Mask(false, body), name, i);
  }
}

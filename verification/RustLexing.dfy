/**
  What the masker takes for a token, said in terms of the text alone: where each token begins, where it ends, and what
  of it is shown.  The lexer of `RustMask` cuts every text in this way, and there is no other way to cut it.
*/
module RustLexing {
  import opened Basics
  import opened RustMask

  /** The text `t` stands at `i`. */
  predicate At(s: string, i: nat, t: string) {
    i + |t| <= |s| && s[i..i + |t|] == t
  }

  /** The characters `a` and `b` stand at `i`. */
  predicate Two(s: string, i: nat, a: char, b: char) {
    i + 2 <= |s| && s[i] == a && s[i + 1] == b
  }

  // ---- line comments ----

  /** From two slashes up to the newline, or to the end of the text. */
  ghost predicate IsLineComment(s: string, i: nat, e: nat) {
    && Two(s, i, '/', '/') && i <= e <= |s| && (forall k :: i <= k < e ==> s[k] != '\n')
    && (e == |s| || s[e] == '\n')
  }

  // ---- block comments ----

  /** What stands inside a block comment: single characters and whole comments. */
  datatype Piece = One | Nested(inner: seq<Piece>)

  function Width(ps: seq<Piece>): nat {
    if ps == [] then 0
    else (match ps[0] case One => 1 case Nested(inner) => 4 + Width(inner)) + Width(ps[1..])
  }

  /** The pieces stand at `i`; a single character begins no marker. */
  ghost predicate Inside(s: string, i: nat, ps: seq<Piece>)
    decreases ps
  {
    ps == [] ||
    match ps[0]
    case One => i < |s| && !Two(s, i, '/', '*') && !Two(s, i, '*', '/') && Inside(s, i + 1, ps[1..])
    case Nested(inner) =>
      && Two(s, i, '/', '*') && Inside(s, i + 2, inner) && Two(s, i + 2 + Width(inner), '*', '/')
      && Inside(s, i + 4 + Width(inner), ps[1..])
  }

  /** The comment whose opener ends at `i` has these pieces and then its own closer. */
  ghost predicate Closes(s: string, i: nat, ps: seq<Piece>) {
    Inside(s, i, ps) && Two(s, i + Width(ps), '*', '/')
  }

  ghost predicate BlockBody(s: string, i: nat, e: nat) {
    if exists ps :: Closes(s, i, ps) then exists ps :: Closes(s, i, ps) && e == i + Width(ps) + 2 else e == |s|
  }

  /** From its opener to its own closer, with whole comments inside, or to the end of the text if there is none. */
  ghost predicate IsBlockComment(s: string, i: nat, e: nat) {
    Two(s, i, '/', '*') && BlockBody(s, i + 2, e)
  }

  // ---- strings ----

  /** The number of backslashes right before `j`, from `from` on. */
  function Backslashes(s: string, from: nat, j: nat): (n: nat)
    requires from <= j <= |s|
    ensures n <= j - from && forall k :: j - n <= k < j ==> s[k] == '\\'
    ensures j - n == from || s[j - n - 1] != '\\'
  {
    if j == from || s[j - 1] != '\\' then 0 else 1 + Backslashes(s, from, j - 1)
  }

  /** A quote at `j` that no backslash of the body escapes. */
  ghost predicate Unescaped(s: string, from: nat, j: nat) {
    from <= j < |s| && s[j] == '"' && Backslashes(s, from, j) % 2 == 0
  }

  ghost predicate QuotedBody(s: string, i: nat, e: nat) {
    && i <= e <= |s| && (forall k :: i <= k < e - 1 ==> !Unescaped(s, i, k))
    && (e == |s| || (i < e && Unescaped(s, i, e - 1)))
  }

  /** From a quote past the first unescaped one after it, or to the end of the text if there is none. */
  ghost predicate IsQuoted(s: string, i: nat, e: nat) {
    At(s, i, "\"") && QuotedBody(s, i + 1, e)
  }

  /** The letter r, `n` number signs and a quote. */
  predicate OpensRaw(s: string, i: nat, n: nat) {
    n <= 16 && At(s, i, "r" + Hashes(n) + "\"")
  }

  /** A quote and `n` number signs. */
  predicate ClosesRaw(s: string, j: nat, n: nat) {
    At(s, j, "\"" + Hashes(n))
  }

  ghost predicate RawBody(s: string, i: nat, n: nat, e: nat) {
    if exists j :: i <= j && ClosesRaw(s, j, n)
    then i <= e - n - 1 && ClosesRaw(s, e - n - 1, n) && forall j :: i <= j < e - n - 1 ==> !ClosesRaw(s, j, n)
    else e == |s|
  }

  /** From such an opener past the first quote with as many number signs, or to the end of the text. */
  ghost predicate IsRaw(s: string, i: nat, n: nat, e: nat) {
    && OpensRaw(s, i, n)
    && RawBody(s, i + n + 2, n, e)
  }

  // ---- tokens ----

  /** Any other character. */
  ghost predicate IsPlain(s: string, i: nat, e: nat) {
    && i < |s| && e == i + 1 && s[i] != '"' && !Two(s, i, '/', '/') && !Two(s, i, '/', '*')
    && forall n: nat :: !OpensRaw(s, i, n)
  }

  ghost predicate IsToken(s: string, kind: Kind, i: nat, e: nat) {
    match kind
    case LineComment => IsLineComment(s, i, e)
    case BlockComment => IsBlockComment(s, i, e)
    case Raw => exists n: nat :: IsRaw(s, i, n, e)
    case Quoted => IsQuoted(s, i, e)
    case Plain => IsPlain(s, i, e)
  }

  lemma LineIs(s: string, i: nat, e: nat)
    requires Two(s, i, '/', '/')
    ensures IsLineComment(s, i, e) <==> e == LineEnd(s, i)
  {
    LineEndIs(s, i);
    if IsLineComment(s, i, e) {
      assert e <= LineEnd(s, i);
    }
  }

  lemma {:induction false} LineEndIs(s: string, i: nat)
    requires i <= |s|
    ensures forall k :: i <= k < LineEnd(s, i) ==> s[k] != '\n'
    ensures LineEnd(s, i) < |s| ==> s[LineEnd(s, i)] == '\n'
    decreases |s| - i
  {
    if i < |s| && s[i] != '\n' {
      LineEndIs(s, i + 1);
    }
  }

  lemma BlockSteps(s: string, i: nat, depth: nat)
    requires i <= |s| && depth > 0
    ensures Two(s, i, '/', '*') ==> BlockEnd(s, i, depth) == BlockEnd(s, i + 2, depth + 1)
    ensures Two(s, i, '*', '/') ==> BlockEnd(s, i, depth) == BlockEnd(s, i + 2, depth - 1)
    ensures i < |s| && !Two(s, i, '/', '*') && !Two(s, i, '*', '/') ==>
              BlockEnd(s, i, depth) == BlockEnd(s, i + 1, depth)
  {
  }

  /** Whole pieces leave the depth of the comment as it was. */
  lemma {:induction false} InsideKeepsDepth(s: string, i: nat, ps: seq<Piece>, depth: nat, end: nat)
    requires i <= |s| && Inside(s, i, ps) && depth > 0 && end == i + Width(ps)
    ensures end <= |s| && BlockEnd(s, i, depth) == BlockEnd(s, end, depth)
    decreases ps, 1
  {
    if ps != [] && ps[0].One? {
      BlockSteps(s, i, depth);
      InsideKeepsDepth(s, i + 1, ps[1..], depth, end);
    } else if ps != [] {
      NestedParts(s, i, ps, ps[0].inner);
      NestedKeepsDepth(s, i, ps, ps[0].inner, ps[1..], i + 2 + Width(ps[0].inner), depth, end);
    }
  }

  lemma {:induction false} NestedKeepsDepth(s: string, i: nat, ps: seq<Piece>, inner: seq<Piece>, rest: seq<Piece>,
      close: nat, depth: nat, end: nat)
    requires ps != [] && ps[0] == Nested(inner) && rest == ps[1..] && depth > 0
    requires Two(s, i, '/', '*') && Inside(s, i + 2, inner)
    requires close == i + 2 + Width(inner) && Two(s, close, '*', '/')
    requires Inside(s, close + 2, rest) && end == close + 2 + Width(rest)
    ensures end <= |s| && BlockEnd(s, i, depth) == BlockEnd(s, end, depth)
    decreases ps, 0
  {
    BlockSteps(s, i, depth);
    InsideKeepsDepth(s, i + 2, inner, depth + 1, close);
    BlockSteps(s, close, depth + 1);
    InsideKeepsDepth(s, close + 2, rest, depth, end);
  }

  lemma NestedParts(s: string, i: nat, ps: seq<Piece>, inner: seq<Piece>)
    requires Inside(s, i, ps) && ps != [] && ps[0] == Nested(inner)
    ensures Two(s, i, '/', '*') && Inside(s, i + 2, inner) && Two(s, i + 2 + Width(inner), '*', '/')
    ensures Inside(s, i + 4 + Width(inner), ps[1..]) && Width(ps) == 4 + Width(inner) + Width(ps[1..])
  {
  }

  lemma ClosedEnd(s: string, i: nat, ps: seq<Piece>)
    requires i <= |s| && Closes(s, i, ps)
    ensures BlockEnd(s, i, 1) == i + Width(ps) + 2
  {
    InsideKeepsDepth(s, i, ps, 1, i + Width(ps));
    BlockSteps(s, i + Width(ps), 1);
  }

  /** Nothing closes the comment, and it runs to the end of the text at whatever depth. */
  ghost predicate RunsOut(s: string, i: nat)
    requires i <= |s|
  {
    && (forall qs: seq<Piece> :: !Closes(s, i, qs))
    && (forall depth: nat :: depth > 0 ==> BlockEnd(s, i, depth) == |s|)
  }

  /** Either the comment has a closer of its own, or it runs out. */
  lemma {:induction false} FindClosers(s: string, i: nat) returns (closed: bool, ps: seq<Piece>)
    requires i <= |s|
    ensures if closed then Closes(s, i, ps) else RunsOut(s, i)
    decreases |s| - i
  {
    closed, ps := false, [];
    if i == |s| {
    } else if Two(s, i, '*', '/') {
      closed := true;
    } else if Two(s, i, '/', '*') {
      closed, ps := FindClosers(s, i + 2);
      if closed {
        var inner, next := ps, i + 4 + Width(ps);
        closed, ps := FindClosers(s, next);
        if closed {
          NestedCloses(s, i, inner, ps, [Nested(inner)] + ps);
          ps := [Nested(inner)] + ps;
        } else {
          NestedRunsOn(s, i, inner, next);
        }
      } else {
        NestedRunsOut(s, i);
      }
    } else {
      closed, ps := FindClosers(s, i + 1);
      if closed {
        OneCloses(s, i, ps, [One] + ps);
        ps := [One] + ps;
      } else {
        OneRunsOut(s, i);
      }
    }
  }

  lemma OneCloses(s: string, i: nat, ps: seq<Piece>, qs: seq<Piece>)
    requires i < |s| && !Two(s, i, '/', '*') && !Two(s, i, '*', '/') && Closes(s, i + 1, ps) && qs == [One] + ps
    ensures Closes(s, i, qs)
  {
    assert qs[1..] == ps && qs[0] == One;
    assert Width(qs) == 1 + Width(ps);
  }

  lemma FirstIsOne(s: string, i: nat, qs: seq<Piece>)
    requires !Two(s, i, '/', '*') && !Two(s, i, '*', '/') && Closes(s, i, qs)
    ensures qs != [] && qs[0].One? && Closes(s, i + 1, qs[1..])
  {
    assert qs != [] && qs[0].One?;
    assert Width(qs) == 1 + Width(qs[1..]);
  }

  lemma OneRunsOut(s: string, i: nat)
    requires i < |s| && !Two(s, i, '/', '*') && !Two(s, i, '*', '/') && RunsOut(s, i + 1)
    ensures RunsOut(s, i)
  {
    forall qs: seq<Piece> ensures !Closes(s, i, qs) {
      if Closes(s, i, qs) {
        FirstIsOne(s, i, qs);
      }
    }
    forall depth: nat | depth > 0 ensures BlockEnd(s, i, depth) == |s| {
      BlockSteps(s, i, depth);
    }
  }

  lemma NestedRunsOut(s: string, i: nat)
    requires Two(s, i, '/', '*') && RunsOut(s, i + 2)
    ensures RunsOut(s, i)
  {
    forall qs: seq<Piece> ensures !Closes(s, i, qs) {
      if Closes(s, i, qs) {
        FirstIsNested(s, i, qs);
      }
    }
    forall depth: nat | depth > 0 ensures BlockEnd(s, i, depth) == |s| {
      BlockSteps(s, i, depth);
    }
  }

  lemma NestedCloses(s: string, i: nat, inner: seq<Piece>, rest: seq<Piece>, ps: seq<Piece>)
    requires Two(s, i, '/', '*') && Closes(s, i + 2, inner) && Closes(s, i + 4 + Width(inner), rest)
    requires ps == [Nested(inner)] + rest
    ensures Closes(s, i, ps)
  {
    assert ps[1..] == rest && ps[0] == Nested(inner);
    assert Width(ps) == 4 + Width(inner) + Width(rest);
    assert Inside(s, i, ps);
  }

  /** Behind a nested comment nothing closes the outer one. */
  lemma NestedRunsOn(s: string, i: nat, inner: seq<Piece>, next: nat)
    requires Two(s, i, '/', '*') && Closes(s, i + 2, inner)
    requires next == i + 4 + Width(inner) <= |s| && RunsOut(s, next)
    ensures RunsOut(s, i)
  {
    forall qs: seq<Piece> ensures !Closes(s, i, qs) {
      NestedNeverCloses(s, i, inner, next, qs);
    }
    forall depth: nat | depth > 0 ensures BlockEnd(s, i, depth) == |s| {
      BlockSteps(s, i, depth);
      InsideKeepsDepth(s, i + 2, inner, depth + 1, next - 2);
      BlockSteps(s, next - 2, depth + 1);
    }
  }

  lemma NestedNeverCloses(s: string, i: nat, inner: seq<Piece>, next: nat, qs: seq<Piece>)
    requires Two(s, i, '/', '*') && Closes(s, i + 2, inner) && next == i + 4 + Width(inner) && RunsOut(s, next)
    ensures !Closes(s, i, qs)
  {
    if Closes(s, i, qs) {
      FirstIsNested(s, i, qs);
      ClosedEnd(s, i + 2, inner);
      ClosedEnd(s, i + 2, qs[0].inner);
    }
  }

  lemma FirstIsNested(s: string, i: nat, qs: seq<Piece>)
    requires Two(s, i, '/', '*') && Closes(s, i, qs)
    ensures qs != [] && qs[0].Nested? && Closes(s, i + 2, qs[0].inner)
    ensures Closes(s, i + 4 + Width(qs[0].inner), qs[1..])
  {
  }

  lemma BlockIs(s: string, i: nat, e: nat)
    requires Two(s, i, '/', '*')
    ensures IsBlockComment(s, i, e) <==> e == BlockEnd(s, i + 2, 1)
  {
    var closed, ps := FindClosers(s, i + 2);
    forall qs | Closes(s, i + 2, qs) ensures BlockEnd(s, i + 2, 1) == i + 4 + Width(qs) {
      ClosedEnd(s, i + 2, qs);
    }
  }

  /** No backslash of the body escapes what stands at `i`, and the string has not ended before. */
  ghost predicate InBody(s: string, from: nat, i: nat) {
    from <= i <= |s| && Backslashes(s, from, i) % 2 == 0 && forall k :: from <= k < i ==> !Unescaped(s, from, k)
  }

  lemma BodyGoesOn(s: string, from: nat, i: nat)
    requires InBody(s, from, i) && i < |s| && s[i] != '"' && s[i] != '\\'
    ensures InBody(s, from, i + 1)
  {
  }

  lemma EscapeGoesOn(s: string, from: nat, i: nat)
    requires InBody(s, from, i) && i < |s| && s[i] == '\\'
    ensures !Unescaped(s, from, i) && (i + 2 <= |s| ==> InBody(s, from, i + 2))
  {
    assert Backslashes(s, from, i + 1) == 1 + Backslashes(s, from, i);
  }

  /** Reading on inside the body. */
  lemma {:induction false} QuotedFrom(s: string, from: nat, i: nat)
    requires InBody(s, from, i)
    ensures QuotedBody(s, from, QuotedEnd(s, i))
    decreases |s| - i
  {
    if i < |s| {
      if s[i] == '\\' {
        EscapeGoesOn(s, from, i);
        if i + 1 < |s| {
          QuotedFrom(s, from, i + 2);
        }
      } else if s[i] != '"' {
        BodyGoesOn(s, from, i);
        QuotedFrom(s, from, i + 1);
      }
    }
  }

  lemma QuotedIs(s: string, i: nat, e: nat)
    requires At(s, i, "\"")
    ensures IsQuoted(s, i, e) <==> e == QuotedEnd(s, i + 1)
  {
    QuotedFrom(s, i + 1, i + 1);
  }

  lemma OpensRawIs(s: string, i: nat, n: nat)
    ensures OpensRaw(s, i, n) <==> RawOpens(s, i) && n == HashRun(s, i + 1)
  {
    var t := "r" + Hashes(n) + "\"";
    if OpensRaw(s, i, n) {
      assert forall k :: 0 <= k < |t| ==> s[i + k] == s[i..i + |t|][k] == t[k];
      assert s[i] == t[0] && s[i + 1 + n] == t[n + 1];
      assert forall k :: i + 1 <= k < i + 1 + n ==> s[k] == t[k - i] == '#';
    }
    if RawOpens(s, i) && n == HashRun(s, i + 1) {
      assert s[i..i + |t|] == t;
    }
  }

  lemma MarkerIs(s: string, i: nat, n: nat)
    ensures ClosesRaw(s, i, n) <==> MarkerAt(s, i, n)
  {
    var t := "\"" + Hashes(n);
    if At(s, i, t) {
      assert forall k :: 0 <= k < |t| ==> s[i + k] == s[i..i + |t|][k] == t[k];
      assert s[i] == t[0];
      forall k | i < k <= i + n ensures s[k] == '#' {
        assert s[i + (k - i)] == t[k - i];
      }
    }
    if MarkerAt(s, i, n) {
      assert s[i..i + |t|] == t;
    }
  }

  /** The first closing marker from `i` on, or none. */
  lemma {:induction false} RawEndIs(s: string, i: nat, n: nat)
    requires i <= |s|
    ensures (forall j :: i <= j ==> !MarkerAt(s, j, n)) ==> RawEnd(s, i, n) == |s|
    ensures (exists j :: i <= j && MarkerAt(s, j, n)) ==>
              && i <= RawEnd(s, i, n) - n - 1 && MarkerAt(s, RawEnd(s, i, n) - n - 1, n)
              && forall j :: i <= j < RawEnd(s, i, n) - n - 1 ==> !MarkerAt(s, j, n)
    decreases |s| - i
  {
    if i + n < |s| && !MarkerAt(s, i, n) {
      RawEndIs(s, i + 1, n);
    }
  }

  lemma RawIs(s: string, i: nat, n: nat, e: nat)
    requires OpensRaw(s, i, n)
    ensures IsRaw(s, i, n, e) <==> e == RawEnd(s, i + n + 2, n)
  {
    RawBodyIs(s, i + n + 2, n, e);
  }

  lemma RawBodyIs(s: string, i: nat, n: nat, e: nat)
    requires i <= |s|
    ensures RawBody(s, i, n, e) <==> e == RawEnd(s, i, n)
  {
    RawEndIs(s, i, n);
    forall j: nat ensures ClosesRaw(s, j, n) <==> MarkerAt(s, j, n) {
      MarkerIs(s, j, n);
    }
  }

  /** The shapes of tokens are exactly what the lexer cuts. */
  lemma TokenIs(s: string, kind: Kind, i: nat, e: nat)
    ensures IsToken(s, kind, i, e) <==> i < |s| && kind == KindAt(s, i) && e == TokenEnd(s, i)
  {
    forall n: nat ensures OpensRaw(s, i, n) <==> RawOpens(s, i) && n == HashRun(s, i + 1) {
      OpensRawIs(s, i, n);
    }
    match kind
    case LineComment =>
      if Two(s, i, '/', '/') {
        LineIs(s, i, e);
      }
    case BlockComment =>
      if Two(s, i, '/', '*') {
        BlockIs(s, i, e);
      }
    case Raw =>
      if RawOpens(s, i) {
        RawIs(s, i, HashRun(s, i + 1), e);
      }
    case Quoted =>
      if At(s, i, "\"") {
        QuotedIs(s, i, e);
      }
    case Plain =>
      assert At(s, i, "\"") <==> i < |s| && s[i] == '"';
      assert RawOpens(s, i) ==> OpensRaw(s, i, HashRun(s, i + 1));
  }

  // ---- the whole text ----

  datatype Token = Token(kind: Kind, start: nat, end: nat)

  /** The tokens cover the text from `from` to its end without a gap. */
  ghost predicate Lexes(s: string, from: nat, tokens: seq<Token>)
    decreases |tokens|
  {
    if tokens == [] then from == |s|
    else
      && tokens[0].start == from && IsToken(s, tokens[0].kind, from, tokens[0].end)
      && Lexes(s, tokens[0].end, tokens[1..])
  }

  /** Every text is cut into tokens in exactly one way. */
  lemma {:induction false} LexesOnce(s: string, from: nat) returns (tokens: seq<Token>)
    requires from <= |s|
    ensures Lexes(s, from, tokens) && forall others :: Lexes(s, from, others) ==> others == tokens
    decreases |s| - from
  {
    if from == |s| {
      tokens := [];
      forall others: seq<Token> | Lexes(s, from, others) ensures others == [] {
        if others != [] {
          TokenIs(s, others[0].kind, from, others[0].end);
        }
      }
    } else {
      var first := Token(KindAt(s, from), from, TokenEnd(s, from));
      TokenIs(s, first.kind, from, first.end);
      var rest := LexesOnce(s, first.end);
      tokens := [first] + rest;
      assert tokens[1..] == rest;
      forall others: seq<Token> | Lexes(s, from, others) ensures others == tokens {
        assert others != [];
        TokenIs(s, others[0].kind, from, others[0].end);
        assert others[0] == first && Lexes(s, first.end, others[1..]);
        assert others == [others[0]] + others[1..];
      }
    }
  }

  /** A comment is blanked, a string when asked for, and nothing else; newlines stay. */
  function Shown(maskStrings: bool, kind: Kind, c: char): char {
    match kind
    case Plain => c
    case LineComment => if c == '\n' then c else ' '
    case BlockComment => if c == '\n' then c else ' '
    case Raw => if maskStrings && c != '\n' then ' ' else c
    case Quoted => if maskStrings && c != '\n' then ' ' else c
  }

  lemma {:induction false} MaskedByToken(m: bool, s: string, from: nat, tokens: seq<Token>, j: nat, k: nat)
    requires Lexes(s, from, tokens) && j < |tokens| && tokens[j].start <= k < tokens[j].end
    ensures from <= k < |s| && MaskedAt(m, s, from, k) == Shown(m, tokens[j].kind, s[k])
    decreases j
  {
    TokenIs(s, tokens[0].kind, from, tokens[0].end);
    if j > 0 {
      MaskedByToken(m, s, tokens[0].end, tokens[1..], j - 1, k);
    }
  }

  /** However a text is cut into tokens, its mask shows every character as the token that holds it demands. */
  lemma MaskMeans(m: bool, s: string, tokens: seq<Token>, j: nat, k: nat)
    requires Lexes(s, 0, tokens) && j < |tokens| && tokens[j].start <= k < tokens[j].end
    ensures k < |s| == |Mask(m, s)| && Mask(m, s)[k] == Shown(m, tokens[j].kind, s[k])
  {
    MaskedByToken(m, s, 0, tokens, j, k);
  }

  lemma {:induction false} TokenStands(s: string, from: nat, tokens: seq<Token>, j: nat)
    requires Lexes(s, from, tokens) && j < |tokens|
    ensures IsToken(s, tokens[j].kind, tokens[j].start, tokens[j].end)
    ensures if j + 1 < |tokens| then tokens[j + 1].start == tokens[j].end else tokens[j].end == |s|
    decreases j
  {
    if j > 0 {
      TokenStands(s, tokens[0].end, tokens[1..], j - 1);
    }
  }

  /** Every character belongs to a token. */
  lemma {:induction false} TokenHolds(s: string, from: nat, tokens: seq<Token>, k: nat) returns (j: nat)
    requires Lexes(s, from, tokens) && from <= k < |s|
    ensures j < |tokens| && tokens[j].start <= k < tokens[j].end
    decreases |tokens|
  {
    j := 0;
    if k >= tokens[0].end {
      j := TokenHolds(s, tokens[0].end, tokens[1..], k);
      j := j + 1;
    }
  }

  /** A line comment where the lexer stands is blank up to its newline, and the next token begins there. */
  lemma LineCommentIsBlank(m: bool, s: string, tokens: seq<Token>, j: nat, i: nat, e: nat)
    requires Lexes(s, 0, tokens) && j < |tokens| && i == tokens[j].start
    requires i + 2 <= e <= |s| && s[i] == s[i + 1] == '/'
    requires (forall k :: i <= k < e ==> s[k] != '\n') && (e == |s| || s[e] == '\n')
    ensures forall k :: i <= k < e ==> Mask(m, s)[k] == ' '
    ensures if e < |s| then j + 1 < |tokens| && tokens[j + 1].start == e else j + 1 == |tokens|
  {
    TokenStands(s, 0, tokens, j);
    TokenIs(s, tokens[j].kind, i, tokens[j].end);
    TokenIs(s, LineComment, i, e);
    assert IsLineComment(s, i, e);
    forall k | i <= k < e ensures Mask(m, s)[k] == ' ' {
      MaskMeans(m, s, tokens, j, k);
    }
    if j + 1 < |tokens| {
      TokenStands(s, 0, tokens, j + 1);
      TokenIs(s, tokens[j + 1].kind, tokens[j + 1].start, tokens[j + 1].end);
    }
  }
}

/**
  The comment and string masker for Rust source text.

  A source text is cut into tokens: line comments, nested block comments, raw strings,
  quoted strings and single characters.  Comments are always blanked, strings only when
  `maskStrings` is set.  Newlines survive, so every index keeps its meaning.  `Mask` is
  the token-by-token meaning of the loop in `WithoutRustComments`.
*/
module RustMask {
  import opened Basics

  datatype Kind = Plain | LineComment | BlockComment | Raw | Quoted

  // ---- the lexer ----

  /** The two characters `a`, `b` stand at position `i`. */
  predicate Pair(s: string, i: nat, a: char, b: char) {
    i + 1 < |s| && s[i] == a && s[i + 1] == b
  }

  /** A line comment ends before its newline, or with the text. */
  function LineEnd(s: string, i: nat): (e: nat)
    requires i <= |s|
    ensures i <= e <= |s|
    decreases |s| - i
  {
    if i == |s| || s[i] == '\n' then i else LineEnd(s, i + 1)
  }

  /** Where the block comment that is open to `depth` at `i` ends. */
  function BlockEnd(s: string, i: nat, depth: nat): (e: nat)
    requires i <= |s|
    ensures i <= e <= |s|
    decreases |s| - i
  {
    if i == |s| || depth == 0 then i
    else if Pair(s, i, '/', '*') then BlockEnd(s, i + 2, depth + 1)
    else if Pair(s, i, '*', '/') then BlockEnd(s, i + 2, depth - 1)
    else BlockEnd(s, i + 1, depth)
  }

  /** Where the quoted string whose body continues at `i` ends; an escape may reach past the text. */
  function QuotedEnd(s: string, i: nat): (e: nat)
    requires i <= |s|
    ensures i <= e <= |s|
    decreases |s| - i
  {
    if i == |s| then i
    else if s[i] == '\\' then QuotedEnd(s, Min(i + 2, |s|))
    else if s[i] == '"' then i + 1
    else QuotedEnd(s, i + 1)
  }

  /** Number of '#' characters from `i` on. */
  function HashRun(s: string, i: nat): (n: nat)
    requires i <= |s|
    ensures i + n <= |s|
    ensures forall k :: i <= k < i + n ==> s[k] == '#'
    ensures i + n < |s| ==> s[i + n] != '#'
    decreases |s| - i
  {
    if i == |s| || s[i] != '#' then 0 else 1 + HashRun(s, i + 1)
  }

  /** The letter r, at most sixteen '#' and a quote. */
  predicate RawOpens(s: string, i: nat) {
    && i < |s| && s[i] == 'r'
    && var n := HashRun(s, i + 1);
    && n <= 16 && i + 1 + n < |s| && s[i + 1 + n] == '"'
  }

  /** A raw string opens exactly where the source's pattern matches: r, zero to sixteen '#', a quote. */
  lemma RawOpensIff(s: string, i: nat)
    ensures RawOpens(s, i) <==>
              exists n :: 0 <= n <= 16 && i + 1 + n < |s|
                          && s[i] == 'r' && s[i + 1..i + 1 + n] == Hashes(n) && s[i + 1 + n] == '"'
  {
    if i < |s| {
      var run := HashRun(s, i + 1);
      assert s[i + 1..i + 1 + run] == Hashes(run);
      forall n: nat | i + 1 + n < |s| && s[i + 1..i + 1 + n] == Hashes(n) && s[i + 1 + n] == '"' ensures n == run {
        assert forall k :: i + 1 <= k < i + 1 + n ==> s[k] == Hashes(n)[k - (i + 1)];
      }
    }
  }

  function Hashes(n: nat): (r: string)
    ensures |r| == n && forall k :: 0 <= k < n ==> r[k] == '#'
  {
    seq(n, k => '#')
  }

  /** A quote followed by `hashes` '#' characters. */
  predicate MarkerAt(s: string, i: nat, hashes: nat) {
    i + hashes < |s| && s[i] == '"' && forall k :: i < k <= i + hashes ==> s[k] == '#'
  }

  /** The end of the first closing marker at or after `i`, or the end of the text. */
  function RawEnd(s: string, i: nat, hashes: nat): (e: nat)
    requires i <= |s|
    ensures Min(i + hashes + 1, |s|) <= e <= |s|
    decreases |s| - i
  {
    if i + hashes >= |s| then |s|
    else if MarkerAt(s, i, hashes) then i + hashes + 1
    else RawEnd(s, i + 1, hashes)
  }

  /** It is the first closing marker that counts. */
  lemma {:induction false} RawEndIsFirst(s: string, i: nat, hashes: nat, j: nat)
    requires i <= j < |s| && MarkerAt(s, j, hashes) && forall k :: i <= k < j ==> !MarkerAt(s, k, hashes)
    ensures RawEnd(s, i, hashes) == j + hashes + 1
    decreases j - i
  {
    if i < j {
      RawEndIsFirst(s, i + 1, hashes, j);
    }
  }

  /** Without a closing marker the raw string takes the rest of the text. */
  lemma {:induction false} RawRunsOut(s: string, i: nat, hashes: nat)
    requires i <= |s| && forall k :: i <= k < |s| ==> !MarkerAt(s, k, hashes)
    ensures RawEnd(s, i, hashes) == |s|
    decreases |s| - i
  {
    if i < |s| {
      RawRunsOut(s, i + 1, hashes);
    }
  }

  function KindAt(s: string, i: nat): Kind
    requires i < |s|
  {
    if Pair(s, i, '/', '/') then LineComment
    else if Pair(s, i, '/', '*') then BlockComment
    else if RawOpens(s, i) then Raw
    else if s[i] == '"' then Quoted
    else Plain
  }

  /** Where the token that begins at `i` ends. */
  function TokenEnd(s: string, i: nat): (e: nat)
    requires i < |s|
    ensures i < e <= |s|
  {
    match KindAt(s, i)
    case LineComment => LineEnd(s, i)
    case BlockComment => BlockEnd(s, i + 2, 1)
    case Raw => RawEnd(s, i + HashRun(s, i + 1) + 2, HashRun(s, i + 1))
    case Quoted => QuotedEnd(s, i + 1)
    case Plain => i + 1
  }

  // ---- masking ----

  predicate Blank(c: char) {
    c == ' ' || c == '\n'
  }

  predicate Masks(kind: Kind, maskStrings: bool) {
    kind == LineComment || kind == BlockComment || (maskStrings && kind != Plain)
  }

  /** A character of a masked token becomes a space, unless it is a newline. */
  function Show(maskStrings: bool, kind: Kind, c: char): char {
    if Masks(kind, maskStrings) && c != '\n' then ' ' else c
  }

  /** What the masker shows at `k` when the lexer stands between tokens at `i`. */
  function MaskedAt(maskStrings: bool, s: string, i: nat, k: nat): char
    requires i <= k < |s|
    decreases k - i
  {
    if k < TokenEnd(s, i) then Show(maskStrings, KindAt(s, i), s[k])
    else MaskedAt(maskStrings, s, TokenEnd(s, i), k)
  }

  function Mask(maskStrings: bool, s: string): (r: string)
    ensures |r| == |s| && forall k :: 0 <= k < |s| ==> r[k] == MaskedAt(maskStrings, s, 0, k)
  {
    seq(|s|, k requires 0 <= k < |s| => MaskedAt(maskStrings, s, 0, k))
  }

  // ---- which token holds a position ----

  /** Where the token that holds `k` begins, when the lexer stands between tokens at `i`. */
  function TokenAt(s: string, i: nat, k: nat): (t: nat)
    requires i <= k < |s|
    ensures i <= t <= k < TokenEnd(s, t)
    decreases k - i
  {
    if k < TokenEnd(s, i) then i else TokenAt(s, TokenEnd(s, i), k)
  }

  /** Each position shows its character as the token that holds it is shown. */
  lemma {:induction false} MaskedShows(m: bool, s: string, i: nat, k: nat)
    requires i <= k < |s|
    ensures MaskedAt(m, s, i, k) == Show(m, KindAt(s, TokenAt(s, i, k)), s[k])
    decreases k - i
  {
    if TokenEnd(s, i) <= k {
      MaskedShows(m, s, TokenEnd(s, i), k);
    }
  }

  /** Tokens after a boundary do not depend on what came before it. */
  lemma {:induction false} TokenFrom(s: string, i: nat, j: nat, k: nat)
    requires i <= j <= k < |s| && TokenAt(s, i, j) == j
    ensures TokenAt(s, i, k) == TokenAt(s, j, k)
    decreases j - i
  {
    if i < j {
      TokenFrom(s, TokenEnd(s, i), j, k);
    }
  }

  lemma {:induction false} TokenStarts(s: string, i: nat, k: nat)
    requires i <= k < |s|
    ensures TokenAt(s, i, TokenAt(s, i, k)) == TokenAt(s, i, k)
    decreases k - i
  {
    if TokenEnd(s, i) <= k {
      TokenStarts(s, TokenEnd(s, i), k);
    }
  }

  /** Position `k` is code: no comment and no string holds it. */
  predicate IsCode(s: string, k: nat) {
    k < |s| && KindAt(s, TokenAt(s, 0, k)) == Plain
  }

  /** What survives full masking is code, a token by itself, and shown as it is. */
  lemma SurvivorIsCode(s: string, k: nat)
    requires k < |s| && !Blank(MaskedAt(true, s, 0, k))
    ensures IsCode(s, k) && TokenAt(s, 0, k) == k && MaskedAt(true, s, 0, k) == s[k]
    ensures k + 1 < |s| ==> TokenAt(s, 0, k + 1) == k + 1
  {
    MaskedShows(true, s, 0, k);
    if k + 1 < |s| {
      TokenFrom(s, 0, k, k + 1);
    }
  }

  // ---- the loop of the source ----

  /** The inner loop over a block comment whose opener ends at `start`. */
  method SkipBlock(source: string, start: nat) returns (index: nat)
    requires start <= |source|
    ensures index == BlockEnd(source, start, 1)
  {
    var depth := 1;
    index := start;
    while index < |source| && depth != 0
      invariant start <= index <= |source| && 0 <= depth
      invariant BlockEnd(source, start, 1) == BlockEnd(source, index, depth)
      decreases |source| - index
    {
      if Pair(source, index, '/', '*') {
        depth := depth + 1;
        index := index + 2;
      } else if Pair(source, index, '*', '/') {
        depth := depth - 1;
        index := index + 2;
      } else {
        index := index + 1;
      }
    }
  }

  /** The inner loop over the body of a quoted string; `index` may overshoot the text by one. */
  method SkipQuoted(source: string, start: nat) returns (index: nat)
    requires start <= |source|
    ensures Min(index, |source|) == QuotedEnd(source, start)
  {
    index := start;
    while index < |source|
      invariant start <= index <= |source| + 1
      invariant QuotedEnd(source, start) == QuotedEnd(source, Min(index, |source|))
      decreases |source| - index
    {
      if source[index] == '\\' {
        index := index + 2;
      } else if source[index] == '"' {
        index := index + 1;
        break;
      } else {
        index := index + 1;
      }
    }
  }

  /** One round of the outer loop: recognise the token at `index` and find its end. */
  method NextToken(source: string, index: nat) returns (kind: Kind, end: nat)
    requires index < |source|
    ensures kind == KindAt(source, index) && end == TokenEnd(source, index)
  {
    if Pair(source, index, '/', '/') {
      return LineComment, LineEnd(source, index);
    }
    if Pair(source, index, '/', '*') {
      end := SkipBlock(source, index + 2);
      return BlockComment, end;
    }
    if RawOpens(source, index) {
      var hashes := HashRun(source, index + 1);
      return Raw, RawEnd(source, index + hashes + 2, hashes);
    }
    if source[index] == '"' {
      end := SkipQuoted(source, index + 1);
      return Quoted, Min(end, |source|);
    }
    return Plain, index + 1;
  }

  /** The text of a token as the masker writes it. */
  method Masked(maskStrings: bool, kind: Kind, text: string) returns (piece: string)
    ensures |piece| == |text| && forall k :: 0 <= k < |text| ==> piece[k] == Show(maskStrings, kind, text[k])
  {
    if !Masks(kind, maskStrings) {
      return text;
    }
    piece := seq(|text|, k requires 0 <= k < |text| => if text[k] == '\n' then '\n' else ' ');
  }

  /** Cuts the source into tokens from left to right, appending one piece per token. */
  method WithoutRustComments(source: string, maskStrings: bool) returns (output: string)
    ensures output == Mask(maskStrings, source)
  {
    output := "";
    var index := 0;
    while index < |source|
      invariant |output| == index <= |source|
      invariant forall k :: 0 <= k < index ==> output[k] == MaskedAt(maskStrings, source, 0, k)
      invariant forall k :: index <= k < |source| ==>
                  MaskedAt(maskStrings, source, 0, k) == MaskedAt(maskStrings, source, index, k)
    {
      var kind, end := NextToken(source, index);
      var piece := Masked(maskStrings, kind, source[index..end]);
      forall k | index <= k < |source|
        ensures MaskedAt(maskStrings, source, 0, k) ==
                if k < end then piece[k - index] else MaskedAt(maskStrings, source, end, k)
      {
      }
      output := output + piece;
      index := end;
    }
  }

  // ---- positions keep their meaning ----

  /** Masking keeps each character or turns it into a space, and neither adds nor removes a newline. */
  lemma {:induction false} MaskKeepsPlace(m: bool, s: string, i: nat, k: nat)
    requires i <= k < |s|
    ensures MaskedAt(m, s, i, k) == s[k] || MaskedAt(m, s, i, k) == ' '
    ensures MaskedAt(m, s, i, k) == '\n' <==> s[k] == '\n'
    decreases k - i
  {
    if TokenEnd(s, i) <= k {
      MaskKeepsPlace(m, s, TokenEnd(s, i), k);
    }
  }

  /** `t` is `s`, perhaps cut short, with some characters blanked. */
  ghost predicate Weakens(s: string, t: string) {
    |t| <= |s| && forall k :: 0 <= k < |t| ==> t[k] == s[k] || Blank(t[k])
  }

  lemma MaskWeakens(m: bool, s: string)
    ensures Weakens(s, Mask(m, s))
  {
    forall k | 0 <= k < |s| ensures Mask(m, s)[k] == s[k] || Blank(Mask(m, s)[k]) {
      MaskKeepsPlace(m, s, 0, k);
    }
  }

  lemma RawStays(s: string, t: string, i: nat)
    requires Weakens(s, t)
    ensures RawOpens(t, i) ==> RawOpens(s, i)
  {
    if RawOpens(t, i) {
      var n := HashRun(t, i + 1);
      assert HashRun(s, i + 1) == n;
    }
  }

  /** Blanking or cutting never creates a token opener. */
  lemma PlainStays(s: string, t: string, i: nat)
    requires Weakens(s, t) && i < |t|
    requires KindAt(s, i) == Plain || Blank(t[i])
    ensures KindAt(t, i) == Plain
  {
    RawStays(s, t, i);
  }

  // ---- a token depends only on its own characters ----

  lemma {:induction false} QuotedLocal(s: string, t: string, i: nat)
    requires i <= |t| <= |s|
    requires forall k :: i <= k < |t| && k < QuotedEnd(s, i) ==> t[k] == s[k]
    ensures QuotedEnd(t, i) == Min(QuotedEnd(s, i), |t|)
    decreases |t| - i
  {
    if i < |t| {
      assert t[i] == s[i];
      if s[i] == '\\' {
        if i + 2 <= |t| {
          QuotedLocal(s, t, i + 2);
        }
      } else if s[i] != '"' {
        QuotedLocal(s, t, i + 1);
      }
    }
  }

  lemma {:induction false} RawLocal(s: string, t: string, i: nat, hashes: nat)
    requires i <= |t| <= |s|
    requires forall k :: i <= k < |t| && k < RawEnd(s, i, hashes) ==> t[k] == s[k]
    ensures RawEnd(t, i, hashes) == Min(RawEnd(s, i, hashes), |t|)
    decreases |t| - i
  {
    if i + hashes < |t| {
      assert MarkerAt(s, i, hashes) == MarkerAt(t, i, hashes);
      if !MarkerAt(s, i, hashes) {
        RawLocal(s, t, i + 1, hashes);
      }
    }
  }

  lemma RawOpenerLocal(s: string, t: string, i: nat, n: nat)
    requires i < |t| <= |s| && KindAt(s, i) == Raw && n == HashRun(s, i + 1) && i + n + 2 <= |t|
    requires forall k :: i <= k < i + n + 2 ==> t[k] == s[k]
    ensures KindAt(t, i) == Raw && HashRun(t, i + 1) == n
  {
    SameRun(s, t, i + 1, n);
  }

  lemma RawTokenLocal(s: string, t: string, i: nat)
    requires i < |t| <= |s| && KindAt(s, i) == Raw
    requires i + HashRun(s, i + 1) + 2 <= |t|
    requires forall k :: i <= k < |t| && k < TokenEnd(s, i) ==> t[k] == s[k]
    ensures KindAt(t, i) == Raw && TokenEnd(t, i) == Min(TokenEnd(s, i), |t|)
  {
    var n := HashRun(s, i + 1);
    RawOpenerLocal(s, t, i, n);
    RawLocal(s, t, i + n + 2, n);
  }

  lemma SameRun(s: string, t: string, i: nat, n: nat)
    requires i + n < |t| <= |s| && n == HashRun(s, i)
    requires forall k :: i <= k <= i + n ==> t[k] == s[k]
    ensures HashRun(t, i) == n
  {
  }

  /** A string token that the masked text still shows in full is a token of the masked text. */
  lemma StringStays(s: string, t: string, i: nat)
    requires i < |s| == |t| && KindAt(s, i) in {Raw, Quoted}
    requires forall k :: i <= k < TokenEnd(s, i) ==> t[k] == s[k]
    ensures KindAt(t, i) == KindAt(s, i) && TokenEnd(t, i) == TokenEnd(s, i)
  {
    if KindAt(s, i) == Raw {
      RawTokenLocal(s, t, i);
    } else {
      QuotedLocal(s, t, i + 1);
    }
  }

  // ---- the two modes compose ----

  /** Blank characters are tokens by themselves, and shown as they are. */
  lemma {:induction false} BlankRun(m: bool, t: string, i: nat, e: nat, k: nat)
    requires i <= e <= |t| && i <= k < |t| && forall x :: i <= x < e ==> Blank(t[x])
    ensures MaskedAt(m, t, i, k) == if k < e then t[k] else MaskedAt(m, t, e, k)
    decreases e - i
  {
    if i < e {
      PlainStays(t, t, i);
      if i < k {
        BlankRun(m, t, i + 1, e, k);
      }
    }
  }

  lemma {:induction false} MaskTwiceAt(a: bool, b: bool, s: string, t: string, i: nat, k: nat)
    requires i <= k < |s| == |t| && Weakens(s, t)
    requires forall x :: i <= x < |s| ==> t[x] == MaskedAt(a, s, i, x)
    ensures MaskedAt(b, t, i, k) == MaskedAt(a || b, s, i, k)
    decreases k - i
  {
    var e, kind := TokenEnd(s, i), KindAt(s, i);
    assert forall x :: i <= x < e ==> t[x] == Show(a, kind, s[x]);
    assert forall x :: e <= x < |s| ==> t[x] == MaskedAt(a, s, e, x);
    if e <= k {
      MaskTwiceAt(a, b, s, t, e, k);
    }
    if Masks(kind, a) {
      BlankRun(b, t, i, e, k);
    } else if kind == Plain {
      PlainStays(s, t, i);
    } else {
      StringStays(s, t, i);
    }
  }

  /** Masking twice is masking once with either mode: both modes are idempotent and commute. */
  lemma MaskTwice(a: bool, b: bool, s: string)
    ensures Mask(b, Mask(a, s)) == Mask(a || b, s)
  {
    MaskWeakens(a, s);
    forall k | 0 <= k < |s| ensures MaskedAt(b, Mask(a, s), 0, k) == MaskedAt(a || b, s, 0, k) {
      MaskTwiceAt(a, b, s, Mask(a, s), 0, k);
    }
  }

  // ---- masking a slice is slicing the mask ----

  lemma {:induction false} LineEndShift(s: string, t: string, k: nat, i: nat)
    requires k + i <= |s| && t == s[k..]
    ensures LineEnd(t, i) == LineEnd(s, k + i) - k
    decreases |s| - i
  {
    if k + i < |s| && s[k + i] != '\n' {
      LineEndShift(s, t, k, i + 1);
    }
  }

  lemma {:induction false} BlockEndShift(s: string, t: string, k: nat, i: nat, depth: nat)
    requires k + i <= |s| && t == s[k..]
    ensures BlockEnd(t, i, depth) == BlockEnd(s, k + i, depth) - k
    decreases |s| - i
  {
    if k + i < |s| && depth != 0 {
      if Pair(s, k + i, '/', '*') {
        BlockEndShift(s, t, k, i + 2, depth + 1);
      } else if Pair(s, k + i, '*', '/') {
        BlockEndShift(s, t, k, i + 2, depth - 1);
      } else {
        BlockEndShift(s, t, k, i + 1, depth);
      }
    }
  }

  lemma {:induction false} QuotedEndShift(s: string, t: string, k: nat, i: nat)
    requires k + i <= |s| && t == s[k..]
    ensures QuotedEnd(t, i) == QuotedEnd(s, k + i) - k
    decreases |s| - i
  {
    if k + i < |s| && s[k + i] == '\\' {
      QuotedEndShift(s, t, k, Min(i + 2, |t|));
    } else if k + i < |s| && s[k + i] != '"' {
      QuotedEndShift(s, t, k, i + 1);
    }
  }

  lemma {:induction false} RawEndShift(s: string, t: string, k: nat, i: nat, hashes: nat)
    requires k + i <= |s| && t == s[k..]
    ensures RawEnd(t, i, hashes) == RawEnd(s, k + i, hashes) - k
    decreases |s| - i
  {
    if k + i + hashes < |s| {
      assert MarkerAt(t, i, hashes) == MarkerAt(s, k + i, hashes) by {
        assert forall x :: i < x <= i + hashes ==> t[x] == s[k + x];
        assert forall y :: k + i < y <= k + i + hashes ==> s[y] == t[y - k];
      }
      if !MarkerAt(t, i, hashes) {
        RawEndShift(s, t, k, i + 1, hashes);
      }
    }
  }

  lemma {:induction false} HashRunShift(s: string, t: string, k: nat, i: nat)
    requires k + i <= |s| && t == s[k..]
    ensures HashRun(t, i) == HashRun(s, k + i)
    decreases |s| - i
  {
    if k + i < |s| && s[k + i] == '#' {
      HashRunShift(s, t, k, i + 1);
    }
  }

  lemma RawOpensShift(s: string, t: string, k: nat, i: nat)
    requires k + i < |s| && t == s[k..]
    ensures RawOpens(t, i) == RawOpens(s, k + i) && HashRun(t, i + 1) == HashRun(s, k + i + 1)
  {
    HashRunShift(s, t, k, i + 1);
  }

  lemma TokenShift(s: string, t: string, k: nat, i: nat)
    requires k + i < |s| && t == s[k..]
    ensures TokenEnd(t, i) == TokenEnd(s, k + i) - k && KindAt(t, i) == KindAt(s, k + i)
  {
    RawOpensShift(s, t, k, i);
    var hashes := HashRun(t, i + 1);
    match KindAt(s, k + i)
    case LineComment => LineEndShift(s, t, k, i);
    case BlockComment => BlockEndShift(s, t, k, i + 2, 1);
    case Raw => RawEndShift(s, t, k, i + hashes + 2, hashes);
    case Quoted => QuotedEndShift(s, t, k, i + 1);
    case Plain =>
  }

  lemma {:induction false} MaskShift(m: bool, s: string, t: string, p: nat, i: nat, k: nat)
    requires p <= |s| && t == s[p..] && i <= k < |t|
    ensures MaskedAt(m, t, i, k) == MaskedAt(m, s, p + i, p + k)
    decreases k - i
  {
    TokenShift(s, t, p, i);
    if TokenEnd(t, i) <= k {
      MaskShift(m, s, t, p, TokenEnd(t, i), k);
    }
  }

  /** A character that survives full masking is a token by itself, so the lexer is between tokens after it. */
  lemma {:induction false} CodeIsBoundary(m: bool, s: string, i: nat, c: nat, k: nat)
    requires i <= c < k < |s| && !Blank(MaskedAt(true, s, i, c))
    ensures KindAt(s, c) == Plain && MaskedAt(m, s, i, k) == MaskedAt(m, s, c + 1, k)
    decreases c - i
  {
    if TokenEnd(s, i) <= c {
      CodeIsBoundary(m, s, TokenEnd(s, i), c, k);
    }
  }

  /** The text up to `q` ends with a newline, so no opener is cut. */
  ghost predicate LineCut(s: string, t: string) {
    0 < |t| <= |s| && t == s[..|t|] && t[|t| - 1] == '\n'
  }

  lemma {:induction false} LineEndPrefix(s: string, t: string, i: nat)
    requires LineCut(s, t) && i < |t|
    ensures LineEnd(t, i) == LineEnd(s, i)
    decreases |t| - i
  {
    if s[i] != '\n' {
      LineEndPrefix(s, t, i + 1);
    }
  }

  lemma {:induction false} BlockEndPrefix(s: string, t: string, i: nat, depth: nat)
    requires LineCut(s, t) && i <= |t|
    ensures BlockEnd(t, i, depth) == Min(BlockEnd(s, i, depth), |t|)
    decreases |s| - i
  {
    if i < |t| && depth != 0 {
      if Pair(s, i, '/', '*') {
        BlockEndPrefix(s, t, i + 2, depth + 1);
      } else if Pair(s, i, '*', '/') {
        BlockEndPrefix(s, t, i + 2, depth - 1);
      } else {
        BlockEndPrefix(s, t, i + 1, depth);
      }
    }
  }

  lemma TokenPrefix(s: string, t: string, i: nat)
    requires LineCut(s, t) && i < |t|
    ensures KindAt(t, i) == KindAt(s, i)
    ensures TokenEnd(t, i) == Min(TokenEnd(s, i), |t|)
  {
    match KindAt(s, i)
    case LineComment => LineEndPrefix(s, t, i);
    case BlockComment => BlockEndPrefix(s, t, i + 2, 1);
    case Raw => RawTokenLocal(s, t, i);
    case Quoted => QuotedLocal(s, t, i + 1);
    case Plain => PlainStays(s, t, i);
  }

  lemma {:induction false} MaskPrefix(m: bool, s: string, t: string, i: nat, k: nat)
    requires LineCut(s, t) && i <= k < |t|
    ensures MaskedAt(m, t, i, k) == MaskedAt(m, s, i, k)
    decreases k - i
  {
    TokenPrefix(s, t, i);
    if TokenEnd(s, i) <= k {
      MaskPrefix(m, s, t, TokenEnd(s, i), k);
    }
  }

  /** Masking a slice that starts after a code character and ends after a newline is slicing the mask. */
  lemma MaskSlice(m: bool, s: string, p: nat, q: nat)
    requires 0 < p <= q <= |s| && !Blank(Mask(true, s)[p - 1])
    requires q == p || s[q - 1] == '\n'
    ensures Mask(m, s[p..q]) == Mask(m, s)[p..q]
  {
    var u := s[p..q];
    forall k | 0 <= k < |u| ensures Mask(m, u)[k] == Mask(m, s)[p + k] {
      MaskSliceAt(m, s, s[..q], u, p, k);
    }
  }

  lemma MaskSuffixAt(m: bool, t: string, u: string, p: nat, k: nat)
    requires 0 < p <= |t| && u == t[p..] && k < |u| && !Blank(MaskedAt(true, t, 0, p - 1))
    ensures MaskedAt(m, u, 0, k) == MaskedAt(m, t, 0, p + k)
  {
    CodeIsBoundary(m, t, 0, p - 1, p + k);
    MaskShift(m, t, u, p, 0, k);
  }

  lemma MaskSliceAt(m: bool, s: string, t: string, u: string, p: nat, k: nat)
    requires LineCut(s, t) && 0 < p <= |t| && u == t[p..] && k < |u|
    requires !Blank(MaskedAt(true, s, 0, p - 1))
    ensures MaskedAt(m, u, 0, k) == MaskedAt(m, s, 0, p + k)
  {
    MaskPrefix(m, s, t, 0, p + k);
    MaskPrefix(true, s, t, 0, p - 1);
    MaskSuffixAt(m, t, u, p, k);
  }
}

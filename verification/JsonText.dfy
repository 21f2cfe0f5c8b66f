/**
  JSON texts (RFC 8259 section 2) down to what decides where a text ends: strings with escapes,
  nested containers, scalars without structural characters, and whitespace between tokens.
  Every JSON text has this form; some texts of this form are not JSON, so what holds of all of
  them holds of JSON.
*/
module JsonText {
  predicate IsWs(c: char) {
    c == ' ' || c == '\t' || c == '\n' || c == '\r'
  }

  predicate AllWs(s: string) {
    forall i :: 0 <= i < |s| ==> IsWs(s[i])
  }

  /** An item of a string body: a character that ends nothing, or a backslash and the character after it. */
  datatype Item = Char(c: char) | Escape(c: char)

  datatype Node =
    | Scalar(text: string)
    | Text(items: seq<Item>)
    | Array(blank: string, elements: seq<Padded>)
    | Object(blank: string, members: seq<Member>)

  datatype Padded = Padded(before: string, node: Node, after: string)

  datatype Member = Member(before: string, key: seq<Item>, between: string, value: Padded)

  predicate PlainChar(c: char) {
    c != '"' && c != '\\'
  }

  /** Characters of literals and numbers. */
  predicate ScalarChar(c: char) {
    PlainChar(c) && !IsWs(c) && c != '[' && c != ']' && c != '{' && c != '}'
  }

  predicate ItemOk(x: Item) {
    x.Char? ==> PlainChar(x.c)
  }

  predicate ItemsOk(xs: seq<Item>) {
    forall i :: 0 <= i < |xs| ==> ItemOk(xs[i])
  }

  predicate PaddedOk(p: Padded) {
    AllWs(p.before) && AllWs(p.after) && NodeOk(p.node)
  }

  predicate NodeOk(n: Node) {
    match n
    case Scalar(text) => text != "" && forall i :: 0 <= i < |text| ==> ScalarChar(text[i])
    case Text(items) => ItemsOk(items)
    case Array(blank, elements) => AllWs(blank) && forall i :: 0 <= i < |elements| ==> PaddedOk(elements[i])
    case Object(blank, members) =>
      AllWs(blank) && forall i :: 0 <= i < |members| ==>
        AllWs(members[i].before) && ItemsOk(members[i].key) && AllWs(members[i].between) && PaddedOk(members[i].value)
  }

  predicate IsContainer(n: Node) {
    n.Array? || n.Object?
  }

  // ---- printing ----

  function PrintItems(xs: seq<Item>): string {
    if xs == [] then ""
    else (match xs[0] case Char(c) => [c] case Escape(c) => ['\\', c]) + PrintItems(xs[1..])
  }

  function PrintText(xs: seq<Item>): string {
    "\"" + PrintItems(xs) + "\""
  }

  function PrintPadded(p: Padded): string {
    p.before + Print(p.node) + p.after
  }

  function PrintElements(es: seq<Padded>): string {
    if es == [] then ""
    else if |es| == 1 then PrintPadded(es[0])
    else PrintPadded(es[0]) + "," + PrintElements(es[1..])
  }

  function PrintMember(m: Member): string {
    m.before + PrintText(m.key) + m.between + ":" + PrintPadded(m.value)
  }

  function PrintMembers(ms: seq<Member>): string {
    if ms == [] then ""
    else if |ms| == 1 then PrintMember(ms[0])
    else PrintMember(ms[0]) + "," + PrintMembers(ms[1..])
  }

  function Print(n: Node): string {
    match n
    case Scalar(text) => text
    case Text(items) => PrintText(items)
    case Array(blank, elements) => "[" + (if elements == [] then blank else PrintElements(elements)) + "]"
    case Object(blank, members) => "{" + (if members == [] then blank else PrintMembers(members)) + "}"
  }

  /** A complete text: one value with whitespace around it. */
  ghost predicate IsDocument(t: string) {
    exists n: Node, before: string, after: string ::
      NodeOk(n) && AllWs(before) && AllWs(after) && t == before + Print(n) + after
  }

  // ---- the bracket depth ----

  datatype Mode = Outside | InString | InEscape

  datatype Position = Position(depth: int, mode: Mode)

  function Step(p: Position, c: char): Position {
    match p.mode
    case InEscape => p.(mode := InString)
    case InString => if c == '\\' then p.(mode := InEscape) else if c == '"' then p.(mode := Outside) else p
    case Outside =>
      if c == '"' then p.(mode := InString)
      else if c == '[' || c == '{' then p.(depth := p.depth + 1)
      else if c == ']' || c == '}' then p.(depth := p.depth - 1)
      else p
  }

  function Scan(s: string, p: Position): Position {
    if s == "" then p else Scan(s[1..], Step(p, s[0]))
  }

  /** The depth never falls below `d` while reading `s`. */
  predicate Stays(s: string, p: Position, d: int) {
    p.depth >= d && (s != "" ==> Stays(s[1..], Step(p, s[0]), d))
  }

  lemma {:induction false} ScanConcat(a: string, b: string, p: Position)
    ensures Scan(a + b, p) == Scan(b, Scan(a, p))
    ensures forall d :: Stays(a, p, d) && Stays(b, Scan(a, p), d) ==> Stays(a + b, p, d)
  {
    if a == "" {
      assert a + b == b;
    } else {
      assert (a + b)[1..] == a[1..] + b;
      ScanConcat(a[1..], b, Step(p, a[0]));
    }
  }

  lemma {:induction false} StaysPrefix(s: string, p: Position, d: int, k: nat)
    requires Stays(s, p, d) && k <= |s|
    ensures Scan(s[..k], p).depth >= d
  {
    if k > 0 {
      assert s[..k][1..] == s[1..][..k - 1];
      StaysPrefix(s[1..], Step(p, s[0]), d, k - 1);
    }
  }

  /** `s` leaves a position outside strings where it was, and never goes below its depth. */
  ghost predicate Level(s: string, d: int) {
    Scan(s, Position(d, Outside)) == Position(d, Outside) && Stays(s, Position(d, Outside), d)
  }

  lemma LevelConcat(a: string, b: string, d: int)
    requires Level(a, d) && Level(b, d)
    ensures Level(a + b, d)
  {
    ScanConcat(a, b, Position(d, Outside));
  }

  lemma {:induction false} LevelPlain(s: string, d: int)
    requires forall i :: 0 <= i < |s| ==> s[i] != '"' && s[i] != '[' && s[i] != ']' && s[i] != '{' && s[i] != '}'
    ensures Level(s, d)
  {
    if s != "" {
      LevelPlain(s[1..], d);
    }
  }

  lemma ScanOne(c: char, p: Position, d: int)
    ensures Scan([c], p) == Step(p, c)
    ensures p.depth >= d && Step(p, c).depth >= d ==> Stays([c], p, d)
  {
    assert [c][1..] == "";
  }

  lemma {:induction false} ItemsStay(xs: seq<Item>, d: int)
    requires ItemsOk(xs)
    ensures Scan(PrintItems(xs), Position(d, InString)) == Position(d, InString)
    ensures Stays(PrintItems(xs), Position(d, InString), d)
  {
    if xs != [] {
      ItemsStay(xs[1..], d);
      var p, c := Position(d, InString), xs[0].c;
      ScanOne(c, p, d);
      if xs[0].Escape? {
        ScanOne('\\', p, d);
        ScanOne(c, Step(p, '\\'), d);
        ScanConcat(['\\'], [c], p);
        assert ['\\'] + [c] == ['\\', c];
        ScanConcat(['\\', c], PrintItems(xs[1..]), p);
      } else {
        ScanConcat([c], PrintItems(xs[1..]), p);
      }
    }
  }

  lemma LevelText(xs: seq<Item>, d: int)
    requires ItemsOk(xs)
    ensures Level(PrintText(xs), d)
  {
    ItemsStay(xs, d);
    var body := PrintItems(xs);
    ScanOne('"', Position(d, InString), d);
    ScanOne('"', Position(d, Outside), d);
    ScanConcat(body, "\"", Position(d, InString));
    assert PrintText(xs) == "\"" + (body + "\"");
    ScanConcat("\"", body + "\"", Position(d, Outside));
  }

  lemma {:induction false} LevelPadded(p: Padded, d: int)
    requires PaddedOk(p)
    ensures Level(PrintPadded(p), d)
    decreases p, 0
  {
    LevelPlain(p.before, d);
    LevelNode(p.node, d);
    LevelPlain(p.after, d);
    LevelConcat(p.before, Print(p.node), d);
    LevelConcat(p.before + Print(p.node), p.after, d);
  }

  lemma {:induction false} LevelElements(es: seq<Padded>, d: int)
    requires forall i :: 0 <= i < |es| ==> PaddedOk(es[i])
    ensures Level(PrintElements(es), d)
    decreases es, 0
  {
    if es != [] {
      LevelPadded(es[0], d);
      LevelElements(es[1..], d);
      LevelPlain(",", d);
      LevelConcat(PrintPadded(es[0]), ",", d);
      LevelConcat(PrintPadded(es[0]) + ",", PrintElements(es[1..]), d);
    }
  }

  ghost predicate MemberOk(m: Member) {
    AllWs(m.before) && ItemsOk(m.key) && AllWs(m.between) && PaddedOk(m.value)
  }

  lemma {:induction false} LevelMember(m: Member, d: int)
    requires MemberOk(m)
    ensures Level(PrintMember(m), d)
    decreases m, 0
  {
    LevelPlain(m.before, d);
    LevelText(m.key, d);
    LevelPlain(m.between, d);
    LevelPlain(":", d);
    LevelPadded(m.value, d);
    LevelConcat(m.before, PrintText(m.key), d);
    LevelConcat(m.before + PrintText(m.key), m.between, d);
    LevelConcat(m.before + PrintText(m.key) + m.between, ":", d);
    LevelConcat(m.before + PrintText(m.key) + m.between + ":", PrintPadded(m.value), d);
  }

  lemma {:induction false} LevelMembers(ms: seq<Member>, d: int)
    requires forall i :: 0 <= i < |ms| ==> MemberOk(ms[i])
    ensures Level(PrintMembers(ms), d)
    decreases ms, 0
  {
    if ms != [] {
      LevelMember(ms[0], d);
      LevelMembers(ms[1..], d);
      LevelPlain(",", d);
      LevelConcat(PrintMember(ms[0]), ",", d);
      LevelConcat(PrintMember(ms[0]) + ",", PrintMembers(ms[1..]), d);
    }
  }

  /** What stands between the brackets of a container. */
  function Inside(n: Node): string
    requires IsContainer(n)
  {
    match n
    case Array(blank, elements) => if elements == [] then blank else PrintElements(elements)
    case Object(blank, members) => if members == [] then blank else PrintMembers(members)
  }

  lemma {:induction false} LevelInside(n: Node, d: int)
    requires NodeOk(n) && IsContainer(n)
    ensures Level(Inside(n), d)
    decreases n, 0
  {
    match n
    case Array(blank, elements) => LevelPlain(blank, d); LevelElements(elements, d);
    case Object(blank, members) => LevelPlain(blank, d); LevelMembers(members, d);
  }

  lemma {:induction false} LevelNode(n: Node, d: int)
    requires NodeOk(n)
    ensures Level(Print(n), d)
    decreases n, 1
  {
    match n
    case Scalar(text) => LevelPlain(text, d);
    case Text(items) => LevelText(items, d);
    case _ =>
      LevelInside(n, d + 1);
      ContainerLevel(n, d);
  }

  /** A container is a bracket, a level inside one deeper, and a bracket. */
  lemma ContainerLevel(n: Node, d: int)
    requires IsContainer(n) && Level(Inside(n), d + 1)
    ensures Level(Print(n), d)
    ensures forall k :: 0 < k < |Print(n)| ==> Scan(Print(n)[..k], Position(d, Outside)).depth > d
  {
    var open, inside := Print(n)[0], Inside(n);
    var close := Print(n)[|Print(n)| - 1];
    var p, q := Position(d, Outside), Position(d + 1, Outside);
    assert Print(n) == [open] + (inside + [close]);
    assert Scan([close], q) == p && Stays([close], q, d);
    ScanConcat(inside, [close], q);
    LowerStays(inside, q, d + 1, d);
    assert Scan([open], p) == q && Stays([open], p, d);
    ScanConcat([open], inside + [close], p);
    forall k | 0 < k < |Print(n)| ensures Scan(Print(n)[..k], p).depth > d {
      assert Print(n)[..k] == [open] + inside[..k - 1];
      StaysPrefix(inside, q, d + 1, k - 1);
      ScanConcat([open], inside[..k - 1], p);
    }
  }

  lemma {:induction false} LowerStays(s: string, p: Position, d: int, e: int)
    requires Stays(s, p, d) && e <= d
    ensures Stays(s, p, e)
  {
    if s != "" {
      LowerStays(s[1..], Step(p, s[0]), d, e);
    }
  }

  // ---- no proper prefix of a container is complete ----

  /** Where whitespace ends decides where the value begins. */
  lemma SameLead(w: string, v: string, w': string, v': string)
    requires AllWs(w) && AllWs(w') && v != "" && v' != "" && !IsWs(v[0]) && !IsWs(v'[0])
    requires w' + v' <= w + v
    ensures w' == w && v' <= v
  {
    var t, t' := w + v, w' + v';
    assert t' == t[..|t'|];
    assert t[|w|] == v[0] && t'[|w'|] == v'[0];
    assert (forall i :: 0 <= i < |w| ==> t[i] == w[i]) && forall i :: 0 <= i < |w'| ==> t'[i] == w'[i];
    assert w' == t'[..|w'|] && w == t[..|w|];
    assert v' == t'[|w|..] && v == t[|w|..];
  }

  lemma StartsPlain(n: Node)
    requires NodeOk(n)
    ensures Print(n) != "" && !IsWs(Print(n)[0])
    ensures IsContainer(n) <==> Print(n)[0] == '[' || Print(n)[0] == '{'
  {
  }

  /** A complete text that begins a container, whitespace before it allowed, is all of it. */
  lemma NoProperPrefix(lead: string, n: Node, q: string)
    requires NodeOk(n) && IsContainer(n) && AllWs(lead)
    requires q <= lead + Print(n) && IsDocument(q)
    ensures q == lead + Print(n)
  {
    var m: Node, before: string, after: string :|
      NodeOk(m) && AllWs(before) && AllWs(after) && q == before + Print(m) + after;
    StartsPlain(n);
    StartsPlain(m);
    assert q == before + (Print(m) + after);
    SameLead(lead, Print(n), before, Print(m) + after);
    assert Print(m)[0] == (Print(m) + after)[0] == Print(n)[0];
    LevelNode(m, 0);
    LevelPlain(after, 0);
    LevelConcat(Print(m), after, 0);
    LevelInside(n, 1);
    ContainerLevel(n, 0);
    var k := |Print(m) + after|;
    assert Print(m) + after == Print(n)[..k];
  }
}

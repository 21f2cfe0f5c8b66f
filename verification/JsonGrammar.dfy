/** JSON texts as RFC 8259 writes them (sections 2 to 7); each has the form of `JsonText`. */
module JsonGrammar {
  import opened JsonText

  /** A character of a string: unescaped, escaped by one letter, or by four hexadecimal digits. */
  datatype StringChar = Unescaped(c: char) | Short(c: char) | Hex(digits: string)

  datatype Value =
    | True | False | Null
    | Number(text: string)
    | String(chars: seq<StringChar>)
    | List(blank: string, elements: seq<Spaced>)
    | Record(blank: string, entries: seq<Entry>)

  datatype Spaced = Spaced(before: string, value: Value, after: string)

  datatype Entry = Entry(before: string, name: seq<StringChar>, between: string, value: Spaced)

  // ---- what is allowed ----

  predicate IsBlank(s: string) {
    forall c :: c in s ==> c in " \t\n\r"
  }

  predicate StringCharOk(x: StringChar) {
    match x
    case Unescaped(c) => ' ' <= c && c != '"' && c != '\\'
    case Short(c) => c in "\"\\/bfnrt"
    case Hex(digits) => |digits| == 4 && forall c :: c in digits ==> c in "0123456789abcdefABCDEF"
  }

  predicate StringOk(xs: seq<StringChar>) {
    forall x :: x in xs ==> StringCharOk(x)
  }

  /** Every number is made of these characters. */
  predicate NumberOk(text: string) {
    text != "" && forall c :: c in text ==> c in "0123456789+-.eE"
  }

  predicate ValueOk(v: Value) {
    match v
    case True => true
    case False => true
    case Null => true
    case Number(text) => NumberOk(text)
    case String(chars) => StringOk(chars)
    case List(blank, elements) => IsBlank(blank) && forall i :: 0 <= i < |elements| ==> SpacedOk(elements[i])
    case Record(blank, entries) =>
      IsBlank(blank) && forall i :: 0 <= i < |entries| ==>
        && IsBlank(entries[i].before) && StringOk(entries[i].name) && IsBlank(entries[i].between)
        && SpacedOk(entries[i].value)
  }

  predicate SpacedOk(p: Spaced) {
    IsBlank(p.before) && IsBlank(p.after) && ValueOk(p.value)
  }

  // ---- the text ----

  function StringCharText(x: StringChar): string {
    match x case Unescaped(c) => [c] case Short(c) => "\\" + [c] case Hex(digits) => "\\u" + digits
  }

  function CharsText(xs: seq<StringChar>): string {
    if xs == [] then "" else StringCharText(xs[0]) + CharsText(xs[1..])
  }

  function StringText(xs: seq<StringChar>): string {
    "\"" + CharsText(xs) + "\""
  }

  function ValueText(v: Value): string {
    match v
    case True => "true"
    case False => "false"
    case Null => "null"
    case Number(text) => text
    case String(chars) => StringText(chars)
    case List(blank, elements) => "[" + (if elements == [] then blank else ElementsText(elements)) + "]"
    case Record(blank, entries) => "{" + (if entries == [] then blank else EntriesText(entries)) + "}"
  }

  function SpacedText(p: Spaced): string {
    p.before + ValueText(p.value) + p.after
  }

  function ElementsText(es: seq<Spaced>): string {
    if es == [] then "" else if |es| == 1 then SpacedText(es[0]) else SpacedText(es[0]) + "," + ElementsText(es[1..])
  }

  function EntryText(m: Entry): string {
    m.before + StringText(m.name) + m.between + ":" + SpacedText(m.value)
  }

  function EntriesText(ms: seq<Entry>): string {
    if ms == [] then "" else if |ms| == 1 then EntryText(ms[0]) else EntryText(ms[0]) + "," + EntriesText(ms[1..])
  }

  // ---- each text is one of the other form ----

  lemma BlankIsWs(s: string)
    requires IsBlank(s)
    ensures AllWs(s)
  {
    forall i | 0 <= i < |s| ensures IsWs(s[i]) {
      assert s[i] in s;
    }
  }

  lemma CharItems(x: StringChar, rest: seq<Item>) returns (items: seq<Item>)
    requires StringCharOk(x) && ItemsOk(rest)
    ensures ItemsOk(items) && PrintItems(items) == StringCharText(x) + PrintItems(rest)
  {
    match x
    case Unescaped(c) => items := OneItem(Char(c), rest);
    case Short(c) => items := OneItem(Escape(c), rest);
    case Hex(digits) =>
      items := HexItems(digits, rest);
      items := OneItem(Escape('u'), items);
  }

  lemma {:induction false} AsItems(xs: seq<StringChar>) returns (items: seq<Item>)
    requires StringOk(xs)
    ensures ItemsOk(items) && PrintItems(items) == CharsText(xs)
  {
    items := [];
    if xs != [] {
      assert xs[0] in xs;
      items := AsItems(xs[1..]);
      items := CharItems(xs[0], items);
    }
  }

  lemma OneItem(x: Item, rest: seq<Item>) returns (items: seq<Item>)
    requires ItemOk(x) && ItemsOk(rest)
    ensures ItemsOk(items)
    ensures PrintItems(items) == (match x case Char(c) => [c] case Escape(c) => ['\\', c]) + PrintItems(rest)
  {
    items := [x] + rest;
    assert items[1..] == rest;
  }

  lemma {:induction false} HexItems(digits: string, rest: seq<Item>) returns (items: seq<Item>)
    requires ItemsOk(rest) && forall c :: c in digits ==> c in "0123456789abcdefABCDEF"
    ensures ItemsOk(items) && PrintItems(items) == digits + PrintItems(rest)
  {
    items := rest;
    if digits != "" {
      assert digits[0] in digits;
      var more := HexItems(digits[1..], rest);
      items := OneItem(Char(digits[0]), more);
      assert digits == [digits[0]] + digits[1..];
    }
  }

  lemma AsScalar(text: string) returns (n: Node)
    requires text != "" && forall i :: 0 <= i < |text| ==> ScalarChar(text[i])
    ensures NodeOk(n) && Print(n) == text && !IsContainer(n)
  {
    n := Scalar(text);
  }

  lemma NumberIsPlain(text: string)
    requires NumberOk(text)
    ensures forall i :: 0 <= i < |text| ==> ScalarChar(text[i])
  {
    forall i | 0 <= i < |text| ensures ScalarChar(text[i]) {
      assert text[i] in text;
    }
  }

  /** Every JSON value is printed by a node, and containers by containers. */
  lemma {:induction false} AsNode(v: Value) returns (n: Node)
    requires ValueOk(v)
    ensures NodeOk(n) && Print(n) == ValueText(v) && (IsContainer(n) <==> v.List? || v.Record?)
    decreases v, 1
  {
    match v
    case True => n := AsScalar("true");
    case False => n := AsScalar("false");
    case Null => n := AsScalar("null");
    case Number(text) =>
      NumberIsPlain(text);
      n := AsScalar(text);
    case String(chars) =>
      var items := AsItems(chars);
      n := Text(items);
    case List(blank, elements) =>
      BlankIsWs(blank);
      var es := AsElements(elements);
      n := Array(blank, es);
    case Record(blank, entries) =>
      BlankIsWs(blank);
      var ms := AsMembers(entries);
      n := Object(blank, ms);
  }

  lemma {:induction false} AsPadded(p: Spaced) returns (q: Padded)
    requires SpacedOk(p)
    ensures PaddedOk(q) && PrintPadded(q) == SpacedText(p)
    decreases p, 0
  {
    BlankIsWs(p.before);
    BlankIsWs(p.after);
    var n := AsNode(p.value);
    q := Padded(p.before, n, p.after);
  }

  lemma {:induction false} AsElements(es: seq<Spaced>) returns (qs: seq<Padded>)
    requires forall i :: 0 <= i < |es| ==> SpacedOk(es[i])
    ensures |qs| == |es| && PrintElements(qs) == ElementsText(es)
    ensures forall i :: 0 <= i < |qs| ==> PaddedOk(qs[i])
    decreases es, 0
  {
    qs := [];
    if es != [] {
      var q := AsPadded(es[0]);
      var rest := AsElements(es[1..]);
      qs := [q] + rest;
      assert qs[1..] == rest;
    }
  }

  lemma {:induction false} AsMember(m: Entry) returns (q: Member)
    requires IsBlank(m.before) && StringOk(m.name) && IsBlank(m.between) && SpacedOk(m.value)
    ensures MemberOk(q) && PrintMember(q) == EntryText(m)
    decreases m, 0
  {
    BlankIsWs(m.before);
    BlankIsWs(m.between);
    var key := AsItems(m.name);
    var value := AsPadded(m.value);
    q := Member(m.before, key, m.between, value);
  }

  lemma {:induction false} AsMembers(ms: seq<Entry>) returns (qs: seq<Member>)
    requires forall i :: 0 <= i < |ms| ==>
               && IsBlank(ms[i].before) && StringOk(ms[i].name) && IsBlank(ms[i].between) && SpacedOk(ms[i].value)
    ensures |qs| == |ms| && PrintMembers(qs) == EntriesText(ms)
    ensures forall i :: 0 <= i < |qs| ==> MemberOk(qs[i])
    decreases ms, 0
  {
    qs := [];
    if ms != [] {
      var q := AsMember(ms[0]);
      var rest := AsMembers(ms[1..]);
      qs := [q] + rest;
      assert qs[1..] == rest;
    }
  }

  /** Every JSON text, with blanks around its value, is a document. */
  lemma JsonIsDocument(p: Spaced)
    requires SpacedOk(p)
    ensures IsDocument(SpacedText(p))
  {
    BlankIsWs(p.before);
    BlankIsWs(p.after);
    var n := AsNode(p.value);
    assert SpacedText(p) == p.before + Print(n) + p.after;
  }
}

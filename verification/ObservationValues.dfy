/**
  The JSON-safe encoding of observed Python values.  Text with surrogates, floats JSON cannot
  carry, and integers beyond 2^53 - 1 become one-key marker objects; an application object that
  itself uses a marker key, or a surrogate in a key, becomes a list of entries.
*/
module ObservationValues {
  import opened PythonText

  /** Finite(0.0) is the positive zero. */
  datatype Float = NaN | PositiveInfinity | NegativeInfinity | NegativeZero | Finite(value: real)

  datatype Entry = Entry(key: Text, item: Value)

  /** Dict entries stand in insertion order; Opaque stands for objects the encoder passes through. */
  datatype Value =
    | Null
    | Bool(b: bool)
    | Int(n: int)
    | Num(f: Float)
    | Str(t: Text)
    | List(items: seq<Value>)
    | Dict(entries: seq<Entry>)
    | Opaque(id: nat)

  const CODEPOINTS := FromAscii("python_codepoints")
  const FLOAT := FromAscii("python_float")
  const INTEGER := FromAscii("python_integer")
  const OBJECT := FromAscii("python_object")

  const NEGATIVE_ZERO := FromAscii("negative_zero")
  const NAN := FromAscii("nan")
  const POSITIVE_INFINITY := FromAscii("positive_infinity")
  const NEGATIVE_INFINITY := FromAscii("negative_infinity")

  const MAX_SAFE := 0x20_0000_0000_0000 - 1

  predicate IsMarker(key: Text) {
    key == CODEPOINTS || key == FLOAT || key == INTEGER || key == OBJECT
  }

  predicate NeedsEntries(entries: seq<Entry>) {
    exists i :: 0 <= i < |entries| && (IsMarker(entries[i].key) || HasSurrogate(entries[i].key))
  }

  function EncodeText(t: Text): Value {
    if HasSurrogate(t)
    then Dict([Entry(CODEPOINTS, List(seq(|t|, i requires 0 <= i < |t| => Int(t[i]))))])
    else Str(t)
  }

  function EncodeFloat(f: Float): Value {
    match f
    case NegativeZero => Dict([Entry(FLOAT, Str(NEGATIVE_ZERO))])
    case NaN => Dict([Entry(FLOAT, Str(NAN))])
    case PositiveInfinity => Dict([Entry(FLOAT, Str(POSITIVE_INFINITY))])
    case NegativeInfinity => Dict([Entry(FLOAT, Str(NEGATIVE_INFINITY))])
    case Finite(_) => Num(f)
  }

  function Encode(v: Value): Value {
    match v
    case Num(f) => EncodeFloat(f)
    case Int(n) => if n > MAX_SAFE || n < -MAX_SAFE then Dict([Entry(INTEGER, Str(PrintInt(n)))]) else v
    case Str(t) => EncodeText(t)
    case Dict(entries) =>
      if NeedsEntries(entries) then
        Dict([Entry(OBJECT, List(seq(|entries|, i requires 0 <= i < |entries| =>
                List([EncodeText(entries[i].key), Encode(entries[i].item)]))))])
      else
        Dict(seq(|entries|, i requires 0 <= i < |entries| => Entry(entries[i].key, Encode(entries[i].item))))
    case List(items) => List(seq(|items|, i requires 0 <= i < |items| => Encode(items[i])))
    case Null => v
    case Bool(_) => v
    case Opaque(_) => v
  }

  // ---- reading an encoding back ----

  function DecodeText(v: Value): Text {
    match v
    case Str(t) => t
    case Dict(entries) =>
      if |entries| == 1 && entries[0].item.List? then
        var items := entries[0].item.items;
        seq(|items|, i requires 0 <= i < |items| =>
          if items[i].Int? && 0 <= items[i].n < 0x11_0000 then items[i].n as Codepoint else 0)
      else []
    case _ => []
  }

  function DecodeFloat(name: Text): Float {
    if name == NEGATIVE_ZERO then NegativeZero
    else if name == POSITIVE_INFINITY then PositiveInfinity
    else if name == NEGATIVE_INFINITY then NegativeInfinity
    else NaN
  }

  function DecodeEntry(v: Value): Entry
    decreases v, 0
  {
    if v.List? && |v.items| == 2 then Entry(DecodeText(v.items[0]), Decode(v.items[1])) else Entry([], Null)
  }

  /** What an encoded value stands for; values that are no encoding read as something arbitrary. */
  function Decode(v: Value): Value
    decreases v, 1
  {
    match v
    case List(items) => List(seq(|items|, i requires 0 <= i < |items| => Decode(items[i])))
    case Dict(entries) =>
      if |entries| == 1 && entries[0].key == FLOAT && entries[0].item.Str? then Num(DecodeFloat(entries[0].item.t))
      else if |entries| == 1 && entries[0].key == INTEGER && entries[0].item.Str? then Int(ParseInt(entries[0].item.t))
      else if |entries| == 1 && entries[0].key == CODEPOINTS then Str(DecodeText(v))
      else if |entries| == 1 && entries[0].key == OBJECT && entries[0].item.List? then
        var items := entries[0].item.items;
        Dict(seq(|items|, i requires 0 <= i < |items| => DecodeEntry(items[i])))
      else
        Dict(seq(|entries|, i requires 0 <= i < |entries| => Entry(entries[i].key, Decode(entries[i].item))))
    case _ => v
  }

  lemma MarkersDiffer()
    ensures |CODEPOINTS| == 17 && |FLOAT| == 12 && |INTEGER| == 14 && |OBJECT| == 13
    ensures |NEGATIVE_ZERO| == 13 && |NAN| == 3 && |POSITIVE_INFINITY| == 17 && |NEGATIVE_INFINITY| == 17
    ensures POSITIVE_INFINITY[0] != NEGATIVE_INFINITY[0]
  {
  }

  lemma DecodeEncodeText(t: Text)
    ensures DecodeText(EncodeText(t)) == t
    ensures Decode(EncodeText(t)) == Str(t)
  {
    MarkersDiffer();
  }

  /** Decoding inverts the encoding on every value. */
  lemma {:induction false} DecodeEncode(v: Value)
    ensures Decode(Encode(v)) == v
  {
    MarkersDiffer();
    match v
    case Num(f) =>
    case Int(n) => ParsePrintInt(n);
    case Str(t) => DecodeEncodeText(t);
    case List(items) =>
      forall i | 0 <= i < |items| ensures Decode(Encode(items[i])) == items[i] {
        DecodeEncode(items[i]);
      }
    case Dict(entries) =>
      forall i | 0 <= i < |entries| ensures Decode(Encode(entries[i].item)) == entries[i].item {
        DecodeEncode(entries[i].item);
      }
      DecodeEncodeDict(entries);
    case Null =>
    case Bool(_) =>
    case Opaque(_) =>
  }

  lemma DecodeEncodeDict(entries: seq<Entry>)
    requires forall i :: 0 <= i < |entries| ==> Decode(Encode(entries[i].item)) == entries[i].item
    ensures Decode(Encode(Dict(entries))) == Dict(entries)
  {
    MarkersDiffer();
    if NeedsEntries(entries) {
      var items := Encode(Dict(entries)).entries[0].item.items;
      forall i | 0 <= i < |entries| ensures DecodeEntry(items[i]) == entries[i] {
        assert items[i] == List([EncodeText(entries[i].key), Encode(entries[i].item)]);
        DecodeEncodeText(entries[i].key);
      }
    } else {
      assert forall i :: 0 <= i < |entries| ==> !IsMarker(entries[i].key);
    }
  }

  /** No two values share an encoding. */
  lemma EncodeInjective(v: Value, w: Value)
    requires Encode(v) == Encode(w)
    ensures v == w
  {
    DecodeEncode(v);
    DecodeEncode(w);
  }

  // ---- what JSON can carry ----

  predicate HasOpaque(v: Value) {
    match v
    case Opaque(_) => true
    case List(items) => exists i :: 0 <= i < |items| && HasOpaque(items[i])
    case Dict(entries) => exists i :: 0 <= i < |entries| && HasOpaque(entries[i].item)
    case _ => false
  }

  /** Every JSON reader reproduces the value: finite floats, exact integers, and no surrogates even in keys. */
  predicate JsonSafe(v: Value) {
    match v
    case Null => true
    case Bool(_) => true
    case Int(n) => -MAX_SAFE <= n <= MAX_SAFE
    case Num(f) => f.Finite?
    case Str(t) => !HasSurrogate(t)
    case List(items) => forall i :: 0 <= i < |items| ==> JsonSafe(items[i])
    case Dict(entries) => forall i :: 0 <= i < |entries| ==> !HasSurrogate(entries[i].key) && JsonSafe(entries[i].item)
    case Opaque(_) => false
  }

  lemma AsciiIsSafe(s: string)
    requires forall i :: 0 <= i < |s| ==> s[i] as int < 128
    ensures !HasSurrogate(FromAscii(s))
  {
    forall i | 0 <= i < |s| ensures !IsSurrogate(FromAscii(s)[i]) {
    }
  }

  lemma MarkersAreSafe()
    ensures !HasSurrogate(CODEPOINTS) && !HasSurrogate(FLOAT) && !HasSurrogate(INTEGER) && !HasSurrogate(OBJECT)
    ensures !HasSurrogate(NEGATIVE_ZERO) && !HasSurrogate(NAN)
    ensures !HasSurrogate(POSITIVE_INFINITY) && !HasSurrogate(NEGATIVE_INFINITY)
  {
    AsciiIsSafe("python_codepoints");
    AsciiIsSafe("python_float");
    AsciiIsSafe("python_integer");
    AsciiIsSafe("python_object");
    AsciiIsSafe("negative_zero");
    AsciiIsSafe("nan");
    AsciiIsSafe("positive_infinity");
    AsciiIsSafe("negative_infinity");
  }

  lemma EncodeTextIsSafe(t: Text)
    ensures JsonSafe(EncodeText(t))
  {
    MarkersAreSafe();
  }

  /** The encoding is JSON-safe exactly when nothing opaque was passed through. */
  lemma {:induction false} EncodeIsSafe(v: Value)
    ensures JsonSafe(Encode(v)) <==> !HasOpaque(v)
  {
    MarkersAreSafe();
    match v
    case Int(n) => ParsePrintInt(n);
    case Str(t) => EncodeTextIsSafe(t);
    case List(items) =>
      forall i | 0 <= i < |items| ensures JsonSafe(Encode(items[i])) <==> !HasOpaque(items[i]) {
        EncodeIsSafe(items[i]);
      }
      EncodeListIsSafe(items);
    case Dict(entries) =>
      forall i | 0 <= i < |entries| ensures JsonSafe(Encode(entries[i].item)) <==> !HasOpaque(entries[i].item) {
        EncodeIsSafe(entries[i].item);
      }
      EncodeDictIsSafe(entries);
    case Num(_) =>
    case Null =>
    case Bool(_) =>
    case Opaque(_) =>
  }

  lemma EncodeListIsSafe(items: seq<Value>)
    requires forall i :: 0 <= i < |items| ==> (JsonSafe(Encode(items[i])) <==> !HasOpaque(items[i]))
    ensures JsonSafe(Encode(List(items))) <==> !HasOpaque(List(items))
  {
    var encoded := Encode(List(items)).items;
    assert forall i :: 0 <= i < |items| ==> encoded[i] == Encode(items[i]);
    if HasOpaque(List(items)) {
      var i :| 0 <= i < |items| && HasOpaque(items[i]);
      assert !JsonSafe(encoded[i]);
    }
  }

  lemma EncodeDictIsSafe(entries: seq<Entry>)
    requires forall i :: 0 <= i < |entries| ==> (JsonSafe(Encode(entries[i].item)) <==> !HasOpaque(entries[i].item))
    ensures JsonSafe(Encode(Dict(entries))) <==> !HasOpaque(Dict(entries))
  {
    MarkersAreSafe();
    if NeedsEntries(entries) {
      var pairs := Encode(Dict(entries)).entries[0].item.items;
      forall i | 0 <= i < |entries| ensures JsonSafe(pairs[i]) <==> !HasOpaque(entries[i].item) {
        assert pairs[i] == List([EncodeText(entries[i].key), Encode(entries[i].item)]);
        EncodeTextIsSafe(entries[i].key);
        PairIsSafe(EncodeText(entries[i].key), Encode(entries[i].item));
      }
      OneEntryIsSafe(pairs);
    } else {
      var encoded := Encode(Dict(entries)).entries;
      assert forall i :: 0 <= i < |entries| ==> encoded[i] == Entry(entries[i].key, Encode(entries[i].item));
      assert forall i :: 0 <= i < |entries| ==> !HasSurrogate(entries[i].key);
    }
    if HasOpaque(Dict(entries)) {
      var i :| 0 <= i < |entries| && HasOpaque(entries[i].item);
    }
  }

  lemma PairIsSafe(a: Value, b: Value)
    ensures JsonSafe(List([a, b])) <==> JsonSafe(a) && JsonSafe(b)
  {
    if JsonSafe(List([a, b])) {
      assert JsonSafe([a, b][0]) && JsonSafe([a, b][1]);
    }
  }

  lemma OneEntryIsSafe(pairs: seq<Value>)
    ensures JsonSafe(Dict([Entry(OBJECT, List(pairs))])) <==> forall i :: 0 <= i < |pairs| ==> JsonSafe(pairs[i])
  {
    MarkersAreSafe();
    var entries := [Entry(OBJECT, List(pairs))];
    if JsonSafe(Dict(entries)) {
      assert JsonSafe(entries[0].item);
    }
  }

  // ---- what stays as it is, and what takes its place ----

  ghost predicate Ordinary(t: Text) {
    forall i :: 0 <= i < |t| ==> !(0xD800 <= t[i] <= 0xDFFF)
  }

  ghost predicate OrdinaryKey(key: Text) {
    && Ordinary(key)
    && key != FromAscii("python_codepoints") && key != FromAscii("python_float")
    && key != FromAscii("python_integer") && key != FromAscii("python_object")
  }

  /** JSON carries such a value, and no marker could be mistaken for it. */
  ghost predicate Plain(v: Value) {
    match v
    case Null => true
    case Bool(_) => true
    case Int(n) => -9007199254740991 <= n <= 9007199254740991
    case Num(f) => f.Finite?
    case Str(t) => Ordinary(t)
    case List(items) => forall i :: 0 <= i < |items| ==> Plain(items[i])
    case Dict(entries) => forall i :: 0 <= i < |entries| ==> OrdinaryKey(entries[i].key) && Plain(entries[i].item)
    case Opaque(_) => true
  }

  lemma OrdinaryIs(t: Text)
    ensures Ordinary(t) <==> !HasSurrogate(t)
    ensures OrdinaryKey(t) <==> !HasSurrogate(t) && !IsMarker(t)
  {
    if Ordinary(t) {
      assert forall i :: 0 <= i < |t| ==> !IsSurrogate(t[i]);
    } else {
      var i :| 0 <= i < |t| && 0xD800 <= t[i] <= 0xDFFF;
      assert IsSurrogate(t[i]);
    }
  }

  /** Exactly such values are encoded as themselves. */
  lemma {:induction false} PlainStays(v: Value)
    ensures Encode(v) == v <==> Plain(v)
  {
    match v
    case Str(t) => OrdinaryIs(t);
    case List(items) =>
      var encoded := Encode(v).items;
      forall i | 0 <= i < |items| ensures encoded[i] == items[i] <==> Plain(items[i]) {
        PlainStays(items[i]);
      }
      if Encode(v) == v {
        assert encoded == items;
      }
    case Dict(entries) =>
      forall i | 0 <= i < |entries| ensures Encode(entries[i].item) == entries[i].item <==> Plain(entries[i].item) {
        PlainStays(entries[i].item);
      }
      PlainDictStays(entries);
    case Num(_) =>
    case Int(_) =>
    case Null =>
    case Bool(_) =>
    case Opaque(_) =>
  }

  /** A list that holds its own encoding in this place would hold ever smaller ones. */
  lemma {:induction false} NoFixedEntry(word: Value, item: Value)
    requires Encode(word) == word && item == List([List([word, Encode(item)])])
    ensures false
    decreases item
  {
    var encoded, pair := Encode(item), [word, Encode(item)];
    assert item.items[0] == List(pair) && pair[1] == encoded;
    assert Encode(List(pair)).items == [word, Encode(encoded)];
    assert encoded.items == [Encode(List(pair))];
    NoFixedEntry(word, encoded);
  }

  lemma EntriesMove(entries: seq<Entry>)
    requires NeedsEntries(entries)
    ensures Encode(Dict(entries)) != Dict(entries)
  {
    if Encode(Dict(entries)) == Dict(entries) {
      var item := entries[0].item;
      MarkersAreSafe();
      assert entries[0] == Entry(OBJECT, item);
      assert item.items == [List([Str(OBJECT), Encode(item)])];
      NoFixedEntry(Str(OBJECT), item);
    }
  }

  lemma PlainDictStays(entries: seq<Entry>)
    requires forall i :: 0 <= i < |entries| ==>
               (Encode(entries[i].item) == entries[i].item <==> Plain(entries[i].item))
    ensures Encode(Dict(entries)) == Dict(entries) <==> Plain(Dict(entries))
  {
    var encoded := Encode(Dict(entries)).entries;
    forall i | 0 <= i < |entries|
      ensures OrdinaryKey(entries[i].key) <==> !IsMarker(entries[i].key) && !HasSurrogate(entries[i].key)
    {
      OrdinaryIs(entries[i].key);
    }
    if NeedsEntries(entries) {
      EntriesMove(entries);
    } else {
      assert forall i :: 0 <= i < |entries| ==> encoded[i] == Entry(entries[i].key, Encode(entries[i].item));
      if encoded == entries {
        assert forall i :: 0 <= i < |entries| ==> Encode(entries[i].item) == entries[i].item;
      }
    }
  }

  ghost predicate Marked(v: Value, word: string, content: Value) {
    v == Dict([Entry(FromAscii(word), content)])
  }

  /** Text with a surrogate becomes its code points, and a large integer its decimal text. */
  lemma ScalarMarks(t: Text, n: int)
    ensures !Ordinary(t) ==>
              exists points :: |points| == |t| && Marked(Encode(Str(t)), "python_codepoints", List(points))
                               && forall i :: 0 <= i < |t| ==> points[i] == Int(t[i])
    ensures n > 9007199254740991 || n < -9007199254740991 ==>
              Marked(Encode(Int(n)), "python_integer", Str(PrintInt(n)))
  {
    OrdinaryIs(t);
    if !Ordinary(t) {
      var points := Encode(Str(t)).entries[0].item.items;
      assert Marked(Encode(Str(t)), "python_codepoints", List(points));
    }
  }

  /** The floats JSON cannot carry become words. */
  lemma FloatMarks()
    ensures Marked(Encode(Num(NegativeZero)), "python_float", Str(FromAscii("negative_zero")))
    ensures Marked(Encode(Num(NaN)), "python_float", Str(FromAscii("nan")))
    ensures Marked(Encode(Num(PositiveInfinity)), "python_float", Str(FromAscii("positive_infinity")))
    ensures Marked(Encode(Num(NegativeInfinity)), "python_float", Str(FromAscii("negative_infinity")))
  {
  }

  ghost predicate AllOrdinary(entries: seq<Entry>) {
    forall i :: 0 <= i < |entries| ==> OrdinaryKey(entries[i].key)
  }

  lemma OrdinaryNeedsNone(entries: seq<Entry>)
    ensures AllOrdinary(entries) <==> !NeedsEntries(entries)
  {
    forall i | 0 <= i < |entries|
      ensures OrdinaryKey(entries[i].key) <==> !IsMarker(entries[i].key) && !HasSurrogate(entries[i].key)
    {
      OrdinaryIs(entries[i].key);
    }
  }

  /** A dict whose keys are all ordinary keeps them; any other becomes a list of encoded keys and values. */
  lemma DictMarks(entries: seq<Entry>)
    ensures AllOrdinary(entries) ==>
              Encode(Dict(entries)) ==
              Dict(seq(|entries|, i requires 0 <= i < |entries| => Entry(entries[i].key, Encode(entries[i].item))))
    ensures !AllOrdinary(entries) ==>
              Marked(Encode(Dict(entries)), "python_object", List(seq(|entries|, i requires 0 <= i < |entries| =>
                List([Encode(Str(entries[i].key)), Encode(entries[i].item)]))))
  {
    OrdinaryNeedsNone(entries);
    if NeedsEntries(entries) {
      var pairs := Encode(Dict(entries)).entries[0].item.items;
      var expected := seq(|entries|, i requires 0 <= i < |entries| =>
        List([Encode(Str(entries[i].key)), Encode(entries[i].item)]));
      assert pairs == expected;
    }
  }
}

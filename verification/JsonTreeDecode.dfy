/** The token stream of a tree is uniquely decodable. */
module JsonTreeDecode {
  import opened Basics
  import opened PythonText
  import opened JsonTree

  const SOME_NAN: Bits := 0x7FF8_0000_0000_0000

  /** The value with every NaN payload forgotten. */
  function Normal(v: Value): Value {
    match v
    case Float(bits) => if IsNan(bits) then Float(SOME_NAN) else v
    case List(items) => List(seq(|items|, i requires 0 <= i < |items| => Normal(items[i])))
    case Dict(entries) => Dict(map k | k in entries :: Normal(entries[k]))
    case _ => v
  }

  function NormalAll(vs: seq<Value>): (r: seq<Value>)
    ensures |r| == |vs|
  {
    seq(|vs|, i requires 0 <= i < |vs| => Normal(vs[i]))
  }

  function Zip(keys: seq<Text>, vs: seq<Value>): map<Text, Value>
    requires |keys| == |vs|
  {
    if keys == [] then map[] else Zip(keys[1..], vs[1..])[keys[0] := vs[0]]
  }

  /** Reads one value off the front of a token stream. */
  function Read(ts: seq<Token>): (r: Option<(Value, seq<Token>)>)
    ensures r.Some? ==> |r.value.1| < |ts|
    decreases |ts|, 0
  {
    if ts == [] then None
    else match ts[0]
      case NullToken => Some((Null, ts[1..]))
      case BoolToken(b) => Some((Bool(b), ts[1..]))
      case IntToken(text) => Some((Int(ParseInt(text)), ts[1..]))
      case NanToken => Some((Float(SOME_NAN), ts[1..]))
      case FloatToken(bits) => Some((Float(bits), ts[1..]))
      case TextToken(t) => Some((Str(t), ts[1..]))
      case ArrayToken(n) =>
        (match ReadAll(ts[1..], n) case None => None case Some((vs, rest)) => Some((List(vs), rest)))
      case ObjectToken(keys) =>
        (match ReadAll(ts[1..], |keys|) case None => None case Some((vs, rest)) => Some((Dict(Zip(keys, vs)), rest)))
  }

  function ReadAll(ts: seq<Token>, n: nat): (r: Option<(seq<Value>, seq<Token>)>)
    ensures r.Some? ==> |r.value.0| == n && |r.value.1| <= |ts|
    decreases |ts|, n + 1
  {
    if n == 0 then Some(([], ts))
    else match Read(ts)
      case None => None
      case Some((v, rest)) =>
        match ReadAll(rest, n - 1) case None => None case Some((vs, rest')) => Some(([v] + vs, rest'))
  }

  lemma {:induction false} ZipLooksUp(keys: seq<Text>, vs: seq<Value>)
    requires |keys| == |vs| && Distinct(keys)
    ensures forall k :: k in Zip(keys, vs) <==> k in keys
    ensures forall i :: 0 <= i < |keys| ==> keys[i] in Zip(keys, vs) && Zip(keys, vs)[keys[i]] == vs[i]
  {
    if keys != [] {
      ZipLooksUp(keys[1..], vs[1..]);
      assert keys == [keys[0]] + keys[1..];
      forall i | 0 <= i < |keys| ensures keys[i] in Zip(keys, vs) && Zip(keys, vs)[keys[i]] == vs[i] {
        if i > 0 {
          assert keys[i] == keys[1..][i - 1] && vs[i] == vs[1..][i - 1];
        }
      }
    }
  }

  lemma ZipIs(keys: seq<Text>, vs: seq<Value>, m: map<Text, Value>)
    requires |keys| == |vs| && Distinct(keys) && forall k :: k in keys <==> k in m
    requires forall i :: 0 <= i < |keys| ==> keys[i] in m && vs[i] == m[keys[i]]
    ensures Zip(keys, vs) == m
  {
    ZipLooksUp(keys, vs);
    var zipped := Zip(keys, vs);
    assert zipped.Keys == m.Keys;
    forall k | k in m ensures zipped[k] == m[k] {
      var i :| 0 <= i < |keys| && keys[i] == k;
    }
  }

  lemma ZipNormal(v: Value)
    requires v.Dict?
    ensures Dict(Zip(SortedKeys(v.entries.Keys), NormalAll(Children(v)))) == Normal(v)
  {
    var keys, normal := SortedKeys(v.entries.Keys), Normal(v).entries;
    forall i | 0 <= i < |keys| ensures keys[i] in normal && NormalAll(Children(v))[i] == normal[keys[i]] {
      assert keys[i] in keys;
    }
    ZipIs(keys, NormalAll(Children(v)), normal);
  }

  lemma ReadScalar(v: Value, ts: seq<Token>)
    requires !v.Unsupported? && !v.List? && !v.Dict? && ts != [] && ts[0] == TokenOf(v)
    ensures Read(ts) == Some((Normal(v), ts[1..]))
  {
    if v.Int? {
      ParsePrintInt(v.n);
    }
  }

  lemma ReadDict(v: Value, ts: seq<Token>, rest: seq<Token>)
    requires v.Dict? && ts != [] && ts[0] == TokenOf(v)
    requires ReadAll(ts[1..], |Children(v)|) == Some((NormalAll(Children(v)), rest))
    ensures Read(ts) == Some((Normal(v), rest))
  {
    ZipNormal(v);
  }

  lemma ReadList(v: Value, ts: seq<Token>, rest: seq<Token>)
    requires v.List? && ts != [] && ts[0] == TokenOf(v)
    requires ReadAll(ts[1..], |v.items|) == Some((NormalAll(v.items), rest))
    ensures Read(ts) == Some((Normal(v), rest))
  {
    assert Normal(v) == List(NormalAll(v.items));
  }

  /** A node is read back once its children can be. */
  lemma ReadNode(v: Value, body: seq<Token>, rest: seq<Token>)
    requires !v.Unsupported?
    requires ReadAll(body, |Children(v)|) == Some((NormalAll(Children(v)), rest))
    ensures Read([TokenOf(v)] + body) == Some((Normal(v), rest))
  {
    var ts := [TokenOf(v)] + body;
    assert ts[1..] == body;
    if v.Dict? {
      ReadDict(v, ts, rest);
    } else if v.List? {
      ReadList(v, ts, rest);
    } else {
      ReadScalar(v, ts);
    }
  }

  /** Reading a value's stream, whatever follows it, gives back the value with NaN payloads forgotten. */
  lemma {:induction false} ReadPreorder(v: Value, rest: seq<Token>)
    requires Supported(v)
    ensures Read(Preorder(v) + rest) == Some((Normal(v), rest))
    decreases Size(v), 0
  {
    SizeIs(v);
    ReadPreorderAll(Children(v), rest);
    ReadNode(v, PreorderAll(Children(v)) + rest, rest);
    Associates([TokenOf(v)], PreorderAll(Children(v)), rest);
  }

  lemma ReadAllCons(ts: seq<Token>, v: Value, after: seq<Token>, vs: seq<Value>, rest: seq<Token>)
    requires Read(ts) == Some((v, after)) && ReadAll(after, |vs|) == Some((vs, rest))
    ensures ReadAll(ts, |vs| + 1) == Some(([v] + vs, rest))
  {
  }

  lemma PreorderAllCons(vs: seq<Value>, rest: seq<Token>)
    requires vs != [] && forall i :: 0 <= i < |vs| ==> Supported(vs[i])
    ensures PreorderAll(vs) + rest == Preorder(vs[0]) + (PreorderAll(vs[1..]) + rest)
  {
    Associates(Preorder(vs[0]), PreorderAll(vs[1..]), rest);
  }

  lemma NormalAllCons(vs: seq<Value>)
    requires vs != []
    ensures NormalAll(vs) == [Normal(vs[0])] + NormalAll(vs[1..])
  {
  }

  lemma {:induction false} ReadPreorderAll(vs: seq<Value>, rest: seq<Token>)
    requires forall i :: 0 <= i < |vs| ==> Supported(vs[i])
    ensures ReadAll(PreorderAll(vs) + rest, |vs|) == Some((NormalAll(vs), rest))
    decreases SizeAll(vs), |vs| + 1
  {
    if vs == [] {
      assert PreorderAll(vs) + rest == rest;
    } else {
      var after := PreorderAll(vs[1..]) + rest;
      ReadPreorder(vs[0], after);
      ReadPreorderAll(vs[1..], rest);
      ReadAllCons(Preorder(vs[0]) + after, Normal(vs[0]), after, NormalAll(vs[1..]), rest);
      PreorderAllCons(vs, rest);
      NormalAllCons(vs);
    }
  }

  // ---- forgetting NaN payloads does not change the stream ----

  lemma NormalKeepsDict(v: Value)
    requires v.Dict?
    ensures TokenOf(Normal(v)) == TokenOf(v) && Children(Normal(v)) == NormalAll(Children(v))
  {
    assert Normal(v).entries.Keys == v.entries.Keys;
    var keys, kept, expected := SortedKeys(v.entries.Keys), Children(Normal(v)), NormalAll(Children(v));
    forall i | 0 <= i < |keys| ensures kept[i] == expected[i] {
      assert keys[i] in keys;
    }
  }

  lemma NormalKeeps(v: Value)
    requires !v.Unsupported?
    ensures !Normal(v).Unsupported? && TokenOf(Normal(v)) == TokenOf(v) && Children(Normal(v)) == NormalAll(Children(v))
  {
    if v.Dict? {
      NormalKeepsDict(v);
    }
  }

  lemma {:induction false} NormalSupported(v: Value)
    requires Supported(v)
    ensures Supported(Normal(v))
    decreases v
  {
    NormalKeeps(v);
    forall i | 0 <= i < |Children(v)| ensures Supported(NormalAll(Children(v))[i]) {
      NormalSupported(Children(v)[i]);
    }
  }

  lemma {:induction false} NormalSameStream(v: Value)
    requires Supported(v)
    ensures Supported(Normal(v)) && Preorder(Normal(v)) == Preorder(v)
    decreases Size(v), 0
  {
    SizeIs(v);
    NormalSupported(v);
    NormalKeeps(v);
    NormalSameStreams(Children(v), Children(Normal(v)));
  }

  lemma {:induction false} NormalSameStreams(vs: seq<Value>, ns: seq<Value>)
    requires |ns| == |vs|
    requires forall i :: 0 <= i < |vs| ==> Supported(vs[i]) && Supported(ns[i]) && ns[i] == Normal(vs[i])
    ensures PreorderAll(ns) == PreorderAll(vs)
    decreases SizeAll(vs), |vs| + 1
  {
    if vs != [] {
      NormalSameStream(vs[0]);
      NormalSameStreams(vs[1..], ns[1..]);
    }
  }

  /** Equal but for floats above the bits of infinity, the sign aside: those are NaN whatever their payload. */
  ghost predicate Same(v: Value, w: Value) {
    match v
    case Float(bits) =>
      w.Float? && (bits == w.bits || (bits % 0x8000_0000_0000_0000 > 0x7FF0_0000_0000_0000
                                      && w.bits % 0x8000_0000_0000_0000 > 0x7FF0_0000_0000_0000))
    case List(items) => w.List? && |items| == |w.items| && forall i :: 0 <= i < |items| ==> Same(items[i], w.items[i])
    case Dict(entries) =>
      w.Dict? && entries.Keys == w.entries.Keys && forall k :: k in entries ==> Same(entries[k], w.entries[k])
    case _ => v == w
  }

  lemma {:induction false} SameIff(v: Value, w: Value)
    ensures Same(v, w) <==> Normal(v) == Normal(w)
  {
    match v
    case Float(bits) =>
      FloatTokens(bits);
      if w.Float? {
        FloatTokens(w.bits);
      }
    case List(items) =>
      if w.List? && |items| == |w.items| {
        forall i | 0 <= i < |items| ensures Same(items[i], w.items[i]) <==> Normal(items[i]) == Normal(w.items[i]) {
          SameIff(items[i], w.items[i]);
        }
        SameLists(items, w.items);
      } else if w.List? {
        assert |Normal(v).items| == |items| && |Normal(w).items| == |w.items|;
      }
    case Dict(entries) =>
      if w.Dict? && entries.Keys == w.entries.Keys {
        forall k | k in entries ensures Same(entries[k], w.entries[k]) <==> Normal(entries[k]) == Normal(w.entries[k]) {
          SameIff(entries[k], w.entries[k]);
        }
        SameDicts(entries, w.entries);
      } else if w.Dict? {
        assert Normal(v).entries.Keys == entries.Keys && Normal(w).entries.Keys == w.entries.Keys;
      }
    case _ =>
  }

  lemma SameLists(vs: seq<Value>, ws: seq<Value>)
    requires |vs| == |ws|
    ensures Normal(List(vs)) == Normal(List(ws)) <==> forall i :: 0 <= i < |vs| ==> Normal(vs[i]) == Normal(ws[i])
  {
    var a, b := Normal(List(vs)).items, Normal(List(ws)).items;
    assert forall i :: 0 <= i < |vs| ==> a[i] == Normal(vs[i]) && b[i] == Normal(ws[i]);
  }

  lemma SameDicts(vs: map<Text, Value>, ws: map<Text, Value>)
    requires vs.Keys == ws.Keys
    ensures Normal(Dict(vs)) == Normal(Dict(ws)) <==> forall k :: k in vs ==> Normal(vs[k]) == Normal(ws[k])
  {
    var a, b := Normal(Dict(vs)).entries, Normal(Dict(ws)).entries;
    assert a.Keys == vs.Keys && b.Keys == ws.Keys;
    assert forall k :: k in vs ==> a[k] == Normal(vs[k]) && b[k] == Normal(ws[k]);
  }

  /** Two values have the same stream iff they are equal up to key order and NaN payloads. */
  lemma SameStreamIff(v: Value, w: Value)
    requires Supported(v) && Supported(w)
    ensures Preorder(v) == Preorder(w) <==> Same(v, w)
  {
    SameIff(v, w);
    ReadPreorder(v, []);
    ReadPreorder(w, []);
    NormalSameStream(v);
    NormalSameStream(w);
  }

  /** No stream continues another, so concatenated streams can be told apart. */
  lemma StreamsArePrefixFree(v: Value, w: Value, rest: seq<Token>)
    requires Supported(v) && Supported(w) && Preorder(w) == Preorder(v) + rest
    ensures rest == [] && Same(v, w)
  {
    SameIff(v, w);
    ReadPreorder(v, rest);
    ReadPreorder(w, []);
    assert Preorder(w) + [] == Preorder(w);
  }
}

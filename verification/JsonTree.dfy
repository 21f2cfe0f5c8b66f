/**
  The structural witness of a JSON-like value: one token per node, visited by an explicit stack
  in sorted-key preorder.  The token stream determines the value up to key order and NaN payload.
*/
module JsonTree {
  import opened Basics
  import opened PythonText

  /** The 64 bits of a double, big end first. */
  type Bits = b: int | 0 <= b < 0x1_0000_0000_0000_0000

  /** A dict is a map, so values do not depend on key order; Unsupported is any other Python object. */
  datatype Value =
    | Null
    | Bool(b: bool)
    | Int(n: int)
    | Float(bits: Bits)
    | Str(t: Text)
    | List(items: seq<Value>)
    | Dict(entries: map<Text, Value>)
    | Unsupported(id: nat)

  /** The token of a node: a container shows its keys or its length, a scalar its content. */
  datatype Token =
    | NullToken
    | BoolToken(b: bool)
    | IntToken(text: Text)
    | NanToken
    | FloatToken(bits: Bits)
    | TextToken(t: Text)
    | ArrayToken(length: nat)
    | ObjectToken(keys: seq<Text>)

  predicate IsNan(bits: Bits) {
    bits / 0x10_0000_0000_0000 % 0x800 == 0x7FF && bits % 0x10_0000_0000_0000 != 0
  }

  // ---- sorted keys ----

  /** Python's order on text: by code point, a prefix first. */
  predicate Below(a: Text, b: Text) {
    if b == [] then false
    else if a == [] then true
    else a[0] < b[0] || (a[0] == b[0] && Below(a[1..], b[1..]))
  }

  /** Where two texts first differ decides: one ends there, or has the smaller code point. */
  lemma {:induction false} BelowIff(a: Text, b: Text)
    ensures Below(a, b) <==> exists k :: DiffersAt(a, b, k) && (k == |a| || a[k] < b[k])
  {
    if a != [] && b != [] {
      if a[0] == b[0] {
        BelowIff(a[1..], b[1..]);
        forall k | DiffersAt(a[1..], b[1..], k) ensures DiffersAt(a, b, k + 1) {
          assert a == [a[0]] + a[1..] && b == [b[0]] + b[1..];
          assert a[..k + 1] == [a[0]] + a[1..][..k] && b[..k + 1] == [b[0]] + b[1..][..k];
        }
        forall k | DiffersAt(a, b, k) ensures k > 0 && DiffersAt(a[1..], b[1..], k - 1) {
          assert a[1..][..k - 1] == a[..k][1..] && b[1..][..k - 1] == b[..k][1..];
        }
        if Below(a[1..], b[1..]) {
          var k :| DiffersAt(a[1..], b[1..], k) && (k == |a[1..]| || a[1..][k] < b[1..][k]);
          assert DiffersAt(a, b, k + 1);
        }
      } else {
        assert DiffersAt(a, b, 0);
        forall k | 0 < k <= |a| && k < |b| ensures a[..k] != b[..k] {
          assert a[..k][0] != b[..k][0];
        }
      }
    } else if b != [] {
      assert DiffersAt(a, b, 0);
    }
  }

  /** The texts agree before `k`, where the second goes on, and the first ends or goes on otherwise. */
  ghost predicate DiffersAt(a: Text, b: Text, k: int) {
    0 <= k <= |a| && k < |b| && a[..k] == b[..k] && (k == |a| || a[k] != b[k])
  }

  lemma {:induction false} BelowTotal(a: Text, b: Text)
    ensures Below(a, b) || Below(b, a) || a == b
    ensures !(Below(a, b) && Below(b, a)) && !Below(a, a)
  {
    if a != [] && b != [] && a[0] == b[0] {
      BelowTotal(a[1..], b[1..]);
      assert a == [a[0]] + a[1..] && b == [b[0]] + b[1..];
    }
    if a != [] {
      BelowTotal(a[1..], a[1..]);
    }
  }

  lemma {:induction false} BelowTransitive(a: Text, b: Text, c: Text)
    requires Below(a, b) && Below(b, c)
    ensures Below(a, c)
  {
    if a != [] && a[0] == b[0] == c[0] {
      BelowTransitive(a[1..], b[1..], c[1..]);
    }
  }

  ghost predicate Least(keys: set<Text>, k: Text) {
    k in keys && forall x :: x in keys && x != k ==> Below(k, x)
  }

  lemma {:induction false} LeastExists(keys: set<Text>)
    requires keys != {}
    ensures exists k :: Least(keys, k)
    decreases |keys|
  {
    var x :| x in keys;
    var rest := keys - {x};
    assert forall y :: y in keys && y != x ==> y in rest;
    if rest == {} {
      assert Least(keys, x);
    } else {
      LeastExists(rest);
      var k :| Least(rest, k);
      BelowTotal(x, k);
      if Below(k, x) {
        assert Least(keys, k);
      } else {
        forall y | y in keys && y != x && y != k ensures Below(x, y) {
          BelowTransitive(x, k, y);
        }
        assert Least(keys, x);
      }
    }
  }

  lemma LeastUnique(keys: set<Text>, a: Text, b: Text)
    requires Least(keys, a) && Least(keys, b)
    ensures a == b
  {
    BelowTotal(a, b);
  }

  ghost function Smallest(keys: set<Text>): (k: Text)
    requires keys != {}
    ensures Least(keys, k)
  {
    LeastExists(keys);
    var k :| Least(keys, k);
    k
  }

  /** The keys in Python's order. */
  ghost function SortedKeys(keys: set<Text>): (ks: seq<Text>)
    ensures |ks| == |keys| && forall k :: k in ks <==> k in keys
    ensures Distinct(ks)
    decreases |keys|
  {
    if keys == {} then []
    else
      var k := Smallest(keys);
      [k] + SortedKeys(keys - {k})
  }

  ghost predicate Ascending(ks: seq<Text>) {
    forall i, j :: 0 <= i < j < |ks| ==> Below(ks[i], ks[j])
  }

  lemma {:induction false} KeysAscend(keys: set<Text>)
    ensures Ascending(SortedKeys(keys))
    decreases |keys|
  {
    if keys != {} {
      var first, ks := Smallest(keys), SortedKeys(keys);
      KeysAscend(keys - {first});
      forall i, j | 0 <= i < j < |ks| ensures Below(ks[i], ks[j]) {
        assert ks[j] == ks[1..][j - 1] && ks[j] in ks[1..];
        assert i > 0 ==> ks[i] == ks[1..][i - 1];
      }
    }
  }

  method LeastKey(keys: set<Text>) returns (least: Text)
    requires keys != {}
    ensures Least(keys, least)
  {
    least :| least in keys;
    var unseen := keys - {least};
    while unseen != {}
      invariant unseen <= keys && least in keys && least !in unseen
      invariant forall x :: x in keys && x !in unseen && x != least ==> Below(least, x)
      decreases |unseen|
    {
      var k :| k in unseen;
      BelowTotal(k, least);
      if Below(k, least) {
        forall x | x in keys && x !in unseen && x != least ensures Below(k, x) {
          BelowTransitive(k, least, x);
        }
        least := k;
      }
      unseen := unseen - {k};
    }
  }

  lemma SortStep(sorted: seq<Text>, ks: seq<Text>, rest: set<Text>, least: Text)
    requires sorted == ks + SortedKeys(rest) && Least(rest, least)
    ensures sorted == (ks + [least]) + SortedKeys(rest - {least})
  {
    LeastUnique(rest, least, Smallest(rest));
    assert SortedKeys(rest) == [least] + SortedKeys(rest - {least});
  }

  /** Sorts by repeatedly taking the least key. */
  method SortKeys(keys: set<Text>) returns (ks: seq<Text>)
    ensures ks == SortedKeys(keys) && Ascending(ks)
  {
    KeysAscend(keys);
    ks := [];
    var rest := keys;
    ghost var sorted := SortedKeys(keys);
    while rest != {}
      invariant sorted == ks + SortedKeys(rest)
      decreases |rest|
    {
      var least := LeastKey(rest);
      SortStep(sorted, ks, rest, least);
      ks := ks + [least];
      rest := rest - {least};
    }
  }

  // ---- the tree as the traversal sees it ----

  ghost function Children(v: Value): (cs: seq<Value>)
    ensures forall i :: 0 <= i < |cs| ==> cs[i] < v
  {
    match v
    case List(items) => items
    case Dict(entries) =>
      var keys := SortedKeys(entries.Keys);
      assert forall k :: k in entries ==> entries[k] < v;
      seq(|keys|, i requires 0 <= i < |keys| => assert keys[i] in keys; entries[keys[i]])
    case _ => []
  }

  function Sum(ns: seq<nat>): nat {
    if ns == [] then 0 else ns[0] + Sum(ns[1..])
  }

  function MaxOf(ns: seq<nat>): nat {
    if ns == [] then 0 else Max(ns[0], MaxOf(ns[1..]))
  }

  /** The number of nodes. */
  ghost function Size(v: Value): nat {
    var cs := Children(v);
    1 + Sum(seq(|cs|, i requires 0 <= i < |cs| => Size(cs[i])))
  }

  ghost function SizeAll(vs: seq<Value>): nat {
    if vs == [] then 0 else Size(vs[0]) + SizeAll(vs[1..])
  }

  lemma {:induction false} SizeAllIsSum(vs: seq<Value>)
    ensures SizeAll(vs) == Sum(seq(|vs|, i requires 0 <= i < |vs| => Size(vs[i])))
  {
    if vs != [] {
      SizeAllIsSum(vs[1..]);
      var ns := seq(|vs|, i requires 0 <= i < |vs| => Size(vs[i]));
      assert ns[1..] == seq(|vs[1..]|, i requires 0 <= i < |vs[1..]| => Size(vs[1..][i]));
    }
  }

  lemma SizeIs(v: Value)
    ensures Size(v) == 1 + SizeAll(Children(v))
  {
    SizeAllIsSum(Children(v));
  }

  /** How deep containers nest: 0 for a scalar. */
  ghost function Depth(v: Value): nat {
    var cs := Children(v);
    if v.List? || v.Dict? then 1 + MaxOf(seq(|cs|, i requires 0 <= i < |cs| => Depth(cs[i]))) else 0
  }

  ghost predicate Supported(v: Value) {
    var cs := Children(v);
    !v.Unsupported? && forall i :: 0 <= i < |cs| ==> Supported(cs[i])
  }

  ghost function TokenOf(v: Value): Token
    requires !v.Unsupported?
  {
    match v
    case Null => NullToken
    case Bool(b) => BoolToken(b)
    case Int(n) => IntToken(PrintInt(n))
    case Float(bits) => if IsNan(bits) then NanToken else FloatToken(bits)
    case Str(t) => TextToken(t)
    case List(items) => ArrayToken(|items|)
    case Dict(entries) => ObjectToken(SortedKeys(entries.Keys))
  }

  /** The token of a float is its bits, unless what is left of the sign lies above the bits of infinity. */
  lemma FloatTokens(bits: Bits)
    ensures TokenOf(Float(bits)) == NanToken <==> bits % 0x8000_0000_0000_0000 > 0x7FF0_0000_0000_0000
    ensures TokenOf(Float(bits)) != NanToken ==> TokenOf(Float(bits)) == FloatToken(bits)
  {
    var magnitude := bits % 0x8000_0000_0000_0000;
    assert bits == bits / 0x8000_0000_0000_0000 * 0x8000_0000_0000_0000 + magnitude;
    assert bits / 0x10_0000_0000_0000 % 0x800 == magnitude / 0x10_0000_0000_0000;
    assert bits % 0x10_0000_0000_0000 == magnitude % 0x10_0000_0000_0000;
  }

  /** The recursive preorder token stream. */
  ghost function Preorder(v: Value): seq<Token>
    requires Supported(v)
    decreases Size(v), 0
  {
    SizeIs(v);
    [TokenOf(v)] + PreorderAll(Children(v))
  }

  ghost function PreorderAll(vs: seq<Value>): seq<Token>
    requires forall i :: 0 <= i < |vs| ==> Supported(vs[i])
    decreases SizeAll(vs), |vs| + 1
  {
    if vs == [] then [] else Preorder(vs[0]) + PreorderAll(vs[1..])
  }

  // ---- the explicit stack ----

  datatype Witness = Witness(tokens: seq<Token>, nodes: nat, containerDepth: nat)

  /** The source raises TypeError on an unsupported object. */
  datatype Failure = UnsupportedValue

  /** What remains to be emitted, with the top of the stack at the end. */
  ghost function Tokens(pending: seq<(Value, nat)>): seq<Token>
    requires forall p :: p in pending ==> Supported(p.0)
  {
    if pending == [] then []
    else
      var n := |pending| - 1;
      assert pending[n] in pending;
      Preorder(pending[n].0) + Tokens(pending[..n])
  }

  ghost function Nodes(pending: seq<(Value, nat)>): nat {
    if pending == [] then 0 else Size(pending[|pending| - 1].0) + Nodes(pending[..|pending| - 1])
  }

  /** The deepest point of the pending subtrees, given how high each value is. */
  ghost function Deepest(height: Value -> nat, pending: seq<(Value, nat)>): nat {
    if pending == [] then 0
    else
      var n := |pending| - 1;
      Max(pending[n].1 + height(pending[n].0), Deepest(height, pending[..n]))
  }

  ghost predicate AllSupported(pending: seq<(Value, nat)>) {
    forall p :: p in pending ==> Supported(p.0)
  }

  /** Children are pushed in reverse, all at one depth. */
  function Pushed(children: seq<Value>, depth: nat): (r: seq<(Value, nat)>)
    ensures |r| == |children|
    ensures forall i :: 0 <= i < |r| ==> r[i] == (children[|children| - 1 - i], depth)
  {
    seq(|children|, i requires 0 <= i < |children| => (children[|children| - 1 - i], depth))
  }

  ghost function Highest(height: Value -> nat, vs: seq<Value>): nat {
    if vs == [] then 0 else Max(height(vs[0]), Highest(height, vs[1..]))
  }

  lemma {:induction false} HighestIsMax(height: Value -> nat, vs: seq<Value>)
    ensures Highest(height, vs) == MaxOf(seq(|vs|, i requires 0 <= i < |vs| => height(vs[i])))
  {
    if vs != [] {
      HighestIsMax(height, vs[1..]);
      var ns := seq(|vs|, i requires 0 <= i < |vs| => height(vs[i]));
      assert ns[1..] == seq(|vs[1..]|, i requires 0 <= i < |vs[1..]| => height(vs[1..][i]));
    }
  }

  lemma PushCons(pending: seq<(Value, nat)>, children: seq<Value>, depth: nat, stack: seq<(Value, nat)>)
    requires children != [] && stack == pending + Pushed(children, depth)
    ensures stack != [] && stack[|stack| - 1] == (children[0], depth)
    ensures stack[..|stack| - 1] == pending + Pushed(children[1..], depth)
  {
  }

  lemma PushNone(pending: seq<(Value, nat)>, depth: nat)
    ensures pending + Pushed([], depth) == pending
  {
  }

  lemma PopNodes(stack: seq<(Value, nat)>, top: Value, depth: nat, rest: seq<(Value, nat)>)
    requires stack != [] && stack[|stack| - 1] == (top, depth) && stack[..|stack| - 1] == rest
    ensures Nodes(stack) == Size(top) + Nodes(rest)
  {
  }

  lemma SizeAllCons(vs: seq<Value>)
    requires vs != []
    ensures SizeAll(vs) == Size(vs[0]) + SizeAll(vs[1..])
  {
  }

  /** Pushing puts the children's subtrees, in order, in front of what was pending. */
  lemma {:induction false} PushNodes(pending: seq<(Value, nat)>, children: seq<Value>, depth: nat)
    ensures Nodes(pending + Pushed(children, depth)) == SizeAll(children) + Nodes(pending)
  {
    if children == [] {
      PushNone(pending, depth);
    } else {
      var stack := pending + Pushed(children, depth);
      PushCons(pending, children, depth, stack);
      PushNodes(pending, children[1..], depth);
      PopNodes(stack, children[0], depth, pending + Pushed(children[1..], depth));
      SizeAllCons(children);
    }
  }

  lemma {:induction false} PushDeepest(height: Value -> nat, pending: seq<(Value, nat)>, children: seq<Value>,
      depth: nat)
    ensures Deepest(height, pending + Pushed(children, depth)) ==
            if children == [] then Deepest(height, pending)
            else Max(depth + Highest(height, children), Deepest(height, pending))
  {
    if children == [] {
      PushNone(pending, depth);
    } else {
      PushCons(pending, children, depth, pending + Pushed(children, depth));
      PushDeepest(height, pending, children[1..], depth);
    }
  }

  lemma PopTokens(stack: seq<(Value, nat)>, top: Value, depth: nat, rest: seq<(Value, nat)>)
    requires stack != [] && stack[|stack| - 1] == (top, depth) && stack[..|stack| - 1] == rest && AllSupported(stack)
    ensures AllSupported(rest) && Supported(top) && Tokens(stack) == Preorder(top) + Tokens(rest)
  {
    assert (top, depth) in stack;
  }

  lemma PreorderCons(vs: seq<Value>)
    requires vs != [] && forall i :: 0 <= i < |vs| ==> Supported(vs[i])
    ensures PreorderAll(vs) == Preorder(vs[0]) + PreorderAll(vs[1..])
    ensures PreorderAll([]) == []
  {
  }

  lemma {:induction false} PushTokens(pending: seq<(Value, nat)>, children: seq<Value>, depth: nat)
    requires AllSupported(pending) && forall i :: 0 <= i < |children| ==> Supported(children[i])
    ensures AllSupported(pending + Pushed(children, depth))
    ensures Tokens(pending + Pushed(children, depth)) == PreorderAll(children) + Tokens(pending)
  {
    PushSupported(pending, children, depth);
    if children == [] {
      PushNone(pending, depth);
    } else {
      var stack := pending + Pushed(children, depth);
      PushCons(pending, children, depth, stack);
      PushTokens(pending, children[1..], depth);
      PopTokens(stack, children[0], depth, pending + Pushed(children[1..], depth));
      PreorderCons(children);
      Associates(Preorder(children[0]), PreorderAll(children[1..]), Tokens(pending));
    }
  }

  /** The token and the children of one node, keys sorted. */
  method Open(item: Value) returns (token: Token, children: seq<Value>)
    requires !item.Unsupported?
    ensures token == TokenOf(item) && children == Children(item)
  {
    children := [];
    match item {
      case Dict(entries) =>
        var keys := SortKeys(entries.Keys);
        token := ObjectToken(keys);
        assert forall k :: k in keys ==> k in entries;
        children := seq(|keys|, i requires 0 <= i < |keys| => assert keys[i] in keys; entries[keys[i]]);
      case List(items) => token, children := ArrayToken(|items|), items;
      case Null => token := NullToken;
      case Bool(b) => token := BoolToken(b);
      case Int(n) => token := IntToken(PrintInt(n));
      case Float(bits) => token := if IsNan(bits) then NanToken else FloatToken(bits);
      case Str(t) => token := TextToken(t);
    }
  }

  /** What has been emitted and counted, together with the pending subtrees, is the whole tree. */
  ghost predicate Accounts(value: Value, tokens: seq<Token>, nodes: nat, maxDepth: nat, pending: seq<(Value, nat)>) {
    && (AllSupported(pending) <==> Supported(value))
    && (Supported(value) ==> Preorder(value) == tokens + Tokens(pending))
    && nodes + Nodes(pending) == Size(value)
    && Max(maxDepth, Deepest(Depth, pending)) == Depth(value)
    && forall p :: p in pending ==> p.1 <= maxDepth
  }

  /** Pops one node, emits its token and pushes its children. */
  method Visit(ghost value: Value, tokens: seq<Token>, nodes: nat, maxDepth: nat, pending: seq<(Value, nat)>)
    returns (tokens': seq<Token>, nodes': nat, maxDepth': nat, pending': seq<(Value, nat)>)
    requires pending != [] && Accounts(value, tokens, nodes, maxDepth, pending)
    requires !pending[|pending| - 1].0.Unsupported?
    ensures Accounts(value, tokens', nodes', maxDepth', pending') && Nodes(pending') < Nodes(pending)
  {
    var (item, parentDepth) := pending[|pending| - 1];
    var rest := pending[..|pending| - 1];
    nodes' := nodes + 1;
    var token, children := Open(item);
    var depth := parentDepth;
    maxDepth' := maxDepth;
    if item.Dict? || item.List? {
      depth := parentDepth + 1;
      maxDepth' := Max(maxDepth, depth);
    }
    tokens' := tokens + [token];
    pending' := rest + Pushed(children, depth);
    VisitAccounts(value, tokens, nodes, maxDepth, pending, item, parentDepth, depth);
  }

  lemma VisitAccounts(value: Value, tokens: seq<Token>, nodes: nat, maxDepth: nat, pending: seq<(Value, nat)>,
                      item: Value, parentDepth: nat, depth: nat)
    requires Accounts(value, tokens, nodes, maxDepth, pending)
    requires pending != [] && pending[|pending| - 1] == (item, parentDepth) && !item.Unsupported?
    requires depth == if item.List? || item.Dict? then parentDepth + 1 else parentDepth
    ensures var pushed := pending[..|pending| - 1] + Pushed(Children(item), depth);
            && Accounts(value, tokens + [TokenOf(item)], nodes + 1, Max(maxDepth, depth), pushed)
            && Nodes(pushed) < Nodes(pending)
  {
    VisitBounds(pending, Children(item), depth, maxDepth);
    VisitSupported(pending, item, parentDepth, depth);
    VisitCounts(pending, item, parentDepth, depth, maxDepth);
    if Supported(value) {
      VisitTokens(tokens, pending, item, parentDepth, depth);
    }
  }

  lemma VisitBounds(pending: seq<(Value, nat)>, children: seq<Value>, depth: nat, maxDepth: nat)
    requires pending != [] && forall p :: p in pending ==> p.1 <= maxDepth
    ensures pending[|pending| - 1].1 <= maxDepth
    ensures forall p :: p in pending[..|pending| - 1] + Pushed(children, depth) ==> p.1 <= Max(maxDepth, depth)
  {
    assert pending[|pending| - 1] in pending;
  }

  lemma VisitSupported(pending: seq<(Value, nat)>, item: Value, parentDepth: nat, depth: nat)
    requires pending != [] && pending[|pending| - 1] == (item, parentDepth) && !item.Unsupported?
    ensures AllSupported(pending) <==> AllSupported(pending[..|pending| - 1] + Pushed(Children(item), depth))
  {
    PopSupported(pending);
    PushSupported(pending[..|pending| - 1], Children(item), depth);
  }

  lemma VisitTokens(tokens: seq<Token>, pending: seq<(Value, nat)>, item: Value, parentDepth: nat, depth: nat)
    requires pending != [] && pending[|pending| - 1] == (item, parentDepth) && AllSupported(pending)
    ensures !item.Unsupported? && AllSupported(pending[..|pending| - 1] + Pushed(Children(item), depth))
    ensures tokens + Tokens(pending) ==
            (tokens + [TokenOf(item)]) + Tokens(pending[..|pending| - 1] + Pushed(Children(item), depth))
  {
    var rest := pending[..|pending| - 1];
    PopTokens(pending, item, parentDepth, rest);
    PushTokens(rest, Children(item), depth);
    Associates([TokenOf(item)], PreorderAll(Children(item)), Tokens(rest));
    Associates(tokens, [TokenOf(item)], PreorderAll(Children(item)) + Tokens(rest));
  }

  /** Popping a node and pushing its children keeps the deepest point, wherever the node is a container. */
  lemma VisitDepth(height: Value -> nat, pending: seq<(Value, nat)>, item: Value, parentDepth: nat,
                   children: seq<Value>, container: bool, maxDepth: nat)
    requires pending != [] && pending[|pending| - 1] == (item, parentDepth) && parentDepth <= maxDepth
    requires height(item) == if container then 1 + Highest(height, children) else 0
    requires container || children == []
    ensures var depth := if container then parentDepth + 1 else parentDepth;
            Max(maxDepth, Deepest(height, pending)) ==
            Max(Max(maxDepth, depth), Deepest(height, pending[..|pending| - 1] + Pushed(children, depth)))
  {
    PushDeepest(height, pending[..|pending| - 1], children, if container then parentDepth + 1 else parentDepth);
  }

  /** Popping a node and pushing its children moves one node to the count and keeps the depth. */
  lemma VisitCounts(pending: seq<(Value, nat)>, item: Value, parentDepth: nat, depth: nat, maxDepth: nat)
    requires pending != [] && pending[|pending| - 1] == (item, parentDepth) && parentDepth <= maxDepth
    requires depth == if item.List? || item.Dict? then parentDepth + 1 else parentDepth
    ensures var pushed := pending[..|pending| - 1] + Pushed(Children(item), depth);
            && Nodes(pending) == 1 + Nodes(pushed)
            && Max(maxDepth, Deepest(Depth, pending)) == Max(Max(maxDepth, depth), Deepest(Depth, pushed))
  {
    SizeIs(item);
    PushNodes(pending[..|pending| - 1], Children(item), depth);
    DepthIs(Depth, item);
    VisitDepth(Depth, pending, item, parentDepth, Children(item), item.List? || item.Dict?, maxDepth);
  }

  lemma DepthIs(height: Value -> nat, v: Value)
    requires height == Depth
    ensures height(v) == if v.List? || v.Dict? then 1 + Highest(height, Children(v)) else 0
    ensures v.List? || v.Dict? || Children(v) == []
  {
    var cs := Children(v);
    HighestIsMax(height, cs);
    assert seq(|cs|, i requires 0 <= i < |cs| => Depth(cs[i])) == seq(|cs|, i requires 0 <= i < |cs| => height(cs[i]));
  }

  /** The nonrecursive traversal emits the recursive preorder, counts every node and finds the true depth. */
  method ObserveTree(value: Value) returns (r: Result<Witness, Failure>)
    ensures r.Ok? <==> Supported(value)
    ensures r.Ok? ==> r.value == Witness(Preorder(value), Size(value), Depth(value))
  {
    var tokens: seq<Token>, nodes: nat, maxDepth: nat := [], 0, 0;
    var pending := [(value, 0)];
    StackOfOne(value);
    while pending != []
      invariant Accounts(value, tokens, nodes, maxDepth, pending)
      decreases Nodes(pending)
    {
      PopSupported(pending);
      if pending[|pending| - 1].0.Unsupported? {
        return Err(UnsupportedValue);
      }
      tokens, nodes, maxDepth, pending := Visit(value, tokens, nodes, maxDepth, pending);
    }
    return Ok(Witness(tokens, nodes, maxDepth));
  }

  lemma StackOfOne(value: Value)
    ensures AllSupported([(value, 0)]) <==> Supported(value)
    ensures Supported(value) ==> Tokens([(value, 0)]) == Preorder(value)
    ensures Nodes([(value, 0)]) == Size(value) && Deepest(Depth, [(value, 0)]) == Depth(value)
  {
    var stack := [(value, 0)];
    assert stack[0] in stack && stack[..0] == [];
    assert Supported(value) ==> Preorder(value) + [] == Preorder(value);
  }

  lemma PopSupported(pending: seq<(Value, nat)>)
    requires pending != []
    ensures AllSupported(pending) <==> Supported(pending[|pending| - 1].0) && AllSupported(pending[..|pending| - 1])
  {
    var n := |pending| - 1;
    assert pending == pending[..n] + [pending[n]];
  }

  lemma PushSupported(pending: seq<(Value, nat)>, children: seq<Value>, depth: nat)
    ensures AllSupported(pending + Pushed(children, depth)) <==>
              AllSupported(pending) && forall i :: 0 <= i < |children| ==> Supported(children[i])
  {
    var pushed := Pushed(children, depth);
    if AllSupported(pending + pushed) {
      forall p | p in pending ensures Supported(p.0) {
        assert p in pending + pushed;
      }
      forall i | 0 <= i < |children| ensures Supported(children[i]) {
        assert pushed[|children| - 1 - i] in pending + pushed;
      }
    }
  }
}

/**
  Four-byte gb18030 pointers, and the run-length ranges that freeze the partial map from
  pointers to scalars (WHATWG Encoding Standard, section 10.2.1).
*/
module Gb18030 {
  import opened Basics

  const POINTER_COUNT := 126 * 10 * 126 * 10

  // ---- pointers ----

  /** The legal four-byte sequences: lead and third byte 0x81 to 0xFE, second and fourth byte a digit. */
  predicate Legal(s: seq<byte>) {
    |s| == 4 && 0x81 <= s[0] <= 0xFE && 0x30 <= s[1] <= 0x39 && 0x81 <= s[2] <= 0xFE && 0x30 <= s[3] <= 0x39
  }

  function PointerBytes(pointer: nat): (s: seq<byte>)
    requires pointer < POINTER_COUNT
    ensures Legal(s)
  {
    [pointer / 12600 + 0x81, pointer / 1260 % 10 + 0x30, pointer / 10 % 126 + 0x81, pointer % 10 + 0x30]
  }

  /** The pointer of the standard's decoder. */
  function Pointer(s: seq<byte>): (p: nat)
    requires Legal(s)
  {
    var first, second, third, fourth := s[0] as int, s[1] as int, s[2] as int, s[3] as int;
    ((first - 0x81) * (10 * 126 * 10)) + ((second - 0x30) * (10 * 126)) + ((third - 0x81) * 10) + fourth - 0x30
  }

  /** Byte sequences of one length, compared byte by byte. */
  predicate Before(s: seq<byte>, t: seq<byte>)
    requires |s| == |t| == 4
  {
    || s[0] < t[0]
    || (s[0] == t[0] && (s[1] < t[1] || (s[1] == t[1] && (s[2] < t[2] || (s[2] == t[2] && s[3] < t[3])))))
  }

  lemma PointerRoundTrip(pointer: nat)
    requires pointer < POINTER_COUNT
    ensures Pointer(PointerBytes(pointer)) == pointer
  {
    assert pointer / 10 / 126 == pointer / 1260;
    assert pointer / 1260 / 10 == pointer / 12600;
  }

  lemma BytesRoundTrip(s: seq<byte>)
    requires Legal(s)
    ensures Pointer(s) < POINTER_COUNT && PointerBytes(Pointer(s)) == s
  {
    var p := Pointer(s);
    var first, second, third := s[0] as int, s[1] as int, s[2] as int;
    assert p / 10 == (first - 0x81) * 1260 + (second - 0x30) * 126 + third - 0x81;
    assert p / 1260 == (first - 0x81) * 10 + second - 0x30;
  }

  /** Pointer order is byte order. */
  lemma PointerOrder(p: nat, q: nat)
    requires p < POINTER_COUNT && q < POINTER_COUNT
    ensures p < q <==> Before(PointerBytes(p), PointerBytes(q))
  {
    PointerRoundTrip(p);
    PointerRoundTrip(q);
  }

  // ---- ranges ----

  /** Pointers from `start` up to `end` map to consecutive scalars from `scalar` on. */
  datatype Range = Range(start: nat, end: nat, scalar: nat)

  /** What the decoder gives for a pointer: nothing, or the code points of its text. */
  type Mapping = nat -> Option<seq<nat>>

  /** One code point that is no surrogate. */
  predicate IsScalar(value: seq<nat>) {
    |value| == 1 && !(0xD800 <= value[0] <= 0xDFFF)
  }

  /** The range says that pointer `p` maps to `scalar`. */
  predicate Says(r: Range, p: nat, scalar: nat) {
    r.start <= p < r.end && scalar == r.scalar + p - r.start
  }

  ghost predicate Claims(rs: seq<Range>, p: nat, scalar: nat) {
    exists r :: r in rs && Says(r, p, scalar)
  }

  /** The ranges say exactly what the mapping gives below `n`. */
  ghost predicate Reconstructs(f: Mapping, n: nat, rs: seq<Range>) {
    && (forall r, p: nat, scalar: nat :: r in rs && Says(r, p, scalar) ==> p < n && f(p) == Some([scalar]))
    && (forall p: nat :: p < n && f(p).Some? ==>
          |f(p).value| == 1 && Claims(rs, p, f(p).value[0]))
  }

  /** Nonempty ranges in order, none overlapping the next and none that the next could extend. */
  ghost predicate Maximal(rs: seq<Range>) {
    && (forall i :: 0 <= i < |rs| ==> rs[i].start < rs[i].end)
    && (forall i, j :: 0 <= i < j < |rs| ==> rs[i].end <= rs[j].start)
    && (forall i :: 0 <= i < |rs| - 1 ==> !Extends(rs[i], rs[i + 1].start, rs[i + 1].scalar))
  }

  predicate Extends(r: Range, p: nat, scalar: nat) {
    r.end == p && scalar == r.scalar + p - r.start
  }

  /** None where the source's assertion fails. */
  method BuildRanges(f: Mapping, n: nat) returns (r: Option<seq<Range>>)
    ensures r.None? <==>
              exists p: nat :: p < n && f(p).Some? && (|f(p).value| != 1 || 0xD800 <= f(p).value[0] <= 0xDFFF)
    ensures r.Some? ==> Reconstructs(f, n, r.value) && Maximal(r.value)
  {
    var ranges: seq<Range> := [];
    for pointer := 0 to n
      invariant forall p: nat :: p < pointer && f(p).Some? ==> IsScalar(f(p).value)
      invariant Reconstructs(f, pointer, ranges) && Maximal(ranges)
    {
      var value := f(pointer);
      if value.Some? {
        if !IsScalar(value.value) {
          return None;
        }
        var scalar := value.value[0];
        assert value.value == [scalar];
        var last := |ranges| - 1;
        if ranges != [] && Extends(ranges[last], pointer, scalar) {
          Lengthen(f, pointer, ranges, scalar);
          ranges := ranges[last := ranges[last].(end := pointer + 1)];
        } else {
          Append(f, pointer, ranges, scalar);
          ranges := ranges + [Range(pointer, pointer + 1, scalar)];
        }
      }
    }
    return Some(ranges);
  }

  /** Adding one pointer to what the ranges say. */
  lemma SaysOneMore(f: Mapping, n: nat, rs: seq<Range>, rs': seq<Range>, scalar: nat)
    requires Reconstructs(f, n, rs) && f(n) == Some([scalar])
    requires forall p: nat, s: nat :: Claims(rs', p, s) <==> Claims(rs, p, s) || (p == n && s == scalar)
    ensures Reconstructs(f, n + 1, rs')
  {
    forall r, p: nat, s: nat | r in rs' && Says(r, p, s) ensures p < n + 1 && f(p) == Some([s]) {
      assert Claims(rs', p, s);
    }
    forall p: nat | p < n + 1 && f(p).Some? ensures |f(p).value| == 1 && Claims(rs', p, f(p).value[0]) {
      assert p < n ==> Claims(rs, p, f(p).value[0]);
    }
  }

  lemma Append(f: Mapping, n: nat, rs: seq<Range>, scalar: nat)
    requires Reconstructs(f, n, rs) && Maximal(rs) && f(n) == Some([scalar])
    requires rs == [] || !Extends(rs[|rs| - 1], n, scalar)
    ensures Reconstructs(f, n + 1, rs + [Range(n, n + 1, scalar)]) && Maximal(rs + [Range(n, n + 1, scalar)])
  {
    var added := Range(n, n + 1, scalar);
    var rs' := rs + [added];
    EndsBelow(f, n, rs);
    forall p: nat, s: nat
      ensures Claims(rs', p, s) <==> Claims(rs, p, s) || (p == n && s == scalar)
    {
      assert forall r :: r in rs' <==> r in rs || r == added;
      assert Says(added, p, s) <==> p == n && s == scalar;
      assert added in rs';
    }
    SaysOneMore(f, n, rs, rs', scalar);
  }

  lemma Lengthen(f: Mapping, n: nat, rs: seq<Range>, scalar: nat)
    requires Reconstructs(f, n, rs) && Maximal(rs) && f(n) == Some([scalar])
    requires rs != [] && Extends(rs[|rs| - 1], n, scalar)
    ensures var rs' := rs[|rs| - 1 := rs[|rs| - 1].(end := n + 1)];
            Reconstructs(f, n + 1, rs') && Maximal(rs')
  {
    var k := |rs| - 1;
    var old_, new_ := rs[k], rs[k].(end := n + 1);
    var rs' := rs[k := new_];
    forall p: nat, s: nat
      ensures Claims(rs', p, s) <==> Claims(rs, p, s) || (p == n && s == scalar)
    {
      assert Says(new_, p, s) <==> Says(old_, p, s) || (p == n && s == scalar);
      InUpdated(rs, k, new_);
    }
    SaysOneMore(f, n, rs, rs', scalar);
  }

  lemma InUpdated(rs: seq<Range>, k: nat, new_: Range)
    requires k == |rs| - 1
    ensures new_ in rs[k := new_] && rs[k] in rs
    ensures forall r :: r in rs ==> r == rs[k] || r in rs[k := new_]
    ensures forall r :: r in rs[k := new_] ==> r == new_ || r in rs
  {
    var rs' := rs[k := new_];
    assert rs'[k] == new_;
    forall r | r in rs ensures r == rs[k] || r in rs' {
      var i :| 0 <= i < |rs| && rs[i] == r;
      assert i == k || rs'[i] == r;
    }
  }

  lemma EndsBelow(f: Mapping, n: nat, rs: seq<Range>)
    requires Reconstructs(f, n, rs) && Maximal(rs)
    ensures forall i :: 0 <= i < |rs| ==> rs[i].end <= n
  {
    forall i | 0 <= i < |rs| ensures rs[i].end <= n {
      assert Says(rs[i], rs[i].end - 1, rs[i].scalar + (rs[i].end - 1) - rs[i].start);
    }
  }

  // ---- no fewer ranges will do ----

  /** A mapped pointer whose predecessor does not map to the preceding scalar. */
  ghost predicate RunStart(f: Mapping, p: nat) {
    && f(p).Some? && |f(p).value| == 1
    && (p > 0 ==> !(f(p - 1).Some? && |f(p - 1).value| == 1 && f(p - 1).value[0] + 1 == f(p).value[0]))
  }

  lemma RangesStartRuns(f: Mapping, n: nat, rs: seq<Range>, i: nat)
    requires Reconstructs(f, n, rs) && Maximal(rs) && i < |rs|
    ensures rs[i].start < n && RunStart(f, rs[i].start)
  {
    var p := rs[i].start;
    assert Says(rs[i], p, rs[i].scalar);
    if p > 0 && f(p - 1).Some? && f(p - 1).value[0] + 1 == rs[i].scalar {
      var r :| r in rs && Says(r, p - 1, f(p - 1).value[0]);
      var j :| 0 <= j < |rs| && rs[j] == r;
      NeighbourEnds(rs, j, i);
    }
  }

  /** A range that holds the pointer just before another range is its neighbour and ends there. */
  lemma NeighbourEnds(rs: seq<Range>, j: nat, i: nat)
    requires Maximal(rs) && j < |rs| && i < |rs| && rs[j].start < rs[i].start <= rs[j].end
    ensures rs[j].end == rs[i].start && !Extends(rs[j], rs[i].start, rs[i].scalar)
  {
    var a, c := rs[j], rs[i];
    if j < i {
      var b := rs[i - 1];
      assert b.start < b.end <= c.start;
      assert j < i - 1 ==> a.end <= b.start;
    }
  }

  /** Whatever ranges reconstruct the mapping, one of them starts at every run start. */
  lemma RunStartIsListed(f: Mapping, n: nat, rs: seq<Range>, p: nat)
    requires Reconstructs(f, n, rs) && p < n && RunStart(f, p)
    ensures exists r :: r in rs && r.start == p
  {
    var r :| r in rs && Says(r, p, f(p).value[0]);
    assert r.start < p ==> Says(r, p - 1, r.scalar + (p - 1) - r.start);
  }

  function Starts(rs: seq<Range>): (r: seq<nat>)
    ensures |r| == |rs| && forall i :: 0 <= i < |rs| ==> r[i] == rs[i].start
  {
    seq(|rs|, i requires 0 <= i < |rs| => rs[i].start)
  }

  /** No other list of unit-slope ranges, however arranged, reconstructs the mapping with fewer ranges. */
  lemma FewestRanges(f: Mapping, n: nat, rs: seq<Range>, other: seq<Range>)
    requires Reconstructs(f, n, rs) && Maximal(rs) && Reconstructs(f, n, other)
    ensures |rs| <= |other|
  {
    forall i, j | 0 <= i < j < |rs| ensures Starts(rs)[i] != Starts(rs)[j] {
      assert rs[i].start < rs[i].end <= rs[j].start;
    }
    forall p | p in Starts(rs) ensures p in Starts(other) {
      var i :| 0 <= i < |rs| && Starts(rs)[i] == p;
      RangesStartRuns(f, n, rs, i);
      RunStartIsListed(f, n, other, p);
      var r :| r in other && r.start == p;
      var j :| 0 <= j < |other| && other[j] == r;
      assert Starts(other)[j] == p;
    }
    DistinctFits(Starts(rs), Starts(other));
  }
}

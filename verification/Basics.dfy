/** Datatypes and byte types shared by the models. */
module Basics {

  datatype Option<+T> = None | Some(value: T)

  datatype Result<+T, +E> = Ok(value: T) | Err(error: E)

  /** One octet of a Python `bytes` value. */
  type byte = b: int | 0 <= b < 256

  function Max(a: int, b: int): int {
    if a < b then b else a
  }

  function Min(a: int, b: int): int {
    if a < b then a else b
  }

  /** No element occurs at two positions. */
  ghost predicate Distinct<T(!new)>(s: seq<T>) {
    forall i, j :: 0 <= i < j < |s| ==> s[i] != s[j]
  }

  /** Distinct elements of a sequence are no more than the sequence is long. */
  lemma {:induction false} DistinctFits<T(!new)>(ss: seq<T>, ts: seq<T>)
    requires Distinct(ss) && forall x :: x in ss ==> x in ts
    ensures |ss| <= |ts|
  {
    if ss != [] {
      var n := |ss| - 1;
      assert ss[n] in ss;
      var j :| 0 <= j < |ts| && ts[j] == ss[n];
      var rest := ts[..j] + ts[j + 1..];
      forall x | x in ss[..n] ensures x in rest {
        var a :| 0 <= a < n && ss[..n][a] == x;
        assert x in ss && x != ts[j];
        var c :| 0 <= c < |ts| && ts[c] == x;
        assert x == if c < j then rest[c] else rest[c - 1];
      }
      DistinctFits(ss[..n], rest);
    }
  }

  lemma Associates<T>(a: seq<T>, b: seq<T>, c: seq<T>)
    ensures (a + b) + c == a + (b + c)
  {
  }

  /** Python's whitespace: `str.isspace`, and `\s` in a text pattern. */
  predicate IsSpace(c: char) {
    || c == ' ' || '\t' <= c <= '\r' || '\U{1C}' <= c <= '\U{1F}'
    || c == '\U{85}' || c == '\U{A0}' || c == '\U{1680}' || '\U{2000}' <= c <= '\U{200A}'
    || c == '\U{2028}' || c == '\U{2029}' || c == '\U{202F}' || c == '\U{205F}' || c == '\U{3000}'
  }

  lemma IsSpaceIs(c: char)
    ensures IsSpace(c) <==>
            var n := c as int;
            || 9 <= n <= 13 || 28 <= n <= 32 || n in {133, 160, 5760} || 8192 <= n <= 8202
            || n in {8232, 8233, 8239, 8287, 12288}
  {
  }
}

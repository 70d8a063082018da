/** Optional values, bytes and a few forms of text that several modules share. */
module Basics {

  datatype Option<+T> = None | Some(value: T)

  type Byte = x: int | 0 <= x < 256
  type Bytes = seq<Byte>

  /** Lower-case hexadecimal digits. */
  predicate IsHex(s: string) { forall i | 0 <= i < |s| :: '0' <= s[i] <= '9' || 'a' <= s[i] <= 'f' }

  /** A full Git object id. */
  predicate IsRevision(s: string) { (|s| == 40 || |s| == 64) && IsHex(s) }

  /** `s.split(mark)` for a single character. */
  function Split(s: string, mark: char): (parts: seq<string>)
    ensures |parts| > 0
  {
    if s == [] then [[]]
    else
      var rest := Split(s[1..], mark);
      if s[0] == mark then [[]] + rest else [[s[0]] + rest[0]] + rest[1..]
  }

  lemma {:induction false} SplitWord(w: string, mark: char)
    requires mark !in w
    ensures Split(w, mark) == [w]
  {
    if w != [] {
      SplitWord(w[1..], mark);
      assert [w[0]] + w[1..] == w;
    }
  }

  lemma {:induction false} SplitFront(w: string, mark: char, rest: string)
    requires mark !in w
    ensures Split(w + [mark] + rest, mark) == [w] + Split(rest, mark)
  {
    var s := w + [mark] + rest;
    if w == [] {
      assert s == [mark] + rest && s[1..] == rest;
    } else {
      SplitFront(w[1..], mark, rest);
      assert s[1..] == w[1..] + [mark] + rest;
      assert [w[0]] + w[1..] == w;
    }
  }

  /** The first part, and what is behind its mark, if there is one. */
  lemma {:induction false} SplitHead(s: string, mark: char) returns (rest: string)
    ensures mark !in Split(s, mark)[0]
    ensures |Split(s, mark)| == 1 ==> s == Split(s, mark)[0]
    ensures |Split(s, mark)| > 1 ==>
              s == Split(s, mark)[0] + [mark] + rest && Split(rest, mark) == Split(s, mark)[1..]
  {
    rest := "";
    if s != [] {
      if s[0] == mark {
        rest := s[1..];
        assert s == [] + [mark] + rest;
      } else {
        rest := SplitHead(s[1..], mark);
        assert s == [s[0]] + s[1..];
      }
    }
  }

  lemma Associate<T>(a: seq<T>, b: seq<T>, c: seq<T>)
    ensures a + (b + c) == a + b + c
  {
  }

  lemma Rejoin<T>(a: seq<T>, b: seq<T>, c: seq<T>, d: seq<T>)
    ensures a + (b + c + d) == a + b + c + d
  {
  }

  lemma Regroup<T>(a: seq<T>, b: seq<T>, c: seq<T>, d: seq<T>)
    ensures a + (b + c) + d == a + b + (c + d)
  {
  }
}

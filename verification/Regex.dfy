/** The regular expressions of Python's `re` that the scripts write, and what `fullmatch` means for them. */
module Regex {

  datatype Regex =
    | Text(text: string)
    | Class(ranges: seq<(char, char)>)
    | Cat(first: Regex, second: Regex)
    | Alt(one: Regex, other: Regex)
    | Star(part: Regex)

  predicate InClass(ranges: seq<(char, char)>, c: char) {
    exists i :: 0 <= i < |ranges| && ranges[i].0 <= c <= ranges[i].1
  }

  /** `re.fullmatch(r, s)` is a match. */
  ghost predicate Matches(r: Regex, s: string)
    decreases |s|, r
  {
    match r
    case Text(t) => s == t
    case Class(ranges) => |s| == 1 && InClass(ranges, s[0])
    case Cat(a, b) => exists i :: 0 <= i <= |s| && Matches(a, s[..i]) && Matches(b, s[i..])
    case Alt(a, b) => Matches(a, s) || Matches(b, s)
    case Star(a) => s == "" || exists i :: 0 < i <= |s| && Matches(a, s[..i]) && Matches(r, s[i..])
  }

  /** `a+` */
  function Plus(a: Regex): Regex { Cat(a, Star(a)) }

  /** `a?` */
  function Maybe(a: Regex): Regex { Alt(a, Text("")) }

  /** `a{n}` */
  function Times(a: Regex, n: nat): Regex { if n == 0 then Text("") else Cat(a, Times(a, n - 1)) }

  ghost predicate AllIn(ranges: seq<(char, char)>, s: string) { forall i | 0 <= i < |s| :: InClass(ranges, s[i]) }

  lemma {:induction false} StarClass(ranges: seq<(char, char)>, s: string)
    ensures Matches(Star(Class(ranges)), s) <==> AllIn(ranges, s)
  {
    if s != "" {
      StarClass(ranges, s[1..]);
      if i :| 0 < i <= |s| && Matches(Class(ranges), s[..i]) && Matches(Star(Class(ranges)), s[i..]) {
        assert i == 1 && s[..i][0] == s[0];
        assert forall k | 0 < k < |s| :: s[k] == s[1..][k - 1];
      }
      if AllIn(ranges, s) {
        assert Matches(Class(ranges), s[..1]) && Matches(Star(Class(ranges)), s[1..]);
      }
    }
  }

  lemma CatClass(ranges: seq<(char, char)>, b: Regex, s: string)
    ensures Matches(Cat(Class(ranges), b), s) <==> s != "" && InClass(ranges, s[0]) && Matches(b, s[1..])
  {
    if i :| 0 <= i <= |s| && Matches(Class(ranges), s[..i]) && Matches(b, s[i..]) {
      assert i == 1 && s[..i][0] == s[0];
    }
    if s != "" && InClass(ranges, s[0]) && Matches(b, s[1..]) {
      assert Matches(Class(ranges), s[..1]);
    }
  }

  lemma CatText(t: string, b: Regex, s: string)
    ensures Matches(Cat(Text(t), b), s) <==> t <= s && Matches(b, s[|t|..])
  {
    if i :| 0 <= i <= |s| && Matches(Text(t), s[..i]) && Matches(b, s[i..]) {
      assert s[..i] == t;
    }
    if t <= s && Matches(b, s[|t|..]) {
      assert Matches(Text(t), s[..|t|]);
    }
  }

  lemma PlusClass(ranges: seq<(char, char)>, s: string)
    ensures Matches(Plus(Class(ranges)), s) <==> s != "" && AllIn(ranges, s)
  {
    CatClass(ranges, Star(Class(ranges)), s);
    if s != "" {
      StarClass(ranges, s[1..]);
      assert forall k | 0 < k < |s| :: s[k] == s[1..][k - 1];
    }
  }

  lemma {:induction false} TimesClass(ranges: seq<(char, char)>, n: nat, s: string)
    ensures Matches(Times(Class(ranges), n), s) <==> |s| == n && AllIn(ranges, s)
  {
    if n > 0 {
      CatClass(ranges, Times(Class(ranges), n - 1), s);
      if s != "" {
        TimesClass(ranges, n - 1, s[1..]);
        assert forall k | 0 < k < |s| :: s[k] == s[1..][k - 1];
      }
    }
  }

  lemma MaybeMeans(a: Regex, s: string)
    ensures Matches(Maybe(a), s) <==> s == "" || Matches(a, s)
  {
  }

  /** A match of two expressions in a row is a match of each. */
  lemma CatMeans(a: Regex, b: Regex, s: string)
    ensures Matches(Cat(a, b), s) <==> exists u, v :: s == u + v && Matches(a, u) && Matches(b, v)
  {
    if i :| 0 <= i <= |s| && Matches(a, s[..i]) && Matches(b, s[i..]) {
      assert s == s[..i] + s[i..];
    }
    if u, v :| s == u + v && Matches(a, u) && Matches(b, v) {
      assert s[..|u|] == u && s[|u|..] == v;
    }
  }

  lemma StarMeans(a: Regex, s: string)
    ensures Matches(Star(a), s) <==>
              s == "" || exists u, v :: s == u + v && u != "" && Matches(a, u) && Matches(Star(a), v)
  {
    if i :| 0 < i <= |s| && Matches(a, s[..i]) && Matches(Star(a), s[i..]) {
      assert s == s[..i] + s[i..] && s[..i] != "";
    }
    if u, v :| s == u + v && u != "" && Matches(a, u) && Matches(Star(a), v) {
      assert s[..|u|] == u && s[|u|..] == v;
    }
  }
}

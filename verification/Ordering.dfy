/** Python's `sorted` on sets of strings: code-point order, a proper prefix first. */
module Ordering {

  predicate Less(a: string, b: string) {
    if b == [] then false
    else if a == [] then true
    else a[0] < b[0] || (a[0] == b[0] && Less(a[1..], b[1..]))
  }

  /** One text comes before another if it is a proper prefix, or has the smaller character where they first differ. */
  lemma {:induction false} LessMeans(a: string, b: string)
    ensures Less(a, b) <==> a < b || exists i ::
              0 <= i < |a| && i < |b| && a[..i] == b[..i] && a[i] < b[i]
  {
    if a != [] && b != [] {
      LessMeans(a[1..], b[1..]);
      if a[0] == b[0] {
        assert a < b <==> a[1..] < b[1..];
        if i :| 0 <= i < |a[1..]| && i < |b[1..]| && a[1..][..i] == b[1..][..i] && a[1..][i] < b[1..][i] {
          assert a[..i + 1] == [a[0]] + a[1..][..i] == b[..i + 1];
        }
        if i :| 0 <= i < |a| && i < |b| && a[..i] == b[..i] && a[i] < b[i] {
          assert i > 0;
          assert a[..i][1..] == a[1..][..i - 1] && b[..i][1..] == b[1..][..i - 1];
          assert a[1..][i - 1] == a[i] && b[1..][i - 1] == b[i];
        }
      } else {
        assert a[..0] == b[..0];
        forall i | 0 < i < |a| && i < |b| ensures a[..i] != b[..i] {
          assert a[..i][0] != b[..i][0];
        }
      }
    }
  }

  lemma {:induction false} LessIrreflexive(a: string)
    ensures !Less(a, a)
  {
    if a != [] { LessIrreflexive(a[1..]); }
  }

  lemma {:induction false} LessTransitive(a: string, b: string, c: string)
    requires Less(a, b) && Less(b, c)
    ensures Less(a, c)
  {
    if a != [] && a[0] == b[0] && b[0] == c[0] { LessTransitive(a[1..], b[1..], c[1..]); }
  }

  lemma {:induction false} LessTotal(a: string, b: string)
    ensures a == b || Less(a, b) || Less(b, a)
  {
    if a != [] && b != [] && a[0] == b[0] {
      LessTotal(a[1..], b[1..]);
      if a[1..] == b[1..] {
        assert a == [a[0]] + a[1..] && b == [b[0]] + b[1..];
      }
    }
  }

  predicate IsLeast(m: string, s: set<string>) {
    m in s && forall x | x in s :: x == m || Less(m, x)
  }

  lemma {:induction false} LeastExists(s: set<string>) returns (m: string)
    requires s != {}
    ensures IsLeast(m, s)
    decreases s
  {
    var x :| x in s;
    if s == {x} {
      m := x;
    } else {
      var r := LeastExists(s - {x});
      LessTotal(x, r);
      m := if Less(x, r) then x else r;
      forall y | y in s ensures y == m || Less(m, y) {
        if y != x && y != r && m == x { LessTransitive(x, r, y); }
      }
    }
  }

  lemma LeastUnique(m: string, n: string, s: set<string>)
    requires IsLeast(m, s) && IsLeast(n, s)
    ensures m == n
  {
    if m != n { LessTransitive(m, n, m); LessIrreflexive(m); }
  }

  function Least(s: set<string>): (m: string)
    requires s != {}
    ensures IsLeast(m, s)
  {
    assert exists m :: IsLeast(m, s) by { var m := LeastExists(s); }
    assert forall m, n | IsLeast(m, s) && IsLeast(n, s) :: m == n by {
      forall m, n | IsLeast(m, s) && IsLeast(n, s) ensures m == n { LeastUnique(m, n, s); }
    }
    var m :| m in s && IsLeast(m, s); m
  }

  ghost predicate Increasing(q: seq<string>) {
    forall i, j | 0 <= i < j < |q| :: Less(q[i], q[j])
  }

  /** `sorted(s)` for a set `s`: its elements, each once, in increasing order. */
  function Sorted(s: set<string>): (q: seq<string>)
    ensures Increasing(q)
    ensures forall x :: x in q <==> x in s
    ensures |q| == |s|
    decreases s
  {
    if s == {} then [] else
      var m := Least(s);
      [m] + Sorted(s - {m})
  }

  function Elements<T(!new)>(q: seq<T>): (s: set<T>)
    ensures forall x :: x in s <==> x in q
  {
    set x | x in q
  }

  lemma IncreasingDistinct(q: seq<string>, i: nat, j: nat)
    requires Increasing(q) && i < |q| && j < |q| && q[i] == q[j]
    ensures i == j
  {
    LessIrreflexive(q[i]);
  }
}

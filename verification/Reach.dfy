/** Reachability along a step function, and its reading as a least closed set. */
module Reach {

  ghost predicate IsPath<T(!new)>(next: T -> set<T>, p: seq<T>) {
    |p| > 0 && forall i | 0 <= i < |p| - 1 :: p[i + 1] in next(p[i])
  }

  /** `x` ends a chain of steps that starts at a root. */
  ghost predicate Reachable<T(!new)>(next: T -> set<T>, roots: set<T>, x: T) {
    exists p :: IsPath(next, p) && p[0] in roots && p[|p| - 1] == x
  }

  ghost predicate Closed<T(!new)>(next: T -> set<T>, s: set<T>) {
    forall x | x in s :: next(x) <= s
  }

  /** `s` holds the reachable elements and nothing else. */
  ghost predicate IsReach<T(!new)>(next: T -> set<T>, roots: set<T>, s: set<T>) {
    forall x :: x in s <==> Reachable(next, roots, x)
  }

  lemma RootReachable<T(!new)>(next: T -> set<T>, roots: set<T>, x: T)
    requires x in roots
    ensures Reachable(next, roots, x)
  {
    assert IsPath(next, [x]);
  }

  lemma StepReachable<T(!new)>(next: T -> set<T>, roots: set<T>, x: T, y: T)
    requires Reachable(next, roots, x) && y in next(x)
    ensures Reachable(next, roots, y)
  {
    var p :| IsPath(next, p) && p[0] in roots && p[|p| - 1] == x;
    assert IsPath(next, p + [y]);
  }

  /** Reachability depends on the steps only, not on the function that gives them. */
  lemma SameSteps<T(!new)>(next: T -> set<T>, other: T -> set<T>, roots: set<T>, x: T)
    requires Reachable(next, roots, x) && forall y :: next(y) == other(y)
    ensures Reachable(other, roots, x)
  {
    var p :| IsPath(next, p) && p[0] in roots && p[|p| - 1] == x;
    assert IsPath(other, p);
  }

  lemma {:induction false} PathInClosed<T(!new)>(next: T -> set<T>, s: set<T>, p: seq<T>)
    requires IsPath(next, p) && Closed(next, s) && p[0] in s
    ensures p[|p| - 1] in s
  {
    if |p| > 1 {
      assert p[1] in next(p[0]);
      PathInClosed(next, s, p[1..]);
    }
  }

  lemma ReachableInClosed<T(!new)>(next: T -> set<T>, roots: set<T>, s: set<T>)
    requires Closed(next, s) && roots <= s
    ensures forall x | Reachable(next, roots, x) :: x in s
  {
    forall x | Reachable(next, roots, x) ensures x in s {
      var p :| IsPath(next, p) && p[0] in roots && p[|p| - 1] == x;
      PathInClosed(next, s, p);
    }
  }

  /** A closed set that holds the roots and only reachable elements is the reachable set. */
  lemma ClosedIsReach<T(!new)>(next: T -> set<T>, roots: set<T>, s: set<T>)
    requires Closed(next, s) && roots <= s && forall x | x in s :: Reachable(next, roots, x)
    ensures IsReach(next, roots, s)
  {
    ReachableInClosed(next, roots, s);
  }

  /** The reachable set is the least set that contains the roots and is closed under the steps. */
  lemma ReachIsLeast<T(!new)>(next: T -> set<T>, roots: set<T>, s: set<T>, t: set<T>)
    requires IsReach(next, roots, s)
    ensures roots <= s && Closed(next, s)
    ensures roots <= t && Closed(next, t) ==> s <= t
  {
    forall x | x in roots ensures x in s { RootReachable(next, roots, x); }
    forall x, y | x in s && y in next(x) ensures y in s { StepReachable(next, roots, x, y); }
    if roots <= t && Closed(next, t) { ReachableInClosed(next, roots, t); }
  }

  /* ----- a worklist search ----- */

  /** What a worklist search keeps: every root is seen or waiting, all that is seen or waiting is reachable and in
      `all`, and the steps from what is seen lead to what is seen or waiting. */
  ghost predicate Searching<T(!new)>(next: T -> set<T>, roots: set<T>, all: set<T>, seen: set<T>, todo: seq<T>) {
    && (forall x | x in roots :: x in seen || x in todo)
    && (forall x | x in seen :: x in all && Reachable(next, roots, x))
    && (forall x | x in todo :: x in all && Reachable(next, roots, x))
    && (forall x | x in seen :: forall y | y in next(x) :: y in seen || y in todo)
  }

  lemma SplitLast<T>(q: seq<T>)
    requires q != []
    ensures q == q[..|q| - 1] + [q[|q| - 1]]
  {
  }

  lemma SearchStart<T(!new)>(next: T -> set<T>, roots: set<T>, all: set<T>, todo: seq<T>)
    requires forall x :: x in roots <==> x in todo
    requires roots <= all
    ensures Searching(next, roots, all, {}, todo)
  {
    forall x | x in roots ensures Reachable(next, roots, x) { RootReachable(next, roots, x); }
  }

  lemma SearchSkip<T(!new)>(next: T -> set<T>, roots: set<T>, all: set<T>, seen: set<T>, todo: seq<T>, x: T)
    requires Searching(next, roots, all, seen, todo + [x]) && x in seen
    ensures Searching(next, roots, all, seen, todo)
  {
    assert forall y | y in todo :: y in todo + [x];
    assert forall y | y in todo + [x] :: y in todo || y == x;
  }

  lemma SearchVisit<T(!new)>(
    next: T -> set<T>, roots: set<T>, all: set<T>, seen: set<T>, todo: seq<T>, x: T, more: seq<T>)
    requires Searching(next, roots, all, seen, todo + [x])
    requires forall y :: y in more <==> y in next(x)
    requires next(x) <= all
    ensures Searching(next, roots, all, seen + {x}, todo + more)
  {
    assert x in todo + [x];
    assert forall y | y in todo :: y in todo + [x];
    assert forall y | y in todo + [x] :: y in todo || y == x;
    forall y | y in more ensures Reachable(next, roots, y) { StepReachable(next, roots, x, y); }
    assert forall y | y in todo + more :: y in todo || y in more;
  }

  lemma SearchEnd<T(!new)>(next: T -> set<T>, roots: set<T>, all: set<T>, seen: set<T>)
    requires Searching(next, roots, all, seen, [])
    ensures IsReach(next, roots, seen)
  {
    ClosedIsReach(next, roots, seen);
  }

  lemma ReachUnique<T(!new)>(next: T -> set<T>, roots: set<T>, s: set<T>, t: set<T>)
    requires IsReach(next, roots, s) && IsReach(next, roots, t)
    ensures s == t
  {
    assert forall x :: x in s <==> x in t;
  }

  /* ----- a search by whole rounds: `while new := ...: s |= new` ----- */

  ghost predicate Growing<T(!new)>(next: T -> set<T>, roots: set<T>, s: set<T>) {
    roots <= s && forall x | x in s :: Reachable(next, roots, x)
  }

  lemma GrowStart<T(!new)>(next: T -> set<T>, roots: set<T>)
    ensures Growing(next, roots, roots)
  {
    forall x | x in roots ensures Reachable(next, roots, x) { RootReachable(next, roots, x); }
  }

  lemma GrowRound<T(!new)>(next: T -> set<T>, roots: set<T>, s: set<T>, found: set<T>)
    requires Growing(next, roots, s)
    requires forall y | y in found :: exists x :: x in s && y in next(x)
    ensures Growing(next, roots, s + found)
  {
    forall y | y in found ensures Reachable(next, roots, y) {
      var x :| x in s && y in next(x);
      StepReachable(next, roots, x, y);
    }
  }

  lemma GrowEnd<T(!new)>(next: T -> set<T>, roots: set<T>, s: set<T>)
    requires Growing(next, roots, s) && forall x | x in s :: next(x) <= s
    ensures IsReach(next, roots, s)
  {
    ClosedIsReach(next, roots, s);
  }
}

/** Depth-first cycle detection: `_cycles` of the specification validator. */
module Cycles {

  type Node = string

  /** An adjacency dictionary: `keys` is its iteration order. A node that is not a key has no successors. */
  datatype Graph = Graph(keys: seq<Node>, adj: map<Node, seq<Node>>)

  function Succ(g: Graph, n: Node): seq<Node> {
    if n in g.adj then g.adj[n] else []
  }

  ghost predicate Edge(g: Graph, a: Node, b: Node) {
    b in Succ(g, a)
  }

  ghost predicate WellFormed(g: Graph) {
    forall n :: n in g.keys <==> n in g.adj
  }

  /** Every node the search can meet. */
  ghost function Nodes(g: Graph): (s: set<Node>) {
    (set n | n in g.keys) + g.adj.Keys + (set n, m | n in g.adj.Keys && m in g.adj[n] :: m)
  }

  /** Consecutive nodes are joined by edges. */
  ghost predicate IsWalk(g: Graph, p: seq<Node>) {
    forall i | 0 <= i < |p| - 1 :: Edge(g, p[i], p[i + 1])
  }

  /** A closed walk of at least one edge. */
  ghost predicate IsClosedWalk(g: Graph, c: seq<Node>) {
    |c| >= 2 && c[0] == c[|c| - 1] && IsWalk(g, c)
  }

  ghost predicate Distinct(p: seq<Node>) {
    forall i, j | 0 <= i < j < |p| :: p[i] != p[j]
  }

  /** A closed walk whose nodes are distinct apart from the endpoint: what `_cycles` reports. */
  ghost predicate IsSimpleCycle(g: Graph, c: seq<Node>) {
    IsClosedWalk(g, c) && Distinct(c[..|c| - 1])
  }

  ghost predicate Cyclic(g: Graph) {
    exists c :: IsClosedWalk(g, c)
  }

  /* ----- the search as a function on its three variables ----- */

  datatype State = State(seen: set<Node>, stack: seq<Node>, out: seq<seq<Node>>)

  function IndexOf(p: seq<Node>, n: Node): (i: nat)
    requires n in p
    ensures i < |p| && p[i] == n && n !in p[..i]
  {
    if p[0] == n then 0 else 1 + IndexOf(p[1..], n)
  }

  function Report(s: State, n: Node): State
    requires n in s.stack
  {
    s.(out := s.out + [s.stack[IndexOf(s.stack, n)..] + [n]])
  }

  function Visit(g: Graph, n: Node, s: State): (r: State)
    requires n in Nodes(g)
    ensures s.seen <= r.seen && r.stack == s.stack && s.out <= r.out
    decreases Nodes(g) - s.seen, 0
  {
    if n in s.stack then Report(s, n)
    else if n in s.seen then s
    else
      var inner := VisitAll(g, Succ(g, n), State(s.seen + {n}, s.stack + [n], s.out));
      State(inner.seen, inner.stack[..|inner.stack| - 1], inner.out)
  }

  function VisitAll(g: Graph, ms: seq<Node>, s: State): (r: State)
    requires forall m | m in ms :: m in Nodes(g)
    ensures s.seen <= r.seen && r.stack == s.stack && s.out <= r.out
    decreases Nodes(g) - s.seen, 1, |ms|
  {
    if ms == [] then s
    else VisitAll(g, ms[1..], Visit(g, ms[0], s))
  }

  const START := State({}, [], [])

  function Find(g: Graph): seq<seq<Node>> {
    VisitAll(g, g.keys, START).out
  }

  /* ----- the search as the source runs it ----- */

  class Search {
    const g: Graph
    var seen: set<Node>
    var stack: seq<Node>
    var out: seq<seq<Node>>

    constructor (g: Graph)
      ensures this.g == g && Value() == START
    {
      this.g := g;
      seen, stack, out := {}, [], [];
    }

    ghost function Value(): State
      reads this
    {
      State(seen, stack, out)
    }

    method VisitNode(n: Node)
      requires n in Nodes(g)
      modifies this
      ensures Value() == Visit(g, n, old(Value()))
      decreases Nodes(g) - seen, 0
    {
      if n in stack {
        out := out + [stack[IndexOf(stack, n)..] + [n]];
        return;
      }
      if n in seen { return; }
      seen, stack := seen + {n}, stack + [n];
      label entered:
      var ms := Succ(g, n);
      VisitSuccessors(ms);
      stack := stack[..|stack| - 1];
    }

    method VisitSuccessors(ms: seq<Node>)
      requires forall m | m in ms :: m in Nodes(g)
      modifies this
      ensures Value() == VisitAll(g, ms, old(Value()))
      decreases Nodes(g) - seen, 1, |ms|
    {
      var i := 0;
      while i < |ms|
        invariant 0 <= i <= |ms|
        invariant old(seen) <= seen
        invariant VisitAll(g, ms[i..], Value()) == VisitAll(g, ms, old(Value()))
      {
        VisitNode(ms[i]);
        assert ms[i..][1..] == ms[i + 1..];
        i := i + 1;
      }
    }
  }

  method FindCycles(g: Graph) returns (out: seq<seq<Node>>)
    ensures out == Find(g)
  {
    var s := new Search(g);
    s.VisitSuccessors(g.keys);
    out := s.out;
  }

  /* ----- every reported list is a simple cycle ----- */

  ghost predicate Sound(g: Graph, s: State) {
    IsWalk(g, s.stack) && Distinct(s.stack) && (forall c | c in s.out :: IsSimpleCycle(g, c))
    && (forall n | n in s.stack :: n in s.seen)
  }

  /** `n` may be visited next: the search is at the top level, or `n` is a successor of the node on top. */
  ghost predicate Next(g: Graph, s: State, n: Node) {
    s.stack == [] || Edge(g, s.stack[|s.stack| - 1], n)
  }

  lemma ReportIsSimpleCycle(g: Graph, stack: seq<Node>, i: nat, n: Node)
    requires IsWalk(g, stack) && Distinct(stack) && i < |stack| && stack[i] == n && Edge(g, stack[|stack| - 1], n)
    ensures IsSimpleCycle(g, stack[i..] + [n])
  {
    var c := stack[i..] + [n];
    assert c[..|c| - 1] == stack[i..];
    forall j | 0 <= j < |c| - 1 ensures Edge(g, c[j], c[j + 1]) {
      assert c[j] == stack[i + j];
      if j < |c| - 2 { assert c[j + 1] == stack[i + j + 1]; }
    }
  }

  lemma {:induction false} VisitSound(g: Graph, n: Node, s: State)
    requires n in Nodes(g) && Sound(g, s) && Next(g, s, n)
    ensures Sound(g, Visit(g, n, s))
    decreases Nodes(g) - s.seen, 0
  {
    if n in s.stack {
      ReportIsSimpleCycle(g, s.stack, IndexOf(s.stack, n), n);
    } else if n !in s.seen {
      var inner := State(s.seen + {n}, s.stack + [n], s.out);
      VisitAllSound(g, Succ(g, n), inner);
      assert VisitAll(g, Succ(g, n), inner).stack[..|s.stack|] == s.stack;
    }
  }

  lemma {:induction false} VisitAllSound(g: Graph, ms: seq<Node>, s: State)
    requires forall m | m in ms :: m in Nodes(g) && Next(g, s, m)
    requires Sound(g, s)
    ensures Sound(g, VisitAll(g, ms, s))
    decreases Nodes(g) - s.seen, 1, |ms|
  {
    if ms != [] {
      VisitSound(g, ms[0], s);
      forall m | m in ms[1..] ensures m in Nodes(g) && Next(g, Visit(g, ms[0], s), m) { assert m in ms; }
      VisitAllSound(g, ms[1..], Visit(g, ms[0], s));
    }
  }

  /** Each list that `_cycles` returns is a closed walk along edges, with distinct nodes but for its endpoint. */
  lemma FoundAreSimpleCycles(g: Graph)
    ensures forall c | c in Find(g) :: IsSimpleCycle(g, c)
  {
    VisitAllSound(g, g.keys, START);
  }

  /* ----- an empty report means the graph has no cycle ----- */

  /** `order` lists distinct nodes, each after all its successors. */
  ghost predicate IsTopological(g: Graph, order: seq<Node>) {
    Distinct(order) && forall i, m | 0 <= i < |order| && Edge(g, order[i], m) :: m in order[..i]
  }

  /** The finished nodes of a search, in the order in which they were finished. */
  ghost predicate Finished(g: Graph, s: State, order: seq<Node>) {
    IsTopological(g, order) && (forall n :: n in order <==> n in s.seen && n !in s.stack)
  }

  lemma {:induction false} VisitOrders(g: Graph, n: Node, s: State, order: seq<Node>) returns (after: seq<Node>)
    requires n in Nodes(g) && Visit(g, n, s).out == s.out
    requires Finished(g, s, order)
    ensures Finished(g, Visit(g, n, s), after) && order <= after && n in after
    decreases Nodes(g) - s.seen, 0
  {
    if n in s.stack {
      assert false;
    } else if n in s.seen {
      after := order;
    } else {
      var inner := State(s.seen + {n}, s.stack + [n], s.out);
      var middle := VisitAllOrders(g, Succ(g, n), inner, order);
      after := middle + [n];
      assert n in inner.stack && n !in middle;
      forall i, m | 0 <= i < |after| && Edge(g, after[i], m) ensures m in after[..i] {
        if i < |middle| {
          assert m in middle[..i] && middle[..i] == after[..i];
        } else {
          assert after[..i] == middle;
        }
      }
    }
  }

  lemma {:induction false} VisitAllOrders(
    g: Graph, ms: seq<Node>, s: State, order: seq<Node>) returns (after: seq<Node>)
    requires forall m | m in ms :: m in Nodes(g)
    requires VisitAll(g, ms, s).out == s.out && Finished(g, s, order)
    ensures Finished(g, VisitAll(g, ms, s), after) && order <= after && forall m | m in ms :: m in after
    decreases Nodes(g) - s.seen, 1, |ms|
  {
    if ms == [] {
      after := order;
    } else {
      var middle := VisitOrders(g, ms[0], s, order);
      after := VisitAllOrders(g, ms[1..], Visit(g, ms[0], s), middle);
      forall m | m in ms ensures m in after { assert m == ms[0] || m in ms[1..]; }
    }
  }

  lemma PositionIn(order: seq<Node>, n: Node) returns (i: nat)
    requires n in order
    ensures i < |order| && order[i] == n
  {
    i := IndexOf(order, n);
  }

  /** Along a walk that stays in a topological order, positions strictly fall. */
  lemma {:induction false} WalkFalls(g: Graph, order: seq<Node>, p: seq<Node>, i: nat, k: nat)
    requires IsTopological(g, order) && |p| >= 1 && IsWalk(g, p)
    requires i < |order| && order[i] == p[0] && k < |p|
    ensures exists j :: 0 <= j <= i && order[j] == p[k] && (k > 0 ==> j < i)
    decreases k
  {
    if k > 0 {
      assert Edge(g, p[0], p[1]);
      var j := PositionIn(order[..i], p[1]);
      WalkFalls(g, order, p[1..], j, k - 1);
    }
  }

  lemma TopologicalAcyclic(g: Graph, order: seq<Node>)
    requires IsTopological(g, order) && forall n | n in g.adj :: n in order
    ensures !Cyclic(g)
  {
    forall c | IsClosedWalk(g, c) ensures false {
      assert Edge(g, c[0], c[1]);
      var i := PositionIn(order, c[0]);
      WalkFalls(g, order, c, i, |c| - 1);
    }
  }

  /** An empty report comes with a topological order of every key. */
  lemma EmptyReportOrders(g: Graph) returns (order: seq<Node>)
    requires Find(g) == []
    ensures IsTopological(g, order) && forall n | n in g.keys :: n in order
  {
    order := VisitAllOrders(g, g.keys, START, []);
  }

  /** `_cycles` reports something exactly when the graph has a directed cycle, self-loops included. */
  lemma ReportsIffCyclic(g: Graph)
    requires WellFormed(g)
    ensures Find(g) != [] <==> Cyclic(g)
  {
    FoundAreSimpleCycles(g);
    if Find(g) == [] {
      var order := EmptyReportOrders(g);
      TopologicalAcyclic(g, order);
    } else {
      assert Find(g)[0] in Find(g);
      assert IsClosedWalk(g, Find(g)[0]);
    }
  }
}

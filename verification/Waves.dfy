/** Greedy provider-first waves over any dependency map, and what they guarantee. */
module Waves {

  type Deps<T> = map<T, set<T>>

  /** Every affected component has an entry, and its providers are affected components too. */
  ghost predicate WellFormed<T(!new)>(affected: set<T>, deps: Deps<T>) {
    deps.Keys == affected && forall c | c in affected :: deps[c] <= affected
  }

  function Ready<T(!new)>(affected: set<T>, deps: Deps<T>, done: set<T>): set<T>
    requires deps.Keys == affected
  {
    set c | c in affected - done && deps[c] <= done
  }

  lemma Remains<T(!new)>(affected: set<T>, done: set<T>) returns (c: T)
    requires done <= affected && done != affected
    ensures c in affected && c !in done
  {
    assert done + (affected - done) == affected && done + {} == done;
    c :| c in affected - done;
  }

  /** The next wave: the components whose providers are delivered, or all that remain if there is none. */
  function Wave<T(!new)>(affected: set<T>, deps: Deps<T>, done: set<T>): (w: set<T>)
    requires deps.Keys == affected
    ensures w <= affected && w !! done
  {
    var ready := Ready(affected, deps, done);
    if ready == {} then affected - done else ready
  }

  lemma WaveNonEmpty<T(!new)>(affected: set<T>, deps: Deps<T>, done: set<T>)
    requires deps.Keys == affected && done <= affected && done != affected
    ensures Wave(affected, deps, done) != {}
  {
    var c := Remains(affected, done);
    assert Ready(affected, deps, done) == {} ==> c in Wave(affected, deps, done);
  }

  /** What the waves before wave `i` deliver. */
  ghost function Delivered<T(!new)>(waves: seq<set<T>>, i: nat): set<T>
    requires i <= |waves|
  {
    if i == 0 then {} else Delivered(waves, i - 1) + waves[i - 1]
  }

  lemma {:induction false} DeliveredBy<T(!new)>(waves: seq<set<T>>, i: nat, c: T) returns (j: nat)
    requires i <= |waves| && c in Delivered(waves, i)
    ensures j < i && c in waves[j]
  {
    if c in waves[i - 1] { j := i - 1; } else { j := DeliveredBy(waves, i - 1, c); }
  }

  lemma {:induction false} DeliveredHolds<T(!new)>(waves: seq<set<T>>, i: nat, j: nat)
    requires j < i <= |waves|
    ensures waves[j] <= Delivered(waves, i)
  {
    if j < i - 1 { DeliveredHolds(waves, i - 1, j); }
  }

  /** The waves of the loop in `change_plan`: each follows from what is delivered before it. */
  ghost predicate Greedy<T(!new)>(affected: set<T>, deps: Deps<T>, waves: seq<set<T>>)
    requires deps.Keys == affected
  {
    forall i {:trigger Delivered(waves, i)} | 0 <= i < |waves| ::
      Delivered(waves, i) <= affected && Delivered(waves, i) != affected
      && waves[i] == Wave(affected, deps, Delivered(waves, i))
  }

  ghost predicate IsPlan<T(!new)>(affected: set<T>, deps: Deps<T>, waves: seq<set<T>>)
    requires deps.Keys == affected
  {
    Greedy(affected, deps, waves) && Delivered(waves, |waves|) == affected
  }

  /* ----- every wave is new, and together they cover the affected components ----- */

  ghost predicate IsPartition<T(!new)>(waves: seq<set<T>>, all: set<T>) {
    && (forall i | 0 <= i < |waves| :: waves[i] != {} && waves[i] <= all)
    && (forall i, j | 0 <= i < j < |waves| :: waves[i] !! waves[j])
    && (forall c | c in all :: exists i :: 0 <= i < |waves| && c in waves[i])
  }

  lemma PlanPartitions<T(!new)>(affected: set<T>, deps: Deps<T>, waves: seq<set<T>>)
    requires deps.Keys == affected && IsPlan(affected, deps, waves)
    ensures IsPartition(waves, affected)
  {
    forall i | 0 <= i < |waves| ensures waves[i] != {} && waves[i] <= affected {
      WaveNonEmpty(affected, deps, Delivered(waves, i));
    }
    forall i, j | 0 <= i < j < |waves| ensures waves[i] !! waves[j] {
      DeliveredHolds(waves, j, i);
    }
    forall c | c in affected ensures exists i :: 0 <= i < |waves| && c in waves[i] {
      var i := DeliveredBy(waves, |waves|, c);
    }
  }

  lemma OneWave<T(!new)>(affected: set<T>, deps: Deps<T>, waves: seq<set<T>>, i: nat, j: nat, c: T)
    requires deps.Keys == affected && Greedy(affected, deps, waves) && i < j < |waves|
    ensures c !in waves[i] || c !in waves[j]
  {
    DeliveredHolds(waves, j, i);
    assert Delivered(waves, j) <= affected;
  }

  /** All providers of wave `i` are in a strictly earlier wave. */
  ghost predicate Provided<T(!new)>(deps: Deps<T>, waves: seq<set<T>>, i: int)
    requires 0 <= i < |waves|
  {
    forall c, p | c in waves[i] && c in deps && p in deps[c] :: exists j :: 0 <= j < i && p in waves[j]
  }

  ghost predicate ProviderFirst<T(!new)>(deps: Deps<T>, waves: seq<set<T>>) {
    forall i | 0 <= i < |waves| :: Provided(deps, waves, i)
  }

  lemma ReadyIsProvided<T(!new)>(affected: set<T>, deps: Deps<T>, waves: seq<set<T>>, i: nat)
    requires deps.Keys == affected && Greedy(affected, deps, waves) && i < |waves|
    requires Ready(affected, deps, Delivered(waves, i)) != {}
    ensures Provided(deps, waves, i)
  {
    forall c, p | c in waves[i] && c in deps && p in deps[c] ensures exists j :: 0 <= j < i && p in waves[j] {
      var j := DeliveredBy(waves, i, p);
    }
  }

  /** Only the last wave can break the provider-first order, whatever the dependencies are. */
  lemma OnlyLastWaveBreaks<T(!new)>(affected: set<T>, deps: Deps<T>, waves: seq<set<T>>, i: nat)
    requires WellFormed(affected, deps) && IsPlan(affected, deps, waves) && i + 1 < |waves|
    ensures Provided(deps, waves, i)
  {
    assert Delivered(waves, i + 1) == Delivered(waves, i) + waves[i];
    if Ready(affected, deps, Delivered(waves, i)) == {} {
      assert Delivered(waves, i + 1) == affected;
    } else {
      ReadyIsProvided(affected, deps, waves, i);
    }
  }

  /* ----- without a dependency cycle no wave breaks the order ----- */

  lemma {:induction false} EarliestRemaining<T(!new)>(order: seq<T>, remaining: set<T>, c: T) returns (i: nat)
    requires c in remaining && c in order
    ensures i < |order| && order[i] in remaining && forall j | 0 <= j < i :: order[j] !in remaining
  {
    if order[0] in remaining {
      i := 0;
    } else {
      var k := EarliestRemaining(order[1..], remaining, c);
      i := k + 1;
      assert forall j | 0 < j < i :: order[j] == order[1..][j - 1];
    }
  }

  /** `order` lists every affected component after its dependencies. */
  ghost predicate Orders<T(!new)>(affected: set<T>, deps: Deps<T>, order: seq<T>) {
    (forall c | c in affected :: c in order)
    && forall i, p | 0 <= i < |order| && order[i] in deps && p in deps[order[i]] :: p in order[..i]
  }

  lemma SomethingReady<T(!new)>(affected: set<T>, deps: Deps<T>, done: set<T>, order: seq<T>)
    requires WellFormed(affected, deps) && done <= affected && done != affected
    requires Orders(affected, deps, order)
    ensures Ready(affected, deps, done) != {}
  {
    var c := Remains(affected, done);
    var i := EarliestRemaining(order, affected - done, c);
    assert forall p | p in deps[order[i]] :: p in done;
    assert order[i] in Ready(affected, deps, done);
  }

  /** Each component of the chain depends on the next. */
  ghost predicate IsChain<T(!new)>(deps: Deps<T>, p: seq<T>) {
    |p| > 0 && forall i | 0 <= i < |p| - 1 :: p[i] in deps && p[i + 1] in deps[p[i]]
  }

  ghost predicate HasCycle<T(!new)>(deps: Deps<T>) {
    exists p :: IsChain(deps, p) && |p| >= 2 && p[0] == p[|p| - 1]
  }

  /** Along dependencies the wave number strictly falls. */
  lemma {:induction false} ChainDescends<T(!new)>(deps: Deps<T>, waves: seq<set<T>>, p: seq<T>, i: nat)
    requires ProviderFirst(deps, waves) && IsChain(deps, p)
    requires i < |waves| && p[0] in waves[i]
    ensures |p| <= i + 1
    ensures exists j :: 0 <= j <= i && p[|p| - 1] in waves[j] && (|p| > 1 ==> j < i)
    decreases |p|
  {
    if |p| > 1 {
      assert p[0] in deps && p[1] in deps[p[0]];
      var j := ProviderWave(deps, waves, i, p[0], p[1]);
      ChainDescends(deps, waves, p[1..], j);
    }
  }

  lemma OrderedIsProviderFirst<T(!new)>(affected: set<T>, deps: Deps<T>, waves: seq<set<T>>, order: seq<T>)
    requires WellFormed(affected, deps) && IsPlan(affected, deps, waves) && Orders(affected, deps, order)
    ensures ProviderFirst(deps, waves)
  {
    forall i | 0 <= i < |waves| ensures Provided(deps, waves, i) {
      SomethingReady(affected, deps, Delivered(waves, i), order);
      ReadyIsProvided(affected, deps, waves, i);
    }
  }

  lemma ProviderFirstIsAcyclic<T(!new)>(affected: set<T>, deps: Deps<T>, waves: seq<set<T>>)
    requires WellFormed(affected, deps) && IsPlan(affected, deps, waves) && ProviderFirst(deps, waves)
    ensures !HasCycle(deps)
  {
    forall c | IsChain(deps, c) && |c| >= 2 && c[0] == c[|c| - 1] ensures false {
      assert c[0] in deps;
      var i := DeliveredBy(waves, |waves|, c[0]);
      ChainDescends(deps, waves, c, i);
      var j :| 0 <= j < i && c[0] in waves[j];
      OneWave(affected, deps, waves, j, i, c[0]);
    }
  }

  /* ----- the wave number is the length of the longest dependency chain ----- */

  lemma ProviderWave<T(!new)>(deps: Deps<T>, waves: seq<set<T>>, i: nat, c: T, d: T) returns (j: nat)
    requires ProviderFirst(deps, waves) && i < |waves| && c in waves[i] && c in deps && d in deps[c]
    ensures j < i && d in waves[j]
  {
    assert Provided(deps, waves, i);
    j :| 0 <= j < i && d in waves[j];
  }

  lemma NotReady<T(!new)>(affected: set<T>, deps: Deps<T>, done: set<T>, c: T) returns (d: T)
    requires deps.Keys == affected && c in affected && c !in done && c !in Wave(affected, deps, done)
    ensures d in deps[c] && d !in done
  {
    assert c !in Ready(affected, deps, done);
    d :| d in deps[c] && d !in done;
  }

  /** A component of wave `i > 0` was not ready one wave earlier, so a provider of it is in wave `i - 1`. */
  lemma PreviousProvider<T(!new)>(affected: set<T>, deps: Deps<T>, waves: seq<set<T>>, i: nat, c: T) returns (d: T)
    requires deps.Keys == affected && IsPlan(affected, deps, waves) && ProviderFirst(deps, waves)
    requires 0 < i < |waves| && c in waves[i]
    ensures c in affected && d in deps[c] && d in waves[i - 1]
  {
    var before := Delivered(waves, i - 1);
    assert Delivered(waves, i) == before + waves[i - 1];
    d := NotReady(affected, deps, before, c);
    var j := ProviderWave(deps, waves, i, c, d);
    if j < i - 1 { DeliveredHolds(waves, i - 1, j); }
  }

  lemma {:induction false} ChainOfWave<T(!new)>(affected: set<T>, deps: Deps<T>, waves: seq<set<T>>, i: nat, c: T)
    returns (p: seq<T>)
    requires WellFormed(affected, deps) && IsPlan(affected, deps, waves) && ProviderFirst(deps, waves)
    requires i < |waves| && c in waves[i]
    ensures IsChain(deps, p) && p[0] == c && |p| == i + 1
    decreases i
  {
    if i == 0 {
      p := [c];
    } else {
      var d := PreviousProvider(affected, deps, waves, i, c);
      var rest := ChainOfWave(affected, deps, waves, i - 1, d);
      p := [c] + rest;
    }
  }

  /** A component of wave `i` starts a dependency chain of `i + 1` components and none that is longer. */
  ghost predicate WaveIsLongestChain<T(!new)>(deps: Deps<T>, i: nat, c: T) {
    && (exists p :: IsChain(deps, p) && p[0] == c && |p| == i + 1)
    && (forall p | IsChain(deps, p) && p[0] == c :: |p| <= i + 1)
  }

  lemma LongestChain<T(!new)>(affected: set<T>, deps: Deps<T>, waves: seq<set<T>>, i: nat, c: T)
    requires WellFormed(affected, deps) && IsPlan(affected, deps, waves) && ProviderFirst(deps, waves)
    requires i < |waves| && c in waves[i]
    ensures WaveIsLongestChain(deps, i, c)
  {
    var p := ChainOfWave(affected, deps, waves, i, c);
    forall p | IsChain(deps, p) && p[0] == c ensures |p| <= i + 1 {
      ChainDescends(deps, waves, p, i);
    }
  }

  lemma LongestChains<T(!new)>(affected: set<T>, deps: Deps<T>, waves: seq<set<T>>)
    requires WellFormed(affected, deps) && IsPlan(affected, deps, waves) && ProviderFirst(deps, waves)
    ensures forall i, c | 0 <= i < |waves| && c in waves[i] :: WaveIsLongestChain(deps, i, c)
  {
    forall i, c | 0 <= i < |waves| && c in waves[i] ensures WaveIsLongestChain(deps, i, c) {
      LongestChain(affected, deps, waves, i, c);
    }
  }

  lemma {:induction false} DeliveredOfPrefix<T(!new)>(waves: seq<set<T>>, w: set<T>, i: nat)
    requires i <= |waves|
    ensures Delivered(waves + [w], i) == Delivered(waves, i)
  {
    if i > 0 { DeliveredOfPrefix(waves, w, i - 1); }
  }

  lemma GreedyStep<T(!new)>(affected: set<T>, deps: Deps<T>, waves: seq<set<T>>)
    requires deps.Keys == affected && Greedy(affected, deps, waves)
    requires Delivered(waves, |waves|) <= affected && Delivered(waves, |waves|) != affected
    ensures var w := Wave(affected, deps, Delivered(waves, |waves|));
      Greedy(affected, deps, waves + [w]) && Delivered(waves + [w], |waves| + 1) == Delivered(waves, |waves|) + w
  {
    var w := Wave(affected, deps, Delivered(waves, |waves|));
    forall i | 0 <= i <= |waves|
      ensures Delivered(waves + [w], i) == Delivered(waves, i) { DeliveredOfPrefix(waves, w, i); }
  }

  /* ----- there is only one plan ----- */

  lemma {:induction false} PlansShareWaves<T(!new)>(
    affected: set<T>, deps: Deps<T>, a: seq<set<T>>, b: seq<set<T>>, i: nat)
    requires deps.Keys == affected && IsPlan(affected, deps, a) && IsPlan(affected, deps, b) && i <= |a|
    ensures i <= |b| && Delivered(a, i) == Delivered(b, i) && forall k | 0 <= k < i :: a[k] == b[k]
  {
    if i > 0 { PlansShareWaves(affected, deps, a, b, i - 1); }
  }

  /** The dependencies determine the plan. */
  lemma PlanUnique<T(!new)>(affected: set<T>, deps: Deps<T>, a: seq<set<T>>, b: seq<set<T>>)
    requires deps.Keys == affected && IsPlan(affected, deps, a) && IsPlan(affected, deps, b)
    ensures a == b
  {
    PlansShareWaves(affected, deps, a, b, |a|);
    PlansShareWaves(affected, deps, b, a, |b|);
  }
}

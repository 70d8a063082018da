/** The playground's in-memory transport: bounded queues, topic fan-out, atomic publish. */
module Transport {
  import opened Basics

  const U64_MAX: nat := 0xFFFF_FFFF_FFFF_FFFF

  datatype Subscriber<T> = Subscriber(topic: string, queue: seq<T>, capacity: nat)

  datatype SendResult = Delivered(count: nat) | Backpressure(topic: string, subscriptionId: nat)

  /* ----- the transport as a value ----- */

  datatype State<T> = State(nextId: nat, subscribers: map<nat, Subscriber<T>>)

  function Fresh<T>(): State<T> { State(0, map[]) }

  ghost function Matching<T>(s: State<T>, topic: string): set<nat> {
    set id | id in s.subscribers && s.subscribers[id].topic == topic
  }

  predicate IsFull<T>(sub: Subscriber<T>) { |sub.queue| >= sub.capacity }

  /** A matching subscriber has no room. */
  ghost predicate Blocked<T>(s: State<T>, topic: string) {
    exists id :: id in Matching(s, topic) && IsFull(s.subscribers[id])
  }

  ghost predicate LowestBlocked<T>(s: State<T>, topic: string, id: nat) {
    id in Matching(s, topic) && IsFull(s.subscribers[id])
    && forall other | other in Matching(s, topic) && IsFull(s.subscribers[other]) :: id <= other
  }

  function Appended<T>(sub: Subscriber<T>, topic: string, message: T): Subscriber<T> {
    if sub.topic == topic then sub.(queue := sub.queue + [message]) else sub
  }

  ghost function AfterPublish<T>(s: State<T>, topic: string, message: T): State<T> {
    if Blocked(s, topic) then s
    else s.(subscribers := map id | id in s.subscribers :: Appended(s.subscribers[id], topic, message))
  }

  /** A capacity of zero panics, and so does the 64-bit id counter at its end: every build profile of the workspace
      checks for overflow. Either panic comes before anything has changed. */
  predicate CanSubscribe<T>(s: State<T>, capacity: nat) { capacity > 0 && s.nextId < U64_MAX }

  function AfterSubscribe<T>(s: State<T>, topic: string, capacity: nat): State<T> {
    if CanSubscribe(s, capacity) then State(s.nextId + 1, s.subscribers[s.nextId := Subscriber(topic, [], capacity)])
      else s
  }

  function AfterReceive<T>(s: State<T>, id: nat): State<T> {
    if id in s.subscribers && s.subscribers[id].queue != []
    then s.(subscribers := s.subscribers[id := s.subscribers[id].(queue := s.subscribers[id].queue[1..])])
    else s
  }

  function ReceivedBy<T>(s: State<T>, id: nat): Option<T> {
    if id in s.subscribers && s.subscribers[id].queue != [] then Some(s.subscribers[id].queue[0]) else None
  }

  function AfterUnsubscribe<T>(s: State<T>, id: nat): State<T> {
    s.(subscribers := s.subscribers - {id})
  }

  /* ----- the transport as the source runs it ----- */

  predicate Ascending(ids: seq<nat>) {
    forall i, j | 0 <= i < j < |ids| :: ids[i] < ids[j]
  }

  lemma {:induction false} SmallestExists(ids: set<nat>) returns (k: nat)
    requires ids != {}
    ensures k in ids && forall x | x in ids :: k <= x
    decreases ids
  {
    k :| k in ids;
    if ids != {k} {
      assert ids == (ids - {k}) + {k};
      var other := SmallestExists(ids - {k});
      k := if k < other then k else other;
      assert forall x | x in ids :: x in ids - {k} || x == k;
    }
  }

  class InMemoryTransport<T(!new)> {
    var nextSubscriptionId: nat
    var subscribers: map<nat, Subscriber<T>>

    ghost function Value(): State<T>
      reads this
    {
      State(nextSubscriptionId, subscribers)
    }

    constructor ()
      ensures Value() == Fresh()
    {
      nextSubscriptionId, subscribers := 0, map[];
    }

    /** `None` stands for a panic. */
    method Subscribe(topic: string, capacity: nat) returns (id: Option<nat>)
      modifies this
      ensures id == if CanSubscribe(old(Value()), capacity) then Some(old(nextSubscriptionId)) else None
      ensures Value() == AfterSubscribe(old(Value()), topic, capacity)
    {
      if capacity == 0 || nextSubscriptionId >= U64_MAX { return None; }
      id := Some(nextSubscriptionId);
      nextSubscriptionId := nextSubscriptionId + 1;
      subscribers := subscribers[id.value := Subscriber(topic, [], capacity)];
    }

    /** The keys of a `BTreeMap` come in ascending order. */
    method MatchingIds(topic: string) returns (matching: seq<nat>)
      ensures Ascending(matching) && (forall id :: id in matching <==> id in Matching(Value(), topic))
      ensures |matching| == |Matching(Value(), topic)|
      ensures forall i | 0 <= i < |matching| :: matching[i] in subscribers && subscribers[matching[i]].topic == topic
    {
      var left := set id | id in subscribers && subscribers[id].topic == topic;
      assert left == Matching(Value(), topic);
      matching := [];
      while left != {}
        invariant left <= Matching(Value(), topic) && |matching| + |left| == |Matching(Value(), topic)|
        invariant Ascending(matching) && (forall i, x | 0 <= i < |matching| && x in left :: matching[i] < x)
        invariant forall id :: id in matching <==> id in Matching(Value(), topic) && id !in left
      {
        ghost var smallest := SmallestExists(left);
        var id :| id in left && forall x | x in left :: id <= x;
        matching := matching + [id];
        left := left - {id};
      }
      assert forall i | 0 <= i < |matching| :: matching[i] in matching;
    }

    method Publish(topic: string, message: T) returns (r: SendResult)
      modifies this
      ensures Value() == AfterPublish(old(Value()), topic, message)
      ensures r.Backpressure? <==> Blocked(old(Value()), topic)
      ensures r.Backpressure? ==> r.topic == topic && LowestBlocked(old(Value()), topic, r.subscriptionId)
      ensures r.Delivered? ==> r.count == |Matching(old(Value()), topic)|
    {
      var matching := MatchingIds(topic);
      for i := 0 to |matching|
        invariant forall j | 0 <= j < i :: !IsFull(subscribers[matching[j]])
      {
        assert matching[i] in matching;
        if IsFull(subscribers[matching[i]]) {
          return Backpressure(topic, matching[i]);
        }
      }
      assert !Blocked(Value(), topic);
      ghost var before := subscribers;
      for i := 0 to |matching|
        invariant nextSubscriptionId == old(nextSubscriptionId) && subscribers.Keys == before.Keys
        invariant forall id | id in before ::
                    subscribers[id] == if id in matching[..i] then Appended(before[id], topic, message) else before[id]
      {
        var id := matching[i];
        assert id in matching && id !in matching[..i] && id in before;
        subscribers := subscribers[id := subscribers[id].(queue := subscribers[id].queue + [message])];
        assert matching[..i + 1] == matching[..i] + [id];
      }
      assert matching[..|matching|] == matching;
      forall id | id in before ensures subscribers[id] == Appended(before[id], topic, message) {
        assert id in matching <==> id in Matching(old(Value()), topic);
      }
      assert subscribers == map id | id in before :: Appended(before[id], topic, message);
      r := Delivered(|matching|);
    }

    method Receive(id: nat) returns (m: Option<T>)
      modifies this
      ensures m == ReceivedBy(old(Value()), id) && Value() == AfterReceive(old(Value()), id)
    {
      m := None;
      if id in subscribers && subscribers[id].queue != [] {
        m := Some(subscribers[id].queue[0]);
        subscribers := subscribers[id := subscribers[id].(queue := subscribers[id].queue[1..])];
      }
    }

    method Unsubscribe(id: nat) returns (removed: bool)
      modifies this
      ensures removed == (id in old(subscribers)) && Value() == AfterUnsubscribe(old(Value()), id)
    {
      removed := id in subscribers;
      subscribers := subscribers - {id};
    }
  }

  /* ----- runs ----- */

  datatype Call<T> =
    | Subscribing(topic: string, capacity: nat)
    | Publishing(topic: string, message: T)
    | Receiving(id: nat)
    | Unsubscribing(id: nat)

  ghost function Step<T(!new)>(s: State<T>, call: Call<T>): State<T> {
    match call
    case Subscribing(topic, capacity) => AfterSubscribe(s, topic, capacity)
    case Publishing(topic, message) => AfterPublish(s, topic, message)
    case Receiving(id) => AfterReceive(s, id)
    case Unsubscribing(id) => AfterUnsubscribe(s, id)
  }

  ghost function Run<T(!new)>(calls: seq<Call<T>>): State<T> {
    if calls == [] then Fresh() else Step(Run(calls[..|calls| - 1]), calls[|calls| - 1])
  }

  /** The messages that one call puts on a topic. */
  ghost function LoggedNow<T(!new)>(s: State<T>, call: Call<T>, topic: string): seq<T> {
    if call.Publishing? && call.topic == topic && !Blocked(s, topic) then [call.message] else []
  }

  /** The log of a topic: the messages accepted on it, in order. */
  ghost function Log<T(!new)>(calls: seq<Call<T>>, topic: string): seq<T> {
    if calls == [] then []
    else
      var front := calls[..|calls| - 1];
      Log(front, topic) + LoggedNow(Run(front), calls[|calls| - 1], topic)
  }

  /** What one call hands to consumer `id`. */
  ghost function ReceivedNow<T(!new)>(s: State<T>, call: Call<T>, id: nat): seq<T> {
    if call == Receiving(id) && ReceivedBy(s, id).Some? then [ReceivedBy(s, id).value] else []
  }

  /** The messages consumer `id` received. */
  ghost function Received<T(!new)>(calls: seq<Call<T>>, id: nat): seq<T> {
    if calls == [] then []
    else
      var front := calls[..|calls| - 1];
      Received(front, id) + ReceivedNow(Run(front), calls[|calls| - 1], id)
  }

  /** Call `k` of the run is the subscription that returned `id`. */
  ghost predicate SubscribedAt<T(!new)>(calls: seq<Call<T>>, k: nat, id: nat) {
    k < |calls| && calls[k].Subscribing? && CanSubscribe(Run(calls[..k]), calls[k].capacity)
    && Run(calls[..k]).nextId == id
  }

  /** Every live id has been handed out, and the counter is within 64 bits. */
  ghost predicate IdsBelow<T>(s: State<T>) {
    s.nextId <= U64_MAX && forall id | id in s.subscribers :: id < s.nextId
  }

  lemma {:induction false} RunIdsBelow<T(!new)>(calls: seq<Call<T>>)
    ensures IdsBelow(Run(calls))
  {
    if calls != [] { RunIdsBelow(calls[..|calls| - 1]); }
  }

  /** A consumer that is there before and after a call keeps topic and capacity, and the call moves received, queued and
      logged messages alike. */
  lemma StepBalances<T(!new)>(s: State<T>, call: Call<T>, id: nat)
    requires IdsBelow(s) && id in s.subscribers && id in Step(s, call).subscribers
    ensures var before, after := s.subscribers[id], Step(s, call).subscribers[id];
      && after.topic == before.topic && after.capacity == before.capacity
      && ReceivedNow(s, call, id) + after.queue == before.queue + LoggedNow(s, call, before.topic)
      && (|before.queue| <= before.capacity ==> |after.queue| <= after.capacity)
  {
    if call.Publishing? && !Blocked(s, call.topic) && id in Matching(s, call.topic) {
      assert !IsFull(s.subscribers[id]);
    }
  }

  /** An id that has not been handed out has received nothing. */
  lemma {:induction false} NothingReceivedYet<T(!new)>(calls: seq<Call<T>>, id: nat)
    requires id >= Run(calls).nextId
    ensures Received(calls, id) == []
  {
    if calls != [] {
      var front := calls[..|calls| - 1];
      RunIdsBelow(front);
      NothingReceivedYet(front, id);
    }
  }

  lemma NewConsumer<T(!new)>(calls: seq<Call<T>>, id: nat)
    requires calls != [] && SubscribedAt(calls, |calls| - 1, id)
    ensures var last := calls[|calls| - 1];
      id in Run(calls).subscribers && Run(calls).subscribers[id] == Subscriber(last.topic, [], last.capacity)
    ensures Received(calls, id) == [] && forall topic :: Log(calls, topic) == Log(calls[..|calls| - 1], topic)
  {
    NothingReceivedYet(calls[..|calls| - 1], id);
  }

  lemma SubscribedEarlier<T(!new)>(calls: seq<Call<T>>, k: nat, id: nat)
    requires SubscribedAt(calls, k, id) && k < |calls| - 1
    ensures SubscribedAt(calls[..|calls| - 1], k, id) && calls[..|calls| - 1][..k] == calls[..k]
  {
    assert calls[..|calls| - 1][..k] == calls[..k];
  }

  lemma {:induction false} CounterGrows<T(!new)>(calls: seq<Call<T>>, k: nat)
    requires k <= |calls|
    ensures Run(calls[..k]).nextId <= Run(calls).nextId
  {
    if k == |calls| {
      assert calls[..k] == calls;
    } else {
      CounterGrows(calls[..|calls| - 1], k);
      assert calls[..|calls| - 1][..k] == calls[..k];
    }
  }

  /** Two subscriptions of a run never return the same id: a later one returns a larger id. */
  lemma IdsNeverReused<T(!new)>(calls: seq<Call<T>>, j: nat, k: nat, a: nat, b: nat)
    requires j < k && SubscribedAt(calls, j, a) && SubscribedAt(calls, k, b)
    ensures a < b
  {
    var upto := calls[..k];
    assert upto[..j + 1][..j] == calls[..j] && upto[..j + 1][j] == calls[j];
    CounterGrows(upto, j + 1);
  }

  /** Every live consumer was subscribed by one call of the run, and only by that one. */
  lemma {:induction false} LiveWasSubscribed<T(!new)>(calls: seq<Call<T>>, id: nat) returns (k: nat)
    requires id in Run(calls).subscribers
    ensures SubscribedAt(calls, k, id) && forall j: nat | SubscribedAt(calls, j, id) :: j == k
  {
    var front, last := calls[..|calls| - 1], calls[|calls| - 1];
    if id in Run(front).subscribers {
      k := LiveWasSubscribed(front, id);
      assert front[..k] == calls[..k];
    } else {
      k := |calls| - 1;
    }
    forall j: nat | SubscribedAt(calls, j, id) ensures j == k {
      if j < k { IdsNeverReused(calls, j, k, id, id); }
      if k < j { IdsNeverReused(calls, k, j, id, id); }
    }
  }

  lemma StillThere<T(!new)>(calls: seq<Call<T>>, k: nat, id: nat)
    requires SubscribedAt(calls, k, id) && k < |calls| - 1 && id in Run(calls).subscribers
    ensures id in Run(calls[..|calls| - 1]).subscribers
  {
    var front := calls[..|calls| - 1];
    assert front[..k + 1][..k] == calls[..k] && front[..k + 1][k] == calls[k];
    CounterGrows(front, k + 1);
  }

  /** In every run a live consumer keeps the topic and the capacity it subscribed with; what it received, followed by
      what waits in its queue, is the log of that topic since the subscription; and its queue keeps within its
      capacity. */
  lemma {:induction false} EveryRunIsFifo<T(!new)>(calls: seq<Call<T>>, k: nat, id: nat)
    requires SubscribedAt(calls, k, id) && id in Run(calls).subscribers
    ensures var sub := Run(calls).subscribers[id];
      && sub.topic == calls[k].topic && sub.capacity == calls[k].capacity && |sub.queue| <= sub.capacity
      && Log(calls, sub.topic) == Log(calls[..k], sub.topic) + (Received(calls, id) + sub.queue)
    decreases |calls|
  {
    if k == |calls| - 1 {
      NewConsumer(calls, id);
      var topic := calls[k].topic;
      assert Log(calls, topic) == Log(calls[..k], topic) + ([] + []);
    } else {
      var front, call := calls[..|calls| - 1], calls[|calls| - 1];
      SubscribedEarlier(calls, k, id);
      StillThere(calls, k, id);
      RunIdsBelow(front);
      StepBalances(Run(front), call, id);
      EveryRunIsFifo(front, k, id);
      var before, after := Run(front).subscribers[id], Run(calls).subscribers[id];
      hide Step, LoggedNow, ReceivedNow, SubscribedAt;
      Balance(Log(calls[..k], after.topic), Received(front, id), before.queue, LoggedNow(Run(front), call, after.topic),
        ReceivedNow(Run(front), call, id), after.queue);
    }
  }

  /** What is logged moves to the end of the queue, what is received comes off its front. */
  lemma Balance<T>(earlier: seq<T>, received: seq<T>, queue: seq<T>, logged: seq<T>, now: seq<T>, queued: seq<T>)
    requires now + queued == queue + logged
    ensures earlier + (received + queue) + logged == earlier + ((received + now) + queued)
  {
    Associate(received, queue, logged);
    Associate(received, now, queued);
    Associate(earlier, received + queue, logged);
  }

  /** A rejected publish changes nothing, and it is rejected exactly when a subscriber of the topic is full. */
  lemma RejectedPublishChangesNothing<T(!new)>(calls: seq<Call<T>>, topic: string, message: T)
    ensures Run(calls + [Publishing(topic, message)]) == Run(calls)
            <==> Blocked(Run(calls), topic) || Matching(Run(calls), topic) == {}
  {
    var s, after := Run(calls), calls + [Publishing(topic, message)];
    assert after[..|after| - 1] == calls;
    if !Blocked(s, topic) && Matching(s, topic) != {} {
      var id :| id in Matching(s, topic);
      assert AfterPublish(s, topic, message).subscribers[id].queue != s.subscribers[id].queue;
    } else if !Blocked(s, topic) {
      assert forall id | id in s.subscribers :: id !in Matching(s, topic);
      assert AfterPublish(s, topic, message).subscribers == s.subscribers;
    }
  }
}

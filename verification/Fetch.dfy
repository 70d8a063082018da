/** The bounded concurrent download loop that both `materialize` functions run. */
module Fetch {
  import opened Basics

  /** What both scripts return, or the exception they share. */
  datatype Result<+T> = Ok(value: T) | MaterialFailed

  const MAX_TOTAL: nat := 1024 * 1024 * 1024
  const WORKERS: nat := 4

  /** One archive to download: where it is written and under what key it is recorded. `data` is what fetching and
      verifying it yields, `None` if either raises. */
  datatype Job<K> = Job(key: K, path: string, data: Download)

  datatype Download = Failed | Verified(bytes: Bytes)

  datatype Outcome = Rejected | Fetched(files: map<string, Bytes>, sizes: seq<nat>)

  /* ----- what the loop has to compute ----- */

  ghost predicate AllVerified<K(!new)>(plan: seq<Job<K>>) {
    forall i | 0 <= i < |plan| :: plan[i].data.Verified?
  }

  ghost predicate DistinctPaths<K(!new)>(plan: seq<Job<K>>) {
    forall i, j | 0 <= i < j < |plan| :: plan[i].path != plan[j].path
  }

  ghost predicate DistinctKeys<K(!new)>(plan: seq<Job<K>>) {
    forall i, j | 0 <= i < j < |plan| :: plan[i].key != plan[j].key
  }

  function Size<K(!new)>(job: Job<K>): nat {
    match job.data
    case Failed => 0
    case Verified(bytes) => |bytes|
  }

  function TotalSize<K(!new)>(plan: seq<Job<K>>): nat {
    if plan == [] then 0 else TotalSize(plan[..|plan| - 1]) + Size(plan[|plan| - 1])
  }

  ghost predicate Succeeds<K(!new)>(plan: seq<Job<K>>) {
    AllVerified(plan) && DistinctPaths(plan) && TotalSize(plan) <= MAX_TOTAL
  }

  /** The files of a complete download. */
  ghost predicate HoldsFiles<K(!new)>(plan: seq<Job<K>>, finished: set<nat>, files: map<string, Bytes>) {
    && (forall i | i in finished ::
          i < |plan| && plan[i].data.Verified? && plan[i].path in files && files[plan[i].path] == plan[i].data.bytes)
    && (forall p | p in files :: exists i :: i in finished && i < |plan| && plan[i].path == p)
  }

  /** The positions below `n`. */
  ghost function Below(n: nat): (s: set<nat>)
    ensures forall i: nat :: i in s <==> i < n
  {
    if n == 0 then {} else Below(n - 1) + {n - 1}
  }

  ghost function Everything<K(!new)>(plan: seq<Job<K>>): set<nat> { Below(|plan|) }

  /* ----- the states of the loop ----- */

  /** Entries are known by their position in the plan. */
  datatype Snapshot = Snapshot(next: nat, pending: set<nat>, finished: set<nat>)

  /** At most four downloads are pending, and pending, finished and unsubmitted entries partition the plan. */
  ghost predicate IsBounded<K(!new)>(plan: seq<Job<K>>, s: Snapshot) {
    && |s.pending| <= WORKERS
    && s.next <= |plan|
    && s.pending !! s.finished
    && (forall i: nat :: i in s.pending || i in s.finished <==> i < s.next)
  }

  const NOTHING_YET: Snapshot := Snapshot(0, {}, {})

  ghost predicate IsSubmission<K(!new)>(plan: seq<Job<K>>, s: Snapshot, t: Snapshot) {
    s.next < |plan| && t == s.(next := s.next + 1, pending := s.pending + {s.next})
  }

  ghost predicate IsCompletion(s: Snapshot, t: Snapshot) {
    exists i :: i in s.pending && t == s.(pending := s.pending - {i}, finished := s.finished + {i})
  }

  /** The states of a run of the loop, from the start to where it stands: each follows from the one before by one
      submission or one completion, and in none is more than the allowed number of downloads pending. */
  ghost predicate IsTrace<K(!new)>(plan: seq<Job<K>>, trace: seq<Snapshot>) {
    && trace != [] && trace[0] == NOTHING_YET
    && (forall k | 0 <= k < |trace| :: IsBounded(plan, trace[k]))
    && (forall k | 0 <= k < |trace| - 1 ::
          IsSubmission(plan, trace[k], trace[k + 1]) || IsCompletion(trace[k], trace[k + 1]))
  }

  ghost predicate EndsAt(trace: seq<Snapshot>, s: Snapshot) { trace != [] && trace[|trace| - 1] == s }

  lemma TraceGrows<K(!new)>(plan: seq<Job<K>>, trace: seq<Snapshot>, s: Snapshot, t: Snapshot)
    requires IsTrace(plan, trace) && EndsAt(trace, s) && IsBounded(plan, t)
    requires IsSubmission(plan, s, t) || IsCompletion(s, t)
    ensures IsTrace(plan, trace + [t]) && EndsAt(trace + [t], t)
  {
    hide IsBounded, IsSubmission, IsCompletion;
    var longer := trace + [t];
    assert longer[|trace| - 1] == s && longer[|trace|] == t;
    assert forall k | 0 <= k < |trace| :: longer[k] == trace[k];
  }

  /** In the end all entries are finished: a run that succeeds has been through every submission and completion. */
  ghost predicate Completes<K(!new)>(plan: seq<Job<K>>, trace: seq<Snapshot>) {
    EndsAt(trace, Snapshot(|plan|, {}, Everything(plan)))
  }

  /** The size of the finished entries among the first `n`. */
  ghost function FinishedSize<K(!new)>(plan: seq<Job<K>>, finished: set<nat>, n: nat): nat
    requires n <= |plan|
  {
    if n == 0 then 0 else FinishedSize(plan, finished, n - 1) + if n - 1 in finished then Size(plan[n - 1]) else 0
  }

  lemma {:induction false} FinishOne<K(!new)>(plan: seq<Job<K>>, finished: set<nat>, i: nat, n: nat)
    requires n <= |plan| && i !in finished
    ensures FinishedSize(plan, finished + {i}, n)
            == FinishedSize(plan, finished, n) + if i < n then Size(plan[i]) else 0
  {
    if n > 0 { FinishOne(plan, finished, i, n - 1); }
  }

  lemma {:induction false} FinishedAtMostTotal<K(!new)>(plan: seq<Job<K>>, finished: set<nat>, n: nat)
    requires n <= |plan|
    ensures FinishedSize(plan, finished, n) <= TotalSize(plan[..n])
    ensures (forall i | 0 <= i < n :: i in finished) ==> FinishedSize(plan, finished, n) == TotalSize(plan[..n])
  {
    if n > 0 {
      FinishedAtMostTotal(plan, finished, n - 1);
      assert plan[..n][..n - 1] == plan[..n - 1];
    }
  }

  lemma NothingFinished<K(!new)>(plan: seq<Job<K>>, n: nat)
    requires n <= |plan|
    ensures FinishedSize(plan, {}, n) == 0
  {
    if n > 0 { NothingFinished(plan, n - 1); }
  }

  ghost predicate NoCollision<K(!new)>(plan: seq<Job<K>>, finished: set<nat>) {
    forall i, j | i in finished && j in finished && i < j < |plan| :: plan[i].path != plan[j].path
  }

  /** Sizes are recorded under the keys of the finished entries. */
  ghost predicate Recorded<K(!new)>(plan: seq<Job<K>>, finished: set<nat>, verified: map<K, nat>) {
    forall i | i in finished && i < |plan| :: plan[i].key in verified && verified[plan[i].key] == Size(plan[i])
  }

  /** What holds between two completions of a round; `owed` counts the completions whose workers are still idle. */
  ghost predicate Working<K(!new)>(
    plan: seq<Job<K>>, s: Snapshot, owed: nat, total: nat, files: map<string, Bytes>, verified: map<K, nat>) {
    && IsBounded(plan, s) && |s.pending| + owed <= WORKERS
    && (|s.pending| + owed < WORKERS ==> s.next == |plan|)
    && total == FinishedSize(plan, s.finished, |plan|) && total <= MAX_TOTAL
    && HoldsFiles(plan, s.finished, files)
    && NoCollision(plan, s.finished) && Recorded(plan, s.finished, verified)
  }

  lemma SubmitKeeps<K(!new)>(
    plan: seq<Job<K>>, s: Snapshot, owed: nat, total: nat, files: map<string, Bytes>, verified: map<K, nat>)
    requires Working(plan, s, owed + 1, total, files, verified)
    ensures var s' := if s.next < |plan| then s.(next := s.next + 1, pending := s.pending + {s.next}) else s;
      Working(plan, s', owed, total, files, verified)
  {
    if s.next < |plan| {
      assert s.next !in s.pending;
      assert |s.pending + {s.next}| == |s.pending| + 1;
    }
  }

  lemma FilesKeep<K(!new)>(plan: seq<Job<K>>, finished: set<nat>, files: map<string, Bytes>, i: nat)
    requires HoldsFiles(plan, finished, files) && i < |plan| && plan[i].data.Verified? && plan[i].path !in files
    requires NoCollision(plan, finished)
    ensures NoCollision(plan, finished + {i})
    ensures HoldsFiles(plan, finished + {i}, files[plan[i].path := plan[i].data.bytes])
  {
    var after := files[plan[i].path := plan[i].data.bytes];
    forall p | p in after ensures exists j :: j in finished + {i} && j < |plan| && plan[j].path == p {
      if p in files {
        var j :| j in finished && j < |plan| && plan[j].path == p;
        assert j in finished + {i};
      } else {
        assert i in finished + {i};
      }
    }
  }

  lemma BoundedKeeps<K(!new)>(plan: seq<Job<K>>, s: Snapshot, i: nat)
    requires IsBounded(plan, s) && i in s.pending
    ensures IsBounded(plan, s.(pending := s.pending - {i}, finished := s.finished + {i}))
    ensures |s.pending - {i}| == |s.pending| - 1
  {
  }

  lemma TotalKeeps<K(!new)>(plan: seq<Job<K>>, finished: set<nat>, i: nat)
    requires i !in finished && i < |plan|
    ensures FinishedSize(plan, finished + {i}, |plan|)
            == FinishedSize(plan, finished, |plan|) + Size(plan[i]) <= TotalSize(plan)
  {
    FinishOne(plan, finished, i, |plan|);
    FinishedAtMostTotal(plan, finished + {i}, |plan|);
    assert plan[..|plan|] == plan;
  }

  lemma CollidesWith<K(!new)>(plan: seq<Job<K>>, finished: set<nat>, files: map<string, Bytes>, i: nat)
    requires HoldsFiles(plan, finished, files) && i < |plan| && i !in finished && plan[i].path in files
    ensures !DistinctPaths(plan)
  {
    var j :| j in finished && j < |plan| && plan[j].path == plan[i].path;
    assert i != j;
  }

  lemma RecordedKeeps<K(!new)>(plan: seq<Job<K>>, finished: set<nat>, verified: map<K, nat>, i: nat)
    requires DistinctKeys(plan) && Recorded(plan, finished, verified) && i < |plan| && i !in finished
    ensures Recorded(plan, finished + {i}, verified[plan[i].key := Size(plan[i])])
  {
  }

  lemma CompleteKeeps<K(!new)>(
    plan: seq<Job<K>>, s: Snapshot, owed: nat, total: nat, files: map<string, Bytes>, verified: map<K, nat>, i: nat)
    requires DistinctKeys(plan) && Working(plan, s, owed, total, files, verified) && i in s.pending
             && plan[i].data.Verified?
    requires total + Size(plan[i]) <= MAX_TOTAL && plan[i].path !in files
    ensures Working(plan, s.(pending := s.pending - {i}, finished := s.finished + {i}), owed + 1, total + Size(plan[i]),
              files[plan[i].path := plan[i].data.bytes], verified[plan[i].key := Size(plan[i])])
  {
    BoundedKeeps(plan, s, i);
    TotalKeeps(plan, s.finished, i);
    FilesKeep(plan, s.finished, files, i);
    RecordedKeeps(plan, s.finished, verified, i);
  }

  /* ----- the loop as the source runs it ----- */

  class Pool<K(==,!new)> {
    const plan: seq<Job<K>>
    var next: nat
    var pending: set<nat>
    var total: nat
    var files: map<string, Bytes>
    var verified: map<K, nat>
    ghost var finished: set<nat>
    /** The states the loop has been in, in order. */
    ghost var trace: seq<Snapshot>

    ghost function Now(): Snapshot
      reads this
    {
      Snapshot(next, pending, finished)
    }

    ghost predicate Valid(owed: nat)
      reads this
    {
      && DistinctKeys(plan) && Working(plan, Now(), owed, total, files, verified)
      && IsTrace(plan, trace) && EndsAt(trace, Now())
    }

    constructor (plan: seq<Job<K>>)
      requires DistinctKeys(plan)
      ensures Valid(WORKERS) && this.plan == plan && finished == {}
    {
      this.plan := plan;
      next, pending, total, files, verified := 0, {}, 0, map[], map[];
      finished, trace := {}, [NOTHING_YET];
      NothingFinished(plan, |plan|);
    }

    method SubmitNext(ghost owed: nat)
      requires Valid(owed + 1)
      modifies this
      ensures Valid(owed) && finished == old(finished)
      ensures old(next) < |plan| ==> Now() == old(Now()).(next := old(next) + 1, pending := old(pending) + {old(next)})
      ensures old(next) == |plan| ==> Now() == old(Now())
    {
      SubmitKeeps(plan, Now(), owed, total, files, verified);
      if next < |plan| {
        ghost var before := Now();
        pending := pending + {next};
        next := next + 1;
        TraceGrows(plan, trace, before, Now());
        trace := trace + [Now()];
      }
    }

    method SubmitMany(count: nat)
      requires Valid(count)
      modifies this
      ensures Valid(0) && finished == old(finished)
    {
      for k := 0 to count
        invariant Valid(count - k) && finished == old(finished)
      {
        SubmitNext(count - k - 1);
      }
    }

    /** Take the result of one completed download; any failure ends the run. */
    method Complete(i: nat, ghost owed: nat) returns (ok: bool)
      requires Valid(owed) && i in pending
      modifies this
      ensures ok ==> Valid(owed + 1) && i !in old(finished)
      ensures ok ==> pending == old(pending) - {i} && finished == old(finished) + {i}
      ensures !ok ==> !Succeeds(plan)
      ensures IsTrace(plan, trace)
    {
      hide HoldsFiles, NoCollision, Recorded, FinishedSize, DistinctKeys, TotalSize, IsTrace;
      if plan[i].data.Failed? { return false; }
      TotalKeeps(plan, finished, i);
      var bytes := plan[i].data.bytes;
      if total + |bytes| > MAX_TOTAL { return false; }
      if plan[i].path in files {
        CollidesWith(plan, finished, files, i);
        return false;
      }
      CompleteKeeps(plan, Now(), owed, total, files, verified, i);
      ghost var before := Now();
      pending, total := pending - {i}, total + |bytes|;
      files, verified := files[plan[i].path := bytes], verified[plan[i].key := |bytes|];
      finished := finished + {i};
      assert IsCompletion(before, Now());
      TraceGrows(plan, trace, before, Now());
      trace := trace + [Now()];
      ok := true;
    }

    method CompleteAll(done: set<nat>) returns (ok: bool)
      requires Valid(0) && done <= pending
      modifies this
      ensures ok ==> Valid(|done|) && old(finished) + done <= finished
      ensures !ok ==> !Succeeds(plan)
      ensures IsTrace(plan, trace)
    {
      var left := done;
      ghost var owed := 0;
      while left != {}
        invariant left <= pending && owed + |left| == |done| && Valid(owed)
        invariant old(finished) + (done - left) <= finished
        decreases left
      {
        var i :| i in left;
        ok := Complete(i, owed);
        if !ok { return; }
        left, owed := left - {i}, owed + 1;
      }
      ok := true;
    }
  }

  /** Every choice of completed downloads and of the order in which they are taken is allowed for. */
  method FetchAll<K(==,!new)>(plan: seq<Job<K>>) returns (r: Outcome, ghost trace: seq<Snapshot>)
    requires DistinctKeys(plan)
    ensures r.Fetched? <==> Succeeds(plan)
    ensures r.Fetched? ==> HoldsFiles(plan, Everything(plan), r.files)
    ensures r.Fetched? ==> |r.sizes| == |plan| && forall i | 0 <= i < |plan| :: r.sizes[i] == Size(plan[i])
    ensures IsTrace(plan, trace) && (r.Fetched? ==> Completes(plan, trace))
  {
    var pool := new Pool<K>(plan);
    pool.SubmitMany(WORKERS);
    while pool.pending != {}
      invariant pool.Valid(0) && pool.plan == plan
      decreases Everything(plan) - pool.finished
    {
      var pending := pool.pending;
      assert pending <= pending;
      var done :| done <= pending && done != {};
      ghost var before := pool.finished;
      ghost var i :| i in done;
      assert i in Everything(plan) - before;
      var ok := pool.CompleteAll(done);
      if !ok { return Rejected, pool.trace; }
      pool.SubmitMany(|done|);
      assert i !in Everything(plan) - pool.finished;
    }
    AllDone(plan, pool.Now(), pool.total, pool.files, pool.verified);
    var sizes :=
      seq(|plan|, i requires 0 <= i < |plan| && plan[i].key in pool.verified reads pool => pool.verified[plan[i].key]);
    r, trace := Fetched(pool.files, sizes), pool.trace;
  }

  lemma AllDone<K(!new)>(plan: seq<Job<K>>, s: Snapshot, total: nat, files: map<string, Bytes>, verified: map<K, nat>)
    requires Working(plan, s, 0, total, files, verified) && s.pending == {}
    ensures s.finished == Everything(plan) && Succeeds(plan)
    ensures forall i | 0 <= i < |plan| :: plan[i].key in verified && verified[plan[i].key] == Size(plan[i])
  {
    assert forall i: nat :: i in s.finished <==> i < |plan|;
    FinishedAtMostTotal(plan, s.finished, |plan|);
    assert plan[..|plan|] == plan;
    hide FinishedSize, TotalSize, Size;
    assert forall i | 0 <= i < |plan| :: i in s.finished;
  }

  lemma HeldIsVerified<K(!new)>(plan: seq<Job<K>>, f: map<string, Bytes>, i: nat)
    requires HoldsFiles(plan, Everything(plan), f) && i < |plan|
    ensures plan[i].data.Verified?
  {
    assert i in Everything(plan);
  }

  /** What a successful download writes depends on the plan only: neither the schedule nor the order of completions
      shows in the files or in the manifest. */
  lemma FilesDetermined<K(!new)>(plan: seq<Job<K>>, f: map<string, Bytes>, g: map<string, Bytes>)
    requires HoldsFiles(plan, Everything(plan), f) && HoldsFiles(plan, Everything(plan), g)
    ensures f == g
  {
    forall p ensures p in f <==> p in g {}
    assert f.Keys == g.Keys;
  }
}

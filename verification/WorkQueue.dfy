/**
 * The bounded-concurrency map: workers share one cursor, each waits for one call at a time, and which
 * waiting worker goes on next is anybody's choice.
 */
module WorkQueue {
  import opened Wrappers

  /** A worker waits for the call of an index, or has stopped: at the end, at an undefined item, or at a rejection. */
  datatype Worker = Fresh | Waiting(index: nat) | Finished | Dropped(index: nat) | Failed(index: nat)

  function WorkerCount(limit: int, n: nat): (w: nat)
    ensures 1 <= w && w <= (if n > 1 then n else 1) && (limit >= 1 ==> w <= limit)
  {
    var most := if limit < n then limit else n;
    if most > 1 then most else 1
  }

  /** A job: the items, some of them undefined, and what `fn` does with an item, rejections included. */
  datatype Job<!T, !R, !E> = Job(items: seq<Option<T>>, fn: (T, nat) -> Result<R, E>) {
    predicate Starts(i: nat) {
      i < |items| && items[i].Some?
    }

    predicate Rejects(i: nat) {
      Starts(i) && fn(items[i].value, i).Err?
    }

    /** The worker that takes this index takes no other: the item is undefined, or its call rejects. */
    predicate Stops(i: nat) {
      i < |items| && (items[i].None? || Rejects(i))
    }

    function Stoppers(k: nat): nat {
      if k == 0 then 0 else Stoppers(k - 1) + (if Stops(k - 1) then 1 else 0)
    }

    /** How far `w` workers get from index `k`: to the end, or just past the `w`-th stopper. */
    function Reach(w: nat, k: nat): nat
      requires k <= |items|
      decreases |items| - k
    {
      if k == |items| || Stoppers(k) >= w then k else Reach(w, k + 1)
    }

    /** The indices below `k` that have an item, in order. */
    function Started(k: nat): seq<nat> {
      if k == 0 then [] else Started(k - 1) + (if Starts(k - 1) then [k - 1] else [])
    }

    /** What an index's slot holds once everything below `k` is settled. */
    function Slot(k: nat, i: nat): Option<R> {
      if i < k && Starts(i) then
        match fn(items[i].value, i)
        case Ok(value) => Some(value)
        case Err(_) => None
      else None
    }
  }

  predicate Stuck<T, R, E>(job: Job<T, R, E>, worker: Worker) {
    match worker
    case Waiting(i) => job.Stops(i)
    case Dropped(_) => true
    case Failed(_) => true
    case _ => false
  }

  /** How many workers will take no more for having met a stopper. */
  function StuckCount<T, R, E>(job: Job<T, R, E>, workers: seq<Worker>): (n: nat)
    ensures n <= |workers|
  {
    if workers == [] then 0
    else StuckCount(job, workers[..|workers| - 1]) + (if Stuck(job, workers[|workers| - 1]) then 1 else 0)
  }

  function InFlight(workers: seq<Worker>): (n: nat)
    ensures n <= |workers|
  {
    if workers == [] then 0
    else InFlight(workers[..|workers| - 1]) + (if workers[|workers| - 1].Waiting? then 1 else 0)
  }

  predicate WaitedFor(workers: seq<Worker>, i: nat) {
    exists w :: 0 <= w < |workers| && workers[w] == Waiting(i)
  }

  predicate FailedAt(workers: seq<Worker>, i: nat) {
    exists w :: 0 <= w < |workers| && workers[w] == Failed(i)
  }

  lemma {:induction false} StuckChange<T, R, E>(job: Job<T, R, E>, workers: seq<Worker>, w: nat, to: Worker)
    requires w < |workers|
    ensures StuckCount(job, workers[w := to]) ==
      StuckCount(job, workers) - (if Stuck(job, workers[w]) then 1 else 0) + (if Stuck(job, to) then 1 else 0)
  {
    hide Stuck;
    var front, after := workers[..|workers| - 1], workers[w := to];
    if w < |workers| - 1 {
      StuckChange(job, front, w, to);
      assert after[..|after| - 1] == front[w := to];
    } else {
      assert after[..|after| - 1] == front;
    }
  }

  lemma {:induction false} FlightChange(workers: seq<Worker>, w: nat, to: Worker)
    requires w < |workers|
    ensures InFlight(workers[w := to]) ==
      InFlight(workers) - (if workers[w].Waiting? then 1 else 0) + (if to.Waiting? then 1 else 0)
  {
    var front, after := workers[..|workers| - 1], workers[w := to];
    if w < |workers| - 1 {
      FlightChange(front, w, to);
      assert after[..|after| - 1] == front[w := to];
    } else {
      assert after[..|after| - 1] == front;
    }
  }

  lemma {:induction false} NotAllStuck<T, R, E>(job: Job<T, R, E>, workers: seq<Worker>, w: nat)
    requires w < |workers| && !Stuck(job, workers[w])
    ensures StuckCount(job, workers) < |workers|
  {
    if w < |workers| - 1 {
      NotAllStuck(job, workers[..|workers| - 1], w);
    }
  }

  lemma {:induction false} NoneStuck<T, R, E>(job: Job<T, R, E>, workers: seq<Worker>)
    requires forall w :: 0 <= w < |workers| ==> workers[w].Fresh?
    ensures StuckCount(job, workers) == InFlight(workers) == 0
  {
    if workers != [] {
      NoneStuck(job, workers[..|workers| - 1]);
    }
  }

  lemma {:induction false} AllStuck<T, R, E>(job: Job<T, R, E>, workers: seq<Worker>)
    requires forall w :: 0 <= w < |workers| ==> Stuck(job, workers[w])
    ensures StuckCount(job, workers) == |workers|
  {
    if workers != [] {
      AllStuck(job, workers[..|workers| - 1]);
    }
  }

  /** The reach is the only place where the workers can all have stopped. */
  lemma {:induction false} ReachIsOnly<T, R, E>(job: Job<T, R, E>, w: nat, k: nat, end: nat)
    requires k <= end <= |job.items| && (end == |job.items| || job.Stoppers(end) >= w)
    requires forall i :: k <= i < end ==> job.Stoppers(i) < w
    ensures job.Reach(w, k) == end
    decreases end - k
  {
    if k < end {
      assert job.Stoppers(k) < w;
      ReachIsOnly(job, w, k + 1, end);
    }
  }

  // ----- what every step keeps -----

  /** The workers and how many indices are taken agree. */
  predicate Agreed<T, R, E>(job: Job<T, R, E>, workers: seq<Worker>, k: nat) {
    && k <= |job.items|
    && job.Stoppers(k) == StuckCount(job, workers)
    && (forall i :: 0 <= i < k ==> job.Stoppers(i) < |workers|)
    && (forall w :: 0 <= w < |workers| && workers[w].Waiting? ==> workers[w].index < k && job.Starts(workers[w].index))
    && (forall v, w :: 0 <= v < w < |workers| && workers[v].Waiting? ==> workers[v] != workers[w])
    && (forall w :: 0 <= w < |workers| && workers[w].Finished? ==> k == |job.items|)
  }

  /** The calls started and the slots filled are those of the indices taken, but for the ones waited for. */
  ghost predicate Filled<T, R, E>(job: Job<T, R, E>, workers: seq<Worker>, k: nat, slots: seq<Option<R>>, started: seq<nat>) {
    && |slots| == |job.items|
    && started == job.Started(k)
    && (forall i :: 0 <= i < |slots| ==> slots[i] == if WaitedFor(workers, i) then None else job.Slot(k, i))
  }

  /** A rejection below the cursor is waited for or has been seen; the failure kept is one that was. */
  ghost predicate Watched<T, R, E>(job: Job<T, R, E>, workers: seq<Worker>, k: nat, failure: Option<E>) {
    && (forall i: nat :: i < k && job.Rejects(i) ==> WaitedFor(workers, i) || FailedAt(workers, i))
    && (forall i: nat :: FailedAt(workers, i) ==> i < k && job.Rejects(i) && failure.Some?)
    && (failure.Some? ==> FailsWith(job, k, failure.value))
  }

  /** Some call below `k` rejects with this error. */
  ghost predicate FailsWith<T, R, E>(job: Job<T, R, E>, k: nat, error: E) {
    exists i: nat :: i < k && job.Rejects(i) && job.fn(job.items[i].value, i) == Err(error)
  }

  lemma WaitedAfter(workers: seq<Worker>, w: nat, to: Worker)
    requires w < |workers|
    requires forall u, v :: 0 <= u < v < |workers| && workers[u].Waiting? ==> workers[u] != workers[v]
    ensures forall i: nat ::
      WaitedFor(workers[w := to], i) <==> to == Waiting(i) || (WaitedFor(workers, i) && workers[w] != Waiting(i))
  {
    var after := workers[w := to];
    forall i: nat
      ensures WaitedFor(after, i) <==> to == Waiting(i) || (WaitedFor(workers, i) && workers[w] != Waiting(i))
    {
      if WaitedFor(workers, i) {
        var v :| 0 <= v < |workers| && workers[v] == Waiting(i);
        assert after[v] == if v == w then to else Waiting(i);
      }
      assert after[w] == to;
    }
  }

  lemma FailedAfter(workers: seq<Worker>, w: nat, to: Worker)
    requires w < |workers| && !workers[w].Failed?
    ensures forall i: nat :: FailedAt(workers[w := to], i) <==> to == Failed(i) || FailedAt(workers, i)
  {
    var after := workers[w := to];
    forall i: nat ensures FailedAt(after, i) <==> to == Failed(i) || FailedAt(workers, i) {
      if FailedAt(workers, i) {
        var v :| 0 <= v < |workers| && workers[v] == Failed(i);
        assert after[v] == Failed(i);
      }
      assert after[w] == to;
    }
  }

  /** Past the last item a worker returns. */
  lemma ReturnAgrees<T, R, E>(job: Job<T, R, E>, workers: seq<Worker>, w: nat)
    requires w < |workers| && workers[w].Fresh? && Agreed(job, workers, |job.items|)
    ensures Agreed(job, workers[w := Finished], |job.items|)
  {
    hide StuckCount;
    StuckChange(job, workers, w, Finished);
  }

  function AfterTaking<T, R, E>(job: Job<T, R, E>, k: nat): Worker
    requires k < |job.items|
  {
    if job.items[k].None? then Dropped(k) else Waiting(k)
  }

  /** A worker takes the next index. */
  lemma TakeAgrees<T, R, E>(job: Job<T, R, E>, workers: seq<Worker>, w: nat, k: nat)
    requires w < |workers| && workers[w].Fresh? && k < |job.items| && Agreed(job, workers, k)
    ensures Agreed(job, workers[w := AfterTaking(job, k)], k + 1)
  {
    hide StuckCount;
    StuckChange(job, workers, w, AfterTaking(job, k));
    NotAllStuck(job, workers, w);
  }

  /** A call settles: the worker goes on, or stops. */
  lemma SettleAgrees<T, R, E>(job: Job<T, R, E>, workers: seq<Worker>, w: nat, k: nat)
    requires w < |workers| && workers[w].Waiting? && Agreed(job, workers, k)
    ensures var i := workers[w].index;
      Agreed(job, workers[w := if job.Rejects(i) then Failed(i) else Fresh], k)
  {
    hide StuckCount;
    var i := workers[w].index;
    StuckChange(job, workers, w, if job.Rejects(i) then Failed(i) else Fresh);
  }

  lemma FilledAfter<T, R, E>(
    job: Job<T, R, E>, workers: seq<Worker>, w: nat, to: Worker, k: nat, next: nat, slots: seq<Option<R>>, started: seq<nat>,
    after: seq<Option<R>>)
    requires w < |workers| && Agreed(job, workers, k) && Filled(job, workers, k, slots, started)
    requires next == k || (next == k + 1 && k < |job.items| && workers[w].Fresh? && to == AfterTaking(job, k))
    requires next == k ==> !to.Waiting?
    requires |after| == |slots| && forall i :: 0 <= i < |slots| ==>
      after[i] == if workers[w] == Waiting(i) then job.Slot(k, i) else slots[i]
    ensures Filled(job, workers[w := to], next, after, job.Started(next))
  {
    hide StuckCount, WaitedFor;
    WaitedAfter(workers, w, to);
    NobodyWaitsYet(job, workers, k);
  }

  lemma NobodyWaitsYet<T, R, E>(job: Job<T, R, E>, workers: seq<Worker>, k: nat)
    requires Agreed(job, workers, k)
    ensures !WaitedFor(workers, k)
  {
    hide StuckCount;
  }

  lemma FailsFurther<T, R, E>(job: Job<T, R, E>, k: nat, error: E)
    requires FailsWith(job, k, error)
    ensures FailsWith(job, k + 1, error)
  {
  }

  lemma WatchedAfter<T, R, E>(
    job: Job<T, R, E>, workers: seq<Worker>, w: nat, to: Worker, k: nat, next: nat, failure: Option<E>, seen: Option<E>)
    requires w < |workers| && !workers[w].Failed? && Agreed(job, workers, k) && Watched(job, workers, k, failure)
    requires next == k || (next == k + 1 && k < |job.items| && to == AfterTaking(job, k))
    requires workers[w].Waiting? && job.Rejects(workers[w].index) ==> to == Failed(workers[w].index)
    requires to.Failed? ==> to.index < k && job.Rejects(to.index) && seen.Some?
    requires seen == failure || (failure.None? && seen.Some? && FailsWith(job, k, seen.value))
    ensures Watched(job, workers[w := to], next, seen)
  {
    hide StuckCount, WaitedFor, FailedAt, FailsWith;
    WaitedAfter(workers, w, to);
    FailedAfter(workers, w, to);
    if seen.Some? { FailsFurther(job, k, seen.value); }
    var after := workers[w := to];
    forall i: nat | i < next && job.Rejects(i) ensures WaitedFor(after, i) || FailedAt(after, i) {
    }
    forall i: nat | FailedAt(after, i) ensures i < next && job.Rejects(i) && seen.Some? {
      assert to == Failed(i) || FailedAt(workers, i);
    }
  }

  class Pool<T(!new), R(!new), E(!new)> {
    const job: Job<T, R, E>
    const results: array<Option<R>>
    var cursor: nat
    var workers: seq<Worker>
    var failure: Option<E>
    ghost var started: seq<nat>

    function Taken(): (k: nat)
      reads this`cursor
      ensures k <= |job.items|
    {
      if cursor < |job.items| then cursor else |job.items|
    }

    ghost predicate Valid()
      reads this, results
    {
      && Agreed(job, workers, Taken())
      && Filled(job, workers, Taken(), results[..], started)
      && Watched(job, workers, Taken(), failure)
    }

    constructor (job: Job<T, R, E>, count: nat)
      requires count >= 1
      ensures Valid() && this.job == job && fresh(results)
      ensures workers == seq(count, _ => Fresh) && cursor == 0 && failure == None
    {
      this.job := job;
      results := new Option<R>[|job.items|](_ => None);
      cursor, workers, failure, started := 0, seq(count, _ => Fresh), None, [];
      new;
      NoneStuck(job, workers);
    }

    /** The head of the loop, up to the next wait or the return: no other worker acts in between. */
    method Take(w: nat)
      requires Valid() && w < |workers| && workers[w].Fresh?
      modifies this`cursor, this`workers, this`started
      ensures Valid() && |workers| == |old(workers)| && !workers[w].Fresh? && workers == old(workers)[w := workers[w]]
      ensures old(Taken()) <= Taken() && (workers[w].Waiting? ==> Taken() > old(Taken()))
    {
      hide Agreed, Watched;
      ghost var before, k := workers, Taken();
      var index := cursor;
      cursor := cursor + 1;
      if index >= |job.items| {
        ReturnAgrees(job, before, w);
        FilledAfter(job, before, w, Finished, k, k, results[..], started, results[..]);
        WatchedAfter(job, before, w, Finished, k, k, failure, failure);
        workers := workers[w := Finished];
        return;
      }
      TakeAgrees(job, before, w, k);
      FilledAfter(job, before, w, AfterTaking(job, k), k, k + 1, results[..], started, results[..]);
      WatchedAfter(job, before, w, AfterTaking(job, k), k, k + 1, failure, failure);
      if job.items[index].None? {
        workers := workers[w := Dropped(index)];
        return;
      }
      started := started + [index];
      workers := workers[w := Waiting(index)];
    }

    /** The call a worker waits for settles: its result is stored and the worker goes on, or its worker rejects. */
    method Settle(w: nat)
      requires Valid() && w < |workers| && workers[w].Waiting?
      modifies this, results
      ensures Valid() && |workers| == |old(workers)| && !workers[w].Fresh?
      ensures forall v :: 0 <= v < |workers| && v != w ==> workers[v] == old(workers)[v]
      ensures old(Taken()) <= Taken() && (workers[w].Waiting? ==> Taken() > old(Taken()))
    {
      hide Watched, StuckCount;
      var i := workers[w].index;
      ghost var k := Taken();
      SettleAgrees(job, workers, w, k);
      assert WaitedFor(workers, i);
      if job.fn(job.items[i].value, i).Err? {
        assert FailsWith(job, k, job.fn(job.items[i].value, i).error);
        WatchedAfter(job, workers, w, Failed(i), k, k, failure,
                     if failure.None? then Some(job.fn(job.items[i].value, i).error) else failure);
        FilledAfter(job, workers, w, Failed(i), k, k, results[..], started, results[..]);
        if failure.None? {
          failure := Some(job.fn(job.items[i].value, i).error);
        }
        workers := workers[w := Failed(i)];
        return;
      }
      ghost var slots := results[..];
      results[i] := Some(job.fn(job.items[i].value, i).value);
      FilledAfter(job, workers, w, Fresh, k, k, slots, started, results[..]);
      WatchedAfter(job, workers, w, Fresh, k, k, failure, failure);
      workers := workers[w := Fresh];
      Take(w);
    }
  }

  predicate Resting(workers: seq<Worker>) {
    forall w :: 0 <= w < |workers| ==> !workers[w].Fresh? && !workers[w].Waiting?
  }

  /** When nobody waits any more the cursor stands where this many workers get, whoever did what. */
  lemma RestingAtReach<T, R, E>(job: Job<T, R, E>, workers: seq<Worker>, k: nat)
    requires |workers| >= 1 && Agreed(job, workers, k) && Resting(workers)
    ensures k == job.Reach(|workers|, 0)
  {
    hide StuckCount;
    if forall w :: 0 <= w < |workers| ==> Stuck(job, workers[w]) {
      AllStuck(job, workers);
    }
    ReachIsOnly(job, |workers|, 0, k);
  }

  lemma RestingIsSettled<T, R, E>(
    job: Job<T, R, E>, workers: seq<Worker>, k: nat, slots: seq<Option<R>>, started: seq<nat>, failure: Option<E>)
    requires Resting(workers) && Filled(job, workers, k, slots, started) && Watched(job, workers, k, failure)
    ensures forall i :: 0 <= i < |slots| ==> slots[i] == job.Slot(k, i)
    ensures failure.Some? <==> exists i: nat :: i < k && job.Rejects(i)
  {
  }

  /**
   * Run the job with at most `limit` calls at once. However the waits end, the calls started are
   * those of the indices up to the reach, each once and in order; every slot holds its own call's
   * result; and it fails exactly when one of them rejected, with an error one of them gave.
   */
  method MapWithConcurrency<T(!new), R(!new), E(!new)>(job: Job<T, R, E>, limit: int)
    returns (results: seq<Option<R>>, failure: Option<E>, ghost started: seq<nat>, ghost peak: nat)
    ensures var k := job.Reach(WorkerCount(limit, |job.items|), 0);
      |results| == |job.items| && forall i :: 0 <= i < |results| ==> results[i] == job.Slot(k, i)
    ensures var k := job.Reach(WorkerCount(limit, |job.items|), 0);
      && (failure.Some? <==> exists i: nat :: i < k && job.Rejects(i))
      && (failure.Some? ==> FailsWith(job, k, failure.value))
    ensures started == job.Started(job.Reach(WorkerCount(limit, |job.items|), 0))
    ensures peak <= WorkerCount(limit, |job.items|)
  {
    hide Filled, Watched, Agreed;
    var count := WorkerCount(limit, |job.items|);
    var pool := new Pool(job, count);
    var launched := 0;
    while launched < count
      invariant 0 <= launched <= count == |pool.workers| && pool.Valid() && pool.job == job
      invariant fresh(pool) && fresh(pool.results)
      invariant forall w :: 0 <= w < count ==> (pool.workers[w].Fresh? <==> w >= launched)
    {
      pool.Take(launched);
      launched := launched + 1;
    }
    peak := InFlight(pool.workers);
    var waiting := set w | 0 <= w < count && pool.workers[w].Waiting?;
    while waiting != {}
      invariant |pool.workers| == count && pool.Valid() && pool.job == job && peak <= count
      invariant fresh(pool) && fresh(pool.results)
      invariant forall w :: 0 <= w < count ==> !pool.workers[w].Fresh?
      invariant waiting == set w | 0 <= w < count && pool.workers[w].Waiting?
      decreases |job.items| - pool.Taken(), |waiting|
    {
      var w :| w in waiting;
      ghost var before := waiting;
      pool.Settle(w);
      waiting := set v | 0 <= v < count && pool.workers[v].Waiting?;
      assert waiting == if pool.workers[w].Waiting? then before else before - {w};
      peak := if InFlight(pool.workers) > peak then InFlight(pool.workers) else peak;
    }
    assert forall w :: 0 <= w < count ==> !pool.workers[w].Waiting? by {
      assert forall w :: 0 <= w < count && pool.workers[w].Waiting? ==> w in waiting;
    }
    RestingAtReach(job, pool.workers, pool.Taken());
    results, failure, started := pool.results[..], pool.failure, pool.started;
    RestingIsSettled(job, pool.workers, pool.Taken(), results, started, failure);
    Settled(job, pool.workers, pool.Taken(), results, started, failure);
  }

  lemma Settled<T, R, E>(
    job: Job<T, R, E>, workers: seq<Worker>, k: nat, slots: seq<Option<R>>, started: seq<nat>, failure: Option<E>)
    requires Filled(job, workers, k, slots, started) && Watched(job, workers, k, failure)
    ensures |slots| == |job.items| && started == job.Started(k)
    ensures failure.Some? ==> FailsWith(job, k, failure.value)
  {
  }

  // ----- what it means -----

  /** With nothing undefined and nothing rejecting, everything is done. */
  lemma {:induction false} NothingStops<T, R, E>(job: Job<T, R, E>, w: nat, k: nat)
    requires w >= 1 && k <= |job.items| && forall i: nat :: !job.Stops(i)
    ensures job.Reach(w, k) == |job.items| && job.Stoppers(k) == 0
    decreases |job.items| - k
  {
    NoStoppers(job, k);
    if k < |job.items| {
      NothingStops(job, w, k + 1);
    }
  }

  lemma {:induction false} NoStoppers<T, R, E>(job: Job<T, R, E>, k: nat)
    requires forall i: nat :: !job.Stops(i)
    ensures job.Stoppers(k) == 0
  {
    if k > 0 { NoStoppers(job, k - 1); }
  }

  /** Somebody is left to take index `i`: fewer of the items before it stopped a worker than there are workers. */
  predicate Spare<T, R, E>(job: Job<T, R, E>, w: nat, i: nat) {
    job.Stoppers(i) < w
  }

  /** Every index is reached exactly when somebody is left to take each. */
  lemma {:induction false} ReachesTheEnd<T, R, E>(job: Job<T, R, E>, w: nat, k: nat)
    requires k <= |job.items|
    ensures job.Reach(w, k) == |job.items| <==> forall i :: k <= i < |job.items| ==> Spare(job, w, i)
    decreases |job.items| - k
  {
    if k < |job.items| {
      assert Spare(job, w, k) <==> job.Stoppers(k) < w;
      if Spare(job, w, k) {
        ReachesTheEnd(job, w, k + 1);
      }
    }
  }

  lemma {:induction false} StoppersInFront<T, R, E>(job: Job<T, R, E>, k: nat, w: nat)
    requires k <= w && forall i: nat :: i < w ==> job.Stops(i)
    ensures job.Stoppers(k) == k
  {
    if k > 0 {
      StoppersInFront(job, k - 1, w);
      assert job.Stops(k - 1);
    }
  }

  /** As many undefined items or rejections in front as there are workers leave everything behind them undone. */
  lemma TailLeftUndone<T, R, E>(job: Job<T, R, E>, limit: int, i: nat)
    requires var w := WorkerCount(limit, |job.items|); w <= i < |job.items| && forall k: nat :: k < w ==> job.Stops(k)
    ensures var w := WorkerCount(limit, |job.items|);
      job.Reach(w, 0) == w && i !in job.Started(job.Reach(w, 0)) && job.Slot(job.Reach(w, 0), i) == None
  {
    var w := WorkerCount(limit, |job.items|);
    forall k: nat | k <= w ensures job.Stoppers(k) == k { StoppersInFront(job, k, w); }
    ReachIsOnly(job, w, 0, w);
    StartedOnce(job, w);
  }

  function Echo(item: int, index: nat): Result<int, int> {
    Ok(item)
  }

  /** One undefined item in front of `n` good ones. */
  function UndefinedFirst(n: nat): Job<int, int, int> {
    Job([None] + seq(n, _ => Some(7)), Echo)
  }

  /** With one worker nothing of it is done, however long it is, and nothing is reported. */
  lemma UndefinedFirstItem(n: nat)
    ensures var job := UndefinedFirst(n);
      && job.Reach(WorkerCount(1, |job.items|), 0) == 1 && job.Started(1) == []
      && forall i: nat :: !job.Rejects(i)
  {
    var job := UndefinedFirst(n);
    assert job.items[0].None? && job.Stops(0);
    StoppersInFront(job, 0, 1);
    StoppersInFront(job, 1, 1);
    ReachIsOnly(job, 1, 0, 1);
    assert job.Started(0) == [];
  }

  /** The indices started are in increasing order, so each once, and are just those with an item. */
  lemma {:induction false} StartedOnce<T, R, E>(job: Job<T, R, E>, k: nat)
    ensures forall a, b :: 0 <= a < b < |job.Started(k)| ==> job.Started(k)[a] < job.Started(k)[b]
    ensures forall i: nat :: i in job.Started(k) <==> i < k && job.Starts(i)
  {
    if k > 0 {
      StartedOnce(job, k - 1);
      var before := job.Started(k - 1);
      forall a | 0 <= a < |before| ensures before[a] < k - 1 {
        assert before[a] in before;
      }
    }
  }
}

/** The thread pool as a state machine: what the mutex protects, the workers, and a step for each critical section. */
module Pool {
  import opened Numeric

  /** A job is a function and an argument. */
  datatype Job = Job(code: nat, argument: nat)

  /** The fields of POOL_ctx under the mutex, with the circular buffer as a queue. */
  datatype Shared = Shared(queue: seq<Job>, queueSize: nat, busy: nat, limit: nat, capacity: nat, shutdown: bool)

  /** isQueueFull: without room to wait (queueSize 1), a job is taken only when a thread is free. */
  predicate Full(v: Shared) {
    if v.queueSize > 1 then |v.queue| + 1 == v.queueSize else v.busy == v.limit || |v.queue| > 0
  }

  predicate CanPop(v: Shared) {
    |v.queue| > 0 && v.busy < v.limit
  }

  function Popped(v: Shared): (r: Shared)
    requires CanPop(v)
  {
    v.(queue := v.queue[1..], busy := v.busy + 1)
  }

  function Finished(v: Shared): (r: Shared)
    requires v.busy > 0
  {
    v.(busy := v.busy - 1)
  }

  /** POOL_add_internal: after shutdown the job is dropped. */
  function Added(v: Shared, job: Job): (r: Shared) {
    if v.shutdown then v else v.(queue := v.queue + [job])
  }

  /** How many threads POOL_resize_internal starts, if at most `startable` can be. */
  function Started(v: Shared, numThreads: nat, startable: nat): (n: nat) {
    if numThreads <= v.capacity then 0
    else if startable < numThreads - v.capacity then startable
    else numThreads - v.capacity
  }

  /** POOL_resize_internal: the limit changes only if all the threads asked for are there. */
  function Resized(v: Shared, numThreads: nat, startable: nat): (r: Shared) {
    var capacity := v.capacity + Started(v, numThreads, startable);
    if numThreads == 0 || capacity < numThreads then v.(capacity := capacity)
    else v.(capacity := capacity, limit := numThreads)
  }

  // ----- workers -----

  /** A worker is about to lock the mutex, waits on queuePopCond, runs the k-th job, or has returned. */
  datatype Worker = Awake | Waiting | Running(k: nat) | Exited

  function AwakeCount(ws: seq<Worker>): (n: nat)
    ensures n <= |ws|
  {
    if |ws| == 0 then 0 else AwakeCount(ws[..|ws| - 1]) + if ws[|ws| - 1].Awake? then 1 else 0
  }

  function RunningCount(ws: seq<Worker>): (n: nat)
    ensures n <= |ws|
  {
    if |ws| == 0 then 0 else RunningCount(ws[..|ws| - 1]) + if ws[|ws| - 1].Running? then 1 else 0
  }

  function WaitingCount(ws: seq<Worker>): (n: nat)
    ensures n <= |ws|
  {
    if |ws| == 0 then 0 else WaitingCount(ws[..|ws| - 1]) + if ws[|ws| - 1].Waiting? then 1 else 0
  }

  function One(b: bool): (n: int) {
    if b then 1 else 0
  }

  lemma {:induction false} CountsAfter(ws: seq<Worker>, i: nat, w: Worker)
    requires i < |ws|
    ensures AwakeCount(ws[i := w]) == AwakeCount(ws) - One(ws[i].Awake?) + One(w.Awake?)
    ensures RunningCount(ws[i := w]) == RunningCount(ws) - One(ws[i].Running?) + One(w.Running?)
    ensures WaitingCount(ws[i := w]) == WaitingCount(ws) - One(ws[i].Waiting?) + One(w.Waiting?)
  {
    var n := |ws| - 1;
    if i < n {
      CountsAfter(ws[..n], i, w);
      assert ws[i := w][..n] == ws[..n][i := w];
    } else {
      assert ws[i := w][..n] == ws[..n];
    }
  }

  /** Some waiting workers woke up. */
  ghost predicate Woken(ws: seq<Worker>, ws': seq<Worker>) {
    |ws'| == |ws| && forall i :: 0 <= i < |ws| ==> WokenAt(ws, ws', i)
  }

  ghost predicate WokenAt(ws: seq<Worker>, ws': seq<Worker>, i: nat)
    requires i < |ws| == |ws'|
  {
    ws'[i] == ws[i] || (ws[i].Waiting? && ws'[i].Awake?)
  }

  /** pthread_cond_signal: at least one waiting worker wakes up, if there is one. */
  ghost predicate Signalled(ws: seq<Worker>, ws': seq<Worker>) {
    Woken(ws, ws') && (WaitingCount(ws) > 0 ==> WaitingCount(ws') < WaitingCount(ws))
  }

  /** pthread_cond_broadcast */
  function WakeAll(ws: seq<Worker>): (ws': seq<Worker>)
    ensures |ws'| == |ws|
    ensures forall i :: 0 <= i < |ws| ==> ws'[i] == if ws[i].Waiting? then Awake else ws[i]
  {
    seq(|ws|, i requires 0 <= i < |ws| => if ws[i].Waiting? then Awake else ws[i])
  }

  lemma {:induction false} WokenCounts(ws: seq<Worker>, ws': seq<Worker>)
    requires Woken(ws, ws')
    ensures RunningCount(ws') == RunningCount(ws)
    ensures AwakeCount(ws') + WaitingCount(ws') == AwakeCount(ws) + WaitingCount(ws)
    ensures WaitingCount(ws') <= WaitingCount(ws)
  {
    if |ws| > 0 {
      var n := |ws| - 1;
      assert WokenAt(ws, ws', n);
      forall i | 0 <= i < n ensures WokenAt(ws[..n], ws'[..n], i) {
        assert WokenAt(ws, ws', i);
      }
      WokenCounts(ws[..n], ws'[..n]);
    }
  }

  lemma {:induction false} NoneWaiting(ws: seq<Worker>)
    requires forall i :: 0 <= i < |ws| ==> !ws[i].Waiting?
    ensures WaitingCount(ws) == 0
  {
    if |ws| > 0 {
      NoneWaiting(ws[..|ws| - 1]);
    }
  }

  lemma {:induction false} BroadcastCounts(ws: seq<Worker>)
    ensures Woken(ws, WakeAll(ws)) && WaitingCount(WakeAll(ws)) == 0
  {
    NoneWaiting(WakeAll(ws));
    assert forall i :: 0 <= i < |ws| ==> WokenAt(ws, WakeAll(ws), i);
  }

  /** Threads that start are awake. */
  lemma {:induction false} SpawnCounts(ws: seq<Worker>, n: nat)
    ensures var more := ws + seq(n, _ => Awake);
            && AwakeCount(more) == AwakeCount(ws) + n && RunningCount(more) == RunningCount(ws)
            && WaitingCount(more) == WaitingCount(ws)
  {
    if n == 0 {
      assert ws + seq(n, _ => Awake) == ws;
    } else {
      SpawnCounts(ws, n - 1);
      var more := ws + seq(n, _ => Awake);
      assert more[..|more| - 1] == ws + seq(n - 1, _ => Awake);
    }
  }

  /** Before any worker exits, each is awake, waiting or running. */
  lemma {:induction false} AllAlive(ws: seq<Worker>)
    requires forall i :: 0 <= i < |ws| ==> !ws[i].Exited?
    ensures AwakeCount(ws) + WaitingCount(ws) + RunningCount(ws) == |ws|
  {
    if |ws| > 0 {
      AllAlive(ws[..|ws| - 1]);
    }
  }

  lemma {:induction false} AllExited(ws: seq<Worker>)
    requires forall i :: 0 <= i < |ws| ==> ws[i].Exited?
    ensures AwakeCount(ws) == 0 && RunningCount(ws) == 0 && WaitingCount(ws) == 0
  {
    if |ws| > 0 {
      AllExited(ws[..|ws| - 1]);
    }
  }

  lemma {:induction false} SomeAwake(ws: seq<Worker>) returns (i: nat)
    requires AwakeCount(ws) > 0
    ensures i < |ws| && ws[i].Awake?
  {
    if ws[|ws| - 1].Awake? {
      i := |ws| - 1;
    } else {
      i := SomeAwake(ws[..|ws| - 1]);
    }
  }

  // ----- the state machine -----

  // A signal wakes at least one waiting worker if there is one, and a worker may wake without a
  // signal. Pushers wait for room outside this model: an add is a step once there is room.

  /**
   The whole pool: `enqueued` are all the jobs ever taken in, `started` how many of them were
   popped, `finished` which of them returned. `created` tells that POOL_create_advanced is done, and
   `woken` that POOL_join has sent its broadcast.
   */
  datatype State = State(shared: Shared, workers: seq<Worker>, enqueued: seq<Job>, started: nat, finished: set<nat>,
                         created: bool, woken: bool)

  ghost predicate Init(s: State) {
    && s.shared == Shared([], s.shared.queueSize, 0, 0, 0, false) && s.shared.queueSize >= 1
    && s.workers == [] && s.enqueued == [] && s.started == 0 && s.finished == {} && !s.created && !s.woken
  }

  /** pthread_create in POOL_create_advanced: the limit is still 0. */
  ghost predicate Spawn(s: State, s': State) {
    !s.created && !s.shared.shutdown && s' == s.(workers := s.workers + [Awake])
  }

  /** The end of POOL_create_advanced. */
  ghost predicate Create(s: State, s': State) {
    && !s.created && !s.shared.shutdown && |s.workers| > 0
    && s' == s.(created := true, shared := s.shared.(capacity := |s.workers|, limit := |s.workers|))
  }

  /** The critical section of POOL_add and POOL_tryAdd that takes a job in. */
  ghost predicate Add(s: State, s': State, job: Job) {
    && s.created && (!Full(s.shared) || s.shared.shutdown)
    && s' == s.(shared := Added(s.shared, job), workers := s'.workers,
                enqueued := if s.shared.shutdown then s.enqueued else s.enqueued + [job])
    && (if s.shared.shutdown then s'.workers == s.workers else Signalled(s.workers, s'.workers))
  }

  /** POOL_resize; it is not called once POOL_free has begun. */
  ghost predicate Resize(s: State, s': State, numThreads: nat, startable: nat) {
    && s.created && !s.shared.shutdown
    && s' == s.(shared := Resized(s.shared, numThreads, startable),
                workers := WakeAll(s.workers + seq(Started(s.shared, numThreads, startable), _ => Awake)))
  }

  /** A worker looks at the queue: it pops a job, goes to wait, or returns. */
  ghost predicate Check(s: State, s': State, i: nat) {
    && i < |s.workers| && s.workers[i].Awake?
    && s' == if CanPop(s.shared) then
               s.(shared := Popped(s.shared), workers := s.workers[i := Running(s.started)], started := s.started + 1)
             else s.(workers := s.workers[i := if s.shared.shutdown then Exited else Waiting])
  }

  /** The critical section after a job. */
  ghost predicate Finish(s: State, s': State, i: nat) {
    && i < |s.workers| && s.workers[i].Running? && s.shared.busy > 0
    && s' == s.(shared := Finished(s.shared), workers := s.workers[i := Awake], finished := s.finished + {s.workers[i].k})
  }

  /** A wakeup without a signal. */
  ghost predicate Spurious(s: State, s': State, i: nat) {
    i < |s.workers| && s.workers[i].Waiting? && s' == s.(workers := s.workers[i := Awake])
  }

  /** The first critical section of POOL_join, also after a creation that failed. */
  ghost predicate Shutdown(s: State, s': State) {
    s' == s.(shared := s.shared.(shutdown := true, capacity := |s.workers|))
  }

  ghost predicate Broadcast(s: State, s': State) {
    s.shared.shutdown && s' == s.(workers := WakeAll(s.workers), woken := true)
  }

  ghost predicate WorkerStep(s: State, s': State) {
    exists i :: Check(s, s', i) || Finish(s, s', i) || Spurious(s, s', i)
  }

  ghost predicate Next(s: State, s': State) {
    || Spawn(s, s') || Create(s, s') || Shutdown(s, s') || Broadcast(s, s') || WorkerStep(s, s')
    || (exists job :: Add(s, s', job))
    || (exists numThreads, startable :: Resize(s, s', numThreads, startable))
  }

  ghost predicate Run(run: seq<State>) {
    |run| > 0 && Init(run[0]) && forall n :: 0 <= n < |run| - 1 ==> Next(run[n], run[n + 1])
  }

  // ----- what every run keeps -----

  /** The queue holds the jobs taken in and not yet started, in order, and never more than fit. */
  ghost predicate QueueKept(s: State) {
    && s.started <= |s.enqueued| && s.shared.queue == s.enqueued[s.started..]
    && s.shared.queueSize >= 1
    && |s.shared.queue| <= (if s.shared.queueSize > 1 then s.shared.queueSize - 1 else 1)
  }

  /** Every started job runs on exactly one worker or is finished. */
  ghost predicate JobsKept(s: State) {
    && (forall i :: 0 <= i < |s.workers| && s.workers[i].Running? ==>
          s.workers[i].k < s.started && s.workers[i].k !in s.finished)
    && (forall i, j :: 0 <= i < j < |s.workers| && s.workers[i].Running? && s.workers[j].Running? ==>
          s.workers[i].k != s.workers[j].k)
    && (forall k :: k in s.finished ==> k < s.started)
    && (forall k :: 0 <= k < s.started ==> Accounted(s.workers, s.finished, k))
  }

  ghost predicate Accounted(ws: seq<Worker>, finished: set<nat>, k: nat) {
    k in finished || exists i :: 0 <= i < |ws| && ws[i] == Running(k)
  }

  ghost predicate LimitsKept(s: State) {
    && s.shared.busy == RunningCount(s.workers)
    && (!s.shared.shutdown ==> forall i :: 0 <= i < |s.workers| ==> !s.workers[i].Exited?)
    && (s.created ==> 1 <= s.shared.limit <= s.shared.capacity == |s.workers|)
    && (!s.created ==> s.shared.limit == 0 && s.enqueued == [])
    && (s.woken ==> s.shared.shutdown && WaitingCount(s.workers) == 0)
  }

  /** Enough workers are awake for the jobs that could start now. */
  ghost predicate NoLostWakeup(s: State) {
    Min(|s.shared.queue|, s.shared.limit - s.shared.busy) <= AwakeCount(s.workers)
  }

  ghost predicate Inv(s: State) {
    QueueKept(s) && JobsKept(s) && LimitsKept(s) && NoLostWakeup(s)
  }

  /** Workers that only wake up change nothing for the jobs. */
  lemma {:induction false} WokenJobs(s: State, s': State)
    requires JobsKept(s) && Woken(s.workers, s'.workers) && s'.started == s.started && s'.finished == s.finished
    ensures JobsKept(s')
    ensures (forall i :: 0 <= i < |s.workers| ==> !s.workers[i].Exited?) ==>
              forall i :: 0 <= i < |s'.workers| ==> !s'.workers[i].Exited?
  {
    var ws, ws' := s.workers, s'.workers;
    forall i | 0 <= i < |ws'|
      ensures ws'[i].Running? <==> ws[i].Running?
      ensures ws'[i].Running? ==> ws'[i] == ws[i]
      ensures ws'[i].Exited? ==> ws[i].Exited?
    {
      assert WokenAt(ws, ws', i);
    }
    forall k | 0 <= k < s'.started ensures Accounted(ws', s'.finished, k) {
      assert Accounted(ws, s.finished, k);
      if k !in s.finished {
        var i :| 0 <= i < |ws| && ws[i] == Running(k);
        assert ws'[i] == Running(k);
      }
    }
  }

  lemma {:induction false} AddKeeps(s: State, s': State, job: Job)
    requires Inv(s) && Add(s, s', job)
    ensures Inv(s')
  {
    if s.shared.shutdown {
      assert s' == s;
    } else {
      WokenJobs(s, s');
      WokenCounts(s.workers, s'.workers);
      AllAlive(s.workers);
      assert s'.enqueued[s.started..] == s.enqueued[s.started..] + [job];
    }
  }

  lemma {:induction false} BroadcastKeeps(s: State, s': State)
    requires Inv(s) && Broadcast(s, s')
    ensures Inv(s')
  {
    BroadcastCounts(s.workers);
    WokenCounts(s.workers, s'.workers);
    WokenJobs(s, s');
  }

  lemma {:induction false} SpawnedJobs(s: State, n: nat)
    requires JobsKept(s)
    ensures JobsKept(s.(workers := s.workers + seq(n, _ => Awake)))
  {
    var ws, ws' := s.workers, s.workers + seq(n, _ => Awake);
    forall k | 0 <= k < s.started ensures Accounted(ws', s.finished, k) {
      assert Accounted(ws, s.finished, k);
      if k !in s.finished {
        var i :| 0 <= i < |ws| && ws[i] == Running(k);
        assert ws'[i] == Running(k);
      }
    }
  }

  lemma {:induction false} ResizeKeeps(s: State, s': State, numThreads: nat, startable: nat)
    requires Inv(s) && Resize(s, s', numThreads, startable)
    ensures Inv(s')
  {
    var n := Started(s.shared, numThreads, startable);
    var m := s.(workers := s.workers + seq(n, _ => Awake));
    SpawnCounts(s.workers, n);
    SpawnedJobs(s, n);
    BroadcastCounts(m.workers);
    WokenCounts(m.workers, s'.workers);
    WokenJobs(m, s');
    AllAlive(s'.workers);
  }

  lemma {:induction false} CreationKeeps(s: State, s': State)
    requires Inv(s) && (Spawn(s, s') || Create(s, s'))
    ensures Inv(s')
  {
    if Spawn(s, s') {
      SpawnCounts(s.workers, 1);
      SpawnedJobs(s, 1);
      assert [Awake] == seq(1, _ => Awake);
    }
  }

  lemma {:induction false} ShutdownKeeps(s: State, s': State)
    requires Inv(s) && Shutdown(s, s')
    ensures Inv(s')
  {
  }

  lemma {:induction false} CheckLimits(s: State, s': State, i: nat)
    requires LimitsKept(s) && NoLostWakeup(s) && Check(s, s', i)
    ensures LimitsKept(s') && NoLostWakeup(s')
  {
    CountsAfter(s.workers, i, s'.workers[i]);
  }

  lemma {:induction false} CheckJobs(s: State, s': State, i: nat)
    requires QueueKept(s) && JobsKept(s) && Check(s, s', i)
    ensures QueueKept(s') && JobsKept(s')
  {
    if CanPop(s.shared) {
      assert s.enqueued[s.started..][1..] == s.enqueued[s.started + 1..];
    }
    forall k | 0 <= k < s'.started ensures Accounted(s'.workers, s'.finished, k) {
      if k < s.started {
        assert Accounted(s.workers, s.finished, k);
        if k !in s.finished {
          var j :| 0 <= j < |s.workers| && s.workers[j] == Running(k);
          assert s'.workers[j] == Running(k);
        }
      } else {
        assert s'.workers[i] == Running(k);
      }
    }
  }

  lemma {:induction false} FinishKeeps(s: State, s': State, i: nat)
    requires Inv(s) && Finish(s, s', i)
    ensures Inv(s')
  {
    CountsAfter(s.workers, i, Awake);
    forall k | 0 <= k < s'.started ensures Accounted(s'.workers, s'.finished, k) {
      assert Accounted(s.workers, s.finished, k);
      if k !in s'.finished {
        var j :| 0 <= j < |s.workers| && s.workers[j] == Running(k);
        assert s'.workers[j] == Running(k);
      }
    }
  }

  lemma {:induction false} SpuriousKeeps(s: State, s': State, i: nat)
    requires Inv(s) && Spurious(s, s', i)
    ensures Inv(s')
  {
    CountsAfter(s.workers, i, Awake);
    assert forall j :: 0 <= j < |s.workers| ==> WokenAt(s.workers, s'.workers, j);
    WokenJobs(s, s');
  }

  lemma {:induction false} NextKeeps(s: State, s': State)
    requires Inv(s) && Next(s, s')
    ensures Inv(s')
  {
    if Spawn(s, s') || Create(s, s') {
      CreationKeeps(s, s');
    } else if Shutdown(s, s') {
      ShutdownKeeps(s, s');
    } else if Broadcast(s, s') {
      BroadcastKeeps(s, s');
    } else if exists job :: Add(s, s', job) {
      var job :| Add(s, s', job);
      AddKeeps(s, s', job);
    } else if exists numThreads, startable :: Resize(s, s', numThreads, startable) {
      var numThreads, startable :| Resize(s, s', numThreads, startable);
      ResizeKeeps(s, s', numThreads, startable);
    } else {
      var i :| Check(s, s', i) || Finish(s, s', i) || Spurious(s, s', i);
      if Check(s, s', i) {
        CheckJobs(s, s', i);
        CheckLimits(s, s', i);
      } else if Finish(s, s', i) {
        FinishKeeps(s, s', i);
      } else {
        SpuriousKeeps(s, s', i);
      }
    }
  }

  // ----- the promises -----

  /** Every state of every run keeps the invariants; in particular no wakeup is ever lost. */
  lemma {:induction false} RunKeeps(run: seq<State>, n: nat)
    requires Run(run) && n < |run|
    ensures Inv(run[n])
  {
    if n == 0 {
      assert AwakeCount([]) == 0;
    } else {
      RunKeeps(run, n - 1);
      assert Next(run[n - 1], run[n - 1 + 1]);
      NextKeeps(run[n - 1], run[n]);
    }
  }

  /** While a job is queued and a slot is free, some worker is awake, and its next look at the queue starts the oldest job. */
  lemma {:induction false} NoJobStranded(run: seq<State>, n: nat) returns (i: nat, next: State)
    requires Run(run) && n < |run| && CanPop(run[n].shared)
    ensures Check(run[n], next, i) && next.workers[i] == Running(run[n].started)
    ensures run[n].started < |run[n].enqueued| && run[n].shared.queue[0] == run[n].enqueued[run[n].started]
  {
    RunKeeps(run, n);
    var s := run[n];
    i := SomeAwake(s.workers);
    next := s.(shared := Popped(s.shared), workers := s.workers[i := Running(s.started)], started := s.started + 1);
  }

  /** Jobs are taken in at the end, started one by one in that order, and stay finished. */
  ghost predicate Grows(s: State, s': State) {
    && s.enqueued <= s'.enqueued && |s'.enqueued| <= |s.enqueued| + 1
    && s.started <= s'.started <= s.started + 1
    && s.finished <= s'.finished
  }

  lemma {:induction false} HistoryGrows(run: seq<State>, n: nat)
    requires Run(run) && n + 1 < |run|
    ensures Grows(run[n], run[n + 1])
    ensures run[n + 1].started > run[n].started ==>
              run[n].started < |run[n].enqueued| && run[n].shared.queue == [run[n].enqueued[run[n].started]] + run[n + 1].shared.queue
  {
    RunKeeps(run, n);
    assert Next(run[n], run[n + 1]);
  }

  lemma {:induction false} StartsAreOnce(run: seq<State>, n: nat, i: nat, j: nat)
    requires Run(run) && n < |run| && i < |run[n].workers| && j < |run[n].workers|
    requires run[n].workers[i].Running? && run[n].workers[i] == run[n].workers[j]
    ensures i == j && run[n].workers[i].k < run[n].started && run[n].workers[i].k !in run[n].finished
  {
    RunKeeps(run, n);
  }

  lemma {:induction false} NothingRuns(ws: seq<Worker>, i: nat)
    requires RunningCount(ws) == 0 && i < |ws|
    ensures !ws[i].Running?
  {
    if i < |ws| - 1 {
      NothingRuns(ws[..|ws| - 1], i);
    }
  }

  /** Every job ever taken in has finished. */
  ghost predicate AllFinished(s: State) {
    forall k :: 0 <= k < |s.enqueued| ==> k in s.finished
  }

  lemma {:induction false} AllDone(s: State)
    requires Inv(s) && s.shared.queue == [] && s.shared.busy == 0
    ensures s.started == |s.enqueued| && AllFinished(s)
  {
    forall k | 0 <= k < s.started ensures k in s.finished {
      assert Accounted(s.workers, s.finished, k);
      if k !in s.finished {
        var i :| 0 <= i < |s.workers| && s.workers[i] == Running(k);
        NothingRuns(s.workers, i);
        assert false;
      }
    }
  }

  /** POOL_joinJobs returns only when every job taken in has finished. */
  lemma {:induction false} JoinJobsWaitsForAll(run: seq<State>, n: nat)
    requires Run(run) && n < |run| && run[n].shared.queue == [] && run[n].shared.busy == 0
    ensures AllFinished(run[n])
  {
    RunKeeps(run, n);
    AllDone(run[n]);
  }

  /** Threads may return while jobs are queued, but when all have returned no job is left. */
  lemma {:induction false} JoinLeavesNothing(run: seq<State>, n: nat)
    requires Run(run) && n < |run| && forall i :: 0 <= i < |run[n].workers| ==> run[n].workers[i].Exited?
    ensures run[n].shared.queue == [] && AllFinished(run[n])
  {
    RunKeeps(run, n);
    AllExited(run[n].workers);
    assert run[n].shared.queue == [];
    AllDone(run[n]);
  }

  /** The steps that workers can still take once POOL_join has woken them all. */
  ghost function StepsLeft(s: State): (n: nat) {
    3 * |s.shared.queue| + 2 * RunningCount(s.workers) + AwakeCount(s.workers)
  }

  /** POOL_join ends: until all workers have returned one of them can step, and every step is one of finitely many. */
  lemma {:induction false} JoinProgresses(run: seq<State>, n: nat, i: nat) returns (next: State)
    requires Run(run) && n < |run| && run[n].woken
    requires i < |run[n].workers| && !run[n].workers[i].Exited?
    ensures Check(run[n], next, i) || Finish(run[n], next, i)
  {
    RunKeeps(run, n);
    var s := run[n];
    if s.workers[i].Waiting? {
      WaitingMeans(s.workers, i);
      assert false;
    }
    if s.workers[i].Running? {
      CountsAfter(s.workers, i, Awake);
      next := s.(shared := Finished(s.shared), workers := s.workers[i := Awake], finished := s.finished + {s.workers[i].k});
    } else if CanPop(s.shared) {
      next := s.(shared := Popped(s.shared), workers := s.workers[i := Running(s.started)], started := s.started + 1);
    } else {
      next := s.(workers := s.workers[i := if s.shared.shutdown then Exited else Waiting]);
    }
  }

  lemma {:induction false} WaitingMeans(ws: seq<Worker>, i: nat)
    requires i < |ws| && ws[i].Waiting?
    ensures WaitingCount(ws) > 0
  {
    if i < |ws| - 1 {
      WaitingMeans(ws[..|ws| - 1], i);
    }
  }

  lemma {:induction false} StepDown(s: State, s': State, i: nat)
    requires Inv(s) && s.woken && (Check(s, s', i) || Finish(s, s', i) || Spurious(s, s', i))
    ensures StepsLeft(s') < StepsLeft(s)
  {
    CountsAfter(s.workers, i, s'.workers[i]);
    if Spurious(s, s', i) {
      WaitingMeans(s.workers, i);
      assert false;
    }
  }

  lemma {:induction false} JoinStepsDown(run: seq<State>, n: nat)
    requires Run(run) && n + 1 < |run| && run[n].woken && WorkerStep(run[n], run[n + 1])
    ensures StepsLeft(run[n + 1]) < StepsLeft(run[n])
  {
    RunKeeps(run, n);
    var s, s' := run[n], run[n + 1];
    var i :| Check(s, s', i) || Finish(s, s', i) || Spurious(s, s', i);
    StepDown(s, s', i);
  }

  /** Then no other step changes the queue or a worker. */
  lemma {:induction false} JoinOnlyWorkers(run: seq<State>, n: nat)
    requires Run(run) && n + 1 < |run| && run[n].woken
    ensures run[n + 1].woken
    ensures !WorkerStep(run[n], run[n + 1]) ==>
              run[n + 1].workers == run[n].workers && run[n + 1].shared.queue == run[n].shared.queue
  {
    RunKeeps(run, n);
    var s, s' := run[n], run[n + 1];
    assert Next(s, s');
    if Broadcast(s, s') {
      forall i | 0 <= i < |s.workers| ensures !s.workers[i].Waiting? {
        if s.workers[i].Waiting? {
          WaitingMeans(s.workers, i);
        }
      }
      assert WakeAll(s.workers) == s.workers;
    }
  }

  // ----- a pool without a waiting queue -----

  /**
   A pool created with queue size 0 is meant to take a job only when a thread is free. It does so
   exactly as long as no more threads are busy than the limit allows.
   */
  lemma {:induction false} TakesWhenFree(v: Shared)
    requires v.queueSize == 1 && v.queue == []
    ensures (!Full(v) <==> v.busy < v.limit) <==> v.busy <= v.limit
  {
  }

  /** A shrink leaves more busy threads than the limit, and then a job is taken although no thread is free. */
  lemma {:induction false} ShrinkOverfills() returns (run: seq<State>)
    ensures Run(run)
    ensures var v := run[|run| - 1].shared;
            v.queueSize == 1 && v.busy > v.limit && !Full(v)
  {
    var job := Job(0, 0);
    var s0 := State(Shared([], 1, 0, 0, 0, false), [], [], 0, {}, false, false);
    var s1 := s0.(workers := s0.workers + [Awake]);
    var s2 := s1.(workers := s1.workers + [Awake]);
    var s3 := s2.(created := true, shared := s2.shared.(capacity := 2, limit := 2));
    var s4 := s3.(shared := s3.shared.(queue := [job]), enqueued := [job]);
    var s5 := s4.(shared := Popped(s4.shared), workers := s4.workers[0 := Running(0)], started := 1);
    var s6 := s5.(shared := s5.shared.(queue := [job]), enqueued := [job, job]);
    var s7 := s6.(shared := Popped(s6.shared), workers := s6.workers[1 := Running(1)], started := 2);
    var s8 := s7.(shared := Resized(s7.shared, 1, 0), workers := WakeAll(s7.workers + seq(0, _ => Awake)));
    run := Longer(Longer(Longer([s0], s1), s2), s3);
    NoSignalNeeded(s3.workers);
    assert Add(s3, s4, job);
    run := Longer(run, s4);
    assert Check(s4, s5, 0);
    run := Longer(run, s5);
    NoSignalNeeded(s5.workers);
    assert Add(s5, s6, job);
    run := Longer(run, s6);
    assert Check(s6, s7, 1);
    run := Longer(run, s7);
    assert Resize(s7, s8, 1, 0);
    run := Longer(run, s8);
  }

  ghost function Longer(run: seq<State>, s: State): (longer: seq<State>)
    requires Run(run) && Next(run[|run| - 1], s)
    ensures Run(longer) && longer[|longer| - 1] == s
  {
    run + [s]
  }

  lemma {:induction false} NoSignalNeeded(ws: seq<Worker>)
    requires forall i :: 0 <= i < |ws| ==> !ws[i].Waiting?
    ensures Signalled(ws, ws)
  {
    NoneWaiting(ws);
    assert forall i :: 0 <= i < |ws| ==> WokenAt(ws, ws, i);
  }
}

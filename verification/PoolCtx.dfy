/**
 POOL_ctx: the circular buffer with its queueEmpty flag is a FIFO queue, also when it has a single
 cell, and each critical section is the step of the same name in the state machine of the pool.
 */
module PoolCtx {
  import opened Pool

  /** The jobs of the circular buffer in order; head == tail means no job or a full buffer. */
  function Ring(buf: seq<Job>, head: nat, tail: nat, empty: bool): (q: seq<Job>)
    requires head < |buf| && tail < |buf|
  {
    if empty then []
    else if head < tail then buf[head..tail]
    else buf[head..] + buf[..tail]
  }

  lemma {:induction false} Wraps(i: nat, n: nat)
    requires i < n
    ensures (i + 1) % n == if i + 1 == n then 0 else i + 1
  {
    if i + 1 == n {
      assert n % n == 0;
    }
  }

  /** Taking the cell at the head takes the oldest job. */
  lemma {:induction false} RingPop(buf: seq<Job>, head: nat, tail: nat)
    requires head < |buf| && tail < |buf| && Ring(buf, head, tail, false) != []
    ensures var next := if head + 1 == |buf| then 0 else head + 1;
            && Ring(buf, head, tail, false) == [buf[head]] + Ring(buf, next, tail, next == tail)
  {
  }

  /** Filling the cell at the tail adds the newest job, if there is a cell left. */
  lemma {:induction false} RingPush(buf: seq<Job>, head: nat, tail: nat, empty: bool, job: Job)
    requires head < |buf| && tail < |buf| && (empty <==> head == tail)
    ensures var next := if tail + 1 == |buf| then 0 else tail + 1;
            Ring(buf[tail := job], head, next, false) == Ring(buf, head, tail, empty) + [job]
  {
    var now := buf[tail := job];
    if head <= tail {
      assert now[head..tail] == buf[head..tail];
    } else {
      assert now[head..] == buf[head..];
    }
  }

  /** The buffer is used up to its last cell but one, which tells a full queue from an empty one. */
  lemma {:induction false} RingFull(buf: seq<Job>, head: nat, tail: nat, empty: bool)
    requires head < |buf| && tail < |buf| && (empty <==> head == tail)
    ensures head == (if tail + 1 == |buf| then 0 else tail + 1) <==> |Ring(buf, head, tail, empty)| == |buf| - 1
  {
  }

  class Ctx {
    var threadCapacity: nat
    var threadLimit: nat
    const queue: array<Job>
    var queueHead: nat
    var queueTail: nat
    var numThreadsBusy: nat
    var queueEmpty: bool
    var shutdown: bool

    ghost predicate Valid()
      reads this, queue
    {
      && queue.Length >= 1 && queueHead < queue.Length && queueTail < queue.Length
      && (queueEmpty ==> queueHead == queueTail)
      && (queue.Length > 1 && queueHead == queueTail ==> queueEmpty)
    }

    /** The state that the mutex protects. */
    ghost function View(): (v: Shared)
      reads this, queue
      requires Valid()
    {
      Shared(Ring(queue[..], queueHead, queueTail, queueEmpty), queue.Length, numThreadsBusy, threadLimit, threadCapacity, shutdown)
    }

    /** POOL_create_advanced up to the creation of the threads. */
    constructor (queueSize: nat)
      ensures Valid() && View() == Shared([], queueSize + 1, 0, 0, 0, false)
      ensures fresh(queue)
    {
      queue := new Job[queueSize + 1](_ => Job(0, 0));
      queueHead, queueTail, numThreadsBusy, queueEmpty, shutdown := 0, 0, 0, true, false;
      threadCapacity, threadLimit := 0, 0;
    }

    /** The guard of the loop in which POOL_thread waits. */
    predicate MustWait()
      reads this, queue
      requires Valid()
      ensures MustWait() <==> !CanPop(View())
    {
      queueEmpty || numThreadsBusy >= threadLimit
    }

    /** POOL_thread: pops a job off the queue. */
    method Pop() returns (job: Job)
      requires Valid() && CanPop(View())
      modifies this
      ensures Valid() && job == old(View()).queue[0] && View() == Popped(old(View()))
    {
      RingPop(queue[..], queueHead, queueTail);
      Wraps(queueHead, queue.Length);
      job := queue[queueHead];
      queueHead := (queueHead + 1) % queue.Length;
      numThreadsBusy := numThreadsBusy + 1;
      queueEmpty := queueHead == queueTail;
    }

    /** POOL_thread: after a job. */
    method Done()
      requires Valid() && numThreadsBusy > 0
      modifies this
      ensures Valid() && View() == Finished(old(View()))
    {
      numThreadsBusy := numThreadsBusy - 1;
    }

    /** isQueueFull */
    predicate IsQueueFull()
      reads this, queue
      requires Valid()
      ensures IsQueueFull() <==> Full(View())
    {
      if queue.Length > 1 then
        Wraps(queueTail, queue.Length);
        RingFull(queue[..], queueHead, queueTail, queueEmpty);
        queueHead == (queueTail + 1) % queue.Length
      else numThreadsBusy == threadLimit || !queueEmpty
    }

    /** POOL_add_internal */
    method AddInternal(job: Job)
      requires Valid() && (IsQueueFull() ==> shutdown)
      modifies this, queue
      ensures Valid() && View() == Added(old(View()), job)
    {
      if shutdown {
        return;
      }
      RingPush(queue[..], queueHead, queueTail, queueEmpty, job);
      Wraps(queueTail, queue.Length);
      queueEmpty := false;
      queue[queueTail] := job;
      queueTail := (queueTail + 1) % queue.Length;
    }

    /**
     POOL_tryAdd. A result of true does not mean that the job was taken: after a shutdown it is
     dropped and the caller is not told.
     */
    method TryAdd(job: Job) returns (added: bool)
      requires Valid()
      modifies this, queue
      ensures Valid() && added == !Full(old(View()))
      ensures queue.Length > 1 ==> (added <==> |old(View()).queue| < queue.Length - 1)
      ensures queue.Length == 1 ==> (added <==> old(View()).queue == [] && old(numThreadsBusy != threadLimit))
      ensures View() == if added then Added(old(View()), job) else old(View())
      ensures View().queue == old(View()).queue + [job] <==> added && !old(shutdown)
    {
      if IsQueueFull() {
        return false;
      }
      AddInternal(job);
      added := true;
    }

    /**
     POOL_resize_internal, when the handles can be allocated if `canAllocate` and at most `startable`
     threads started.
     */
    method ResizeInternal(numThreads: nat, canAllocate: bool, startable: nat) returns (error: bool)
      requires Valid()
      modifies this
      ensures Valid() && View() == Resized(old(View()), numThreads, if canAllocate then startable else 0)
      ensures error <==> numThreads == 0 || threadCapacity < numThreads
      ensures !error <==> numThreads > 0 && threadLimit == numThreads <= threadCapacity
    {
      if numThreads <= threadCapacity {
        if numThreads == 0 {
          return true;
        }
        threadLimit := numThreads;
        return false;
      }
      if !canAllocate {
        return true;
      }
      var threadId := threadCapacity;
      while threadId < numThreads
        invariant threadCapacity <= threadId <= numThreads && threadId - threadCapacity <= startable
        invariant View() == old(View()) && Valid()
      {
        if threadId - threadCapacity == startable {
          threadCapacity := threadId;
          return true;
        }
        threadId := threadId + 1;
      }
      threadCapacity := numThreads;
      threadLimit := numThreads;
      error := false;
    }
  }
}

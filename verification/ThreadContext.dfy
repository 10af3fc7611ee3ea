/** The data structures of the C thread pool (C/src/external/thread_pool.c): a linked job queue and a linked
    list of thread records, updated in place.  Every method is one of the source's functions or critical
    sections, proved against the functions on `Pool` that the interleaving model in `ThreadPool` is built of. */
module ThreadContexts {
  import opened ThreadPool

  class QueueItem {
    const job: Job
    var next: QueueItem?

    constructor (job: Job)
      ensures this.job == job && next == null
    {
      this.job := job;
      next := null;
    }
  }

  class Thread {
    const threadId: int
    var busy: bool
    var next: Thread?

    constructor (threadId: int)
      ensures busy && next == null && this.threadId == threadId
    {
      this.threadId := threadId;
      busy := true;
      next := null;
    }
  }

  /** How a sched_job call ended. */
  datatype Outcome = Claimed(thread: nat) | Created | LeftQueued

  class ThreadContext {
    var threads: Thread?
    var numThreads: int
    const maxThreads: int
    var jobQueue: QueueItem?
    ghost var items: seq<QueueItem>      // the queue, in list order
    ghost var threadList: seq<Thread>    // the thread records, in list order

    ghost predicate QueueLinked()
      reads this, items
    {
      && (if items == [] then jobQueue == null else jobQueue == items[0])
      && (forall i, j :: 0 <= i && j == i + 1 && j < |items| ==> items[i].next == items[j])
      && (items != [] ==> items[|items| - 1].next == null)
      && (forall i, j :: 0 <= i < j < |items| ==> items[i] != items[j])
    }

    ghost predicate ThreadsLinked()
      reads this, threadList
    {
      && (if threadList == [] then threads == null else threads == threadList[0])
      && (forall i, j :: 0 <= i && j == i + 1 && j < |threadList| ==> threadList[i].next == threadList[j])
      && (threadList != [] ==> threadList[|threadList| - 1].next == null)
      && (forall i, j :: 0 <= i < j < |threadList| ==> threadList[i] != threadList[j])
    }

    /** Both lists are acyclic chains without sharing, and numThreads is the length of the thread list. */
    ghost predicate Valid()
      reads this, items, threadList
    {
      && QueueLinked() && ThreadsLinked()
      && numThreads == |threadList|
      && (forall i :: 0 <= i < |threadList| ==> threadList[i].threadId == i)
    }

    ghost function Abs(): Pool
      reads this, items, threadList
    {
      Pool(seq(|items|, i requires 0 <= i < |items| reads this => items[i].job),
           seq(|threadList|, i requires 0 <= i < |threadList| reads this, threadList => threadList[i].busy),
           maxThreads)
    }

    constructor (maxThreads: int)
      ensures Valid() && items == [] && threadList == []
      ensures Abs() == ThreadPool.Init(maxThreads).pool
    {
      this.maxThreads := maxThreads;
      threads, numThreads, jobQueue := null, 0, null;
      items, threadList := [], [];
    }

    method PushQueueItem(item: QueueItem)
      requires Valid() && item !in items && item.next == null
      modifies this`jobQueue, this`items, items
      ensures Valid() && Abs() == Enqueue(old(Abs()), item.job)
      ensures items == old(items) + [item] && threadList == old(threadList)
    {
      var lastItem := jobQueue;
      if lastItem == null {
        jobQueue := item;
      } else {
        ghost var i := 0;
        while lastItem.next != null
          invariant 0 <= i < |items| && lastItem == items[i]
          invariant i + 1 < |items| ==> lastItem.next == items[i + 1]
          decreases |items| - i
        {
          lastItem := lastItem.next;
          i := i + 1;
        }
        lastItem.next := item;
      }
      items := items + [item];
    }

    method PopQueueItem() returns (item: QueueItem?)
      requires Valid()
      modifies this`jobQueue, this`items
      ensures Valid() && Abs() == Dequeue(old(Abs()))
      ensures item == null <==> old(items) == []
      ensures item != null ==> item == old(items)[0] && items == old(items)[1..]
      ensures item == null ==> items == []
      ensures threadList == old(threadList)
    {
      item := jobQueue;
      if jobQueue != null {
        jobQueue := jobQueue.next;
        items := items[1..];
      }
    }

    method CreateThread()
      requires Valid()
      modifies this`threads, this`numThreads, this`threadList, threadList
      ensures Valid() && Abs() == AddThread(old(Abs()))
      ensures items == old(items)
      ensures |threadList| == |old(threadList)| + 1 && threadList[..|old(threadList)|] == old(threadList)
      ensures fresh(threadList[|old(threadList)|])
    {
      var created := new Thread(numThreads);
      var lastThread := threads;
      if lastThread == null {
        threads := created;
      } else {
        ghost var i := 0;
        while lastThread.next != null
          invariant 0 <= i < |threadList| && lastThread == threadList[i]
          invariant i + 1 < |threadList| ==> lastThread.next == threadList[i + 1]
          decreases |threadList| - i
        {
          lastThread := lastThread.next;
          i := i + 1;
        }
        lastThread.next := created;
      }
      threadList := threadList + [created];
      numThreads := numThreads + 1;
    }

    /** Lines 89-91: a worker that found the queue empty offers itself. */
    method MarkAvailable(thread: Thread, ghost t: nat)
      requires Valid() && t < |threadList| && threadList[t] == thread
      modifies thread`busy
      ensures Valid() && Abs() == SetBusy(old(Abs()), t, false)
    {
      thread.busy := false;
    }

    /** Lines 160-177: claim the first thread whose busy flag is clear. */
    method ClaimIdleThread() returns (k: nat, claimed: bool)
      requires Valid()
      modifies threadList
      ensures Valid() && k == FirstIdle(old(Abs()).busy, 0) && (claimed <==> k < |threadList|)
      ensures Abs() == if claimed then SetBusy(old(Abs()), k, true) else old(Abs())
    {
      ghost var p := Abs();
      var thread := threads;
      k := 0;
      while thread != null
        invariant 0 <= k <= |threadList|
        invariant if k < |threadList| then thread == threadList[k] else thread == null
        invariant forall i :: 0 <= i < k ==> p.busy[i]
        decreases |threadList| - k
      {
        if !thread.busy {
          FirstIdleIs(p.busy, 0, k);
          thread.busy := true;
          assert Abs().busy == p.busy[k := true] && Abs().queue == p.queue;
          return k, true;
        }
        thread := thread.next;
        k := k + 1;
      }
      FirstIdleIs(p.busy, 0, k);
      claimed := false;
    }

    /** `sched_job` when no worker takes a step meanwhile. */
    method SchedJob(job: Job) returns (outcome: Outcome)
      requires Valid()
      modifies this, items, threadList
      ensures Valid() && (Abs(), outcome) == Sched(old(Abs()), job)
    {
      var item := new QueueItem(job);
      PushQueueItem(item);
      var k, claimed := ClaimIdleThread();
      if claimed {
        return Claimed(k);
      }
      if numThreads < maxThreads || maxThreads == 0 {
        CreateThread();
        outcome := Created;
      } else {
        outcome := LeftQueued;
      }
    }
  }

  /** The first thread at or after `from` whose busy flag is clear, or the number of threads. */
  function FirstIdle(busy: seq<bool>, from: nat): nat
    requires from <= |busy|
    decreases |busy| - from
  {
    if from == |busy| || !busy[from] then from else FirstIdle(busy, from + 1)
  }

  lemma {:induction false} FirstIdleIs(busy: seq<bool>, from: nat, k: nat)
    requires from <= k <= |busy| && (k < |busy| ==> !busy[k])
    requires forall i :: from <= i < k ==> busy[i]
    ensures FirstIdle(busy, from) == k
    decreases k - from
  {
    if from < k {
      FirstIdleIs(busy, from + 1, k);
    }
  }

  /** What an undisturbed sched_job does to the shared memory. */
  function Sched(p: Pool, job: Job): (Pool, Outcome) {
    var q := Enqueue(p, job);
    var k := FirstIdle(q.busy, 0);
    if k < |q.busy| then (SetBusy(q, k, true), Claimed(k))
    else if MayGrow(q) then (AddThread(q), Created)
    else (q, LeftQueued)
  }

  /** The steps of one call alone: its push, then visits to thread records. */
  predicate CallOnly(steps: seq<Step>, job: Job) {
    steps != [] && steps[0] == Submit(job) && forall i :: 1 <= i < |steps| ==> steps[i] == Scan
  }

  /** The interleaving model and `SchedJob` agree: a submission whose steps are taken without worker steps in
      between ends with the shared memory and outcome of `Sched`, and sets `served` unless the job was left. */
  lemma UndisturbedSubmission(s: State, job: Job) returns (steps: seq<Step>)
    requires FlagsAgree(s) && s.sub.Outside?
    ensures CallOnly(steps, job)
    ensures var e := Run(s, steps);
      var (p, outcome) := Sched(s.pool, job);
      && e.sub.Outside? && e.pool == p
      && (e.served <==> outcome != LeftQueued)
      && (outcome.Claimed? ==>
            outcome.thread < |s.pos| == |e.pos| &&
            s.pos[outcome.thread] in {MarkedIdle, Waiting} && e.pos[outcome.thread] in {MarkedIdle, Woken})
  {
    var s1 := Next(s, Submit(job));
    var scans := ScanFrom(s1, 0);
    steps := [Submit(job)] + scans;
    assert Run(s, [Submit(job)]) == s1 by {
      assert [Submit(job)][..0] == [];
    }
    RunAppend(s, [Submit(job)], scans);
  }

  /** The condition for a single call: an undisturbed submission strands the queue if and only if no thread may be
      added and every thread stands between its empty pop and clearing its busy flag. */
  lemma UndisturbedStrandsIff(s: State, job: Job) returns (steps: seq<Step>)
    requires FlagsAgree(s) && s.sub.Outside?
    ensures CallOnly(steps, job)
    ensures var e := Run(s, steps);
      && e.sub.Outside? && e.pool == Sched(s.pool, job).0
      && (Stranded(e) <==> !MayGrow(s.pool) && forall t :: 0 <= t < |s.pos| ==> s.pos[t] == FoundEmpty)
  {
    var s1 := Next(s, Submit(job));
    var scans := ScanFrom(s1, 0);
    steps := [Submit(job)] + scans;
    RunOne(s, Submit(job));
    RunAppend(s, [Submit(job)], scans);
    FirstIdleFound(s.pool.busy, 0);
    var k := FirstIdle(s.pool.busy, 0);
    var e := Run(s, steps);
    assert e.pool.queue == s.pool.queue + [job];
    if k < |s.pos| {
      assert WillPop(e, k);
      assert s.pos[k] != FoundEmpty;
    } else if MayGrow(s.pool) {
      assert WillPop(e, |s.pos|);
    } else {
      WillPopUnless(e);
    }
  }

  /** With every busy flag set, the threads that will not pop are those that have found the queue empty. */
  lemma WillPopUnless(s: State)
    requires FlagsAgree(s) && forall t :: 0 <= t < |s.pos| ==> s.pool.busy[t]
    ensures (exists t: nat :: WillPop(s, t)) <==> !(forall t :: 0 <= t < |s.pos| ==> s.pos[t] == FoundEmpty)
  {
    forall t: nat | t < |s.pos| ensures WillPop(s, t) <==> s.pos[t] != FoundEmpty {
    }
  }

  lemma {:induction false} FirstIdleFound(busy: seq<bool>, from: nat)
    requires from <= |busy|
    ensures var k := FirstIdle(busy, from);
      from <= k <= |busy| && (k < |busy| ==> !busy[k]) && forall i :: from <= i < k ==> busy[i]
    decreases |busy| - from
  {
    if from < |busy| && busy[from] {
      FirstIdleFound(busy, from + 1);
    }
  }

  lemma {:induction false} ScanFrom(s: State, k: nat) returns (steps: seq<Step>)
    requires FlagsAgree(s) && s.sub == Scanning(k) && k <= |s.pos|
    ensures forall j :: 0 <= j < |steps| ==> steps[j] == Scan
    ensures var e := Run(s, steps);
      var i := FirstIdle(s.pool.busy, k);
      && i <= |s.pos|
      && e == ScanStep(s.(sub := Scanning(i)), i)
      && (i < |s.pos| ==> !s.pool.busy[i])
    decreases |s.pos| - k
  {
    var s1 := Next(s, Scan);
    assert Run(s, [Scan]) == s1 by {
      assert [Scan][..0] == [];
    }
    if k < |s.pos| && s.pool.busy[k] {
      var rest := ScanFrom(s1, k + 1);
      RunAppend(s, [Scan], rest);
      steps := [Scan] + rest;
    } else {
      steps := [Scan];
    }
  }
}

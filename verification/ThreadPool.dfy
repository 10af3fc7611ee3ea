/** The interleaving semantics of the C thread pool (C/src/external/thread_pool.c).

    Each step is one critical section of the source: a pop or push under jobQueueMutex, one visit to a
    thread record under its execMutex, or the creation of a thread under contextMutex.  Worker threads
    and the submitter interleave freely between steps; contextMutex admits one submitter at a time.
    `destroy_thread_pool` and spurious wake-ups are not part of this model, so `active` stays set.
 */
module ThreadPool {

  /** What a queue item carries: the function to call and its argument. */
  datatype Job = Job(func: nat, args: nat)

  /** The shared memory of a pool: the queue in list order and the busy flag of each thread in list order.
      `maxThreads` is a C int set from an unsigned argument, so any integer is possible. */
  datatype Pool = Pool(queue: seq<Job>, busy: seq<bool>, maxThreads: int)

  function Enqueue(p: Pool, job: Job): Pool {
    p.(queue := p.queue + [job])
  }

  function Dequeue(p: Pool): Pool {
    if p.queue == [] then p else p.(queue := p.queue[1..])
  }

  function SetBusy(p: Pool, t: nat, b: bool): Pool
    requires t < |p.busy|
  {
    p.(busy := p.busy[t := b])
  }

  predicate MayGrow(p: Pool) {
    |p.busy| < p.maxThreads || p.maxThreads == 0
  }

  function AddThread(p: Pool): Pool {
    p.(busy := p.busy + [true])
  }

  /** Where a worker stands in `pool_thread_func`. */
  datatype Position =
    | Popping           // about to call pop_queue_item (line 82)
    | Running(job: Job) // executing a popped job (line 84)
    | FoundEmpty        // popped nothing, busy flag still set (before line 90)
    | MarkedIdle        // busy flag cleared, has not yet looked at it again (before line 96)
    | Waiting           // inside pthread_cond_wait (line 98)
    | Woken             // signalled, about to return from pthread_cond_wait

  /** Where the holder of contextMutex stands in `sched_job`. */
  datatype Submitter = Outside | Scanning(next: nat)

  /** `served` says whether the last completed sched_job claimed an idle thread or created one.
      `submitted`, `started` and `finished` record jobs in the order of their push, pop and completion. */
  datatype State = State(pool: Pool, pos: seq<Position>, sub: Submitter, served: bool,
                         submitted: seq<Job>, started: seq<Job>, finished: seq<Job>)

  function Init(maxThreads: int): State {
    State(Pool([], [], maxThreads), [], Outside, false, [], [], [])
  }

  datatype Step = Submit(job: Job) | Scan | Work(t: nat)

  predicate Enabled(s: State, step: Step) {
    match step
    case Submit(_) => s.sub.Outside?
    case Scan => s.sub.Scanning?
    case Work(t) => t < |s.pos| && s.pos[t] != Waiting
  }

  /** One step; a step whose guard fails leaves the state alone. */
  function Next(s: State, step: Step): State {
    if !Enabled(s, step) || |s.pos| != |s.pool.busy| then s else
    match step
    case Submit(job) =>
      s.(pool := Enqueue(s.pool, job), sub := Scanning(0), submitted := s.submitted + [job])
    case Scan => ScanStep(s, s.sub.next)
    case Work(t) => WorkStep(s, t)
  }

  /** One turn of the loop over thread records in `sched_job`, or the code after that loop. */
  function ScanStep(s: State, k: nat): State
    requires |s.pos| == |s.pool.busy|
  {
    if k < |s.pos| then
      if s.pool.busy[k] then s.(sub := Scanning(k + 1))
      else s.(pool := SetBusy(s.pool, k, true),
              pos := if s.pos[k] == Waiting then s.pos[k := Woken] else s.pos,
              sub := Outside, served := true)
    else if MayGrow(s.pool) then
      s.(pool := AddThread(s.pool), pos := s.pos + [Popping], sub := Outside, served := true)
    else s.(sub := Outside, served := false)
  }

  function WorkStep(s: State, t: nat): State
    requires |s.pos| == |s.pool.busy| && t < |s.pos|
  {
    match s.pos[t]
    case Popping =>
      if s.pool.queue == [] then s.(pos := s.pos[t := FoundEmpty])
      else s.(pool := Dequeue(s.pool), pos := s.pos[t := Running(s.pool.queue[0])],
              started := s.started + [s.pool.queue[0]])
    case Running(job) => s.(pos := s.pos[t := Popping], finished := s.finished + [job])
    case FoundEmpty => s.(pool := SetBusy(s.pool, t, false), pos := s.pos[t := MarkedIdle])
    case MarkedIdle => s.(pos := s.pos[t := if s.pool.busy[t] then Popping else Waiting])
    case Waiting => s
    case Woken => s.(pos := s.pos[t := Popping])
  }

  /** The state after a sequence of steps, in the order given. */
  function Run(s: State, steps: seq<Step>): State {
    if steps == [] then s
    else Next(Run(s, steps[..|steps| - 1]), steps[|steps| - 1])
  }

  // ----- Invariant over every interleaving -----

  /** How many threads are executing `job`. */
  function RunningCount(pos: seq<Position>, job: Job): nat {
    if pos == [] then 0
    else (if pos[0] == Running(job) then 1 else 0) + RunningCount(pos[1..], job)
  }

  lemma {:induction false} RunningCountUpdate(pos: seq<Position>, t: nat, p: Position, job: Job)
    requires t < |pos|
    ensures RunningCount(pos[t := p], job) + (if pos[t] == Running(job) then 1 else 0)
         == RunningCount(pos, job) + (if p == Running(job) then 1 else 0)
  {
    if t == 0 {
      assert pos[t := p][1..] == pos[1..];
    } else {
      assert pos[t := p][1..] == pos[1..][t - 1 := p];
      RunningCountUpdate(pos[1..], t - 1, p, job);
    }
  }

  lemma {:induction false} RunningCountAppend(pos: seq<Position>, p: Position, job: Job)
    ensures RunningCount(pos + [p], job) == RunningCount(pos, job) + (if p == Running(job) then 1 else 0)
  {
    if pos == [] {
      assert (pos + [p])[1..] == [];
    } else {
      assert (pos + [p])[1..] == pos[1..] + [p];
      RunningCountAppend(pos[1..], p, job);
    }
  }

  /** A thread that is bound to pop the queue again before it can wait. */
  predicate WillPop(s: State, t: nat)
    requires |s.pos| == |s.pool.busy|
  {
    t < |s.pos| &&
    match s.pos[t]
    case Popping => true
    case Running(_) => true
    case Woken => true
    case MarkedIdle => s.pool.busy[t]
    case FoundEmpty => false
    case Waiting => false
  }

  /** Nothing is queued, or some thread is bound to look at the queue. */
  ghost predicate Attended(s: State)
    requires |s.pos| == |s.pool.busy|
  {
    s.pool.queue == [] || exists t: nat :: WillPop(s, t)
  }

  ghost predicate FlagsAgree(s: State) {
    |s.pos| == |s.pool.busy| &&
    forall t :: 0 <= t < |s.pos| ==>
      (s.pos[t] == Waiting ==> !s.pool.busy[t]) &&
      (s.pos[t] != Waiting && s.pos[t] != MarkedIdle ==> s.pool.busy[t])
  }

  /** A popped job is running on some thread or finished, as often as it was popped. */
  predicate Balanced(s: State, job: Job) {
    multiset(s.started)[job] == multiset(s.finished)[job] + RunningCount(s.pos, job)
  }

  ghost predicate Conserved(s: State) {
    s.submitted == s.started + s.pool.queue &&
    forall job :: Balanced(s, job)
  }

  predicate WithinCap(p: Pool) {
    p.maxThreads != 0 ==> |p.busy| <= if p.maxThreads < 0 then 0 else p.maxThreads
  }

  ghost predicate Inv(s: State) {
    && FlagsAgree(s)
    && Conserved(s)
    && WithinCap(s.pool)
    && (s.sub.Outside? && s.served ==> Attended(s))
    && (s.sub.Outside? && s.submitted != [] && s.pool.maxThreads == 0 ==> s.served)
  }

  lemma MultiplicitySnoc(jobs: seq<Job>, last: Job, job: Job)
    ensures multiset(jobs + [last])[job] == multiset(jobs)[job] + (if last == job then 1 else 0)
  {
  }

  lemma WorkKeepsBalance(s: State, t: nat, job: Job)
    requires |s.pos| == |s.pool.busy| && t < |s.pos| && Balanced(s, job)
    ensures Balanced(WorkStep(s, t), job)
  {
    var s' := WorkStep(s, t);
    assert s'.pos == s.pos[t := s'.pos[t]];
    RunningCountUpdate(s.pos, t, s'.pos[t], job);
    match s.pos[t]
    case Popping =>
      if s.pool.queue != [] {
        MultiplicitySnoc(s.started, s.pool.queue[0], job);
      }
    case Running(j) => MultiplicitySnoc(s.finished, j, job);
    case _ =>
  }

  lemma WorkPreservesConserved(s: State, t: nat)
    requires |s.pos| == |s.pool.busy| && t < |s.pos| && Conserved(s)
    ensures Conserved(WorkStep(s, t))
  {
    if s.pos[t] == Popping && s.pool.queue != [] {
      assert s.pool.queue == [s.pool.queue[0]] + s.pool.queue[1..];
    }
    forall job ensures Balanced(WorkStep(s, t), job) {
      assert Balanced(s, job);
      WorkKeepsBalance(s, t, job);
    }
  }

  lemma ScanPreservesConserved(s: State, k: nat)
    requires FlagsAgree(s) && Conserved(s)
    ensures Conserved(ScanStep(s, k))
  {
    var s' := ScanStep(s, k);
    forall job ensures Balanced(s', job) {
      assert Balanced(s, job);
      if k < |s.pos| {
        RunningCountUpdate(s.pos, k, Woken, job);
      } else {
        RunningCountAppend(s.pos, Popping, job);
      }
    }
  }

  /** Worker steps neither create nor destroy attention: an attended queue stays attended, and an
      unattended one is not touched. */
  lemma WorkKeepsAttention(s: State, t: nat)
    requires FlagsAgree(s) && t < |s.pos|
    ensures FlagsAgree(WorkStep(s, t))
    ensures Attended(s) <==> Attended(WorkStep(s, t))
    ensures !Attended(s) ==> WorkStep(s, t).pool.queue == s.pool.queue
  {
    var s' := WorkStep(s, t);
    if s.pool.queue != [] && exists u: nat :: WillPop(s, u) {
      var u: nat :| WillPop(s, u);
      if u == t {
        assert WillPop(s', t);
      } else {
        assert WillPop(s', u);
      }
    }
    if s.pool.queue != [] && Attended(s') {
      if exists u: nat :: WillPop(s', u) {
        var u: nat :| WillPop(s', u);
        assert WillPop(s, u);
      } else {
        assert WillPop(s, t);
      }
    }
    if s.pos[t] == Popping {
      assert WillPop(s, t);
    }
  }

  lemma ScanAttends(s: State, k: nat)
    requires FlagsAgree(s)
    ensures FlagsAgree(ScanStep(s, k))
    ensures var s' := ScanStep(s, k); s'.sub.Outside? && s'.served ==> exists t: nat :: WillPop(s', t)
  {
    var s' := ScanStep(s, k);
    if s'.sub.Outside? && s'.served {
      assert WillPop(s', if k < |s.pos| then k else |s.pos|);
    }
  }

  lemma StepPreservesInv(s: State, step: Step)
    requires Inv(s)
    ensures Inv(Next(s, step))
  {
    if Enabled(s, step) {
      match step
      case Submit(job) => SubmitPreservesInv(s, job);
      case Scan => ScanPreservesInv(s);
      case Work(t) => WorkPreservesInv(s, t);
    }
  }

  lemma ScanPreservesInv(s: State)
    requires Inv(s) && s.sub.Scanning?
    ensures Inv(Next(s, Scan))
  {
    ScanPreservesConserved(s, s.sub.next);
    ScanAttends(s, s.sub.next);
  }

  lemma WorkPreservesInv(s: State, t: nat)
    requires Inv(s) && t < |s.pos|
    ensures Inv(WorkStep(s, t))
  {
    WorkPreservesConserved(s, t);
    WorkKeepsAttention(s, t);
  }

  lemma SubmitPreservesInv(s: State, job: Job)
    requires Inv(s) && s.sub.Outside?
    ensures Inv(Next(s, Submit(job)))
  {
    var s' := Next(s, Submit(job));
    assert s'.submitted == s'.started + s'.pool.queue;
    forall j ensures Balanced(s', j) {
      assert Balanced(s, j);
    }
  }

  lemma {:induction false} RunPreservesInv(s: State, steps: seq<Step>)
    requires Inv(s)
    ensures Inv(Run(s, steps))
  {
    if steps != [] {
      RunPreservesInv(s, steps[..|steps| - 1]);
      StepPreservesInv(Run(s, steps[..|steps| - 1]), steps[|steps| - 1]);
    }
  }

  // ----- Main results: safety -----

  /** In every interleaving jobs are popped in push order, each popped job is either running on exactly one
      thread or finished once, and the thread count respects a non-zero cap. */
  lemma PoolConservation(maxThreads: int, steps: seq<Step>)
    ensures var s := Run(Init(maxThreads), steps);
      && s.submitted == s.started + s.pool.queue
      && (forall job :: multiset(s.submitted)[job] ==
            multiset(s.pool.queue)[job] + RunningCount(s.pos, job) + multiset(s.finished)[job])
      && |s.pool.busy| == |s.pos|
      && (maxThreads > 0 ==> |s.pos| <= maxThreads)
  {
    var s := Run(Init(maxThreads), steps);
    RunPreservesInv(Init(maxThreads), steps);
    MaxThreadsFixed(Init(maxThreads), steps);
    forall job ensures multiset(s.submitted)[job] ==
        multiset(s.pool.queue)[job] + RunningCount(s.pos, job) + multiset(s.finished)[job] {
      assert Balanced(s, job);
    }
  }

  lemma {:induction false} MaxThreadsFixed(s: State, steps: seq<Step>)
    ensures Run(s, steps).pool.maxThreads == s.pool.maxThreads
  {
    if steps != [] {
      MaxThreadsFixed(s, steps[..|steps| - 1]);
    }
  }

  /** No stranded job: whenever no submission is under way and the last one claimed or created a thread,
      a non-empty queue has a thread that will pop again before it can wait. */
  lemma NoStrandedJob(maxThreads: int, steps: seq<Step>)
    ensures var s := Run(Init(maxThreads), steps);
      s.sub.Outside? && (s.served || (maxThreads == 0 && s.submitted != [])) && s.pool.queue != [] ==>
        exists t: nat :: t < |s.pos| && |s.pos| == |s.pool.busy| && WillPop(s, t)
  {
    RunPreservesInv(Init(maxThreads), steps);
    MaxThreadsFixed(Init(maxThreads), steps);
  }

  // ----- Main results: termination once submissions stop -----

  function Rank(p: Position, busy: bool): nat {
    match p
    case Running(_) => 4
    case Woken => 4
    case MarkedIdle => if busy then 4 else 1
    case Popping => 3
    case FoundEmpty => 2
    case Waiting => 0
  }

  function Ranks(pos: seq<Position>, busy: seq<bool>): nat
    requires |pos| == |busy|
  {
    if pos == [] then 0 else Rank(pos[0], busy[0]) + Ranks(pos[1..], busy[1..])
  }

  lemma {:induction false} RanksUpdate(pos: seq<Position>, busy: seq<bool>, t: nat, p: Position, b: bool)
    requires |pos| == |busy| && t < |pos|
    ensures Ranks(pos[t := p], busy[t := b]) + Rank(pos[t], busy[t]) == Ranks(pos, busy) + Rank(p, b)
  {
    if t == 0 {
      assert pos[t := p][1..] == pos[1..] && busy[t := b][1..] == busy[1..];
    } else {
      assert pos[t := p][1..] == pos[1..][t - 1 := p];
      assert busy[t := b][1..] == busy[1..][t - 1 := b];
      RanksUpdate(pos[1..], busy[1..], t - 1, p, b);
    }
  }

  /** Work left: two for each queued job plus the rank of each thread's position. */
  function WorkLeft(s: State): nat
    requires |s.pos| == |s.pool.busy|
  {
    2 * |s.pool.queue| + Ranks(s.pos, s.pool.busy)
  }

  lemma WorkDecreases(s: State, t: nat)
    requires FlagsAgree(s) && t < |s.pos| && s.pos[t] != Waiting
    ensures FlagsAgree(WorkStep(s, t))
    ensures WorkLeft(WorkStep(s, t)) < WorkLeft(s)
  {
    var s' := WorkStep(s, t);
    RanksUpdate(s.pos, s.pool.busy, t, s'.pos[t], s'.pool.busy[t]);
    assert s'.pos == s.pos[t := s'.pos[t]];
    assert s'.pool.busy == s.pool.busy[t := s'.pool.busy[t]];
  }

  /** `ts` names, in order, threads that each take a step; no submission happens. */
  predicate QuietRun(s: State, ts: seq<nat>)
    decreases |ts|
  {
    |s.pos| == |s.pool.busy| &&
    (ts != [] ==> Enabled(s, Work(ts[0])) && QuietRun(WorkStep(s, ts[0]), ts[1..]))
  }

  function QuietEnd(s: State, ts: seq<nat>): State
    requires QuietRun(s, ts)
    decreases |ts|
  {
    if ts == [] then s else QuietEnd(WorkStep(s, ts[0]), ts[1..])
  }

  lemma {:induction false} QuietRunFacts(s: State, ts: seq<nat>)
    requires FlagsAgree(s) && Conserved(s) && QuietRun(s, ts)
    ensures var e := QuietEnd(s, ts);
      && FlagsAgree(e) && Conserved(e) && e.submitted == s.submitted
      && |ts| + WorkLeft(e) <= WorkLeft(s)
      && (Attended(s) <==> Attended(e))
      && (!Attended(s) ==> e.pool.queue == s.pool.queue)
    decreases |ts|
  {
    if ts != [] {
      WorkDecreases(s, ts[0]);
      WorkPreservesConserved(s, ts[0]);
      WorkKeepsAttention(s, ts[0]);
      QuietRunFacts(WorkStep(s, ts[0]), ts[1..]);
    }
  }

  lemma {:induction false} WaitingRunsNothing(pos: seq<Position>, job: Job)
    requires forall t :: 0 <= t < |pos| ==> pos[t] == Waiting
    ensures RunningCount(pos, job) == 0
  {
    if pos != [] {
      WaitingRunsNothing(pos[1..], job);
    }
  }

  /** Every thread waits: the state no worker can leave by itself. */
  ghost predicate AllWaiting(s: State) {
    forall t :: 0 <= t < |s.pos| ==> s.pos[t] == Waiting
  }

  lemma WaitingAccounts(e: State, job: Job)
    requires Conserved(e) && AllWaiting(e)
    ensures multiset(e.submitted)[job] == multiset(e.finished)[job] + multiset(e.pool.queue)[job]
  {
    assert Balanced(e, job);
    WaitingRunsNothing(e.pos, job);
  }

  lemma WaitingFinishedAll(e: State)
    requires Conserved(e) && AllWaiting(e)
    ensures multiset(e.finished) == multiset(e.submitted) <==> e.pool.queue == []
  {
    if e.pool.queue == [] {
      forall job ensures multiset(e.submitted)[job] == multiset(e.finished)[job] {
        WaitingAccounts(e, job);
      }
    } else {
      WaitingAccounts(e, e.pool.queue[0]);
      assert e.pool.queue[0] in multiset(e.pool.queue);
    }
  }

  /** Once submissions stop, from any reachable state: no run is longer than `WorkLeft`, and a run that can
      go no further has every thread waiting.  It has executed every submitted job exactly when the queue was
      attended when submissions stopped; otherwise the queue is left as it was found. */
  lemma QuietRunsDrain(maxThreads: int, steps: seq<Step>, ts: seq<nat>)
    requires var s := Run(Init(maxThreads), steps); s.sub.Outside? && QuietRun(s, ts)
    ensures var s := Run(Init(maxThreads), steps);
      var e := QuietEnd(s, ts);
      && |s.pos| == |s.pool.busy|
      && |ts| <= WorkLeft(s)
      && ((forall t: nat :: !Enabled(e, Work(t))) ==>
          && AllWaiting(e)
          && (Attended(s) <==> multiset(e.finished) == multiset(e.submitted))
          && (!Attended(s) ==> e.pool.queue == s.pool.queue))
  {
    var s := Run(Init(maxThreads), steps);
    RunPreservesInv(Init(maxThreads), steps);
    QuietRunOutcome(s, ts);
  }

  lemma QuietRunOutcome(s: State, ts: seq<nat>)
    requires FlagsAgree(s) && Conserved(s) && QuietRun(s, ts)
    ensures var e := QuietEnd(s, ts);
      && |ts| <= WorkLeft(s)
      && ((forall t: nat :: !Enabled(e, Work(t))) ==>
          && AllWaiting(e)
          && (Attended(s) <==> multiset(e.finished) == multiset(e.submitted))
          && (!Attended(s) ==> e.pool.queue == s.pool.queue))
  {
    var e := QuietEnd(s, ts);
    QuietRunFacts(s, ts);
    if forall t: nat :: !Enabled(e, Work(t)) {
      forall t | 0 <= t < |e.pos| ensures e.pos[t] == Waiting {
        assert !Enabled(e, Work(t));
      }
      WaitingFinishedAll(e);
    }
  }

  // ----- Main results: when a job can be stranded -----

  /** A submission has returned, a job is queued, and no thread will look for it. */
  ghost predicate Stranded(s: State) {
    |s.pos| == |s.pool.busy| && s.sub.Outside? && !Attended(s)
  }

  /** Every thread stands between its empty pop and clearing its busy flag. */
  predicate AllFoundEmpty(s: State) {
    && s.sub.Outside? && s.pool.queue == [] && |s.pos| == |s.pool.busy|
    && forall t :: 0 <= t < |s.pos| ==> s.pos[t] == FoundEmpty && s.pool.busy[t]
  }

  lemma {:induction false} ScanPastBusy(s: State, k: nat) returns (steps: seq<Step>)
    requires s.sub == Scanning(k) && k <= |s.pos| == |s.pool.busy|
    requires forall t :: 0 <= t < |s.pos| ==> s.pool.busy[t]
    ensures Run(s, steps) == s.(sub := Scanning(|s.pos|))
    decreases |s.pos| - k
  {
    if k == |s.pos| {
      steps := [];
    } else {
      var rest := ScanPastBusy(Next(s, Scan), k + 1);
      RunOne(s, Scan);
      RunAppend(s, [Scan], rest);
      steps := [Scan] + rest;
    }
  }

  /** A submission while every thread is in that window: it creates a thread or leaves the job. */
  lemma SubmitInWindow(s: State, job: Job) returns (steps: seq<Step>)
    requires AllFoundEmpty(s)
    ensures Run(s, steps) ==
      ScanStep(s.(pool := Enqueue(s.pool, job), sub := Scanning(|s.pos|), submitted := s.submitted + [job]), |s.pos|)
  {
    var s1 := Next(s, Submit(job));
    var scans := ScanPastBusy(s1, 0);
    RunOne(s, Submit(job));
    RunAppend(s, [Submit(job)], scans);
    steps := [Submit(job)] + scans;
    RunOne(Run(s, steps), Scan);
    RunAppend(s, steps, [Scan]);
    steps := steps + [Scan];
  }

  /** One more thread brought into the window: it runs the job and finds the queue empty again. */
  lemma GrowOnce(s: State, job: Job) returns (steps: seq<Step>)
    requires AllFoundEmpty(s) && MayGrow(s.pool)
    ensures AllFoundEmpty(Run(s, steps)) && |Run(s, steps).pos| == |s.pos| + 1
    ensures Run(s, steps).pool.maxThreads == s.pool.maxThreads
  {
    var submission := SubmitInWindow(s, job);
    var s1 := Run(s, submission);
    var t := |s.pos|;
    assert s1.pool.queue == [job] && s1.pos == s.pos + [Popping] && s1.pool.busy == s.pool.busy + [true];
    RunThree(s1, Work(t), Work(t), Work(t));
    RunAppend(s, submission, [Work(t), Work(t), Work(t)]);
    steps := submission + [Work(t), Work(t), Work(t)];
    assert Run(s, steps).pos == s1.pos[t := FoundEmpty];
  }

  lemma {:induction false} GrowTo(s: State, n: nat, job: Job) returns (steps: seq<Step>)
    requires AllFoundEmpty(s) && |s.pos| <= n && (n > 0 ==> s.pool.maxThreads == n)
    ensures AllFoundEmpty(Run(s, steps)) && |Run(s, steps).pos| == n
    ensures Run(s, steps).pool.maxThreads == s.pool.maxThreads
    decreases n - |s.pos|
  {
    if |s.pos| == n {
      steps := [];
    } else {
      var once := GrowOnce(s, job);
      var rest := GrowTo(Run(s, once), n, job);
      RunAppend(s, once, rest);
      steps := once + rest;
    }
  }

  /** Under any cap, however large, a submission can find every thread between its empty pop and clearing its
      busy flag; it wakes nobody, and the job is left in the queue. */
  lemma CappedSubmissionCanStrand(maxThreads: int, job: Job) returns (steps: seq<Step>)
    requires maxThreads != 0
    ensures Stranded(Run(Init(maxThreads), steps)) && Run(Init(maxThreads), steps).pool.queue == [job]
  {
    var grow := GrowTo(Init(maxThreads), if maxThreads < 0 then 0 else maxThreads, job);
    var s := Run(Init(maxThreads), grow);
    var submission := SubmitInWindow(s, job);
    RunAppend(Init(maxThreads), grow, submission);
    steps := grow + submission;
  }

  /** The exact condition: some run strands a job if and only if the pool has a cap. */
  lemma StrandingIffCapped(maxThreads: int)
    ensures (exists steps :: Stranded(Run(Init(maxThreads), steps))) <==> maxThreads != 0
  {
    if maxThreads == 0 {
      forall steps ensures !Stranded(Run(Init(0), steps)) {
        RunPreservesInv(Init(0), steps);
        MaxThreadsFixed(Init(0), steps);
      }
    } else {
      var steps := CappedSubmissionCanStrand(maxThreads, Job(0, 0));
    }
  }

  lemma RunOne(s: State, x: Step)
    ensures Run(s, [x]) == Next(s, x)
  {
    assert [x][..0] == [];
  }

  lemma RunTwo(s: State, x: Step, y: Step)
    ensures Run(s, [x, y]) == Next(Next(s, x), y)
  {
    assert [x, y][..1] == [x] && [x][..0] == [];
    assert Run(s, [x]) == Next(s, x);
  }

  lemma RunThree(s: State, x: Step, y: Step, z: Step)
    ensures Run(s, [x, y, z]) == Next(Next(Next(s, x), y), z)
  {
    assert [x, y, z][..2] == [x, y];
    RunTwo(s, x, y);
  }

  lemma {:induction false} RunAppend(s: State, a: seq<Step>, b: seq<Step>)
    ensures Run(s, a + b) == Run(Run(s, a), b)
    decreases |b|
  {
    if b == [] {
      assert a + b == a;
    } else {
      assert (a + b)[..|a + b| - 1] == a + b[..|b| - 1];
      RunAppend(s, a, b[..|b| - 1]);
    }
  }
}

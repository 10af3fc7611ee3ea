/** The algorithm controller on top of its thread pool (C/src/PiVisAlgoCtrl.c:27-67, C/src/external/thread_pool.c):
    the completions that `FramePipeline` takes from outside are here the work of the pool's threads, and a frame that
    the controller schedules is a job that the pool has to run. */
module AlgoJobs {
  import opened FramePipeline
  import Images
  import ThreadPool

  /** The one job the controller submits: the algorithm on its context. */
  const AlgorithmJob := ThreadPool.Job(0, 0)

  /** The first look of `run`: a completed result is sent on. */
  function Look(a: AlgoContext): AlgoContext {
    if a.state == ALGO_COMPLETE then a.(sendCalls := a.sendCalls + 1) else a
  }

  /** `run` of the controller is a look and an offer, with the completions of the pool before either. */
  lemma ControllerRun(a: AlgoContext, recBuffer: Frame, recBufferSize: nat, early: bool, late: bool)
    ensures var looked := Look(MaybeComplete(a, early));
      AlgoRun(a, recBuffer, recBufferSize, early, late)
      == if recBufferSize == Images.COLOR_IMAGE_SIZE
         then OfferFrame(MaybeComplete(looked, late).(inputData := recBuffer))
         else MaybeComplete(looked, late)
  {
  }

  /** `done`: threads whose job has set ALGO_COMPLETE and not returned yet. */
  datatype Jobs = Jobs(a: AlgoContext, pool: ThreadPool.State, done: set<nat>)

  datatype Step =
    | LookAtResult                   // the controller, outside sched_job
    | Offer(frame: Frame)
    | Complete(t: nat)               // the job on thread t sets ALGO_COMPLETE
    | Scan                           // the controller inside sched_job
    | Work(t: nat)

  function Init(a: AlgoContext, maxThreads: int): Jobs {
    Jobs(a, ThreadPool.Init(maxThreads), {})
  }

  /** The job on thread t has not completed. */
  predicate Undone(s: Jobs, t: nat) {
    t < |s.pool.pos| && s.pool.pos[t].Running? && t !in s.done
  }

  function Next(s: Jobs, step: Step): Jobs {
    match step
    case LookAtResult =>
      if s.pool.sub.Outside? then s.(a := Look(s.a)) else s
    case Offer(frame) =>
      if !s.pool.sub.Outside? then s
      else
        var offered := s.(a := OfferFrame(s.a.(inputData := frame)));
        if s.a.state == ALGO_RUNNING then offered
        else offered.(pool := ThreadPool.Next(s.pool, ThreadPool.Submit(AlgorithmJob)))
    case Complete(t) =>
      if Undone(s, t) then s.(a := MaybeComplete(s.a, true), done := s.done + {t}) else s
    case Scan =>
      s.(pool := ThreadPool.Next(s.pool, ThreadPool.Scan))
    case Work(t) =>
      if Undone(s, t) then s
      else s.(pool := ThreadPool.Next(s.pool, ThreadPool.Work(t)), done := s.done - {t})
  }

  function Run(s: Jobs, steps: seq<Step>): Jobs
    decreases |steps|
  {
    if steps == [] then s else Run(Next(s, steps[0]), steps[1..])
  }

  lemma {:induction false} RunAppend(s: Jobs, x: seq<Step>, y: seq<Step>)
    ensures Run(s, x + y) == Run(Run(s, x), y)
    decreases |x|
  {
    if x == [] {
      assert x + y == y;
    } else {
      assert (x + y)[1..] == x[1..] + y;
      RunAppend(Next(s, x[0]), x[1..], y);
    }
  }

  // ----- Invariant -----

  /** The controller's flag tells whether a job is outstanding, and there is never more than one: it is queued, or
      running on one thread. */
  ghost predicate Outstanding(s: Jobs) {
    && (forall t, u :: Undone(s, t) && Undone(s, u) ==> t == u)
    && if s.a.state != ALGO_RUNNING then s.pool.pool.queue == [] && forall t :: !Undone(s, t)
       else if s.pool.pool.queue == [] then exists t :: Undone(s, t)
       else |s.pool.pool.queue| == 1 && forall t :: !Undone(s, t)
  }

  /** The frames scheduled are the jobs submitted, and the ones finished have completed. */
  predicate Scheduled(s: Jobs) {
    && |s.pool.submitted| == CountScheduled(s.a.offers)
    && CountScheduled(s.a.offers) == s.a.finished + (if s.a.state == ALGO_RUNNING then 1 else 0)
  }

  ghost predicate Inv(s: Jobs) {
    && ThreadPool.Inv(s.pool) && Outstanding(s) && Scheduled(s)
    && (forall t :: t in s.done ==> t < |s.pool.pos| && s.pool.pos[t].Running?)
  }

  lemma OutstandingSame(s: Jobs, s': Jobs)
    requires Outstanding(s) && s'.a.state == s.a.state && s'.pool.pool.queue == s.pool.pool.queue
    requires forall t :: Undone(s', t) == Undone(s, t)
    ensures Outstanding(s')
  {
    if s.a.state == ALGO_RUNNING && s.pool.pool.queue == [] {
      var t :| Undone(s, t);
      assert Undone(s', t);
    }
  }

  lemma OfferKeepsInv(s: Jobs, frame: Frame)
    requires Inv(s)
    ensures Inv(Next(s, Offer(frame)))
  {
    var s' := Next(s, Offer(frame));
    CountScheduledSnoc(s.a.offers, FramePipeline.Scheduled(frame));
    CountScheduledSnoc(s.a.offers, Dropped(frame));
    assert forall t :: Undone(s', t) == Undone(s, t);
    if s.a.state == ALGO_RUNNING {
      OutstandingSame(s, s');
    } else {
      ThreadPool.StepPreservesInv(s.pool, ThreadPool.Submit(AlgorithmJob));
    }
  }

  lemma CompleteKeepsInv(s: Jobs, t: nat)
    requires Inv(s) && Undone(s, t)
    ensures Inv(Next(s, Complete(t)))
  {
    var s' := Next(s, Complete(t));
    assert forall u :: Undone(s', u) == (Undone(s, u) && u != t);
  }

  /** A visit to a thread record leaves running threads running. */
  lemma ScanKeepsRunning(p: ThreadPool.State, t: nat)
    requires |p.pos| == |p.pool.busy|
    ensures var q := ThreadPool.Next(p, ThreadPool.Scan);
      && q.pool.queue == p.pool.queue && q.submitted == p.submitted
      && (t < |p.pos| && p.pos[t].Running? <==> t < |q.pos| && q.pos[t].Running?)
      && (t < |p.pos| && p.pos[t].Running? ==> q.pos[t] == p.pos[t])
  {
  }

  lemma ScanKeepsInv(s: Jobs)
    requires Inv(s)
    ensures Inv(Next(s, Scan))
  {
    var s' := Next(s, Scan);
    ThreadPool.StepPreservesInv(s.pool, ThreadPool.Scan);
    forall t: nat
      ensures Undone(s', t) == Undone(s, t)
      ensures t in s.done ==> t < |s'.pool.pos| && s'.pool.pos[t].Running?
    {
      ScanKeepsRunning(s.pool, t);
    }
    ScanKeepsRunning(s.pool, 0);
    OutstandingSame(s, s');
  }

  lemma WorkKeepsInv(s: Jobs, t: nat)
    requires Inv(s) && !Undone(s, t) && t < |s.pool.pos| && s.pool.pos[t] != ThreadPool.Waiting
    ensures Inv(Next(s, Work(t)))
  {
    ThreadPool.StepPreservesInv(s.pool, ThreadPool.Work(t));
    WorkKeepsDone(s, t);
    if s.pool.pos[t] == ThreadPool.Popping && s.pool.pool.queue != [] {
      PopKeepsOutstanding(s, t);
    } else {
      OtherWorkKeepsOutstanding(s, t);
    }
  }

  lemma WorkKeepsDone(s: Jobs, t: nat)
    requires Inv(s) && !Undone(s, t) && t < |s.pool.pos| && s.pool.pos[t] != ThreadPool.Waiting
    ensures var s' := Next(s, Work(t));
      && Scheduled(s') && forall u :: u in s'.done ==> u < |s'.pool.pos| && s'.pool.pos[u].Running?
  {
  }

  lemma OtherWorkKeepsOutstanding(s: Jobs, t: nat)
    requires Inv(s) && !Undone(s, t) && t < |s.pool.pos| && s.pool.pos[t] != ThreadPool.Waiting
    requires s.pool.pos[t] != ThreadPool.Popping || s.pool.pool.queue == []
    ensures Outstanding(Next(s, Work(t)))
  {
    var s' := Next(s, Work(t));
    forall u: nat ensures Undone(s', u) == Undone(s, u) {
    }
    OutstandingSame(s, s');
  }

  lemma PopKeepsOutstanding(s: Jobs, t: nat)
    requires Inv(s) && t < |s.pool.pos| && s.pool.pos[t] == ThreadPool.Popping && s.pool.pool.queue != []
    ensures Outstanding(Next(s, Work(t)))
  {
    var s' := Next(s, Work(t));
    assert forall u :: u != t ==> Undone(s', u) == Undone(s, u);
    assert Undone(s', t) && s'.pool.pool.queue == [];
  }

  lemma StepKeepsInv(s: Jobs, step: Step)
    requires Inv(s)
    ensures Inv(Next(s, step))
  {
    match step
    case LookAtResult =>
      assert forall t :: Undone(Next(s, step), t) == Undone(s, t);
    case Offer(frame) => OfferKeepsInv(s, frame);
    case Complete(t) =>
      if Undone(s, t) {
        CompleteKeepsInv(s, t);
      }
    case Scan => ScanKeepsInv(s);
    case Work(t) =>
      if !Undone(s, t) && t < |s.pool.pos| && s.pool.pos[t] != ThreadPool.Waiting {
        WorkKeepsInv(s, t);
      } else if !Undone(s, t) {
        assert t !in s.done && s.done - {t} == s.done;
        assert Next(s, step) == s;
      }
  }

  lemma {:induction false} RunKeepsInv(s: Jobs, steps: seq<Step>)
    requires Inv(s)
    ensures Inv(Run(s, steps))
    decreases |steps|
  {
    if steps != [] {
      StepKeepsInv(s, steps[0]);
      RunKeepsInv(Next(s, steps[0]), steps[1..]);
    }
  }

  lemma {:induction false} RunKeepsCap(s: Jobs, steps: seq<Step>)
    ensures Run(s, steps).pool.pool.maxThreads == s.pool.pool.maxThreads
    decreases |steps|
  {
    if steps != [] {
      RunKeepsCap(Next(s, steps[0]), steps[1..]);
    }
  }

  const Idle: AlgoContext := FramePipeline.Init.ctrl

  lemma InitInv(maxThreads: int)
    ensures Inv(Init(Idle, maxThreads))
  {
  }

  // ----- Main results -----

  /** In every interleaving of the controller and the pool: at most one job is outstanding, and the controller's flag
      says whether one is; a completion finds the flag set; and each scheduled frame but the outstanding one has
      completed. */
  lemma FlagIsOutstanding(maxThreads: int, steps: seq<Step>)
    ensures var s := Run(Init(Idle, maxThreads), steps);
      && Outstanding(s) && Scheduled(s)
      && (forall t :: Undone(s, t) ==> s.a.state == ALGO_RUNNING)
  {
    InitInv(maxThreads);
    RunKeepsInv(Init(Idle, maxThreads), steps);
  }

  /** The controller waits for a job that no thread will take. */
  ghost predicate Starved(s: Jobs) {
    s.a.state == ALGO_RUNNING && ThreadPool.FlagsAgree(s.pool) && ThreadPool.Stranded(s.pool)
  }

  /** A controller that waits while no thread can take a step is starved. */
  lemma WaitingForNobody(maxThreads: int, steps: seq<Step>)
    ensures var s := Run(Init(Idle, maxThreads), steps);
      s.pool.sub.Outside? && ThreadPool.AllWaiting(s.pool) ==> (s.a.state == ALGO_RUNNING <==> Starved(s))
  {
    InitInv(maxThreads);
    RunKeepsInv(Init(Idle, maxThreads), steps);
  }

  /** In a starved state every further frame is dropped, and nothing ever completes. */
  lemma {:induction false} StarvedForever(s: Jobs, steps: seq<Step>)
    requires Starved(s)
    ensures var e := Run(s, steps);
      && Starved(e) && e.a.finished == s.a.finished && e.a.sendCalls == s.a.sendCalls
      && s.a.offers <= e.a.offers
      && forall i :: |s.a.offers| <= i < |e.a.offers| ==> e.a.offers[i].Dropped?
    decreases |steps|
  {
    if steps != [] {
      StarvedStep(s, steps[0]);
      StarvedForever(Next(s, steps[0]), steps[1..]);
    }
  }

  /** A starved pool runs nothing. */
  lemma NoneRunning(s: Jobs, t: nat)
    requires Starved(s)
    ensures !Undone(s, t)
  {
    assert !ThreadPool.WillPop(s.pool, t);
  }

  lemma StarvedStep(s: Jobs, step: Step)
    requires Starved(s)
    ensures var e := Next(s, step);
      && Starved(e) && e.a.finished == s.a.finished && e.a.sendCalls == s.a.sendCalls
      && (e.a.offers == s.a.offers || exists frame :: e.a.offers == s.a.offers + [Dropped(frame)])
  {
    match step
    case Complete(t) => NoneRunning(s, t);
    case Work(t) =>
      if t < |s.pool.pos| && s.pool.pos[t] != ThreadPool.Waiting {
        ThreadPool.WorkKeepsAttention(s.pool, t);
      }
    case _ =>
  }

  /** Between jobs, every thread about to clear its busy flag. */
  ghost predicate Window(s: Jobs) {
    s.a.state != ALGO_RUNNING && ThreadPool.AllFoundEmpty(s.pool) && s.done == {}
  }

  lemma {:induction false} ScanPastBusy(s: Jobs, k: nat) returns (steps: seq<Step>)
    requires s.pool.sub == ThreadPool.Scanning(k) && k <= |s.pool.pos| == |s.pool.pool.busy|
    requires forall t :: 0 <= t < |s.pool.pos| ==> s.pool.pool.busy[t]
    ensures Run(s, steps) == s.(pool := s.pool.(sub := ThreadPool.Scanning(|s.pool.pos|)))
    decreases |s.pool.pos| - k
  {
    if k == |s.pool.pos| {
      steps := [];
    } else {
      var rest := ScanPastBusy(Next(s, Scan), k + 1);
      steps := [Scan] + rest;
    }
  }

  /** A frame offered in the window: its job is queued, and a thread is created for it or not. */
  lemma OfferInWindow(s: Jobs, frame: Frame) returns (steps: seq<Step>)
    requires Window(s)
    ensures var e := Run(s, steps);
      && e.a.state == ALGO_RUNNING && e.done == {} && e.pool.sub.Outside?
      && e.pool.pool.queue == [AlgorithmJob] && e.pool.pool.maxThreads == s.pool.pool.maxThreads
      && (if ThreadPool.MayGrow(s.pool.pool)
          then e.pool.pos == s.pool.pos + [ThreadPool.Popping] && e.pool.pool.busy == s.pool.pool.busy + [true]
          else e.pool.pos == s.pool.pos && e.pool.pool.busy == s.pool.pool.busy)
  {
    var s1 := Next(s, Offer(frame));
    var scans := ScanPastBusy(s1, 0);
    var s2 := Run(s1, scans);
    RunAppend(s1, scans, [Scan]);
    assert Run(s2, [Scan]) == Next(s2, Scan);
    steps := [Offer(frame)] + (scans + [Scan]);
    assert steps[0] == Offer(frame) && steps[1..] == scans + [Scan];
  }

  /** The new thread runs the job and comes to the window as well. */
  lemma JobRuns(s: Jobs, t: nat) returns (steps: seq<Step>)
    requires s.a.state == ALGO_RUNNING && s.done == {} && s.pool.sub.Outside? && s.pool.pool.queue == [AlgorithmJob]
    requires |s.pool.pos| == |s.pool.pool.busy| == t + 1 && s.pool.pos[t] == ThreadPool.Popping && s.pool.pool.busy[t]
    ensures var e := Run(s, steps);
      && e.a.state != ALGO_RUNNING && e.done == {} && e.pool.sub.Outside? && e.pool.pool.queue == []
      && e.pool.pos == s.pool.pos[t := ThreadPool.FoundEmpty] && e.pool.pool.busy == s.pool.pool.busy
      && e.pool.pool.maxThreads == s.pool.pool.maxThreads
  {
    steps := [Work(t), Complete(t), Work(t), Work(t)];
    var s1 := Next(s, Work(t));
    var s2 := Next(s1, Complete(t));
    var s3 := Next(s2, Work(t));
    assert s1.pool.pos[t] == ThreadPool.Running(AlgorithmJob) && Undone(s1, t);
    assert s2.done == {t} && !Undone(s2, t);
    assert s3.pool.pos[t] == ThreadPool.Popping && s3.done == {} && s3.pool.pool.queue == [];
    assert steps[1..] == [Complete(t), Work(t), Work(t)];
    assert steps[1..][1..] == [Work(t), Work(t)] && steps[1..][1..][1..] == [Work(t)];
    assert Run(s3, [Work(t)]) == Next(s3, Work(t));
    assert Run(s2, [Work(t), Work(t)]) == Run(s3, [Work(t)]);
    assert Run(s1, [Complete(t), Work(t), Work(t)]) == Run(s2, [Work(t), Work(t)]);
    assert Run(s, steps) == Run(s1, [Complete(t), Work(t), Work(t)]);
  }

  lemma {:induction false} GrowTo(s: Jobs, n: nat, frame: Frame) returns (steps: seq<Step>)
    requires Window(s) && |s.pool.pos| <= n && (n > 0 ==> s.pool.pool.maxThreads == n)
    ensures Window(Run(s, steps)) && |Run(s, steps).pool.pos| == n
    ensures Run(s, steps).pool.pool.maxThreads == s.pool.pool.maxThreads
    decreases n - |s.pool.pos|
  {
    if |s.pool.pos| == n {
      steps := [];
    } else {
      var offer := OfferInWindow(s, frame);
      var s1 := Run(s, offer);
      var work := JobRuns(s1, |s.pool.pos|);
      RunAppend(s, offer, work);
      var s2 := Run(s, offer + work);
      var rest := GrowTo(s2, n, frame);
      RunAppend(s, offer + work, rest);
      steps := offer + work + rest;
    }
  }

  /** One frame at a time is enough to strand a job, under any cap. */
  lemma CappedPoolStarves(maxThreads: int, frame: Frame) returns (steps: seq<Step>)
    requires maxThreads != 0
    ensures Starves(maxThreads, steps)
  {
    var s := Init(Idle, maxThreads);
    var grow := GrowTo(s, if maxThreads < 0 then 0 else maxThreads, frame);
    var s1 := Run(s, grow);
    var offer := OfferInWindow(s1, frame);
    RunAppend(s, grow, offer);
    steps := grow + offer;
    InitInv(maxThreads);
    RunKeepsInv(s, steps);
    var e := Run(s, steps);
    assert forall t: nat :: !ThreadPool.WillPop(e.pool, t);
  }

  /** These steps bring a pool with this cap to a standstill. */
  ghost predicate Starves(maxThreads: int, steps: seq<Step>) {
    Starved(Run(Init(Idle, maxThreads), steps))
  }

  /** The algorithm can come to a standstill, with every later frame dropped, if and only if its pool has a cap; the
      source gives it one of two. */
  lemma StarvationIffCapped(maxThreads: int)
    ensures (exists steps :: Starves(maxThreads, steps)) <==> maxThreads != 0
  {
    if maxThreads == 0 {
      forall steps ensures !Starves(0, steps) {
        InitInv(0);
        RunKeepsInv(Init(Idle, 0), steps);
        RunKeepsCap(Init(Idle, 0), steps);
      }
    } else {
      var steps := CappedPoolStarves(maxThreads, []);
      assert Starves(maxThreads, steps);
    }
  }
}

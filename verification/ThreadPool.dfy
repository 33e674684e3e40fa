// The server's thread pool as a step system.  One step is what a thread does between two points
// where another thread can interfere: taking the mutex, one pass of the wait predicate with what
// follows it up to the release, one half of enqueue, one phase of shutdown.

module ThreadPool {

  type Job = nat

  datatype Worker =
    | Contending           // wants the mutex: at the loop head, or woken inside wait
    | Checking             // holds the mutex, about to evaluate the wait predicate
    | Sleeping             // released the mutex inside wait
    | Running(job: Job)    // outside the mutex, in fn()
    | Exited

  datatype Mutex = Free | HeldByWorker(i: nat) | HeldByEnqueue

  // The thread that calls shutdown.
  datatype Shutdown = NotStarted | FlagSet | Joining(joined: nat)

  datatype Pool = Pool(
    workers: seq<Worker>,
    jobs: seq<Job>,
    mutex: Mutex,
    phase: Shutdown,
    // history
    pushed: seq<Job>,
    started: seq<Job>,
    finished: seq<Job>,
    early: nat)            // how many jobs had been pushed when shutdown_ was set
  {
    predicate ShutdownFlag() { phase != NotStarted }
  }

  function Init(n: nat): Pool {
    Pool(seq(n, _ => Contending), [], Free, NotStarted, [], [], [], 0)
  }

  datatype Step =
    | Acquire(i: nat)
    | Check(i: nat)
    | SpuriousWakeup(i: nat)
    | Finish(i: nat)
    | Push(job: Job)           // enqueue: lock and push_back
    | NotifyOne(target: nat)   // enqueue: notify_one and unlock; target counts only if someone sleeps
    | SetFlag
    | NotifyAll
    | Join

  predicate SomeSleeping(workers: seq<Worker>) { Sleeping in workers }

  predicate Enabled(s: Pool, step: Step) {
    match step
    case Acquire(i) => i < |s.workers| && s.workers[i] == Contending && s.mutex == Free
    case Check(i) => i < |s.workers| && s.workers[i] == Checking
    case SpuriousWakeup(i) => i < |s.workers| && s.workers[i] == Sleeping
    case Finish(i) => i < |s.workers| && s.workers[i].Running?
    case Push(_) => s.mutex == Free
    case NotifyOne(target) =>
      s.mutex == HeldByEnqueue &&
      (SomeSleeping(s.workers) ==> target < |s.workers| && s.workers[target] == Sleeping)
    case SetFlag => s.mutex == Free && s.phase == NotStarted
    case NotifyAll => s.phase == FlagSet
    case Join => s.phase.Joining? && s.phase.joined < |s.workers| && s.workers[s.phase.joined] == Exited
  }

  function WakeAll(workers: seq<Worker>): (r: seq<Worker>)
    ensures |r| == |workers|
    ensures forall i | 0 <= i < |r| :: r[i] == if workers[i] == Sleeping then Contending else workers[i]
  {
    seq(|workers|, i requires 0 <= i < |workers| => if workers[i] == Sleeping then Contending else workers[i])
  }

  function Apply(s: Pool, step: Step): Pool
    requires Enabled(s, step)
  {
    match step
    case Acquire(i) => s.(workers := s.workers[i := Checking], mutex := HeldByWorker(i))
    case Check(i) =>
      if s.jobs == [] && !s.ShutdownFlag() then
        s.(workers := s.workers[i := Sleeping], mutex := Free)
      else if s.ShutdownFlag() && s.jobs == [] then
        s.(workers := s.workers[i := Exited], mutex := Free)
      else
        s.(workers := s.workers[i := Running(s.jobs[0])], mutex := Free,
           jobs := s.jobs[1..], started := s.started + [s.jobs[0]])
    case SpuriousWakeup(i) => s.(workers := s.workers[i := Contending])
    case Finish(i) =>
      s.(workers := s.workers[i := Contending], finished := s.finished + [s.workers[i].job])
    case Push(job) => s.(jobs := s.jobs + [job], pushed := s.pushed + [job], mutex := HeldByEnqueue)
    case NotifyOne(target) =>
      if SomeSleeping(s.workers) then s.(workers := s.workers[target := Contending], mutex := Free)
      else s.(mutex := Free)
    case SetFlag => s.(phase := FlagSet, early := |s.pushed|)
    case NotifyAll => s.(phase := Joining(0), workers := WakeAll(s.workers))
    case Join => s.(phase := Joining(s.phase.joined + 1))
  }

  // ------------------------------------------------------------------------------------------
  // Runs

  predicate IsRun(s: Pool, steps: seq<Step>)
    decreases |steps|
  {
    steps == [] || (Enabled(s, steps[0]) && IsRun(Apply(s, steps[0]), steps[1..]))
  }

  function Exec(s: Pool, steps: seq<Step>): Pool
    requires IsRun(s, steps)
    decreases |steps|
  {
    if steps == [] then s else Exec(Apply(s, steps[0]), steps[1..])
  }

  ghost predicate Reachable(n: nat, s: Pool) {
    exists steps :: IsRun(Init(n), steps) && Exec(Init(n), steps) == s
  }

  // ------------------------------------------------------------------------------------------
  // Counting workers

  function ReadyCount(w: Worker): nat { if w in {Contending, Checking} then 1 else 0 }

  // Workers that will evaluate the wait predicate before they can sleep.
  function Ready(workers: seq<Worker>): nat {
    if workers == [] then 0 else ReadyCount(workers[0]) + Ready(workers[1..])
  }

  function Holds(w: Worker): multiset<Job> { if w.Running? then multiset{w.job} else multiset{} }

  function InHand(workers: seq<Worker>): multiset<Job> {
    if workers == [] then multiset{} else Holds(workers[0]) + InHand(workers[1..])
  }

  function Weight(w: Worker): nat {
    match w
    case Contending => 2
    case Checking => 1
    case Running(_) => 3
    case Sleeping => 0
    case Exited => 0
  }

  function TotalWeight(workers: seq<Worker>): nat {
    if workers == [] then 0 else Weight(workers[0]) + TotalWeight(workers[1..])
  }

  lemma {:induction false} ReadyAfter(workers: seq<Worker>, i: nat, w: Worker)
    requires i < |workers|
    ensures Ready(workers[i := w]) == Ready(workers) - ReadyCount(workers[i]) + ReadyCount(w)
  {
    hide ReadyCount;
    if i == 0 {
      assert workers[i := w][1..] == workers[1..];
    } else {
      assert workers[i := w][1..] == workers[1..][i - 1 := w];
      ReadyAfter(workers[1..], i - 1, w);
    }
  }

  lemma {:induction false} InHandAfter(workers: seq<Worker>, i: nat, w: Worker)
    requires i < |workers|
    ensures InHand(workers[i := w]) + Holds(workers[i]) == InHand(workers) + Holds(w)
  {
    hide Holds;
    if i == 0 {
      assert workers[i := w][1..] == workers[1..];
    } else {
      assert workers[i := w][1..] == workers[1..][i - 1 := w];
      InHandAfter(workers[1..], i - 1, w);
      Swap(Holds(workers[0]), InHand(workers[1..][i - 1 := w]), Holds(workers[i]), InHand(workers[1..]), Holds(w));
    }
  }

  lemma Swap(a: multiset<Job>, b: multiset<Job>, c: multiset<Job>, d: multiset<Job>, e: multiset<Job>)
    requires b + c == d + e
    ensures (a + b) + c == (a + d) + e
  {
    assert (a + b) + c == a + (b + c);
    assert (a + d) + e == a + (d + e);
  }

  // A job is taken up, put down, or neither.
  lemma InHandChange(workers: seq<Worker>, i: nat, w: Worker)
    requires i < |workers| && !(workers[i].Running? && w.Running?)
    ensures var r := workers[i := w];
      && (w.Running? ==> InHand(r) == InHand(workers) + multiset{w.job})
      && (workers[i].Running? ==> InHand(workers) == InHand(r) + multiset{workers[i].job})
      && (!w.Running? && !workers[i].Running? ==> InHand(r) == InHand(workers))
  {
    hide InHand;
    InHandAfter(workers, i, w);
    assert InHand(workers) + multiset{} == InHand(workers);
    assert InHand(workers[i := w]) + multiset{} == InHand(workers[i := w]);
  }

  lemma {:induction false} WeightAfter(workers: seq<Worker>, i: nat, w: Worker)
    requires i < |workers|
    ensures TotalWeight(workers[i := w]) == TotalWeight(workers) - Weight(workers[i]) + Weight(w)
  {
    hide Weight;
    if i == 0 {
      assert workers[i := w][1..] == workers[1..];
    } else {
      assert workers[i := w][1..] == workers[1..][i - 1 := w];
      WeightAfter(workers[1..], i - 1, w);
    }
  }

  lemma {:induction false} WakingKeepsJobs(workers: seq<Worker>)
    ensures InHand(WakeAll(workers)) == InHand(workers)
  {
    if workers != [] {
      assert WakeAll(workers)[1..] == WakeAll(workers[1..]);
      WakingKeepsJobs(workers[1..]);
    }
  }

  lemma {:induction false} NobodyInHand(workers: seq<Worker>)
    requires forall k | 0 <= k < |workers| :: !workers[k].Running?
    ensures InHand(workers) == multiset{}
  {
    if workers != [] { NobodyInHand(workers[1..]); }
  }

  lemma {:induction false} NobodyReady(workers: seq<Worker>)
    requires forall k | 0 <= k < |workers| :: workers[k] == Sleeping
    ensures Ready(workers) == 0
  {
    if workers != [] { NobodyReady(workers[1..]); }
  }

  // ------------------------------------------------------------------------------------------
  // The invariant

  // Somebody holds the mutex exactly when the mutex says so.
  ghost predicate MutualExclusion(s: Pool) {
    && (s.mutex.HeldByWorker? ==> s.mutex.i < |s.workers|)
    && forall i | 0 <= i < |s.workers| :: s.workers[i] == Checking <==> s.mutex == HeldByWorker(i)
  }

  // No lost wakeup.  Between push_back and notify_one the queue may be one ahead.
  ghost predicate NoLostWakeup(s: Pool) {
    SomeSleeping(s.workers) && !s.ShutdownFlag() ==>
      |s.jobs| <= Ready(s.workers) + (if s.mutex == HeldByEnqueue then 1 else 0)
  }

  // FIFO start order, each pushed job started at most once, each started job finished or in hand.
  ghost predicate JobsConserved(s: Pool) {
    && s.pushed == s.started + s.jobs
    && multiset(s.started) == multiset(s.finished) + InHand(s.workers)
  }

  ghost predicate ShutdownOrder(s: Pool) {
    && (s.phase.Joining? ==> !SomeSleeping(s.workers))
    && (s.ShutdownFlag() ==> s.early <= |s.pushed|)
    && (Exited in s.workers ==> s.ShutdownFlag() && s.early <= |s.started|)
    && (s.phase.Joining? ==> s.phase.joined <= |s.workers|)
    && (s.phase.Joining? ==> forall k | 0 <= k < s.phase.joined :: s.workers[k] == Exited)
  }

  ghost predicate Inv(s: Pool) {
    MutualExclusion(s) && NoLostWakeup(s) && JobsConserved(s) && ShutdownOrder(s)
  }

  lemma StepKeepsJobs(s: Pool, step: Step)
    requires JobsConserved(s) && Enabled(s, step)
    ensures JobsConserved(Apply(s, step))
  {
    hide InHand;
    var t := Apply(s, step);
    match step
    case Acquire(i) => InHandChange(s.workers, i, Checking);
    case Check(i) => CheckKeepsJobs(s, i);
    case SpuriousWakeup(i) => InHandChange(s.workers, i, Contending);
    case Finish(i) =>
      InHandChange(s.workers, i, Contending);
      assert multiset(t.finished) == multiset(s.finished) + multiset{s.workers[i].job};
    case NotifyOne(target) => if SomeSleeping(s.workers) { InHandChange(s.workers, target, Contending); }
    case NotifyAll => WakingKeepsJobs(s.workers);
    case _ =>
  }

  lemma CheckKeepsJobs(s: Pool, i: nat)
    requires JobsConserved(s) && Enabled(s, Check(i))
    ensures JobsConserved(Apply(s, Check(i)))
  {
    hide InHand;
    var t := Apply(s, Check(i));
    InHandChange(s.workers, i, t.workers[i]);
    if s.jobs != [] {
      assert s.jobs == [s.jobs[0]] + s.jobs[1..];
      assert s.started + s.jobs == t.started + t.jobs;
      assert multiset(t.started) == multiset(s.started) + multiset{s.jobs[0]};
    }
  }

  lemma StepKeepsWakeups(s: Pool, step: Step)
    requires MutualExclusion(s) && NoLostWakeup(s) && Enabled(s, step)
    ensures NoLostWakeup(Apply(s, step))
  {
    hide MutualExclusion, Ready, SomeSleeping;
    var t := Apply(s, step);
    match step
    case Acquire(i) => WorkerWakes(s.workers, i, Checking);
    case Check(i) =>
      LockOwner(s, i);
      ReadyAfter(s.workers, i, t.workers[i]);
      if s.jobs != [] { StillSleeping(s.workers, i, t.workers[i]); }
    case SpuriousWakeup(i) => WorkerWakes(s.workers, i, Contending);
    case Finish(i) => WorkerWakes(s.workers, i, Contending);
    case NotifyOne(target) => if SomeSleeping(s.workers) { WorkerWakes(s.workers, target, Contending); }
    case _ =>
  }

  lemma WorkerWakes(workers: seq<Worker>, i: nat, w: Worker)
    requires i < |workers| && w in {Contending, Checking}
    ensures Ready(workers[i := w]) == Ready(workers) - ReadyCount(workers[i]) + 1
    ensures SomeSleeping(workers[i := w]) ==> SomeSleeping(workers)
  {
    hide Ready;
    ReadyAfter(workers, i, w);
    StillSleeping(workers, i, w);
  }

  lemma LockOwner(s: Pool, i: nat)
    requires MutualExclusion(s) && i < |s.workers| && s.workers[i] == Checking
    ensures s.mutex == HeldByWorker(i)
  {
  }

  lemma StillSleeping(workers: seq<Worker>, i: nat, w: Worker)
    requires i < |workers| && w != Sleeping
    ensures SomeSleeping(workers[i := w]) ==> SomeSleeping(workers)
  {
  }

  lemma StepKeepsShutdownOrder(s: Pool, step: Step)
    requires ShutdownOrder(s) && JobsConserved(s) && Enabled(s, step)
    ensures ShutdownOrder(Apply(s, step))
  {
  }

  lemma StepKeepsMutualExclusion(s: Pool, step: Step)
    requires MutualExclusion(s) && Enabled(s, step)
    ensures MutualExclusion(Apply(s, step))
  {
  }

  lemma {:induction false} RunKeepsInv(s: Pool, steps: seq<Step>)
    requires Inv(s) && IsRun(s, steps)
    ensures Inv(Exec(s, steps))
    decreases |steps|
  {
    hide Apply, Enabled, MutualExclusion, NoLostWakeup, JobsConserved, ShutdownOrder;
    if steps != [] {
      StepKeepsJobs(s, steps[0]);
      StepKeepsWakeups(s, steps[0]);
      StepKeepsShutdownOrder(s, steps[0]);
      StepKeepsMutualExclusion(s, steps[0]);
      RunKeepsInv(Apply(s, steps[0]), steps[1..]);
    }
  }

  lemma ReachableInv(n: nat, s: Pool)
    requires Reachable(n, s)
    ensures Inv(s)
  {
    hide Apply, Enabled;
    var steps :| IsRun(Init(n), steps) && Exec(Init(n), steps) == s;
    NobodyInHand(Init(n).workers);
    assert Init(n).pushed == Init(n).started + Init(n).jobs;
    RunKeepsInv(Init(n), steps);
  }

  lemma {:induction false} RunKeepsCount(s: Pool, steps: seq<Step>)
    requires IsRun(s, steps)
    ensures |Exec(s, steps).workers| == |s.workers|
    decreases |steps|
  {
    if steps != [] { RunKeepsCount(Apply(s, steps[0]), steps[1..]); }
  }

  // ------------------------------------------------------------------------------------------
  // Main results

  // Queued jobs are never left to sleepers alone: whenever enqueue is not between push_back and
  // notify_one, the jobs in the queue are at most the workers about to look at it.
  lemma QueuedJobsAreNoticed(n: nat, s: Pool)
    requires Reachable(n, s) && !s.ShutdownFlag() && s.mutex != HeldByEnqueue
    ensures SomeSleeping(s.workers) ==> |s.jobs| <= Ready(s.workers)
    ensures n > 0 && s.jobs != [] ==> exists k | 0 <= k < n == |s.workers| :: s.workers[k] != Sleeping
  {
    ReachableInv(n, s);
    var steps :| IsRun(Init(n), steps) && Exec(Init(n), steps) == s;
    RunKeepsCount(Init(n), steps);
    if n > 0 && s.jobs != [] && !exists k | 0 <= k < |s.workers| :: s.workers[k] != Sleeping {
      assert s.workers[0] == Sleeping;
      NobodyReady(s.workers);
    }
  }

  // Jobs start in the order they were pushed, none twice; what has started is finished or in the
  // hands of exactly one worker.
  lemma JobsRunOnceInOrder(n: nat, s: Pool)
    requires Reachable(n, s)
    ensures s.pushed == s.started + s.jobs
    ensures multiset(s.started) == multiset(s.finished) + InHand(s.workers)
  {
    ReachableInv(n, s);
  }

  // Once every worker of a non-empty pool has exited, each job pushed before shutdown_ was set has
  // run to completion; when nothing was pushed later, the queue is empty and everything has run.
  lemma ShutdownDrainsQueue(n: nat, s: Pool)
    requires n > 0 && Reachable(n, s) && forall k | 0 <= k < |s.workers| :: s.workers[k] == Exited
    ensures s.early <= |s.started| <= |s.pushed| && s.pushed[..s.early] == s.started[..s.early]
    ensures multiset(s.finished) == multiset(s.started)
    ensures |s.pushed| == s.early ==> s.jobs == [] && multiset(s.finished) == multiset(s.pushed)
  {
    ReachableInv(n, s);
    var steps :| IsRun(Init(n), steps) && Exec(Init(n), steps) == s;
    RunKeepsCount(Init(n), steps);
    assert s.workers[0] == Exited;
    NobodyInHand(s.workers);
    if |s.pushed| == s.early { assert s.started == s.pushed; }
  }

  // The pool must have a worker: in no run of ThreadPool(0) does any job start.
  lemma EmptyPoolRunsNothing(s: Pool)
    requires Reachable(0, s)
    ensures s.started == [] && s.finished == [] && s.jobs == s.pushed
  {
    var steps :| IsRun(Init(0), steps) && Exec(Init(0), steps) == s;
    NobodyStarts(Init(0), steps);
    ReachableInv(0, s);
    RunKeepsCount(Init(0), steps);
    assert multiset(s.finished) == multiset(s.started) == multiset{};
    assert |multiset(s.finished)| == |s.finished|;
    assert [] + s.jobs == s.jobs;
  }

  lemma {:induction false} NobodyStarts(s: Pool, steps: seq<Step>)
    requires s.workers == [] && IsRun(s, steps)
    ensures Exec(s, steps).started == s.started
    decreases |steps|
  {
    if steps != [] { NobodyStarts(Apply(s, steps[0]), steps[1..]); }
  }

  // It accepts a job, shuts down, joins, and drops it.
  lemma EmptyPoolDropsJobs(job: Job)
    ensures var steps := [Push(job), NotifyOne(0), SetFlag, NotifyAll];
      && IsRun(Init(0), steps)
      && var s := Exec(Init(0), steps);
         s.phase == Joining(|s.workers|) && s.jobs == [job] && s.finished == []
  {
    var s1 := Apply(Init(0), Push(job));
    var s2 := Apply(s1, NotifyOne(0));
    var s3 := Apply(s2, SetFlag);
    var s4 := Apply(s3, NotifyAll);
    assert IsRun(s4, []) && Exec(s4, []) == s4;
    assert [NotifyAll][1..] == [];
    assert IsRun(s3, [NotifyAll]) && Exec(s3, [NotifyAll]) == s4;
    assert [SetFlag, NotifyAll][1..] == [NotifyAll];
    assert IsRun(s2, [SetFlag, NotifyAll]) && Exec(s2, [SetFlag, NotifyAll]) == s4;
    assert [NotifyOne(0), SetFlag, NotifyAll][1..] == [SetFlag, NotifyAll];
    assert IsRun(s1, [NotifyOne(0), SetFlag, NotifyAll]);
    assert [Push(job), NotifyOne(0), SetFlag, NotifyAll][1..] == [NotifyOne(0), SetFlag, NotifyAll];
  }

  // ------------------------------------------------------------------------------------------
  // Before shutdown: what has been pushed gets done

  // Steps by which the pool itself gets on: no new job, no spurious wakeup, no shutdown.
  predicate OwnStep(step: Step) { !step.Push? && !step.SpuriousWakeup? && !step.SetFlag? }

  function Effort(s: Pool): nat {
    4 * |s.jobs| + TotalWeight(s.workers) + (if s.mutex == HeldByEnqueue then 3 else 0)
  }

  lemma OwnStepsMakeProgress(s: Pool, step: Step)
    requires s.phase == NotStarted && Enabled(s, step) && OwnStep(step)
    ensures var t := Apply(s, step); t.phase == NotStarted && Effort(t) < Effort(s)
  {
    var t := Apply(s, step);
    match step
    case Acquire(i) => WeightAfter(s.workers, i, Checking);
    case Check(i) => WeightAfter(s.workers, i, t.workers[i]);
    case Finish(i) => WeightAfter(s.workers, i, Contending);
    case NotifyOne(i) => if SomeSleeping(s.workers) { WeightAfter(s.workers, i, Contending); }
    case _ =>
  }

  // Left to itself the pool comes to rest.
  lemma {:induction false} OwnStepsTerminate(s: Pool, steps: seq<Step>)
    requires s.phase == NotStarted && IsRun(s, steps) && forall i | 0 <= i < |steps| :: OwnStep(steps[i])
    ensures |steps| <= Effort(s) && Exec(s, steps).phase == NotStarted
    decreases |steps|
  {
    hide Apply, Enabled, Effort, OwnStep;
    if steps != [] {
      OwnStepsMakeProgress(s, steps[0]);
      OwnStepsTerminate(Apply(s, steps[0]), steps[1..]);
    }
  }

  // And it rests only when the queue is empty, every worker sleeps and every job pushed has run.
  lemma RestMeansDone(n: nat, s: Pool)
    requires n > 0 && Reachable(n, s) && s.phase == NotStarted
    requires forall step :: Enabled(s, step) ==> !OwnStep(step)
    ensures s.jobs == [] && (forall k | 0 <= k < |s.workers| :: s.workers[k] == Sleeping)
    ensures multiset(s.finished) == multiset(s.pushed)
  {
    ReachableInv(n, s);
    var steps :| IsRun(Init(n), steps) && Exec(Init(n), steps) == s;
    RunKeepsCount(Init(n), steps);
    NobodyHolds(s);
    forall k | 0 <= k < |s.workers| ensures s.workers[k] == Sleeping {
      assert s.workers[k] in s.workers;
      assert OwnStep(Acquire(k)) && OwnStep(Finish(k));
    }
    assert s.workers[0] in s.workers;
    NobodyReady(s.workers);
    NobodyInHand(s.workers);
    assert s.jobs == [];
    assert s.started + [] == s.started;
  }

  lemma NobodyHolds(s: Pool)
    requires MutualExclusion(s) && forall step :: Enabled(s, step) ==> !OwnStep(step)
    ensures s.mutex == Free
  {
    match s.mutex
    case Free =>
    case HeldByWorker(i) => assert Enabled(s, Check(i)) && OwnStep(Check(i));
    case HeldByEnqueue =>
      if SomeSleeping(s.workers) {
        var i :| 0 <= i < |s.workers| && s.workers[i] == Sleeping;
        assert Enabled(s, NotifyOne(i)) && OwnStep(NotifyOne(i));
      } else {
        assert Enabled(s, NotifyOne(0)) && OwnStep(NotifyOne(0));
      }
  }

  // ------------------------------------------------------------------------------------------
  // The join cannot deadlock and, once no job is pushed any more, the pool comes to rest

  function Work(s: Pool): nat
    requires s.phase.Joining? && s.phase.joined <= |s.workers|
  {
    3 * |s.jobs| + TotalWeight(s.workers) + (|s.workers| - s.phase.joined) +
    (if s.mutex == HeldByEnqueue then 1 else 0)
  }

  predicate Quiet(step: Step) { !step.Push? }

  lemma JoinMakesProgress(s: Pool, step: Step)
    requires Inv(s) && s.phase.Joining?
    requires Enabled(s, step) && Quiet(step)
    ensures var t := Apply(s, step);
      && t.phase.Joining? && t.phase.joined <= |t.workers|
      && Work(t) < Work(s)
  {
    var t := Apply(s, step);
    match step
    case Acquire(i) => WeightAfter(s.workers, i, Checking);
    case Check(i) => WeightAfter(s.workers, i, t.workers[i]);
    case Finish(i) => WeightAfter(s.workers, i, Contending);
    case _ =>
  }

  // Once notify_all has been issued no worker sleeps again.
  lemma NobodySleepsAfterNotifyAll(n: nat, s: Pool, steps: seq<Step>)
    requires Reachable(n, s) && s.phase.Joining? && IsRun(s, steps)
    ensures !SomeSleeping(Exec(s, steps).workers)
  {
    ReachableInv(n, s);
    RunKeepsInv(s, steps);
    RunKeepsPhase(s, steps);
  }

  lemma {:induction false} RunKeepsPhase(s: Pool, steps: seq<Step>)
    requires s.phase.Joining? && IsRun(s, steps)
    ensures Exec(s, steps).phase.Joining?
    decreases |steps|
  {
    if steps != [] { RunKeepsPhase(Apply(s, steps[0]), steps[1..]); }
  }

  // Until every worker is joined somebody can move.
  lemma JoinIsNeverStuck(s: Pool) returns (step: Step)
    requires Inv(s) && s.phase.Joining? && s.phase.joined < |s.workers|
    ensures Enabled(s, step) && Quiet(step)
  {
    match s.mutex
    case HeldByEnqueue => return NotifyOne(0);
    case HeldByWorker(i) => return Check(i);
    case Free =>
      var k := s.phase.joined;
      assert s.workers[k] in s.workers;
      if s.workers[k] == Exited { return Join; }
      if s.workers[k] == Contending { return Acquire(k); }
      return Finish(k);
  }

  // Every run after notify_all in which nothing is pushed is shorter than Work.
  lemma {:induction false} ShutdownTerminates(s: Pool, steps: seq<Step>)
    requires Inv(s) && s.phase.Joining?
    requires IsRun(s, steps) && forall step | step in steps :: Quiet(step)
    ensures |steps| <= Work(s)
    decreases |steps|
  {
    hide Apply, Enabled, Inv, Work;
    if steps != [] {
      var t := Apply(s, steps[0]);
      JoinMakesProgress(s, steps[0]);
      StepKeepsAll(s, steps[0]);
      ShutdownTerminates(t, steps[1..]);
    }
  }

  lemma StepKeepsAll(s: Pool, step: Step)
    requires Inv(s) && Enabled(s, step)
    ensures Inv(Apply(s, step))
  {
    hide Apply, Enabled, MutualExclusion, NoLostWakeup, JobsConserved, ShutdownOrder;
    StepKeepsJobs(s, step);
    StepKeepsWakeups(s, step);
    StepKeepsShutdownOrder(s, step);
    StepKeepsMutualExclusion(s, step);
  }
}

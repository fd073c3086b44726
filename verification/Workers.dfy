/**
 * The job queue of the worker (include/Worker.hpp:29-109). The sections guarded by its mutex, and the execution of
 * one job, are atomic steps; a run is any interleaving of them.
 */
module Workers {
  /** A job is the number of the push that offered it. */
  type Job = nat

  datatype Phase = Working | Left | Destroyed

  datatype WorkerState = WorkerState(
    maxJob: nat, jobs: seq<Job>, localJobQueue: seq<Job>, interrupted: bool, phase: Phase,
    pushes: nat, accepted: seq<Job>, executed: seq<Job>, discarded: seq<Job>)

  function Initial(maxJob: nat): WorkerState {
    WorkerState(maxJob, [], [], false, Working, 0, [], [], [])
  }

  datatype Step = Push | Swap | Execute | Interrupt | Leave | Clear

  /** The worker is at the top of its loop. */
  predicate Waiting(s: WorkerState) {
    s.phase.Working? && s.localJobQueue == []
  }

  predicate Enabled(s: WorkerState, step: Step) {
    match step
    case Push => !s.phase.Destroyed?
    case Swap => Waiting(s) && !s.interrupted && s.jobs != []
    case Execute => s.localJobQueue != []
    case Interrupt => !s.phase.Destroyed?
    case Leave => Waiting(s) && s.interrupted
    case Clear => s.phase.Left? && s.interrupted
  }

  /** The guard of the push compares with the maximum before the job is added. */
  predicate Accepts(s: WorkerState) {
    |s.jobs| <= s.maxJob
  }

  function Apply(s: WorkerState, step: Step): WorkerState
    requires Enabled(s, step)
  {
    match step
    case Push =>
      var job := s.pushes;
      if Accepts(s) then s.(pushes := job + 1, jobs := s.jobs + [job], accepted := s.accepted + [job])
      else s.(pushes := job + 1)
    case Swap => s.(jobs := [], localJobQueue := s.jobs)
    case Execute => s.(localJobQueue := s.localJobQueue[1..], executed := s.executed + [s.localJobQueue[0]])
    case Interrupt => s.(interrupted := true)
    case Leave => s.(phase := Left)
    case Clear => s.(phase := Destroyed, jobs := [], discarded := s.jobs)
  }

  predicate CanRun(s: WorkerState, steps: seq<Step>)
    decreases |steps|
  {
    steps == [] || (Enabled(s, steps[0]) && CanRun(Apply(s, steps[0]), steps[1..]))
  }

  function Run(s: WorkerState, steps: seq<Step>): WorkerState
    requires CanRun(s, steps)
    decreases |steps|
  {
    if steps == [] then s else Run(Apply(s, steps[0]), steps[1..])
  }

  /** The worker's fields; the lists of what became of the jobs are kept for the specification only. */
  class Worker {
    const maxJob: nat
    var jobs: seq<Job>
    var localJobQueue: seq<Job>
    var interruptFlag: bool
    ghost var phase: Phase
    ghost var pushes: nat
    ghost var accepted: seq<Job>
    ghost var executed: seq<Job>
    ghost var discarded: seq<Job>

    ghost function View(): WorkerState
      reads this
    {
      WorkerState(maxJob, jobs, localJobQueue, interruptFlag, phase, pushes, accepted, executed, discarded)
    }

    constructor (maxNumberOfJob: nat)
      ensures View() == Initial(maxNumberOfJob)
    {
      maxJob, jobs, localJobQueue, interruptFlag := maxNumberOfJob, [], [], false;
      phase, pushes, accepted, executed, discarded := Working, 0, [], [], [];
    }

    method PushJob(job: Job) returns (queued: bool)
      requires job == pushes && Enabled(View(), Push)
      modifies this
      ensures View() == Apply(old(View()), Push) && queued == Accepts(old(View()))
    {
      pushes := pushes + 1;
      if |jobs| <= maxJob {
        jobs, accepted := jobs + [job], accepted + [job];
        return true;
      }
      queued := false;
    }

    /** The section of the worker loop under the lock, taken when the condition it waits for holds. */
    method SwapJobs() returns (left: bool)
      requires Waiting(View()) && (jobs != [] || interruptFlag)
      modifies this
      ensures left == old(interruptFlag)
      ensures View() == Apply(old(View()), if left then Leave else Swap)
    {
      if interruptFlag {
        phase := Left;
        return true;
      }
      jobs, localJobQueue := [], jobs;
      left := false;
    }

    /** One turn of the loop over the local queue. */
    method ExecuteNext() returns (job: Job)
      requires Enabled(View(), Execute)
      modifies this
      ensures View() == Apply(old(View()), Execute) && job == old(localJobQueue[0])
    {
      job := localJobQueue[0];
      executed := executed + [job];
      localJobQueue := localJobQueue[1..];
    }

    method Interrupt()
      requires Enabled(View(), Step.Interrupt)
      modifies this
      ensures View() == Apply(old(View()), Step.Interrupt)
    {
      interruptFlag := true;
    }

    method ClearJobs()
      requires Enabled(View(), Clear)
      modifies this
      ensures View() == Apply(old(View()), Clear)
    {
      discarded := jobs;
      phase := Destroyed;
      jobs := [];
    }
  }

  // ----- What every run keeps -----

  /** In the order they were pushed: executed, being executed, waiting, thrown away. */
  predicate InOrder(s: WorkerState) {
    s.accepted == s.executed + s.localJobQueue + s.jobs + s.discarded
  }

  predicate Numbered(s: WorkerState) {
    && (forall i | 0 <= i < |s.accepted| :: s.accepted[i] < s.pushes)
    && (forall i, j | 0 <= i < j < |s.accepted| :: s.accepted[i] < s.accepted[j])
  }

  ghost predicate Sound(s: WorkerState) {
    && InOrder(s) && Numbered(s)
    && |s.jobs| <= s.maxJob + 1
    && (!s.phase.Working? ==> s.localJobQueue == [] && s.interrupted)
    && (s.discarded != [] ==> s.phase.Destroyed?)
    && (s.phase.Destroyed? ==> s.jobs == [])
  }

  lemma {:induction false} StepKeepsOrder(s: WorkerState, step: Step)
    requires InOrder(s) && Enabled(s, step)
    requires (s.discarded != [] ==> s.phase.Destroyed?) && (!s.phase.Working? ==> s.localJobQueue == [])
    ensures InOrder(Apply(s, step))
  {
    match step
    case Execute =>
      assert s.localJobQueue == [s.localJobQueue[0]] + s.localJobQueue[1..];
    case Push =>
      assert s.discarded == [];
    case Swap =>
      assert s.localJobQueue == [] && s.discarded == [];
    case Clear =>
      assert s.localJobQueue == [] && s.discarded == [];
    case _ =>
  }

  lemma {:induction false} StepIsSound(s: WorkerState, step: Step)
    requires Sound(s) && Enabled(s, step)
    ensures Sound(Apply(s, step))
  {
    hide InOrder;
    StepKeepsOrder(s, step);
  }

  /**
   * In every run the accepted jobs are, in the order they were pushed, those executed, those of the batch being
   * executed, those waiting and those thrown away at the end. A push is accepted if and only if at most maxJob jobs
   * wait, so one job more than the maximum can.
   */
  lemma {:induction false} RunIsSound(s: WorkerState, steps: seq<Step>)
    requires Sound(s) && CanRun(s, steps)
    ensures Sound(Run(s, steps))
    decreases |steps|
  {
    if steps != [] {
      StepIsSound(s, steps[0]);
      RunIsSound(Apply(s, steps[0]), steps[1..]);
    }
  }

  lemma {:induction false} AcceptedOnlyGrows(s: WorkerState, steps: seq<Step>)
    requires Sound(s) && CanRun(s, steps)
    ensures s.accepted <= Run(s, steps).accepted && s.executed <= Run(s, steps).executed
    decreases |steps|
  {
    if steps != [] {
      StepIsSound(s, steps[0]);
      AcceptedOnlyGrows(Apply(s, steps[0]), steps[1..]);
    }
  }

  /** Jobs run first in, first out, at most once each, and only if they were accepted. */
  lemma {:induction false} FirstInFirstOut(maxJob: nat, steps: seq<Step>)
    requires CanRun(Initial(maxJob), steps)
    ensures var s := Run(Initial(maxJob), steps);
      && s.executed <= s.accepted
      && (forall i, j | 0 <= i < j < |s.executed| :: s.executed[i] < s.executed[j])
      && |s.jobs| <= maxJob + 1
      && (s.phase.Destroyed? ==> s.accepted == s.executed + s.discarded)
      && (s.jobs == s.localJobQueue == [] && !s.phase.Destroyed? ==> s.executed == s.accepted)
  {
    RunIsSound(Initial(maxJob), steps);
    KeepsMaximum(Initial(maxJob), steps);
  }

  lemma {:induction false} KeepsMaximum(s: WorkerState, steps: seq<Step>)
    requires CanRun(s, steps)
    ensures Run(s, steps).maxJob == s.maxJob
    decreases |steps|
  {
    if steps != [] {
      KeepsMaximum(Apply(s, steps[0]), steps[1..]);
    }
  }

  /** Once interrupted, the worker finishes the batch it has and takes no other. */
  lemma {:induction false} InterruptedTakesNoBatch(s: WorkerState, steps: seq<Step>)
    requires CanRun(s, steps) && s.interrupted
    ensures Run(s, steps).executed + Run(s, steps).localJobQueue == s.executed + s.localJobQueue
    ensures Run(s, steps).interrupted
    decreases |steps|
  {
    if steps != [] {
      if steps[0].Execute? {
        assert s.localJobQueue == [s.localJobQueue[0]] + s.localJobQueue[1..];
      }
      InterruptedTakesNoBatch(Apply(s, steps[0]), steps[1..]);
    }
  }

  function Pushes(n: nat): (steps: seq<Step>)
    ensures |steps| == n
  {
    seq(n, i => Push)
  }

  /** Pushes one after the other are all accepted as long as at most the maximum waits before each. */
  lemma {:induction false} PushesPileUp(s: WorkerState, n: nat)
    requires !s.phase.Destroyed? && |s.jobs| + n <= s.maxJob + 1
    ensures CanRun(s, Pushes(n)) && |Run(s, Pushes(n)).jobs| == |s.jobs| + n
    decreases n
  {
    if n > 0 {
      PushesPileUp(Apply(s, Push), n - 1);
      assert Pushes(n)[1..] == Pushes(n - 1);
    }
  }

  /** A batch is all that waits: as soon as it is taken, as many jobs as ever are accepted again. */
  lemma {:induction false} BatchFreesTheQueue(s: WorkerState)
    requires Enabled(s, Swap)
    ensures Apply(s, Swap).localJobQueue == s.jobs
    ensures CanRun(Apply(s, Swap), Pushes(s.maxJob + 1))
    ensures |Run(Apply(s, Swap), Pushes(s.maxJob + 1)).jobs| == s.maxJob + 1
  {
    PushesPileUp(Apply(s, Swap), s.maxJob + 1);
  }

  /** Whatever the maximum, one job more comes to wait. */
  lemma {:induction false} MaximumIsExceeded(maxJob: nat)
    ensures CanRun(Initial(maxJob), Pushes(maxJob + 1))
    ensures |Run(Initial(maxJob), Pushes(maxJob + 1)).jobs| == maxJob + 1
  {
    PushesPileUp(Initial(maxJob), maxJob + 1);
  }

  /** The step that takes the queue above the maximum is the push made when exactly the maximum waits, and no other. */
  lemma {:induction false} ExceedsOnlyWhenFull(maxJob: nat, steps: seq<Step>, step: Step)
    requires CanRun(Initial(maxJob), steps) && Enabled(Run(Initial(maxJob), steps), step)
    ensures var s := Run(Initial(maxJob), steps);
      |s.jobs| <= maxJob < |Apply(s, step).jobs| <==> step.Push? && |s.jobs| == maxJob
  {
    KeepsMaximum(Initial(maxJob), steps);
  }

  /** A rejected push is never executed, whatever comes after it. */
  lemma {:induction false} RejectedNeverExecuted(s: WorkerState, steps: seq<Step>)
    requires Sound(s) && Enabled(s, Push) && !Accepts(s) && CanRun(Apply(s, Push), steps)
    ensures s.pushes !in Run(Apply(s, Push), steps).executed
  {
    var after := Apply(s, Push);
    StepIsSound(s, Push);
    RunIsSound(after, steps);
    NeverAcceptedLater(after, steps, s.pushes);
    var last := Run(after, steps);
    assert last.executed <= last.accepted;
    forall i | 0 <= i < |last.executed|
      ensures last.executed[i] != s.pushes
    {
      assert last.executed[i] == last.accepted[i];
    }
  }

  lemma {:induction false} NeverAcceptedLater(s: WorkerState, steps: seq<Step>, job: Job)
    requires CanRun(s, steps) && job < s.pushes && job !in s.accepted
    ensures job !in Run(s, steps).accepted
    decreases |steps|
  {
    if steps != [] {
      NeverAcceptedLater(Apply(s, steps[0]), steps[1..], job);
    }
  }
}

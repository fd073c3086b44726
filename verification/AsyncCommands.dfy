/**
 * The asynchronous commands of the device (src/R2000.cpp:212-292): a command is a job of the worker, then waits for
 * the resolution of the endpoints if they are not known, then for a connection of the one shared socket, and its
 * callback is called with the answer. The steps of the worker, the handlers of the asynchronous operations and the
 * deadlines are atomic steps; the operations complete in any order and with any outcome.
 */
module AsyncCommands {
  import opened Sequences
  import Workers

  /** A command is the number of its job. */
  type Command = Workers.Job

  datatype Answer = Reply | TimedOut | Failed

  /** Where a resolution that failed leaves the device: with an empty list of endpoints. */
  datatype Endpoints = Unknown | NoneFound | SomeFound

  datatype Attempt = Attempt(command: Command, reachable: bool, aborted: bool)

  datatype Call = Call(command: Command, answer: Answer)

  datatype Device = Device(
    worker: Workers.WorkerState, endpoints: Endpoints,
    resolving: seq<Command>, connecting: seq<Attempt>, calls: seq<Call>)

  function Initial(maxJob: nat): Device {
    Device(Workers.Initial(maxJob), Unknown, [], [], [])
  }

  datatype Resolution = Found | ResolutionAborted | ResolutionFailed

  /** With a connection the request is made over HTTP, which replies or throws. */
  datatype Connection = ConnectedAndReplied | ConnectedAndThrew | ConnectionAborted | ConnectionFailed

  datatype Step =
    | OfWorker(step: Workers.Step)                  // a push submits a command, an execution runs its job
    | Resolved(index: nat, resolution: Resolution)
    | Completed(index: nat, connection: Connection)
    | Abort                                         // the deadline, or a cancellation: the socket is closed

  predicate Connects(connection: Connection) {
    connection.ConnectedAndReplied? || connection.ConnectedAndThrew?
  }

  /** An attempt over an empty list of endpoints cannot connect. */
  predicate Enabled(s: Device, step: Step) {
    match step
    case OfWorker(w) => Workers.Enabled(s.worker, w)
    case Resolved(i, _) => i < |s.resolving|
    case Completed(i, connection) => i < |s.connecting| && (Connects(connection) ==> s.connecting[i].reachable)
    case Abort => true
  }

  function Aborted(attempts: seq<Attempt>): (r: seq<Attempt>)
    ensures |r| == |attempts|
  {
    seq(|attempts|, i requires 0 <= i < |attempts| => attempts[i].(aborted := true))
  }

  /** A new attempt first closes the shared socket, which aborts those in progress. */
  function StartConnecting(s: Device, command: Command): Device {
    s.(connecting := Aborted(s.connecting) + [Attempt(command, s.endpoints.SomeFound?, false)])
  }

  function StartJob(s: Device, command: Command): Device {
    if s.endpoints.Unknown? then s.(resolving := s.resolving + [command]) else StartConnecting(s, command)
  }

  function AnswerOfFailed(resolution: Resolution): Answer {
    if resolution.ResolutionAborted? then TimedOut else Failed
  }

  function AnswerOf(connection: Connection): Answer {
    match connection
    case ConnectedAndReplied => Reply
    case ConnectionAborted => TimedOut
    case _ => Failed
  }

  function Resolve(s: Device, i: nat, resolution: Resolution): Device
    requires i < |s.resolving|
  {
    s.(resolving := RemoveAt(s.resolving, i), endpoints := if resolution.Found? then SomeFound else NoneFound)
  }

  function Apply(s: Device, step: Step): Device
    requires Enabled(s, step)
  {
    match step
    case OfWorker(w) =>
      var s' := s.(worker := Workers.Apply(s.worker, w));
      if w.Execute? then StartJob(s', s.worker.localJobQueue[0]) else s'
    case Resolved(i, resolution) =>
      var command := s.resolving[i];
      var known := Resolve(s, i, resolution);
      if resolution.Found? then StartConnecting(known, command)
      else known.(calls := s.calls + [Call(command, AnswerOfFailed(resolution))])
    case Completed(i, connection) =>
      s.(connecting := RemoveAt(s.connecting, i),
         calls := s.calls + [Call(s.connecting[i].command, AnswerOf(connection))])
    case Abort => s.(connecting := Aborted(s.connecting))
  }

  predicate CanRun(s: Device, steps: seq<Step>)
    decreases |steps|
  {
    steps == [] || (Enabled(s, steps[0]) && CanRun(Apply(s, steps[0]), steps[1..]))
  }

  function Run(s: Device, steps: seq<Step>): Device
    requires CanRun(s, steps)
    decreases |steps|
  {
    if steps == [] then s else Run(Apply(s, steps[0]), steps[1..])
  }

  /** The device's fields and handlers; what the asynchronous operations in progress hold is part of the state. */
  class AsyncDevice {
    const worker: Workers.Worker
    var deviceEndpoints: Endpoints
    var resolving: seq<Command>
    var connecting: seq<Attempt>
    var calls: seq<Call>

    ghost function View(): Device
      reads this, worker
    {
      Device(worker.View(), deviceEndpoints, resolving, connecting, calls)
    }

    constructor (maxNumberOfJob: nat)
      ensures View() == Initial(maxNumberOfJob) && fresh(worker)
    {
      worker := new Workers.Worker(maxNumberOfJob);
      deviceEndpoints, resolving, connecting, calls := Unknown, [], [], [];
    }

    /** The command is pushed as a job, which the worker queues or not. */
    method AsyncHttpGet(command: Command) returns (pushed: bool)
      requires command == worker.pushes && Enabled(View(), OfWorker(Workers.Push))
      modifies worker
      ensures View() == Apply(old(View()), OfWorker(Workers.Push))
      ensures pushed == Workers.Accepts(old(worker.View()))
    {
      pushed := worker.PushJob(command);
    }

    /** The job itself: the endpoints are resolved, unless they are known. */
    method RunNextJob()
      requires Enabled(View(), OfWorker(Workers.Execute))
      modifies this, worker
      ensures View() == Apply(old(View()), OfWorker(Workers.Execute))
    {
      var command := worker.ExecuteNext();
      if deviceEndpoints.Unknown? {
        resolving := resolving + [command];
      } else {
        OnEndpointResolutionAttemptCompleted(command, Found);
      }
    }

    /** The handler of a resolution stores its result, whatever the error. */
    method ResolverHandler(index: nat, resolution: Resolution)
      requires Enabled(View(), Resolved(index, resolution))
      modifies this
      ensures View() == Apply(old(View()), Resolved(index, resolution))
    {
      var command := resolving[index];
      resolving := RemoveAt(resolving, index);
      deviceEndpoints := if resolution.Found? then SomeFound else NoneFound;
      OnEndpointResolutionAttemptCompleted(command, resolution);
    }

    method OnEndpointResolutionAttemptCompleted(command: Command, resolution: Resolution)
      modifies this`connecting, this`calls
      ensures View() == if resolution.Found? then StartConnecting(old(View()), command)
                        else old(View()).(calls := old(calls) + [Call(command, AnswerOfFailed(resolution))])
    {
      if resolution.Found? {
        CloseSocket();
        connecting := connecting + [Attempt(command, deviceEndpoints.SomeFound?, false)];
      } else {
        calls := calls + [Call(command, AnswerOfFailed(resolution))];
      }
    }

    method OnSocketConnectionAttemptCompleted(index: nat, connection: Connection)
      requires Enabled(View(), Completed(index, connection))
      modifies this`connecting, this`calls
      ensures View() == Apply(old(View()), Completed(index, connection))
    {
      calls := calls + [Call(connecting[index].command, AnswerOf(connection))];
      connecting := RemoveAt(connecting, index);
    }

    /** Shutting down and closing the shared socket aborts every attempt to connect it. */
    method CloseSocket()
      modifies this`connecting
      ensures View() == Apply(old(View()), Abort)
    {
      connecting := Aborted(connecting);
    }
  }

  // ----- The worker of the device -----

  function WorkerSteps(steps: seq<Step>): seq<Workers.Step> {
    if steps == [] then []
    else (if steps[0].OfWorker? then [steps[0].step] else []) + WorkerSteps(steps[1..])
  }

  /** Every run of the device is a run of its worker: all that holds of the latter holds here. */
  lemma {:induction false} RunsItsWorker(s: Device, steps: seq<Step>)
    requires CanRun(s, steps)
    ensures Workers.CanRun(s.worker, WorkerSteps(steps))
    ensures Run(s, steps).worker == Workers.Run(s.worker, WorkerSteps(steps))
    decreases |steps|
  {
    if steps != [] {
      RunsItsWorker(Apply(s, steps[0]), steps[1..]);
      if steps[0].OfWorker? {
        assert WorkerSteps(steps)[1..] == WorkerSteps(steps[1..]);
      } else {
        assert WorkerSteps(steps) == WorkerSteps(steps[1..]);
      }
    }
  }

  // ----- Where each command is -----

  function Attempted(attempts: seq<Attempt>): (commands: seq<Command>)
    ensures |commands| == |attempts|
  {
    seq(|attempts|, i requires 0 <= i < |attempts| => attempts[i].command)
  }

  function Called(calls: seq<Call>): (commands: seq<Command>)
    ensures |commands| == |calls|
  {
    seq(|calls|, i requires 0 <= i < |calls| => calls[i].command)
  }

  /** In how many places a command is once its job has run: being resolved, being connected, answered. */
  ghost function Places(s: Device, c: Command): nat {
    multiset(s.resolving)[c] + multiset(Attempted(s.connecting))[c] + multiset(Called(s.calls))[c]
  }

  lemma {:induction false} ConnectingAddsOne(s: Device, command: Command, c: Command)
    ensures Places(StartConnecting(s, command), c) == Places(s, c) + if c == command then 1 else 0
  {
    assert Attempted(StartConnecting(s, command).connecting) == Attempted(s.connecting) + [command];
  }

  lemma {:induction false} CallingAddsOne(s: Device, call: Call, c: Command)
    ensures Places(s.(calls := s.calls + [call]), c) == Places(s, c) + if c == call.command then 1 else 0
  {
    assert Called(s.calls + [call]) == Called(s.calls) + [call.command];
  }

  lemma {:induction false} AttemptEnds(s: Device, i: nat, c: Command)
    requires i < |s.connecting|
    ensures Places(s, c) == Places(s.(connecting := RemoveAt(s.connecting, i)), c)
                            + if c == s.connecting[i].command then 1 else 0
  {
    MultisetRemoveAt(Attempted(s.connecting), i);
    assert Attempted(RemoveAt(s.connecting, i)) == RemoveAt(Attempted(s.connecting), i);
  }

  lemma {:induction false} ResolutionEnds(s: Device, i: nat, resolution: Resolution, c: Command)
    requires i < |s.resolving|
    ensures Places(s, c) == Places(Resolve(s, i, resolution), c) + if c == s.resolving[i] then 1 else 0
  {
    MultisetRemoveAt(s.resolving, i);
  }

  lemma {:induction false} AbortingMovesNothing(s: Device)
    ensures Attempted(Aborted(s.connecting)) == Attempted(s.connecting)
  {
  }

  /** The command whose job a step runs. */
  predicate RunsJobOf(s: Device, step: Step, c: Command)
    requires Enabled(s, step)
  {
    step == OfWorker(Workers.Execute) && c == s.worker.localJobQueue[0]
  }

  /** A step moves commands from place to place; only running a job brings a new one. */
  lemma {:induction false} StepMoves(s: Device, step: Step, c: Command)
    requires Enabled(s, step)
    ensures Places(Apply(s, step), c) == Places(s, c) + if RunsJobOf(s, step, c) then 1 else 0
  {
    hide Attempted, Called, Aborted, StartConnecting;
    match step
    case OfWorker(w) =>
      if w.Execute? {
        ConnectingAddsOne(s.(worker := Workers.Apply(s.worker, w)), s.worker.localJobQueue[0], c);
      }
    case Resolved(i, resolution) =>
      ResolutionEnds(s, i, resolution, c);
      var known := Resolve(s, i, resolution);
      ConnectingAddsOne(known, s.resolving[i], c);
      CallingAddsOne(known, Call(s.resolving[i], AnswerOfFailed(resolution)), c);
    case Completed(i, connection) =>
      AttemptEnds(s, i, c);
      CallingAddsOne(s.(connecting := RemoveAt(s.connecting, i)),
                     Call(s.connecting[i].command, AnswerOf(connection)), c);
    case Abort =>
      AbortingMovesNothing(s);
  }

  // ----- What every run keeps -----

  /** Every command whose job has run is in exactly one place, and the others are nowhere. */
  ghost predicate Accounted(s: Device) {
    forall c :: Places(s, c) == multiset(s.worker.executed)[c]
  }

  /** All attempts but the last are aborted: there is one socket. */
  predicate OneAttempt(s: Device) {
    forall i | 0 <= i < |s.connecting| - 1 :: s.connecting[i].aborted
  }

  lemma {:induction false} StepAccounts(s: Device, step: Step)
    requires Accounted(s) && Enabled(s, step)
    ensures Accounted(Apply(s, step))
  {
    hide Places;
    forall c
      ensures Places(Apply(s, step), c) == multiset(Apply(s, step).worker.executed)[c]
    {
      StepMoves(s, step, c);
    }
  }

  lemma {:induction false} StepKeepsOneAttempt(s: Device, step: Step)
    requires OneAttempt(s) && Enabled(s, step)
    ensures OneAttempt(Apply(s, step))
  {
  }

  lemma {:induction false} RunAccounts(s: Device, steps: seq<Step>)
    requires Accounted(s) && OneAttempt(s) && CanRun(s, steps)
    ensures Accounted(Run(s, steps)) && OneAttempt(Run(s, steps))
    decreases |steps|
  {
    hide Accounted, OneAttempt;
    if steps != [] {
      StepAccounts(s, steps[0]);
      StepKeepsOneAttempt(s, steps[0]);
      RunAccounts(Apply(s, steps[0]), steps[1..]);
    }
  }

  lemma {:induction false} StartsAccounted(maxJob: nat)
    ensures Accounted(Initial(maxJob)) && OneAttempt(Initial(maxJob)) && Workers.Sound(Initial(maxJob).worker)
  {
    assert Attempted(Initial(maxJob).connecting) == [] && Called(Initial(maxJob).calls) == [];
  }

  lemma {:induction false} IncreasingHasNoRepeats(s: seq<Command>, c: Command)
    requires forall i, j | 0 <= i < j < |s| :: s[i] < s[j]
    ensures multiset(s)[c] <= 1
  {
    if s != [] {
      var n := |s| - 1;
      IncreasingHasNoRepeats(s[..n], c);
      assert s == s[..n] + [s[n]];
      if c == s[n] {
        assert c !in s[..n];
      }
    }
  }

  lemma {:induction false} CallsOf(calls: seq<Call>, c: Command)
    ensures multiset(Called(calls))[c] == |CallsFor(calls, c)|
  {
    if calls != [] {
      var n := |calls| - 1;
      CallsOf(calls[..n], c);
      assert Called(calls) == Called(calls[..n]) + [calls[n].command];
    }
  }

  /** The calls of the callback of one command. */
  function CallsFor(calls: seq<Call>, c: Command): seq<Call> {
    if calls == [] then []
    else
      var last := calls[|calls| - 1];
      CallsFor(calls[..|calls| - 1], c) + if last.command == c then [last] else []
  }

  /** Nothing is waiting for anything any more. */
  predicate Drained(s: Device) {
    s.worker.jobs == s.worker.localJobQueue == s.resolving == [] && s.connecting == []
  }

  /**
   * In every run the callback of a command is called at most once, and never if its job was refused, thrown away or
   * has not run; when all has drained, exactly once if its job was accepted and not thrown away. At most one attempt to
   * connect is not aborted, and at most maxJob + 1 commands wait for the worker.
   */
  lemma {:induction false} CalledOnce(maxJob: nat, steps: seq<Step>, c: Command)
    requires CanRun(Initial(maxJob), steps)
    ensures var s := Run(Initial(maxJob), steps);
      && |CallsFor(s.calls, c)| <= 1
      && (c !in s.worker.executed || c in s.worker.discarded || c !in s.worker.accepted ==>
            CallsFor(s.calls, c) == [])
      && (Drained(s) && c in s.worker.accepted && c !in s.worker.discarded ==> |CallsFor(s.calls, c)| == 1)
      && OneAttempt(s) && |s.worker.jobs| <= maxJob + 1
  {
    hide CallsFor, Places;
    var s := Run(Initial(maxJob), steps);
    StartsAccounted(maxJob);
    RunAccounts(Initial(maxJob), steps);
    RunsItsWorker(Initial(maxJob), steps);
    Workers.FirstInFirstOut(maxJob, WorkerSteps(steps));
    Workers.RunIsSound(Workers.Initial(maxJob), WorkerSteps(steps));
    CallsAreExecuted(s, c);
    ExecutedOnce(s.worker, c);
  }

  lemma {:induction false} CallsAreExecuted(s: Device, c: Command)
    requires Accounted(s)
    ensures |CallsFor(s.calls, c)| <= multiset(s.worker.executed)[c]
    ensures s.resolving == [] && s.connecting == [] ==> |CallsFor(s.calls, c)| == multiset(s.worker.executed)[c]
  {
    CallsOf(s.calls, c);
    assert Places(s, c) == multiset(s.worker.executed)[c];
    assert s.connecting == [] ==> Attempted(s.connecting) == [];
  }

  lemma {:induction false} ExecutedOnce(w: Workers.WorkerState, c: Command)
    requires Workers.Sound(w)
    ensures multiset(w.executed)[c] <= 1
    ensures c in w.executed ==> c in w.accepted && c !in w.discarded
    ensures c in w.accepted && c !in w.discarded && w.jobs == w.localJobQueue == [] ==> c in w.executed
  {
    IncreasingHasNoRepeats(w.accepted, c);
    assert multiset(w.accepted)
        == multiset(w.executed) + multiset(w.localJobQueue) + multiset(w.jobs) + multiset(w.discarded);
    assert c in w.accepted <==> c in multiset(w.accepted);
    assert c in w.executed <==> c in multiset(w.executed);
    assert c in w.discarded <==> c in multiset(w.discarded);
  }

  /** A command refused because the queue of the worker is too long is never called, whatever comes after. */
  lemma {:induction false} RefusedIsNeverCalled(maxJob: nat, before: seq<Step>, after: seq<Step>)
    requires CanRun(Initial(maxJob), before)
    requires var s := Run(Initial(maxJob), before);
      && Enabled(s, OfWorker(Workers.Push)) && !Workers.Accepts(s.worker)
      && CanRun(Apply(s, OfWorker(Workers.Push)), after)
    ensures var s := Run(Initial(maxJob), before);
      CallsFor(Run(Apply(s, OfWorker(Workers.Push)), after).calls, s.worker.pushes) == []
  {
    hide CallsFor, Accounted, OneAttempt;
    StartsAccounted(maxJob);
    RunAccounts(Initial(maxJob), before);
    RunsItsWorker(Initial(maxJob), before);
    Workers.RunIsSound(Workers.Initial(maxJob), WorkerSteps(before));
    var s := Run(Initial(maxJob), before);
    var refused := Apply(s, OfWorker(Workers.Push));
    StepAccounts(s, OfWorker(Workers.Push));
    StepKeepsOneAttempt(s, OfWorker(Workers.Push));
    RunAccounts(refused, after);
    RunsItsWorker(refused, after);
    Workers.RejectedNeverExecuted(s.worker, WorkerSteps(after));
    CallsAreExecuted(Run(refused, after), s.worker.pushes);
  }

  // ----- Which answer a command gets -----

  /** The step ends the attempt, or the resolution, of a command so that its callback gets this answer. */
  predicate Answers(s: Device, step: Step, c: Command, answer: Answer)
    requires Enabled(s, step)
  {
    match step
    case Resolved(i, resolution) =>
      s.resolving[i] == c &&
      match resolution {
        case Found => false
        case ResolutionAborted => answer == TimedOut
        case ResolutionFailed => answer == Failed
      }
    case Completed(i, connection) =>
      s.connecting[i].command == c &&
      match connection {
        case ConnectedAndReplied => answer == Reply
        case ConnectedAndThrew => answer == Failed
        case ConnectionAborted => answer == TimedOut
        case ConnectionFailed => answer == Failed
      }
    case _ => false
  }

  function AnswersIn(s: Device, steps: seq<Step>, c: Command, answer: Answer): nat
    requires CanRun(s, steps)
    decreases |steps|
  {
    if steps == [] then 0
    else (if Answers(s, steps[0], c, answer) then 1 else 0) + AnswersIn(Apply(s, steps[0]), steps[1..], c, answer)
  }

  /** Over every run, a callback gets each answer as often as a step ended its own operation in that way. */
  lemma {:induction false} AnsweredAsCompleted(s: Device, steps: seq<Step>, c: Command, answer: Answer)
    requires CanRun(s, steps)
    ensures multiset(Run(s, steps).calls)[Call(c, answer)]
         == multiset(s.calls)[Call(c, answer)] + AnswersIn(s, steps, c, answer)
    decreases |steps|
  {
    if steps != [] {
      AnsweredAsCompleted(Apply(s, steps[0]), steps[1..], c, answer);
    }
  }

  /** A command gets a reply if and only if its own attempt connected and was replied to, and then once and no other. */
  lemma {:induction false} RepliedIffConnectedAndReplied(maxJob: nat, steps: seq<Step>, c: Command)
    requires CanRun(Initial(maxJob), steps)
    ensures var s := Run(Initial(maxJob), steps);
      && (Call(c, Reply) in s.calls <==> AnswersIn(Initial(maxJob), steps, c, Reply) > 0)
      && (Call(c, Reply) in s.calls ==> CallsFor(s.calls, c) == [Call(c, Reply)])
  {
    var s := Run(Initial(maxJob), steps);
    AnsweredAsCompleted(Initial(maxJob), steps, c, Reply);
    CalledOnce(maxJob, steps, c);
    CallIsFor(s.calls, Call(c, Reply));
  }

  lemma {:induction false} CallIsFor(calls: seq<Call>, call: Call)
    ensures call in calls <==> call in CallsFor(calls, call.command)
  {
    if calls != [] {
      CallIsFor(calls[..|calls| - 1], call);
      assert calls == calls[..|calls| - 1] + [calls[|calls| - 1]];
    }
  }

  function CallsWith(calls: seq<Call>, answer: Answer): nat {
    if calls == [] then 0
    else CallsWith(calls[..|calls| - 1], answer) + if calls[|calls| - 1].answer == answer then 1 else 0
  }

  /** Whether a step gives this answer, whoever gets it. */
  predicate Gives(step: Step, answer: Answer) {
    match step
    case Completed(_, ConnectedAndReplied) => answer == Reply
    case Completed(_, ConnectionAborted) => answer == TimedOut
    case Completed(_, _) => answer == Failed
    case Resolved(_, ResolutionAborted) => answer == TimedOut
    case Resolved(_, ResolutionFailed) => answer == Failed
    case _ => false
  }

  function Outcomes(steps: seq<Step>, answer: Answer): nat {
    if steps == [] then 0 else (if Gives(steps[0], answer) then 1 else 0) + Outcomes(steps[1..], answer)
  }

  lemma {:induction false} StepGives(s: Device, step: Step, answer: Answer)
    requires Enabled(s, step)
    ensures CallsWith(Apply(s, step).calls, answer)
         == CallsWith(s.calls, answer) + if Gives(step, answer) then 1 else 0
  {
    var calls := Apply(s, step).calls;
    assert calls == s.calls || (calls != [] && calls[..|calls| - 1] == s.calls);
  }

  /**
   * Over every run, as many callbacks get a reply as attempts connected and were replied to, as many get a time-out as
   * resolutions and attempts were aborted, and as many get a failure as the others that ended without success.
   */
  lemma {:induction false} AnswersMatchOutcomes(s: Device, steps: seq<Step>, answer: Answer)
    requires CanRun(s, steps)
    ensures CallsWith(Run(s, steps).calls, answer) == CallsWith(s.calls, answer) + Outcomes(steps, answer)
    decreases |steps|
  {
    hide Apply, Gives, CallsWith;
    if steps != [] {
      StepGives(s, steps[0], answer);
      AnswersMatchOutcomes(Apply(s, steps[0]), steps[1..], answer);
    }
  }

  // ----- What a failed resolution leaves behind -----

  predicate SomeResolved(steps: seq<Step>) {
    exists i | 0 <= i < |steps| :: steps[i].Resolved?
  }

  /** The endpoints count as known if and only if some resolution has completed, found or failed. */
  lemma {:induction false} KnownOnceResolved(s: Device, steps: seq<Step>)
    requires CanRun(s, steps)
    ensures Run(s, steps).endpoints.Unknown? <==> s.endpoints.Unknown? && !SomeResolved(steps)
    decreases |steps|
  {
    if steps != [] {
      KnownOnceResolved(Apply(s, steps[0]), steps[1..]);
      assert steps == [steps[0]] + steps[1..];
      if SomeResolved(steps[1..]) {
        var i :| 0 <= i < |steps| - 1 && steps[1..][i].Resolved?;
        assert steps[i + 1].Resolved?;
      }
    }
  }

  /** So a job begins a resolution if and only if none has completed before, successful or not. */
  lemma {:induction false} ResolvesUntilFirstCompletion(maxJob: nat, steps: seq<Step>)
    requires CanRun(Initial(maxJob), steps)
    requires Enabled(Run(Initial(maxJob), steps), OfWorker(Workers.Execute))
    ensures var s := Run(Initial(maxJob), steps);
      var s' := Apply(s, OfWorker(Workers.Execute));
      if SomeResolved(steps) then s'.resolving == s.resolving && |s'.connecting| == |s.connecting| + 1
      else s'.resolving == s.resolving + [s.worker.localJobQueue[0]] && s'.connecting == s.connecting
  {
    KnownOnceResolved(Initial(maxJob), steps);
  }

  /** And once one has completed, the only resolutions ever in progress are those that were already. */
  lemma {:induction false} NoNewResolution(s: Device, steps: seq<Step>)
    requires CanRun(s, steps) && !s.endpoints.Unknown?
    ensures multiset(Run(s, steps).resolving) <= multiset(s.resolving)
    decreases |steps|
  {
    if steps != [] {
      if steps[0].Resolved? {
        MultisetRemoveAt(s.resolving, steps[0].index);
      }
      NoNewResolution(Apply(s, steps[0]), steps[1..]);
    }
  }

  /** The device has an empty list of endpoints, and nothing in progress could still reach it. */
  predicate CutOff(s: Device) {
    && s.endpoints.NoneFound? && s.resolving == []
    && forall i | 0 <= i < |s.connecting| :: !s.connecting[i].reachable
  }

  /** Then no command is ever replied to again. */
  lemma {:induction false} FailedResolutionIsFinal(s: Device, steps: seq<Step>)
    requires CutOff(s) && CanRun(s, steps)
    ensures CutOff(Run(s, steps)) && s.calls <= Run(s, steps).calls
    ensures forall call | call in Run(s, steps).calls[|s.calls|..] :: call.answer != Reply
    decreases |steps|
  {
    if steps != [] {
      var s', rest := Apply(s, steps[0]), steps[1..];
      StaysCutOff(s, steps[0]);
      FailedResolutionIsFinal(s', rest);
      assert Run(s, steps) == Run(s', rest);
      assert Run(s', rest).calls[|s.calls|..] == s'.calls[|s.calls|..] + Run(s', rest).calls[|s'.calls|..];
    }
  }

  lemma {:induction false} StaysCutOff(s: Device, step: Step)
    requires CutOff(s) && Enabled(s, step)
    ensures CutOff(Apply(s, step)) && s.calls <= Apply(s, step).calls
    ensures forall call | call in Apply(s, step).calls[|s.calls|..] :: call.answer != Reply
  {
  }

  /** It takes one failure of the first resolution: the second command does not resolve, and cannot connect. */
  lemma {:induction false} FirstFailureCutsOff(maxJob: nat)
    ensures var job := [OfWorker(Workers.Push), OfWorker(Workers.Swap), OfWorker(Workers.Execute)];
      var steps := job + [Resolved(0, ResolutionFailed)] + job;
      && CanRun(Initial(maxJob), steps)
      && var s := Run(Initial(maxJob), steps);
         CutOff(s) && s.calls == [Call(0, Failed)] && s.connecting == [Attempt(1, false, false)]
  {
    var job := [OfWorker(Workers.Push), OfWorker(Workers.Swap), OfWorker(Workers.Execute)];
    var s := Initial(maxJob);
    RunJob(s);
    var s1 := Run(s, job);
    var failed := Apply(s1, Resolved(0, ResolutionFailed));
    RunJob(failed);
    RunAppend(s1, [Resolved(0, ResolutionFailed)], job);
    RunAppend(s, job, [Resolved(0, ResolutionFailed)] + job);
    assert job + [Resolved(0, ResolutionFailed)] + job == job + ([Resolved(0, ResolutionFailed)] + job);
  }

  /** A command pushed on an idle worker that is not interrupted, and its job run at once. */
  lemma {:induction false} RunJob(s: Device)
    requires Workers.Waiting(s.worker) && !s.worker.interrupted && s.worker.jobs == []
    ensures var job := [OfWorker(Workers.Push), OfWorker(Workers.Swap), OfWorker(Workers.Execute)];
      && CanRun(s, job)
      && var w := s.worker;
         Run(s, job) == StartJob(
           s.(worker := w.(pushes := w.pushes + 1, accepted := w.accepted + [w.pushes],
                           executed := w.executed + [w.pushes])), w.pushes)
  {
    var job := [OfWorker(Workers.Push), OfWorker(Workers.Swap), OfWorker(Workers.Execute)];
    assert job[1..] == [OfWorker(Workers.Swap), OfWorker(Workers.Execute)];
    assert job[1..][1..] == [OfWorker(Workers.Execute)];
    assert job[1..][1..][1..] == [];
    assert Workers.Accepts(s.worker);
  }

  lemma {:induction false} RunAppend(s: Device, a: seq<Step>, b: seq<Step>)
    requires CanRun(s, a) && CanRun(Run(s, a), b)
    ensures CanRun(s, a + b) && Run(s, a + b) == Run(Run(s, a), b)
    decreases |a|
  {
    if a == [] {
      assert a + b == b;
    } else {
      RunAppend(Apply(s, a[0]), a[1..], b);
      assert (a + b)[1..] == a[1..] + b;
    }
  }
}

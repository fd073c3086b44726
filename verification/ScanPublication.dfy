/**
 * The publication of scans and the threads that wait for one (include/DataLink/DataLink.hpp:506-530 and 575-583).
 * Storing the scan, the section under the mutex that counts it, and each section of a waiting thread are atomic
 * steps; scans are numbered in the order they are published, zero being the empty scan of the beginning.
 */
module ScanPublication {
  datatype Waiter =
    | Waiting(recorded: nat)                               // asleep, with the count it recorded
    | Woken(recorded: nat, counted: bool)                  // its condition holds, because of the count or not
    | Returned(recorded: nat, counted: bool, scan: nat)
    | TimedOut(recorded: nat)

  datatype Monitor = Monitor(
    lastScanReceived: nat, scanCounter: nat, storing: bool, interrupted: bool, waiters: map<nat, Waiter>)

  const INITIAL := Monitor(0, 0, false, false, map[])

  datatype Step =
    | Store                   // the producer publishes the next scan, without the lock
    | Count                   // then counts it and wakes the waiting threads
    | Interrupt
    | Wait(thread: nat)
    | Wake(thread: nat)
    | Load(thread: nat)
    | GiveUp(thread: nat)

  predicate IsWaiting(s: Monitor, thread: nat) {
    thread in s.waiters && s.waiters[thread].Waiting?
  }

  /** The condition a thread waits for. */
  predicate Condition(s: Monitor, recorded: nat) {
    s.interrupted || recorded != s.scanCounter
  }

  predicate Enabled(s: Monitor, step: Step) {
    match step
    case Store => !s.storing
    case Count => s.storing
    case Interrupt => true
    case Wait(t) => t !in s.waiters || s.waiters[t].Returned? || s.waiters[t].TimedOut?
    case Wake(t) => IsWaiting(s, t) && Condition(s, s.waiters[t].recorded)
    case Load(t) => t in s.waiters && s.waiters[t].Woken?
    case GiveUp(t) => IsWaiting(s, t) && !Condition(s, s.waiters[t].recorded)
  }

  function Apply(s: Monitor, step: Step): Monitor
    requires Enabled(s, step)
  {
    match step
    case Store => s.(lastScanReceived := s.lastScanReceived + 1, storing := true)
    case Count => s.(scanCounter := s.scanCounter + 1, storing := false)
    case Interrupt => s.(interrupted := true)
    case Wait(t) => s.(waiters := s.waiters[t := Waiting(s.scanCounter)])
    case Wake(t) =>
      var recorded := s.waiters[t].recorded;
      s.(waiters := s.waiters[t := Woken(recorded, recorded != s.scanCounter)])
    case Load(t) =>
      s.(waiters := s.waiters[t := Returned(s.waiters[t].recorded, s.waiters[t].counted, s.lastScanReceived)])
    case GiveUp(t) => s.(waiters := s.waiters[t := TimedOut(s.waiters[t].recorded)])
  }

  predicate CanRun(s: Monitor, steps: seq<Step>)
    decreases |steps|
  {
    steps == [] || (Enabled(s, steps[0]) && CanRun(Apply(s, steps[0]), steps[1..]))
  }

  function Run(s: Monitor, steps: seq<Step>): Monitor
    requires CanRun(s, steps)
    decreases |steps|
  {
    if steps == [] then s else Run(Apply(s, steps[0]), steps[1..])
  }

  /** The shared fields, and the sections that read or write them; who waits is kept for the specification only. */
  class ScanOutput {
    var lastScanReceived: nat
    var scanCounter: nat
    var interruptFlag: bool
    ghost var storing: bool
    ghost var waiters: map<nat, Waiter>

    ghost function View(): Monitor
      reads this
    {
      Monitor(lastScanReceived, scanCounter, storing, interruptFlag, waiters)
    }

    constructor ()
      ensures View() == INITIAL
    {
      lastScanReceived, scanCounter, interruptFlag, storing, waiters := 0, 0, false, false, map[];
    }

    method StoreScan(scan: nat)
      requires Enabled(View(), Store) && scan == lastScanReceived + 1
      modifies this
      ensures View() == Apply(old(View()), Store)
    {
      lastScanReceived := scan;
      storing := true;
    }

    method CountScan()
      requires Enabled(View(), Count)
      modifies this
      ensures View() == Apply(old(View()), Count)
    {
      scanCounter := scanCounter + 1;
      storing := false;
    }

    method RecordCount(ghost thread: nat) returns (scanCountBeforeWaiting: nat)
      requires Enabled(View(), Wait(thread))
      modifies this
      ensures View() == Apply(old(View()), Wait(thread))
      ensures waiters[thread] == Waiting(scanCountBeforeWaiting)
    {
      scanCountBeforeWaiting := scanCounter;
      waiters := waiters[thread := Waiting(scanCounter)];
    }

    /** The condition tested when woken up, or at the time-out: a thread that finds it false then gives up. */
    method TestCondition(ghost thread: nat, scanCountBeforeWaiting: nat, timeout: bool) returns (ready: bool)
      requires IsWaiting(View(), thread) && waiters[thread].recorded == scanCountBeforeWaiting
      modifies this
      ensures ready == Condition(old(View()), scanCountBeforeWaiting)
      ensures ready ==> View() == Apply(old(View()), Wake(thread))
      ensures !ready && timeout ==> View() == Apply(old(View()), GiveUp(thread))
      ensures !ready && !timeout ==> View() == old(View())
    {
      ready := interruptFlag || scanCountBeforeWaiting != scanCounter;
      if ready {
        waiters := waiters[thread := Woken(scanCountBeforeWaiting, scanCountBeforeWaiting != scanCounter)];
      } else if timeout {
        waiters := waiters[thread := TimedOut(scanCountBeforeWaiting)];
      }
    }

    method LoadScan(ghost thread: nat) returns (scan: nat)
      requires Enabled(View(), Load(thread))
      modifies this
      ensures View() == Apply(old(View()), Load(thread))
      ensures waiters[thread].Returned? && waiters[thread].scan == scan
    {
      scan := lastScanReceived;
      waiters := waiters[thread := Returned(waiters[thread].recorded, waiters[thread].counted, scan)];
    }
  }

  // ----- Freshness -----

  ghost predicate WaiterIsSound(s: Monitor, w: Waiter) {
    && w.recorded <= s.scanCounter
    && (w.Woken? ==> if w.counted then w.recorded < s.scanCounter else s.interrupted)
    && (w.Returned? ==> w.recorded <= w.scan <= s.lastScanReceived)
    && (w.Returned? ==> if w.counted then w.recorded < w.scan else s.interrupted)
  }

  /** The last scan stored is the last one counted, or the next. */
  ghost predicate Sound(s: Monitor) {
    && s.lastScanReceived == s.scanCounter + (if s.storing then 1 else 0)
    && forall t | t in s.waiters :: WaiterIsSound(s, s.waiters[t])
  }

  lemma {:induction false} StepIsSound(s: Monitor, step: Step)
    requires Sound(s) && Enabled(s, step)
    ensures Sound(Apply(s, step))
  {
  }

  /** A thread woken because of the count returns a scan published after the count it recorded. */
  lemma {:induction false} RunIsSound(s: Monitor, steps: seq<Step>)
    requires Sound(s) && CanRun(s, steps)
    ensures Sound(Run(s, steps))
    decreases |steps|
  {
    if steps != [] {
      StepIsSound(s, steps[0]);
      RunIsSound(Apply(s, steps[0]), steps[1..]);
    }
  }

  lemma {:induction false} ReturnedScansAreFresh(steps: seq<Step>, t: nat)
    requires CanRun(INITIAL, steps)
    ensures var s := Run(INITIAL, steps);
      && s.scanCounter <= s.lastScanReceived <= s.scanCounter + 1
      && (t in s.waiters && s.waiters[t].Returned? ==>
            var w := s.waiters[t];
            && w.recorded <= w.scan <= s.lastScanReceived
            && (w.recorded == w.scan ==> !w.counted && s.interrupted))
  {
    RunIsSound(INITIAL, steps);
  }

  lemma {:induction false} RunTwo(s: Monitor, first: Step, second: Step, rest: seq<Step>)
    requires Enabled(s, first) && Enabled(Apply(s, first), second)
    requires CanRun(Apply(Apply(s, first), second), rest)
    ensures CanRun(s, [first, second] + rest)
    ensures Run(s, [first, second] + rest) == Run(Apply(Apply(s, first), second), rest)
  {
    assert ([first, second] + rest)[1..] == [second] + rest && ([second] + rest)[1..] == rest;
  }

  /** An interruption makes a waiting thread return the scan that was there before it began to wait. */
  lemma {:induction false} InterruptionReturnsAnOldScan(t: nat)
    ensures var steps := [Store, Count, Wait(t), Interrupt, Wake(t), Load(t)];
      && CanRun(INITIAL, steps)
      && t in Run(INITIAL, steps).waiters && Run(INITIAL, steps).waiters[t] == Returned(1, false, 1)
  {
    var steps := [Store, Count, Wait(t), Interrupt, Wake(t), Load(t)];
    var s2 := Apply(Apply(INITIAL, Store), Count);
    var s4 := Apply(Apply(s2, Wait(t)), Interrupt);
    RunTwo(s4, Wake(t), Load(t), []);
    assert [Wake(t), Load(t)] + [] == [Wake(t), Load(t)];
    RunTwo(s2, Wait(t), Interrupt, [Wake(t), Load(t)]);
    RunTwo(INITIAL, Store, Count, steps[2..]);
  }

  function Counted(steps: seq<Step>): nat {
    if steps == [] then 0 else (if steps[0].Count? then 1 else 0) + Counted(steps[1..])
  }

  function Stored(steps: seq<Step>): nat {
    if steps == [] then 0 else (if steps[0].Store? then 1 else 0) + Stored(steps[1..])
  }

  lemma {:induction false} LastStored(s: Monitor, steps: seq<Step>)
    requires CanRun(s, steps)
    ensures Run(s, steps).lastScanReceived == s.lastScanReceived + Stored(steps)
    ensures Run(s, steps).scanCounter == s.scanCounter + Counted(steps)
    decreases |steps|
  {
    if steps != [] {
      LastStored(Apply(s, steps[0]), steps[1..]);
    }
  }

  predicate Interrupted(steps: seq<Step>) {
    Interrupt in steps
  }

  predicate Concerns(step: Step, t: nat) {
    !step.Store? && !step.Count? && !step.Interrupt? && step.thread == t
  }

  lemma {:induction false} OtherStepsOnlyCount(s: Monitor, steps: seq<Step>, t: nat)
    requires CanRun(s, steps) && t in s.waiters
    requires forall i | 0 <= i < |steps| :: !Concerns(steps[i], t)
    ensures var s' := Run(s, steps);
      && t in s'.waiters && s'.waiters[t] == s.waiters[t]
      && s'.scanCounter == s.scanCounter + Counted(steps)
      && s'.lastScanReceived == s.lastScanReceived + Stored(steps)
      && (s'.interrupted <==> s.interrupted || Interrupted(steps))
    decreases |steps|
  {
    if steps != [] {
      OtherStepsOnlyCount(Apply(s, steps[0]), steps[1..], t);
      assert steps == [steps[0]] + steps[1..];
    }
  }

  /**
   * No scan counted after a thread has recorded the count is missed: whatever the other threads do, the thread can
   * wake if and only if a scan has been counted since, or the link is interrupted; and it can give up only if not.
   */
  lemma {:induction false} NoCountIsMissed(s: Monitor, t: nat, steps: seq<Step>)
    requires Enabled(s, Wait(t)) && CanRun(Apply(s, Wait(t)), steps)
    requires forall i | 0 <= i < |steps| :: !Concerns(steps[i], t)
    ensures var s' := Run(Apply(s, Wait(t)), steps);
      && (Enabled(s', Wake(t)) <==> Counted(steps) > 0 || s.interrupted || Interrupted(steps))
      && (Enabled(s', GiveUp(t)) <==> !Enabled(s', Wake(t)))
  {
    OtherStepsOnlyCount(Apply(s, Wait(t)), steps, t);
  }

  /**
   * When the scan returned is newer than the count recorded, exactly: after any run a thread waits, others go on, it
   * is woken, others go on, and it takes the scan. That is a newer one if and only if a scan was stored and not yet
   * counted when the thread began to wait, or one was stored until it took it.
   */
  lemma {:induction false} NewerIffStored(before: seq<Step>, t: nat, a: seq<Step>, b: seq<Step>)
    requires CanRun(INITIAL, before) && Enabled(Run(INITIAL, before), Wait(t))
    requires var waiting := Apply(Run(INITIAL, before), Wait(t));
      && CanRun(waiting, a) && Enabled(Run(waiting, a), Wake(t))
      && CanRun(Apply(Run(waiting, a), Wake(t)), b)
    requires forall i | 0 <= i < |a| :: !Concerns(a[i], t)
    requires forall i | 0 <= i < |b| :: !Concerns(b[i], t)
    ensures var s := Run(INITIAL, before);
      var end := Run(Apply(Run(Apply(s, Wait(t)), a), Wake(t)), b);
      && Enabled(end, Load(t))
      && var w := Apply(end, Load(t)).waiters[t];
         && w.Returned? && w.recorded == s.scanCounter
         && w.scan == Stored(before) + Stored(a) + Stored(b)
         && (w.scan > w.recorded <==> s.storing || Stored(a) + Stored(b) > 0)
  {
    RunIsSound(INITIAL, before);
    LastStored(INITIAL, before);
    var waiting := Apply(Run(INITIAL, before), Wait(t));
    OtherStepsOnlyCount(waiting, a, t);
    OtherStepsOnlyCount(Apply(Run(waiting, a), Wake(t)), b, t);
  }
}

/** The connection hysteresis of the status watcher (src/StatusWatcher.cpp:28-69). */
module StatusWatching {
  import opened LittleEndian

  /** What one turn of the watcher meets; the threshold is read anew whenever an answer has come. */
  datatype Poll =
    | Busy
    | Answered(success: bool, threshold: U64)

  datatype Event = StatusAvailable | Connected | Disconnected

  datatype WatcherState = WatcherState(hitCount: U32, isConnected: bool, events: seq<Event>)

  const INITIAL := WatcherState(0, false, [])

  /** One turn: the count of failures is an unsigned 32-bit number, the threshold one of 64 bits. */
  function Turn(s: WatcherState, poll: Poll): WatcherState {
    match poll
    case Busy => s
    case Answered(true, _) =>
      WatcherState(0, true, s.events + [StatusAvailable] + if s.isConnected then [] else [Connected])
    case Answered(false, threshold) =>
      var hits := (s.hitCount + 1) % TWO32;
      if hits >= threshold then WatcherState(hits, false, s.events + if s.isConnected then [Disconnected] else [])
      else s.(hitCount := hits)
  }

  function Watch(s: WatcherState, polls: seq<Poll>): WatcherState {
    if polls == [] then s else Turn(Watch(s, polls[..|polls| - 1]), polls[|polls| - 1])
  }

  class StatusWatcher {
    var isConnected: bool
    var disconnectionHitCount: U32
    var events: seq<Event>

    function View(): WatcherState
      reads this
    {
      WatcherState(disconnectionHitCount, isConnected, events)
    }

    constructor ()
      ensures View() == INITIAL
    {
      isConnected, disconnectionHitCount, events := false, 0, [];
    }

    /** The loop of the watcher, over the polls made until it is interrupted. */
    method StatusWatcherTask(polls: seq<Poll>)
      modifies this
      ensures View() == Watch(WatcherState(0, old(isConnected), old(events)), polls)
    {
      disconnectionHitCount := 0;
      ghost var start := View();
      for i := 0 to |polls|
        invariant View() == Watch(start, polls[..i])
      {
        assert polls[..i + 1][..i] == polls[..i];
        var poll := polls[i];
        if poll.Answered? {
          if poll.success {
            disconnectionHitCount := 0;
            events := events + [StatusAvailable];
            var wasConnected := isConnected;
            isConnected := true;
            if !wasConnected {
              events := events + [Connected];
            }
          } else {
            disconnectionHitCount := (disconnectionHitCount + 1) % TWO32;
            if disconnectionHitCount >= poll.threshold {
              var wasConnected := isConnected;
              isConnected := false;
              if wasConnected {
                events := events + [Disconnected];
              }
            }
          }
        }
      }
      assert polls[..|polls|] == polls;
    }
  }

  /** The events that concern the connection. */
  function Changes(events: seq<Event>): seq<Event> {
    if events == [] then []
    else
      var last := events[|events| - 1];
      Changes(events[..|events| - 1]) + if last.StatusAvailable? then [] else [last]
  }

  /** Connected first, then each in turn; and the state is what the last one says. */
  predicate Alternates(changes: seq<Event>, isConnected: bool) {
    && (forall i | 0 <= i < |changes| :: changes[i] == if i % 2 == 0 then Connected else Disconnected)
    && (isConnected <==> |changes| % 2 == 1)
  }

  lemma {:induction false} ChangesAppend(a: seq<Event>, b: seq<Event>)
    ensures Changes(a + b) == Changes(a) + Changes(b)
  {
    if b == [] {
      assert a + b == a;
    } else {
      var n := |b| - 1;
      ChangesAppend(a, b[..n]);
      assert (a + b)[..|a| + n] == a + b[..n];
    }
  }

  lemma {:induction false} OneChange(e: Event)
    ensures Changes([e]) == if e.StatusAvailable? then [] else [e]
  {
    assert [e][..0] == [];
  }

  /** Over any polls and any thresholds, connections and disconnections strictly alternate, a connection first. */
  lemma {:induction false} EventsAlternate(polls: seq<Poll>)
    ensures var s := Watch(INITIAL, polls);
      Alternates(Changes(s.events), s.isConnected)
  {
    hide Alternates, Turn, Changes;
    if polls != [] {
      var n := |polls| - 1;
      EventsAlternate(polls[..n]);
      var s := Watch(INITIAL, polls[..n]);
      TurnChanges(s, polls[n]);
      OneMoreChange(Changes(s.events), s.isConnected);
      assert Changes(s.events) + [] == Changes(s.events);
    } else {
      NoChange();
      NothingAlternates();
    }
  }

  lemma {:induction false} NothingAlternates()
    ensures Alternates([], false)
  {
  }

  lemma {:induction false} OneMoreChange(changes: seq<Event>, isConnected: bool)
    requires Alternates(changes, isConnected)
    ensures Alternates(changes + [if isConnected then Disconnected else Connected], !isConnected)
  {
  }

  lemma {:induction false} TurnChanges(s: WatcherState, poll: Poll)
    ensures var s' := Turn(s, poll);
      Changes(s'.events) == Changes(s.events) +
        if s'.isConnected == s.isConnected then [] else if s'.isConnected then [Connected] else [Disconnected]
  {
    hide Changes;
    var more := Turn(s, poll).events[|s.events|..];
    assert Turn(s, poll).events == s.events + more;
    ChangesAppend(s.events, more);
    OneChange(StatusAvailable);
    OneChange(Connected);
    OneChange(Disconnected);
    ChangesAppend([StatusAvailable], [Connected]);
    NoChange();
    assert more == [] || more == [StatusAvailable] || more == [Disconnected]
        || more == [StatusAvailable] + [Connected];
  }

  lemma {:induction false} NoChange()
    ensures Changes([]) == []
  {
  }

  function Successes(polls: seq<Poll>): nat {
    if polls == [] then 0
    else
      var last := polls[|polls| - 1];
      Successes(polls[..|polls| - 1]) + if last.Answered? && last.success then 1 else 0
  }

  /** Every success fires one status event, and a connection event comes right after one. */
  lemma {:induction false} EverySuccessIsReported(polls: seq<Poll>)
    ensures var events := Watch(INITIAL, polls).events;
      && multiset(events)[StatusAvailable] == Successes(polls)
      && ConnectsAfterStatus(events)
  {
    hide Turn;
    if polls != [] {
      var n := |polls| - 1;
      EverySuccessIsReported(polls[..n]);
      ReportsSuccess(Watch(INITIAL, polls[..n]), polls[n]);
    }
  }

  predicate ConnectsAfterStatus(events: seq<Event>) {
    forall i | 0 <= i < |events| && events[i] == Connected :: i > 0 && events[i - 1] == StatusAvailable
  }

  lemma {:induction false} ReportsSuccess(s: WatcherState, poll: Poll)
    requires ConnectsAfterStatus(s.events)
    ensures ConnectsAfterStatus(Turn(s, poll).events)
    ensures multiset(Turn(s, poll).events)[StatusAvailable]
         == multiset(s.events)[StatusAvailable] + if poll.Answered? && poll.success then 1 else 0
  {
    var one := s.events + [StatusAvailable];
    assert one + [] == one;
    if poll.Answered? && !poll.success {
      assert s.events + [] == s.events;
    }
  }

  /** And nothing else does: a poll that was not answered, or not with success, fires at most a disconnection. */
  lemma {:induction false} OnlySuccessIsReported(s: WatcherState, poll: Poll)
    requires poll.Busy? || !poll.success
    ensures Turn(s, poll).events == s.events || Turn(s, poll).events == s.events + [Disconnected]
  {
  }

  predicate Fixed(polls: seq<Poll>, threshold: U64) {
    forall i | 0 <= i < |polls| :: polls[i].Answered? ==> polls[i].threshold == threshold
  }

  predicate SomeSuccess(polls: seq<Poll>) {
    exists i | 0 <= i < |polls| :: polls[i].Answered? && polls[i].success
  }

  /** The failures since the last success, busy turns not counting. */
  function Failures(polls: seq<Poll>): nat {
    if polls == [] then 0
    else
      var last := polls[|polls| - 1];
      var before := Failures(polls[..|polls| - 1]);
      if last.Busy? then before else if last.success then 0 else before + 1
  }

  /** How many failures it takes; the count never reaches a threshold of more than 32 bits. */
  predicate Tolerates(threshold: U64, failures: nat) {
    threshold >= TWO32 || failures == 0 || failures < threshold
  }

  lemma {:induction false} SuccessSoFar(polls: seq<Poll>)
    requires polls != []
    ensures var last := polls[|polls| - 1];
      SomeSuccess(polls) <==> (last.Answered? && last.success) || SomeSuccess(polls[..|polls| - 1])
  {
    var n := |polls| - 1;
    if SomeSuccess(polls[..n]) {
      var i :| 0 <= i < n && polls[..n][i].Answered? && polls[..n][i].success;
      assert polls[i].success;
    }
    if SomeSuccess(polls) {
      var i :| 0 <= i < |polls| && polls[i].Answered? && polls[i].success;
      assert i < n ==> polls[..n][i].success;
    }
  }

  lemma {:induction false} Hysteresis(polls: seq<Poll>, threshold: U64)
    requires Fixed(polls, threshold)
    ensures var s := Watch(INITIAL, polls);
      && (s.isConnected <==> SomeSuccess(polls) && Tolerates(threshold, Failures(polls)))
      && s.hitCount == Failures(polls) % TWO32
  {
    if polls != [] {
      var n := |polls| - 1;
      Hysteresis(polls[..n], threshold);
      SuccessSoFar(polls);
      NextCount(Failures(polls[..n]));
      if polls[n].Answered? && !polls[n].success && Watch(INITIAL, polls[..n]).isConnected && threshold < TWO32 {
        CountIsExact(Failures(polls[..n]));
      }
    }
  }

  lemma {:induction false} NextCount(failures: nat)
    ensures (failures % TWO32 + 1) % TWO32 == (failures + 1) % TWO32
  {
  }

  lemma {:induction false} CountIsExact(failures: nat)
    ensures failures + 1 < TWO32 ==> (failures + 1) % TWO32 == failures + 1
  {
  }

  /**
   * The device is held connected exactly when some poll has succeeded and fewer than max(threshold, 1) failures have
   * followed the last success, if and only if the threshold fits the 32 bits of the count: beyond them nothing ever
   * disconnects.
   */
  lemma {:induction false} ConnectedWhileFewFailures(polls: seq<Poll>, threshold: U64)
    requires Fixed(polls, threshold)
    ensures threshold < TWO32 ==>
      (Watch(INITIAL, polls).isConnected
       <==> SomeSuccess(polls) && Failures(polls) < if threshold == 0 then 1 else threshold)
    ensures threshold >= TWO32 ==> (Watch(INITIAL, polls).isConnected <==> SomeSuccess(polls))
  {
    Hysteresis(polls, threshold);
  }

  /** One success, then failures only. */
  function ThenFailing(threshold: U64, failures: nat): (polls: seq<Poll>)
    ensures |polls| == failures + 1 && Fixed(polls, threshold) && polls[0] == Answered(true, threshold)
  {
    seq(failures + 1, i => Answered(i == 0, threshold))
  }

  lemma {:induction false} FailuresThen(threshold: U64, failures: nat)
    ensures Failures(ThenFailing(threshold, failures)) == failures
  {
    var polls := ThenFailing(threshold, failures);
    if failures > 0 {
      FailuresThen(threshold, failures - 1);
      assert polls[..failures] == ThenFailing(threshold, failures - 1);
    } else {
      assert polls[..0] == [];
    }
  }

  /** As many failures in a row as the threshold says disconnect, unless it is beyond the 32 bits of the count. */
  lemma {:induction false} ThresholdReached(threshold: U64, failures: nat)
    requires failures >= threshold && failures > 0
    ensures Watch(INITIAL, ThenFailing(threshold, failures)).isConnected <==> threshold >= TWO32
  {
    FailuresThen(threshold, failures);
    assert ThenFailing(threshold, failures)[0].success;
    Hysteresis(ThenFailing(threshold, failures), threshold);
  }

  function WithoutBusy(polls: seq<Poll>): seq<Poll> {
    if polls == [] then []
    else
      var last := polls[|polls| - 1];
      WithoutBusy(polls[..|polls| - 1]) + if last.Busy? then [] else [last]
  }

  /** Turns in which the device was busy leave no trace. */
  lemma {:induction false} BusyTurnsDoNotMatter(s: WatcherState, polls: seq<Poll>)
    ensures Watch(s, polls) == Watch(s, WithoutBusy(polls))
  {
    if polls != [] {
      var n := |polls| - 1;
      var kept := WithoutBusy(polls[..n]);
      BusyTurnsDoNotMatter(s, polls[..n]);
      if polls[n].Busy? {
        assert kept + [] == kept;
      } else {
        assert (kept + [polls[n]])[..|kept|] == kept;
      }
    }
  }
}

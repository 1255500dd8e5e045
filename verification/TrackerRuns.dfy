/** What holds of the host messages, the tracked ports and the applied listings over every run. */
module TrackerRuns {
  import opened PortKeys
  import opened PortLedger
  import opened CallInfo
  import opened TrackerSystem
  import opened SnapshotHandshake

  lemma {:induction false} LedgerStep(s: State, step: Step)
    requires Consistent(s.ledger) && Can(s, step)
    ensures Consistent(Do(s, step).ledger)
    ensures Do(s, step).ledger.mirrored == s.ledger.mirrored
  {
    match step
    case THandle(caller, isListen, addressLength, hostReply, now) =>
      var call := ReadRequest(caller, isListen, addressLength, s.tracker.call.id);
      if call.request.Some? {
        RequestConsistent(s.ledger, call.request.value, hostReply, now);
      }
    case TResolve(found, hostReply, now) =>
      if found.Some? {
        RequestConsistent(s.ledger, found.value, hostReply, now);
      }
    case TApply => RefreshConsistent(s.ledger, s.held.value);
    case _ =>
  }

  lemma {:induction false} LedgerHolds(mirrored: bool, steps: seq<Step>)
    requires Run(mirrored, steps).Some?
    ensures Consistent(Run(mirrored, steps).value.ledger)
    ensures Run(mirrored, steps).value.ledger.mirrored == mirrored
  {
    if steps == [] {
      EmptyConsistent(mirrored);
    } else {
      var earlier := steps[..|steps| - 1];
      LedgerHolds(mirrored, earlier);
      LedgerStep(Run(mirrored, earlier).value, steps[|steps| - 1]);
    }
  }

  /** For every port, granted allocations and releases take turns starting with a grant; the port
      is tracked exactly between the two; and port 0 is never tracked. */
  lemma {:induction false} GrantsAndReleasesAlternate(mirrored: bool, steps: seq<Step>, key: PortAllocation)
    requires Run(mirrored, steps).Some?
    ensures var ledger := Run(mirrored, steps).value.ledger;
            && Alternates(Messages(ledger.log, key))
            && (key in ledger.tracked <==> |Messages(ledger.log, key)| % 2 == 1)
            && (key in ledger.tracked ==> key.port != 0)
  {
    LedgerHolds(mirrored, steps);
    assert PortConsistent(Run(mirrored, steps).value.ledger, key);
  }

  /** A release is sent only when the listing being applied lacks the port and either an earlier
      listing applied since its last tracking showed it, or its deadline is past. */
  lemma {:induction false} EveryReleaseHasAReason(mirrored: bool, steps: seq<Step>, i: int)
    requires Run(mirrored, steps).Some?
    requires var log := Run(mirrored, steps).value.ledger.log; 0 <= i < |log| && log[i].Released?
    ensures ReleaseJustified(mirrored, Run(mirrored, steps).value.ledger.log, i)
  {
    LedgerHolds(mirrored, steps);
  }

  // ---------------------------------------------------------------------------
  // Which listings are applied

  ghost function AppliedIn(log: seq<Event>): (snapshots: seq<Snapshot>) {
    if log == [] then []
    else
      var last := log[|log| - 1];
      AppliedIn(log[..|log| - 1]) + (if last.Applied? then [last.snapshot] else [])
  }

  /** The listings taken in a turn of the loop that served no call. */
  ghost function QuietlyTaken(taken: seq<(Snapshot, bool)>): (snapshots: seq<Snapshot>) {
    if taken == [] then []
    else
      var last := taken[|taken| - 1];
      QuietlyTaken(taken[..|taken| - 1]) + (if last.1 then [] else [last.0])
  }

  lemma {:induction false} AppliedAppend(log: seq<Event>, event: Event)
    ensures AppliedIn(log + [event]) == AppliedIn(log) + (if event.Applied? then [event.snapshot] else [])
  {
  }

  lemma {:induction false} ReleasesApplyNothing(log: seq<Event>, keys: seq<PortAllocation>)
    ensures AppliedIn(log + Releases(keys)) == AppliedIn(log)
  {
    if keys == [] {
      assert log + Releases(keys) == log;
    } else {
      var last := |keys| - 1;
      ReleasesApplyNothing(log, keys[..last]);
      assert log + Releases(keys) == log + Releases(keys[..last]) + [Released(keys[last])];
      AppliedAppend(log + Releases(keys[..last]), Released(keys[last]));
    }
  }

  lemma {:induction false} RequestAppliesNothing(ledger: Ledger, key: PortAllocation, reply: int, now: int)
    ensures AppliedIn(Request(ledger, key, reply, now).0.log) == AppliedIn(ledger.log)
  {
  }

  lemma {:induction false} RefreshAppliesOne(ledger: Ledger, snapshot: Snapshot)
    ensures AppliedIn(Refresh(ledger, snapshot).log) == AppliedIn(ledger.log) + [snapshot]
  {
    AppliedAppend(ledger.log, Applied(snapshot));
    ReleasesApplyNothing(ledger.log + [Applied(snapshot)], Sorted(Releasable(ledger, snapshot)));
  }

  /** The flag that decides whether a listing is applied says whether this turn of the loop has served
      a call. */
  ghost predicate FlagTellsTheTurn(s: State) {
    match s.tracker
    case Start | Head | Waiting | Handling(_) => |s.handled| == s.handledAtHead
    case Replying(_, _, _) | Resolving => |s.handled| == s.handledAtHead + 1
    case Polling(served) => |s.handled| == s.handledAtHead + if served then 1 else 0
    case Taken(served) => |s.handled| == s.handledAtHead + if served then 1 else 0
    case Applying(served) => |s.handled| == s.handledAtHead + if served then 1 else 0
    case Checking | Resuming => s.handledAtHead <= |s.handled| <= s.handledAtHead + 1
  }

  lemma {:induction false} OthersLeaveTheTracker(s: State, step: Step)
    requires Can(s, step) && !ActorOf(step).TheTracker?
    ensures var s' := Do(s, step);
            s'.tracker == s.tracker && s'.handled == s.handled && s'.handledAtHead == s.handledAtHead
  {
  }

  lemma {:induction false} FlagStep(s: State, step: Step)
    requires FlagTellsTheTurn(s) && Can(s, step)
    ensures FlagTellsTheTurn(Do(s, step))
  {
    if !ActorOf(step).TheTracker? {
      OthersLeaveTheTracker(s, step);
    }
  }

  /** The listing in hand is yet to be applied. */
  ghost predicate AboutToApply(s: State) {
    (s.tracker.Taken? || s.tracker.Applying?) && !s.tracker.served && s.held.Some?
  }

  ghost predicate AppliedInvariant(s: State) {
    QuietlyTaken(s.taken) ==
    if AboutToApply(s) then AppliedIn(s.ledger.log) + [s.held.value] else AppliedIn(s.ledger.log)
  }

  lemma {:induction false} QuietlyTakenAppend(taken: seq<(Snapshot, bool)>, snapshot: Snapshot, served: bool)
    ensures QuietlyTaken(taken + [(snapshot, served)]) ==
            if served then QuietlyTaken(taken) else QuietlyTaken(taken) + [snapshot]
  {
  }

  lemma {:induction false} OthersKeepApplied(s: State, s': State)
    requires AppliedInvariant(s)
    requires s'.taken == s.taken && AppliedIn(s'.ledger.log) == AppliedIn(s.ledger.log)
    requires AboutToApply(s) <==> AboutToApply(s')
    requires AboutToApply(s) ==> s'.held == s.held
    ensures AppliedInvariant(s')
  {
  }

  lemma {:induction false} TakeKeepsApplied(s: State)
    requires AppliedInvariant(s) && FlagTellsTheTurn(s) && Can(s, TPoll)
    ensures AppliedInvariant(Do(s, TPoll))
  {
    var s' := Do(s, TPoll);
    if s.future.Some? && s.promise.value.Some? {
      assert s'.taken == s.taken + [(s.promise.value.value, s.tracker.served)];
      QuietlyTakenAppend(s.taken, s.promise.value.value, s.tracker.served);
    } else {
      OthersKeepApplied(s, s');
    }
  }

  lemma {:induction false} ApplyKeepsApplied(s: State)
    requires AppliedInvariant(s) && Can(s, TApply)
    ensures AppliedInvariant(Do(s, TApply))
  {
    RefreshAppliesOne(s.ledger, s.held.value);
  }

  lemma {:induction false} AppliedStep(s: State, step: Step)
    requires AppliedInvariant(s) && FlagTellsTheTurn(s) && Can(s, step)
    ensures AppliedInvariant(Do(s, step)) && FlagTellsTheTurn(Do(s, step))
  {
    FlagStep(s, step);
    match step
    case THandle(caller, isListen, addressLength, hostReply, now) =>
      var call := ReadRequest(caller, isListen, addressLength, s.tracker.call.id);
      if call.request.Some? {
        RequestAppliesNothing(s.ledger, call.request.value, hostReply, now);
      }
      OthersKeepApplied(s, Do(s, step));
    case TResolve(found, hostReply, now) =>
      if found.Some? {
        RequestAppliesNothing(s.ledger, found.value, hostReply, now);
      }
      OthersKeepApplied(s, Do(s, step));
    case TPoll => TakeKeepsApplied(s);
    case TApply => ApplyKeepsApplied(s);
    case _ => OthersKeepApplied(s, Do(s, step));
  }

  /** The listings applied are, in order, those taken in turns that served no call, and each is one
      the lister delivered; a listing received in a turn that served a call is never applied. */
  lemma {:induction false} OnlyQuietListingsAreApplied(mirrored: bool, steps: seq<Step>)
    requires Run(mirrored, steps).Some?
    ensures var s := Run(mirrored, steps).value;
            && AppliedInvariant(s) && FlagTellsTheTurn(s)
            && |s.taken| <= |s.delivered|
            && (forall i | 0 <= i < |s.taken| :: s.taken[i].0 == s.delivered[i])
  {
    HandshakeHolds(mirrored, steps);
    if steps != [] {
      var earlier := steps[..|steps| - 1];
      OnlyQuietListingsAreApplied(mirrored, earlier);
      AppliedStep(Run(mirrored, earlier).value, steps[|steps| - 1]);
    }
  }
}

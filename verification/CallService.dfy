/** Every notification is answered with the result computed for it, and none is left waiting. */
module CallService {
  import opened Wrappers
  import opened PortLedger
  import opened CallInfo
  import opened TrackerSystem
  import opened SnapshotHandshake

  predicate Busy(tracker: Tracker) {
    tracker.Handling? || tracker.Replying?
  }

  /** No call is on its way through the channels or the tracker. */
  ghost predicate ChannelsEmpty(s: State) {
    s.request.None? && s.reply.None? && !Busy(s.tracker)
  }

  ghost predicate Histories(s: State) {
    && |s.responses| <= |s.computed| <= |s.received| <= |s.responses| + 1
    && (forall i | 0 <= i < |s.computed| :: s.computed[i].id == s.received[i].id)
    && (forall i | 0 <= i < |s.responses| :: s.responses[i] == ToResponse(s.computed[i]))
  }

  /** The call in hand is the last one received, and its result is not known yet. */
  ghost predicate Unanswered(s: State, call: Call) {
    |s.received| == |s.responses| + 1 && s.received[|s.received| - 1] == call && |s.computed| == |s.responses|
  }

  ghost predicate Answered(s: State, call: Call, result: int) {
    && |s.received| == |s.responses| + 1 && s.received[|s.received| - 1] == call
    && |s.computed| == |s.received| && s.computed[|s.computed| - 1] == Answer(call.id, result)
  }

  /** The awaited call is in exactly one place: the request slot, the tracker, or the reply slot. */
  ghost predicate InFlight(s: State, call: Call) {
    if s.request.Some? then s.request == Some(call) && s.reply.None? && !Busy(s.tracker) && Unanswered(s, call)
    else if s.tracker.Handling? then s.tracker.call == call && s.reply.None? && Unanswered(s, call)
    else if s.tracker.Replying? then s.tracker.call == call && s.reply.None? && Answered(s, call, s.tracker.result)
    else s.reply.Some? && Answered(s, call, s.reply.value)
  }

  ghost predicate CallInvariant(s: State) {
    && Histories(s)
    && match s.dispatcher
       case Idle => ChannelsEmpty(s) && |s.received| == |s.responses|
       case Posting(call) => ChannelsEmpty(s) && Unanswered(s, call)
       case Direct(call) => ChannelsEmpty(s) && Unanswered(s, call)
       case Awaiting(call) => InFlight(s, call)
       case Responding(call, result) => ChannelsEmpty(s) && Answered(s, call, result)
  }

  lemma {:induction false} DispatcherKeeps(s: State, step: Step)
    requires CallInvariant(s) && Can(s, step) && ActorOf(step).TheDispatcher?
    ensures CallInvariant(Do(s, step))
  {
  }

  predicate Serving(step: Step) {
    step.TTryGet? || step.TWake? || step.THandle? || step.TReply?
  }

  lemma {:induction false} ServingKeeps(s: State, step: Step)
    requires CallInvariant(s) && Can(s, step)
    requires Serving(step)
    ensures CallInvariant(Do(s, step))
  {
    assert s.dispatcher.Awaiting? || (s.tracker.Head? && s.request.None?);
  }

  ghost predicate SameCalls(s: State, s': State) {
    && s'.dispatcher == s.dispatcher && s'.request == s.request && s'.reply == s.reply
    && s'.received == s.received && s'.computed == s.computed && s'.responses == s.responses
  }

  lemma {:induction false} CallsUntouched(s: State, s': State)
    requires CallInvariant(s) && SameCalls(s, s')
    requires s'.tracker == s.tracker || (!Busy(s.tracker) && !Busy(s'.tracker))
    ensures CallInvariant(s')
  {
  }

  lemma {:induction false} RefresherKeeps(s: State, step: Step)
    requires CallInvariant(s) && Can(s, step) && ActorOf(step).TheRefresher?
    ensures CallInvariant(Do(s, step))
  {
    assert SameCalls(s, Do(s, step));
    CallsUntouched(s, Do(s, step));
  }

  lemma {:induction false} TouchesNoCall(s: State, step: Step)
    requires Can(s, step) && ActorOf(step).TheTracker? && !Serving(step)
    ensures SameCalls(s, Do(s, step)) && !Busy(s.tracker) && !Busy(Do(s, step).tracker)
  {
  }

  lemma {:induction false} TrackerKeeps(s: State, step: Step)
    requires CallInvariant(s) && Can(s, step)
    requires ActorOf(step).TheTracker? && !Serving(step)
    ensures CallInvariant(Do(s, step))
  {
    TouchesNoCall(s, step);
    CallsUntouched(s, Do(s, step));
  }

  lemma {:induction false} CallInvariantStep(s: State, step: Step)
    requires CallInvariant(s) && Can(s, step)
    ensures CallInvariant(Do(s, step))
  {
    if ActorOf(step).TheDispatcher? {
      DispatcherKeeps(s, step);
    } else if ActorOf(step).TheRefresher? {
      RefresherKeeps(s, step);
    } else if Serving(step) {
      ServingKeeps(s, step);
    } else {
      TrackerKeeps(s, step);
    }
  }

  lemma {:induction false} CallInvariantHolds(mirrored: bool, steps: seq<Step>)
    ensures Run(mirrored, steps).Some? ==> CallInvariant(Run(mirrored, steps).value)
  {
    if steps != [] {
      var earlier := steps[..|steps| - 1];
      CallInvariantHolds(mirrored, earlier);
      if Run(mirrored, steps).Some? {
        CallInvariantStep(Run(mirrored, earlier).value, steps[|steps| - 1]);
      }
    }
  }

  /** Notifications are answered in order, each with the result computed for that same call; at
      most one is outstanding, and neither post ever finds its slot full. */
  lemma {:induction false} EachCallGetsItsOwnAnswer(mirrored: bool, steps: seq<Step>)
    requires Run(mirrored, steps).Some?
    ensures var s := Run(mirrored, steps).value;
            && |s.responses| <= |s.computed| <= |s.received| <= |s.responses| + 1
            && (forall i | 0 <= i < |s.responses| ::
                  && s.responses[i].id == s.computed[i].id == s.received[i].id
                  && s.responses[i].error == -s.computed[i].result
                  && (s.responses[i].resume <==> s.computed[i].result == 0))
            && (s.dispatcher.Posting? ==> Can(s, DPost))
            && (s.tracker.Replying? ==> Can(s, TReply))
  {
    CallInvariantHolds(mirrored, steps);
  }

  // ---------------------------------------------------------------------------
  // Where the results come from

  /** Only calls for the tracker are posted to it, and only the others are answered directly. */
  ghost predicate Routed(s: State) {
    match s.dispatcher
    case Posting(call) => call.forTracker
    case Awaiting(call) => call.forTracker
    case Direct(call) => !call.forTracker
    case _ => true
  }

  /** The step gave the call its result: another handler did or, for the tracker, the call carries no
      request and passes, or the result settles the request it carries. */
  ghost predicate Earned(s: State, step: Step, call: Call, answer: Answer)
    requires Can(s, step)
  {
    && answer.id == call.id
    && match step
       case DAnswerDirectly(result) => !call.forTracker && answer.result == result && Do(s, step).ledger == s.ledger
       case THandle(caller, isListen, addressLength, _, now) =>
         var read := ReadRequest(caller, isListen, addressLength, call.id);
         && call.forTracker
         && if read.request.None? then answer.result == 0 && Do(s, step).ledger == s.ledger
            else Settled(s.ledger, Do(s, step).ledger, read.request.value, now, answer.result)
       case _ => false
  }

  lemma {:induction false} RoutedStep(s: State, step: Step)
    requires Routed(s) && Can(s, step)
    ensures Routed(Do(s, step))
  {
  }

  lemma {:induction false} RoutedHolds(mirrored: bool, steps: seq<Step>)
    requires Run(mirrored, steps).Some?
    ensures Routed(Run(mirrored, steps).value)
  {
    if steps != [] {
      RoutedHolds(mirrored, steps[..|steps| - 1]);
      RoutedStep(Run(mirrored, steps[..|steps| - 1]).value, steps[|steps| - 1]);
    }
  }

  /** Calls and results are only ever added. */
  lemma {:induction false} HistoriesGrow(s: State, step: Step)
    requires Can(s, step)
    ensures s.received <= Do(s, step).received && s.computed <= Do(s, step).computed
    ensures |Do(s, step).computed| <= |s.computed| + 1
  {
  }

  lemma {:induction false} HandledIsEarned(s: State, step: Step)
    requires CallInvariant(s) && Routed(s) && Can(s, step) && step.THandle?
    ensures |s.computed| < |s.received| && Do(s, step).received == s.received
    ensures |Do(s, step).computed| == |s.computed| + 1
    ensures Earned(s, step, s.received[|s.computed|], Do(s, step).computed[|s.computed|])
  {
    var call := ReadRequest(step.caller, step.isListen, step.addressLength, s.tracker.call.id);
    if call.request.Some? {
      RequestSettles(s.ledger, call.request.value, step.hostReply, step.now);
    }
  }

  lemma {:induction false} OnlyTheseCompute(s: State, step: Step)
    requires Can(s, step) && !step.THandle? && !step.DAnswerDirectly?
    ensures Do(s, step).computed == s.computed
  {
  }

  lemma {:induction false} DirectIsEarned(s: State, step: Step)
    requires CallInvariant(s) && Routed(s) && Can(s, step) && step.DAnswerDirectly?
    ensures |s.computed| < |s.received| && Do(s, step).received == s.received
    ensures |Do(s, step).computed| == |s.computed| + 1
    ensures Earned(s, step, s.received[|s.computed|], Do(s, step).computed[|s.computed|])
  {
  }

  lemma {:induction false} StepIsEarned(s: State, step: Step, i: nat)
    requires CallInvariant(s) && Routed(s) && Can(s, step) && |s.computed| <= i < |Do(s, step).computed|
    ensures i < |Do(s, step).received| && Earned(s, step, Do(s, step).received[i], Do(s, step).computed[i])
  {
    if step.THandle? {
      HandledIsEarned(s, step);
    } else if step.DAnswerDirectly? {
      DirectIsEarned(s, step);
    } else {
      OnlyTheseCompute(s, step);
    }
  }

  /** Step j of the run earned the call its result. */
  ghost predicate EarnedAt(mirrored: bool, steps: seq<Step>, j: nat, call: Call, answer: Answer) {
    && j < |steps| && Run(mirrored, steps[..j]).Some? && Can(Run(mirrored, steps[..j]).value, steps[j])
    && Earned(Run(mirrored, steps[..j]).value, steps[j], call, answer)
  }

  lemma {:induction false} EarnedEarlier(mirrored: bool, earlier: seq<Step>, steps: seq<Step>, j: nat, call: Call,
                                         answer: Answer)
    requires earlier <= steps && EarnedAt(mirrored, earlier, j, call, answer)
    ensures EarnedAt(mirrored, steps, j, call, answer)
  {
    assert earlier[..j] == steps[..j];
  }

  /** The run ends in `end`, and was in s before its last step. */
  ghost predicate LastStep(mirrored: bool, steps: seq<Step>, s: State, end: State) {
    steps != [] && Run(mirrored, steps[..|steps| - 1]) == Some(s) && Run(mirrored, steps) == Some(end)
  }

  lemma {:induction false} RunGrows(mirrored: bool, steps: seq<Step>, s: State, end: State)
    requires LastStep(mirrored, steps, s, end)
    ensures s.received <= end.received && s.computed <= end.computed
  {
    HistoriesGrow(s, steps[|steps| - 1]);
  }

  lemma {:induction false} LastIsEarned(mirrored: bool, steps: seq<Step>, s: State, end: State, i: nat)
    requires LastStep(mirrored, steps, s, end) && |s.computed| <= i < |end.computed|
    ensures i < |end.received| && EarnedAt(mirrored, steps, |steps| - 1, end.received[i], end.computed[i])
  {
    CallInvariantHolds(mirrored, steps[..|steps| - 1]);
    RoutedHolds(mirrored, steps[..|steps| - 1]);
    StepIsEarned(s, steps[|steps| - 1], i);
  }

  /** Every result of every run was earned by one of its steps. */
  lemma {:induction false} EveryAnswerIsEarned(mirrored: bool, steps: seq<Step>, end: State, i: nat)
    returns (j: nat)
    requires Run(mirrored, steps) == Some(end) && i < |end.computed|
    ensures i < |end.received| && EarnedAt(mirrored, steps, j, end.received[i], end.computed[i])
  {
    var earlier := steps[..|steps| - 1];
    var s := Run(mirrored, earlier).value;
    RunGrows(mirrored, steps, s, end);
    if i < |s.computed| {
      j := EveryAnswerIsEarned(mirrored, earlier, s, i);
      EarnedEarlier(mirrored, earlier, steps, j, end.received[i], end.computed[i]);
    } else {
      LastIsEarned(mirrored, steps, s, end, i);
      j := |steps| - 1;
    }
  }

  // ---------------------------------------------------------------------------
  // No deadlock, and an answer after boundedly many steps

  /** Steps of the tracker until it takes a waiting request. */
  function Distance(tracker: Tracker): (n: nat) {
    match tracker
    case Start => 2
    case Head => 1
    case Waiting => 7
    case Handling(_) => 0
    case Replying(_, _, _) => 0
    case Resolving => 7
    case Polling(_) => 6
    case Taken(_) => 5
    case Applying(_) => 4
    case Checking => 3
    case Resuming => 2
  }

  function Rank(s: State): (rank: nat)
    ensures rank <= 12
  {
    match s.dispatcher
    case Idle => 0
    case Responding(_, _) => 1
    case Direct(_) => 2
    case Posting(_) => 12
    case Awaiting(_) =>
      if s.request.Some? then 4 + Distance(s.tracker)
      else if s.tracker.Handling? then 4
      else if s.tracker.Replying? then 3
      else 2
  }

  /** Whose turn it is to move the outstanding call on. */
  function Responsible(s: State): (actor: Actor) {
    if s.dispatcher.Awaiting? && (s.request.Some? || Busy(s.tracker)) then TheTracker else TheDispatcher
  }

  ghost function NextStep(s: State): (step: Step) {
    if Responsible(s).TheDispatcher? then
      match s.dispatcher
      case Idle => DReceive(Call(0, true))
      case Posting(_) => DPost
      case Direct(_) => DAnswerDirectly(0)
      case Awaiting(_) => DTakeReply
      case Responding(_, _) => DRespond
    else
      match s.tracker
      case Start => TBegin
      case Head => TTryGet
      case Waiting => TTimeout
      case Handling(_) => THandle(Caller(None, None, None, false, false, None), true, 0, 0, 0)
      case Replying(_, _, _) => TReply
      case Resolving => TResolve(None, 0, 0)
      case Polling(_) => TPoll
      case Taken(_) => TReplacePromise
      case Applying(_) => TApply
      case Checking => TCheck
      case Resuming => TResume
  }

  /** The thread whose turn it is can always take a step. */
  lemma {:induction false} NeverStuck(s: State)
    requires CallInvariant(s) && HandshakeInvariant(s)
    ensures Can(s, NextStep(s)) && ActorOf(NextStep(s)) == Responsible(s)
  {
  }

  lemma {:induction false} TrackerRankFalls(s: State, step: Step)
    requires CallInvariant(s) && Can(s, step) && s.dispatcher.Awaiting? && Responsible(s).TheTracker?
    requires ActorOf(step).TheTracker?
    ensures Rank(Do(s, step)) < Rank(s)
  {
  }

  lemma {:induction false} DispatcherRankFalls(s: State, step: Step)
    requires CallInvariant(s) && Can(s, step) && !s.dispatcher.Idle?
    requires Responsible(s).TheDispatcher? && ActorOf(step).TheDispatcher?
    ensures Rank(Do(s, step)) < Rank(s)
  {
  }

  lemma {:induction false} OthersKeepRank(s: State, step: Step)
    requires CallInvariant(s) && Can(s, step) && !s.dispatcher.Idle? && ActorOf(step) != Responsible(s)
    ensures Rank(Do(s, step)) == Rank(s) && Responsible(Do(s, step)) == Responsible(s)
  {
  }

  lemma {:induction false} RankFalls(s: State, step: Step)
    requires CallInvariant(s) && Can(s, step) && !s.dispatcher.Idle?
    ensures if ActorOf(step) == Responsible(s) then Rank(Do(s, step)) < Rank(s)
            else Rank(Do(s, step)) == Rank(s) && Responsible(Do(s, step)) == Responsible(s)
  {
    if ActorOf(step) != Responsible(s) {
      OthersKeepRank(s, step);
    } else if Responsible(s).TheTracker? {
      TrackerRankFalls(s, step);
    } else {
      DispatcherRankFalls(s, step);
    }
  }

  /** How many of the steps were taken by the responsible thread before the call was answered. */
  ghost function Turns(s: State, steps: seq<Step>): (n: nat)
    decreases |steps|
  {
    if steps == [] || s.dispatcher.Idle? || !Can(s, steps[0]) then 0
    else (if ActorOf(steps[0]) == Responsible(s) then 1 else 0) + Turns(Do(s, steps[0]), steps[1..])
  }

  /** Whatever the other threads do, an outstanding call is answered before the threads whose
      turn it is have taken thirteen steps. */
  lemma {:induction false} AnsweredWithinTwelveTurns(s: State, steps: seq<Step>)
    requires CallInvariant(s)
    ensures Turns(s, steps) <= Rank(s) <= 12
    decreases |steps|
  {
    if steps != [] && !s.dispatcher.Idle? && Can(s, steps[0]) {
      CallInvariantStep(s, steps[0]);
      RankFalls(s, steps[0]);
      AnsweredWithinTwelveTurns(Do(s, steps[0]), steps[1..]);
    }
  }
}

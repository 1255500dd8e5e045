/** The hand-over of socket listings is safe in every interleaving. */
module SnapshotHandshake {
  import opened Wrappers
  import opened TrackerSystem

  /** The only order in which listings change hands. */
  function Scheduled(i: nat): (signal: Signal) {
    if i % 3 == 0 then Deliver(i / 3) else if i % 3 == 1 then Take(i / 3) else Resume(i / 3)
  }

  ghost predicate OnSchedule(signals: seq<Signal>) {
    forall i | 0 <= i < |signals| :: signals[i] == Scheduled(i)
  }

  ghost predicate CountsUp(futures: seq<nat>) {
    forall i | 0 <= i < |futures| :: futures[i] == i
  }

  /** The tracker is past taking a listing and has not let go of it. */
  predicate Digesting(tracker: Tracker) {
    tracker.Taken? || tracker.Applying? || tracker.Resuming?
  }

  /** No listing is outstanding: the tracker holds the current future and the lister is free. */
  ghost predicate Quiet(s: State, round: nat) {
    && s.held.None? && !Digesting(s.tracker)
    && s.promise == Promise(round, None)
    && (s.refresher.AwaitingResume? <==> s.resumeSignalled)
    && HoldsFuture(s, round)
  }

  /** A listing is ready and not yet taken. */
  ghost predicate Ready(s: State, round: nat) {
    && s.held.None? && !Digesting(s.tracker)
    && |s.delivered| > 0 && s.promise == Promise(round, Some(s.delivered[|s.delivered| - 1]))
    && s.refresher.AwaitingResume? && !s.resumeSignalled
    && HoldsFuture(s, round)
  }

  ghost predicate HoldsFuture(s: State, round: nat) {
    if s.tracker.Start? then round == 0 && s.future.None? && s.futures == []
    else s.future == Some(round) && |s.futures| == round + 1
  }

  /** The tracker holds a listing that it has not resumed. */
  ghost predicate InHand(s: State, round: nat) {
    && |s.taken| > 0 && s.held == Some(s.taken[|s.taken| - 1].0) && !s.tracker.Start?
    && s.refresher.AwaitingResume? && !s.resumeSignalled
    && (s.tracker.Taken? ==> s.promise.generation == round)
    && (!s.tracker.Taken? ==> s.promise == Promise(round + 1, None))
    && (if s.tracker.Resuming? then s.future == Some(round + 1) && |s.futures| == round + 2
        else s.future.None? && |s.futures| == round + 1)
  }

  ghost predicate HandedInOrder(s: State) {
    && |s.delivered| == (|s.signals| + 2) / 3
    && |s.taken| == (|s.signals| + 1) / 3
    && forall i | 0 <= i < |s.taken| :: s.taken[i].0 == s.delivered[i]
  }

  ghost predicate HandshakeInvariant(s: State) {
    && OnSchedule(s.signals) && CountsUp(s.futures) && HandedInOrder(s)
    && (forall i | 0 <= i < |s.listings| :: s.listings[i] <= |s.signals| && s.listings[i] % 3 == 0)
    && (|s.signals| % 3 == 0 ==> Quiet(s, |s.signals| / 3))
    && (|s.signals| % 3 == 1 ==> Ready(s, |s.signals| / 3))
    && (|s.signals| % 3 == 2 ==> InHand(s, |s.signals| / 3))
  }

  // ---------------------------------------------------------------------------
  // Every step keeps it

  ghost predicate SameHandshake(s: State, s': State) {
    && s'.refresher == s.refresher && s'.promise == s.promise && s'.future == s.future && s'.held == s.held
    && s'.resumeSignalled == s.resumeSignalled && s'.signals == s.signals && s'.futures == s.futures
    && s'.listings == s.listings && s'.delivered == s.delivered && s'.taken == s.taken
  }

  lemma {:induction false} OtherStep(s: State, s': State)
    requires HandshakeInvariant(s) && SameHandshake(s, s')
    requires s'.tracker == s.tracker ||
             (&& !s.tracker.Start? && !s'.tracker.Start? && !Digesting(s'.tracker)
              && (!Digesting(s.tracker) || s.tracker.Applying?))
    ensures HandshakeInvariant(s')
  {
  }

  lemma {:induction false} DeliverStep(s: State)
    requires HandshakeInvariant(s) && Can(s, RDeliver)
    ensures HandshakeInvariant(Do(s, RDeliver))
  {
    assert |s.signals| % 3 == 0;
  }

  lemma {:induction false} RefresherStep(s: State, step: Step)
    requires HandshakeInvariant(s) && Can(s, step)
    requires ActorOf(step).TheRefresher? && !step.RDeliver?
    ensures HandshakeInvariant(Do(s, step))
  {
    assert |s.signals| % 3 == 0;
  }

  lemma {:induction false} TakeStep(s: State)
    requires HandshakeInvariant(s) && Can(s, TPoll)
    ensures HandshakeInvariant(Do(s, TPoll))
  {
    if s.future.Some? && s.promise.value.Some? {
      assert |s.signals| % 3 == 1;
    } else {
      OtherStep(s, Do(s, TPoll));
    }
  }

  lemma {:induction false} ReplacePromiseStep(s: State)
    requires HandshakeInvariant(s) && Can(s, TReplacePromise)
    ensures HandshakeInvariant(Do(s, TReplacePromise))
  {
    assert |s.signals| % 3 == 2;
  }

  lemma {:induction false} CheckStep(s: State)
    requires HandshakeInvariant(s) && Can(s, TCheck)
    ensures HandshakeInvariant(Do(s, TCheck))
  {
    if s.held.Some? && s.ledger.tracked != map[] {
      assert |s.signals| % 3 == 2;
    } else {
      OtherStep(s, Do(s, TCheck));
    }
  }

  lemma {:induction false} ResumeStep(s: State)
    requires HandshakeInvariant(s) && Can(s, TResume)
    ensures HandshakeInvariant(Do(s, TResume))
  {
    assert |s.signals| % 3 == 2;
  }

  lemma {:induction false} BeginStep(s: State)
    requires HandshakeInvariant(s) && Can(s, TBegin)
    ensures HandshakeInvariant(Do(s, TBegin))
  {
    assert |s.signals| / 3 == 0;
  }

  lemma {:induction false} DispatcherStep(s: State, step: Step)
    requires HandshakeInvariant(s) && Can(s, step) && ActorOf(step).TheDispatcher?
    ensures HandshakeInvariant(Do(s, step))
  {
    OtherStep(s, Do(s, step));
  }

  lemma {:induction false} CallStep(s: State, step: Step)
    requires HandshakeInvariant(s) && Can(s, step)
    requires step.TTryGet? || step.TWake? || step.TTimeout? || step.THandle? || step.TReply? || step.TResolve?
             || step.TApply?
    ensures HandshakeInvariant(Do(s, step))
  {
    OtherStep(s, Do(s, step));
  }

  lemma {:induction false} HandshakeStep(s: State, step: Step)
    requires HandshakeInvariant(s) && Can(s, step)
    ensures HandshakeInvariant(Do(s, step))
  {
    match step
    case TBegin => BeginStep(s);
    case TPoll => TakeStep(s);
    case TReplacePromise => ReplacePromiseStep(s);
    case TCheck => CheckStep(s);
    case TResume => ResumeStep(s);
    case RDeliver => DeliverStep(s);
    case RList(_, _) | RFail | RResumed | RWake => RefresherStep(s, step);
    case DReceive(_) | DAnswerDirectly(_) | DPost | DTakeReply | DRespond => DispatcherStep(s, step);
    case _ => CallStep(s, step);
  }

  lemma {:induction false} HandshakeHolds(mirrored: bool, steps: seq<Step>)
    ensures Run(mirrored, steps).Some? ==> HandshakeInvariant(Run(mirrored, steps).value)
  {
    if steps != [] {
      var earlier := steps[..|steps| - 1];
      HandshakeHolds(mirrored, earlier);
      if Run(mirrored, steps).Some? {
        HandshakeStep(Run(mirrored, earlier).value, steps[|steps| - 1]);
      }
    }
  }

  /** At the head of the loop the tracker holds the next future or an un-resumed listing, and not
      both; setting the promise and taking its future never fail. */
  lemma {:induction false} HandshakeIsSafe(mirrored: bool, steps: seq<Step>)
    requires Run(mirrored, steps).Some?
    ensures var s := Run(mirrored, steps).value;
            && (s.tracker.Head? ==> (s.future.Some? <==> s.held.None?))
            && (s.refresher.Delivering? ==> s.promise.value.None?)
            && (s.tracker.Start? || (s.tracker.Checking? && s.held.Some?) ==> s.promise.generation !in s.futures)
            && (s.tracker.Applying? ==> s.held.Some?)
  {
    HandshakeHolds(mirrored, steps);
  }

  lemma {:induction false} ScheduleNeverRepeats(signals: seq<Signal>)
    requires OnSchedule(signals)
    ensures forall i, j | 0 <= i < j < |signals| :: signals[i] != signals[j]
  {
  }

  ghost predicate StartsAfterResume(signals: seq<Signal>, position: nat) {
    position <= |signals| && (position > 0 ==> signals[position - 1].Resume?)
  }

  lemma {:induction false} WholeRoundsEndInResume(signals: seq<Signal>, position: nat)
    requires OnSchedule(signals) && position <= |signals| && position % 3 == 0
    ensures StartsAfterResume(signals, position)
  {
  }

  /** Every promise is fulfilled once, its value taken once and its lister resumed once, in that
      order, and a new listing starts only when the last signal, if any, was a resume. */
  lemma {:induction false} EachHandOverHappensOnce(mirrored: bool, steps: seq<Step>)
    requires Run(mirrored, steps).Some?
    ensures var s := Run(mirrored, steps).value;
            && OnSchedule(s.signals)
            && (forall i, j | 0 <= i < j < |s.signals| :: s.signals[i] != s.signals[j])
            && CountsUp(s.futures)
            && (forall i | 0 <= i < |s.listings| :: StartsAfterResume(s.signals, s.listings[i]))
  {
    HandshakeHolds(mirrored, steps);
    var s := Run(mirrored, steps).value;
    ScheduleNeverRepeats(s.signals);
    forall i | 0 <= i < |s.listings| ensures StartsAfterResume(s.signals, s.listings[i]) {
      WholeRoundsEndInResume(s.signals, s.listings[i]);
    }
  }
}

/**
  The sixty seconds a tracked port is given before a listing without it counts: when they are kept, and
  when a listing read before the port was tracked takes them away.
 */
module TrackerGrace {
  import opened Wrappers
  import opened PortKeys
  import opened PortLedger
  import opened CallInfo
  import opened TrackerSystem
  import opened SnapshotHandshake
  import opened CallService
  import opened TrackerRuns

  /** Between the tracking and event a, a listing that was read after the tracking showed the port. */
  ghost predicate FreshlySeen(mirrored: bool, log: seq<Event>, t: int, a: int, key: PortAllocation) {
    exists s | t < s < a :: ShowsInUse(mirrored, log, s, key) && t < log[s].snapshot.read
  }

  /** Event i released the port for the listing applied as event a, which was read within sixty seconds
      of tracking t, although no listing read since the tracking had shown the port. */
  ghost predicate Hasty(mirrored: bool, log: seq<Event>, t: int, a: int, i: int, key: PortAllocation) {
    && 0 <= i < |log| && log[i] == Released(key) && LastTracked(log, i, t, key) && LastApplied(log, i, a)
    && log[a].snapshot.timestamp <= log[t].time + BIND_TIMEOUT_SECONDS
    && !FreshlySeen(mirrored, log, t, a, key)
  }

  ghost predicate GraceBroken(mirrored: bool, log: seq<Event>, t: int, key: PortAllocation) {
    exists a, i :: Hasty(mirrored, log, t, a, i, key)
  }

  /** The step tracks the port, as the last thing it does to the ledger. */
  ghost predicate Tracks(s: State, step: Step, key: PortAllocation) {
    && Can(s, step)
    && var log := Do(s, step).ledger.log;
       |log| > |s.ledger.log| && log[|log| - 1].Tracked? && log[|log| - 1].key == key
  }

  /** The lister has read a listing that shows the port, and not handed it over yet. */
  ghost predicate ListingUnderWay(s: State, key: PortAllocation) {
    s.refresher.Delivering? && Active(s.ledger.mirrored, s.refresher.snapshot.ports, key)
  }

  // ---------------------------------------------------------------------------
  // Without one, the grace period is kept

  ghost predicate Harmless(mirrored: bool, snapshot: Snapshot, t: int, key: PortAllocation) {
    snapshot.read > t || !Active(mirrored, snapshot.ports, key)
  }

  ghost predicate HarmlessLog(mirrored: bool, log: seq<Event>, t: int, key: PortAllocation) {
    0 <= t < |log| && forall i | t < i < |log| && log[i].Applied? :: Harmless(mirrored, log[i].snapshot, t, key)
  }

  /** What is delivered in this turn of the loop will not be applied. */
  predicate TurnServed(tracker: Tracker) {
    || tracker.Replying? || tracker.Resolving?
    || ((tracker.Polling? || tracker.Taken? || tracker.Applying?) && tracker.served)
  }

  ghost predicate NoStaleListing(s: State, t: int, key: PortAllocation) {
    && HarmlessLog(s.ledger.mirrored, s.ledger.log, t, key)
    && (s.refresher.Delivering? ==> Harmless(s.ledger.mirrored, s.refresher.snapshot, t, key))
    && (s.promise.value.Some? ==> TurnServed(s.tracker) || Harmless(s.ledger.mirrored, s.promise.value.value, t, key))
    && (AboutToApply(s) ==> Harmless(s.ledger.mirrored, s.held.value, t, key))
  }

  lemma {:induction false} RequestIsHarmless(ledger: Ledger, request: PortAllocation, reply: int, now: int, t: int,
                                             key: PortAllocation)
    requires HarmlessLog(ledger.mirrored, ledger.log, t, key)
    ensures HarmlessLog(ledger.mirrored, Request(ledger, request, reply, now).0.log, t, key)
    ensures Request(ledger, request, reply, now).0.mirrored == ledger.mirrored
  {
  }

  lemma {:induction false} RefreshIsHarmless(ledger: Ledger, snapshot: Snapshot, t: int, key: PortAllocation)
    requires HarmlessLog(ledger.mirrored, ledger.log, t, key) && Harmless(ledger.mirrored, snapshot, t, key)
    ensures HarmlessLog(ledger.mirrored, Refresh(ledger, snapshot).log, t, key)
  {
  }

  lemma {:induction false} LedgerStaysHarmless(s: State, step: Step, t: int, key: PortAllocation)
    requires NoStaleListing(s, t, key) && Can(s, step)
    ensures HarmlessLog(s.ledger.mirrored, Do(s, step).ledger.log, t, key)
    ensures Do(s, step).ledger.mirrored == s.ledger.mirrored
  {
    match step
    case THandle(caller, isListen, addressLength, hostReply, now) =>
      var call := ReadRequest(caller, isListen, addressLength, s.tracker.call.id);
      if call.request.Some? {
        RequestIsHarmless(s.ledger, call.request.value, hostReply, now, t, key);
      }
    case TResolve(found, hostReply, now) =>
      if found.Some? {
        RequestIsHarmless(s.ledger, found.value, hostReply, now, t, key);
      }
    case TApply =>
      if !s.tracker.served {
        RefreshIsHarmless(s.ledger, s.held.value, t, key);
      }
    case _ =>
  }

  ghost predicate SameListings(s: State, s': State) {
    s'.refresher == s.refresher && s'.promise == s.promise && s'.held == s.held
  }

  lemma {:induction false} StillNoStale(s: State, s': State, t: int, key: PortAllocation)
    requires NoStaleListing(s, t, key) && s'.ledger.mirrored == s.ledger.mirrored
    requires HarmlessLog(s.ledger.mirrored, s'.ledger.log, t, key) && SameListings(s, s')
    requires s.promise.value.Some? && TurnServed(s.tracker) ==> TurnServed(s'.tracker)
    requires AboutToApply(s') ==> AboutToApply(s)
    ensures NoStaleListing(s', t, key)
  {
  }

  lemma {:induction false} RefresherKeepsNoStale(s: State, step: Step, t: int, key: PortAllocation)
    requires HandshakeInvariant(s) && NoStaleListing(s, t, key) && Can(s, step) && ActorOf(step).TheRefresher?
    ensures NoStaleListing(Do(s, step), t, key)
  {
  }

  lemma {:induction false} HandOverKeepsNoStale(s: State, step: Step, t: int, key: PortAllocation)
    requires HandshakeInvariant(s) && NoStaleListing(s, t, key) && Can(s, step)
    requires step.TPoll? || step.TReplacePromise? || step.TResume?
    ensures NoStaleListing(Do(s, step), t, key)
  {
  }

  lemma {:induction false} DispatcherKeepsNoStale(s: State, step: Step, t: int, key: PortAllocation)
    requires NoStaleListing(s, t, key) && Can(s, step) && ActorOf(step).TheDispatcher?
    ensures NoStaleListing(Do(s, step), t, key)
  {
    StillNoStale(s, Do(s, step), t, key);
  }

  lemma {:induction false} NoStaleStep(s: State, step: Step, t: int, key: PortAllocation)
    requires HandshakeInvariant(s) && NoStaleListing(s, t, key) && Can(s, step)
    ensures NoStaleListing(Do(s, step), t, key)
  {
    if ActorOf(step).TheRefresher? {
      RefresherKeepsNoStale(s, step, t, key);
    } else if ActorOf(step).TheDispatcher? {
      DispatcherKeepsNoStale(s, step, t, key);
    } else if step.TPoll? || step.TReplacePromise? || step.TResume? {
      HandOverKeepsNoStale(s, step, t, key);
    } else {
      LedgerStaysHarmless(s, step, t, key);
      StillNoStale(s, Do(s, step), t, key);
    }
  }

  lemma {:induction false} NoStaleHolds(mirrored: bool, start: seq<Step>, more: seq<Step>, t: int, key: PortAllocation)
    requires Run(mirrored, start).Some? && NoStaleListing(Run(mirrored, start).value, t, key)
    requires Run(mirrored, start + more).Some?
    ensures NoStaleListing(Run(mirrored, start + more).value, t, key)
    decreases |more|
  {
    if more == [] {
      assert start + more == start;
    } else {
      var earlier := start + more[..|more| - 1];
      assert (start + more)[..|start + more| - 1] == earlier;
      NoStaleHolds(mirrored, start, more[..|more| - 1], t, key);
      HandshakeHolds(mirrored, earlier);
      NoStaleStep(Run(mirrored, earlier).value, more[|more| - 1], t, key);
    }
  }

  lemma {:induction false} TrackingStartsClean(s: State, step: Step, key: PortAllocation)
    requires Tracks(s, step, key) && !ListingUnderWay(s, key)
    ensures NoStaleListing(Do(s, step), |Do(s, step).ledger.log| - 1, key)
  {
  }

  /** In a consistent ledger whose listings are harmless, an early release of the port comes after a fresh
      sighting. */
  lemma {:induction false} EarlyMeansFresh(ledger: Ledger, t: int, a: int, i: int, key: PortAllocation)
    requires Consistent(ledger) && HarmlessLog(ledger.mirrored, ledger.log, t, key)
    requires 0 <= i < |ledger.log| && ledger.log[i] == Released(key)
    requires LastTracked(ledger.log, i, t, key) && LastApplied(ledger.log, i, a)
    requires ledger.log[a].snapshot.timestamp <= ledger.log[t].time + BIND_TIMEOUT_SECONDS
    ensures FreshlySeen(ledger.mirrored, ledger.log, t, a, key)
  {
    var log := ledger.log;
    assert ReleaseJustified(ledger.mirrored, log, i);
    var t', a' :| Justified(ledger.mirrored, log, i, t', a');
    assert t' == t && a' == a;
    var s :| t < s < a && ShowsInUse(ledger.mirrored, log, s, key);
    assert Harmless(ledger.mirrored, log[s].snapshot, t, key);
  }

  lemma {:induction false} HarmlessIsNotHasty(ledger: Ledger, t: int, a: int, i: int, key: PortAllocation)
    requires Consistent(ledger) && HarmlessLog(ledger.mirrored, ledger.log, t, key)
    ensures !Hasty(ledger.mirrored, ledger.log, t, a, i, key)
  {
    if Hasty(ledger.mirrored, ledger.log, t, a, i, key) {
      EarlyMeansFresh(ledger, t, a, i, key);
    }
  }

  // ---------------------------------------------------------------------------
  // With one, it can be broken

  /** When a step reads the clock, and what it reads. */
  function TimeOf(step: Step): (time: Option<int>) {
    match step
    case THandle(_, _, _, _, now) => Some(now)
    case TResolve(_, _, now) => Some(now)
    case RList(_, timestamp) => Some(timestamp)
    case _ => None
  }

  /** The clock never goes back during the run, and does not go beyond this time. */
  ghost predicate InTimeUntil(run: seq<Step>, time: int) {
    if run == [] then true
    else
      var last, before := TimeOf(run[|run| - 1]), run[..|run| - 1];
      if last.None? then InTimeUntil(before, time) else last.value <= time && InTimeUntil(before, last.value)
  }

  /** One more step, of which the time is the given one if it reads the clock. */
  lemma {:induction false} Extend(mirrored: bool, run: seq<Step>, s: State, step: Step, time: int)
    returns (longer: seq<Step>, s': State)
    requires Run(mirrored, run) == Some(s) && Can(s, step) && (TimeOf(step).None? || TimeOf(step) == Some(time))
    ensures longer == run + [step] && run <= longer && Run(mirrored, longer) == Some(s') && s' == Do(s, step)
    ensures InTimeUntil(run, time) ==> InTimeUntil(longer, time)
  {
    longer, s' := run + [step], Do(s, step);
    assert longer[..|longer| - 1] == run;
  }

  /** A turn of the loop with a listing still under way ends without one. */
  lemma {:induction false} BackToHead(mirrored: bool, run: seq<Step>, s: State, time: int)
    returns (longer: seq<Step>, s': State)
    requires Run(mirrored, run) == Some(s) && s.tracker.Polling? && s.refresher.Delivering?
    ensures run <= longer && Run(mirrored, longer) == Some(s')
    ensures s'.tracker.Head? && s'.refresher == s.refresher && s'.ledger == s.ledger && s'.request == s.request
    ensures InTimeUntil(run, time) ==> InTimeUntil(longer, time)
  {
    HandshakeHolds(mirrored, run);
    longer, s' := Extend(mirrored, run, s, TPoll, time);
    longer, s' := Extend(mirrored, longer, s', TCheck, time);
  }

  const NOBODY := Caller(None, None, None, false, false, None)

  /** A call that has been posted meanwhile is let through. */
  lemma {:induction false} LetThroughPosted(mirrored: bool, run: seq<Step>, s: State, time: int)
    returns (longer: seq<Step>, s': State)
    requires Run(mirrored, run) == Some(s) && s.tracker.Head? && s.request.Some?
    ensures run <= longer && Run(mirrored, longer) == Some(s')
    ensures s'.tracker.Polling? && s'.refresher == s.refresher && s'.ledger == s.ledger && s'.request.None?
    ensures InTimeUntil(run, time) ==> InTimeUntil(longer, time)
  {
    CallInvariantHolds(mirrored, run);
    longer, s' := Extend(mirrored, run, s, TTryGet, time);
    longer, s' := Extend(mirrored, longer, s', THandle(NOBODY, true, 0, 0, time), time);
    longer, s' := Extend(mirrored, longer, s', TReply, time);
  }

  lemma {:induction false} ServePosted(mirrored: bool, run: seq<Step>, s: State, time: int)
    returns (longer: seq<Step>, s': State)
    requires Run(mirrored, run) == Some(s) && s.tracker.Head? && s.refresher.Delivering?
    ensures run <= longer && Run(mirrored, longer) == Some(s')
    ensures s'.tracker.Head? && s'.refresher == s.refresher && s'.ledger == s.ledger && s'.request.None?
    ensures InTimeUntil(run, time) ==> InTimeUntil(longer, time)
  {
    longer, s' := run, s;
    if s.request.Some? {
      longer, s' := LetThroughPosted(mirrored, run, s, time);
      longer, s' := BackToHead(mirrored, longer, s', time);
    }
  }

  /** The listing under way is handed over while the tracker waits for a call in vain. */
  lemma {:induction false} HandOver(mirrored: bool, run: seq<Step>, s: State, time: int)
    returns (longer: seq<Step>, s': State)
    requires Run(mirrored, run) == Some(s) && s.tracker.Head? && s.refresher.Delivering? && s.request.None?
    ensures run <= longer && Run(mirrored, longer) == Some(s')
    ensures s'.tracker == Polling(false) && s'.request.None? && s'.ledger == s.ledger
    ensures s'.future.Some? && s'.promise.value == Some(s.refresher.snapshot)
    ensures InTimeUntil(run, time) ==> InTimeUntil(longer, time)
  {
    HandshakeHolds(mirrored, run);
    longer, s' := Extend(mirrored, run, s, RDeliver, time);
    longer, s' := Extend(mirrored, longer, s', TTryGet, time);
    longer, s' := Extend(mirrored, longer, s', TTimeout, time);
  }

  /** A listing that is ready is taken and applied. */
  lemma {:induction false} TakeAndApply(mirrored: bool, run: seq<Step>, s: State, time: int)
    returns (longer: seq<Step>, s': State)
    requires Run(mirrored, run) == Some(s) && s.tracker == Polling(false) && s.request.None?
    requires s.future.Some? && s.promise.value.Some?
    ensures run <= longer && Run(mirrored, longer) == Some(s')
    ensures s'.tracker.Checking? && s'.held.Some? && s'.request.None?
    ensures s'.ledger == Refresh(s.ledger, s.promise.value.value)
    ensures InTimeUntil(run, time) ==> InTimeUntil(longer, time)
  {
    longer, s' := Extend(mirrored, run, s, TPoll, time);
    longer, s' := Extend(mirrored, longer, s', TReplacePromise, time);
    longer, s' := Extend(mirrored, longer, s', TApply, time);
  }

  /** A turn that serves no call and applies the listing under way. */
  lemma {:induction false} QuietTurn(mirrored: bool, run: seq<Step>, s: State, time: int)
    returns (longer: seq<Step>, s': State)
    requires Run(mirrored, run) == Some(s) && s.tracker.Head? && s.refresher.Delivering? && s.request.None?
    ensures run <= longer && Run(mirrored, longer) == Some(s')
    ensures s'.tracker.Checking? && s'.held.Some? && s'.request.None?
    ensures s'.ledger == Refresh(s.ledger, s.refresher.snapshot)
    ensures InTimeUntil(run, time) ==> InTimeUntil(longer, time)
  {
    longer, s' := HandOver(mirrored, run, s, time);
    longer, s' := TakeAndApply(mirrored, longer, s', time);
  }

  /** The lister is resumed. */
  lemma {:induction false} ResumeLister(mirrored: bool, run: seq<Step>, s: State, time: int)
    returns (longer: seq<Step>, s': State)
    requires Run(mirrored, run) == Some(s)
    requires s.tracker.Checking? && s.held.Some? && s.request.None? && s.ledger.tracked != map[]
    ensures run <= longer && Run(mirrored, longer) == Some(s')
    ensures s'.tracker.Head? && s'.request.None? && s'.ledger == s.ledger && s'.refresher.Sleeping?
    ensures InTimeUntil(run, time) ==> InTimeUntil(longer, time)
  {
    HandshakeHolds(mirrored, run);
    longer, s' := Extend(mirrored, run, s, TCheck, time);
    longer, s' := Extend(mirrored, longer, s', TResume, time);
    longer, s' := Extend(mirrored, longer, s', RResumed, time);
  }

  /** It reads the sockets again. */
  lemma {:induction false} ReadAgain(mirrored: bool, run: seq<Step>, s: State, ports: ActivePorts, time: int)
    returns (longer: seq<Step>, s': State)
    requires Run(mirrored, run) == Some(s) && s.tracker.Head? && s.request.None? && s.refresher.Sleeping?
    ensures run <= longer && Run(mirrored, longer) == Some(s')
    ensures s'.tracker.Head? && s'.request.None? && s'.ledger == s.ledger
    ensures s'.refresher == Delivering(Snapshot(ports, time, |s.ledger.log|))
    ensures InTimeUntil(run, time) ==> InTimeUntil(longer, time)
  {
    longer, s' := Extend(mirrored, run, s, RWake, time);
    longer, s' := Extend(mirrored, longer, s', RList(ports, time), time);
  }

  /** What a listing with nothing in it looks like, read at once. */
  ghost function Blank(ledger: Ledger, timestamp: int): (snapshot: Snapshot) {
    Snapshot(ActivePorts({}, {}), timestamp, |ledger.log|)
  }

  ghost function RefreshedTwice(ledger: Ledger, snapshot: Snapshot, time: int): (after: Ledger) {
    var once := Refresh(ledger, snapshot);
    Refresh(once, Blank(once, time))
  }

  lemma {:induction false} RefreshLog(ledger: Ledger, snapshot: Snapshot, j: int)
    requires |ledger.log| <= j < |Refresh(ledger, snapshot).log|
    ensures var log := Refresh(ledger, snapshot).log;
            if j == |ledger.log| then log[j] == Applied(snapshot) else log[j].Released?
  {
  }

  lemma {:induction false} RefreshReleases(ledger: Ledger, snapshot: Snapshot, key: PortAllocation) returns (i: int)
    requires key in Releasable(ledger, snapshot)
    ensures |ledger.log| < i < |Refresh(ledger, snapshot).log| && Refresh(ledger, snapshot).log[i] == Released(key)
  {
    var gone := Sorted(Releasable(ledger, snapshot));
    SortedIsSorted(Releasable(ledger, snapshot));
    var k :| 0 <= k < |gone| && gone[k] == key;
    i := |ledger.log| + 1 + k;
  }

  /** A listing read before the tracking clears the deadline, and the next one releases the port. */
  lemma {:induction false} StaleSightingBreaksGrace(ledger: Ledger, stale: Snapshot, time: int, key: PortAllocation)
    requires ledger.log != [] && ledger.log[|ledger.log| - 1] == Tracked(key, time) && key in ledger.tracked
    requires Active(ledger.mirrored, stale.ports, key) && stale.read < |ledger.log|
    ensures key in Refresh(ledger, stale).tracked
    ensures GraceBroken(ledger.mirrored, RefreshedTwice(ledger, stale, time).log, |ledger.log| - 1, key)
  {
    var t, once := |ledger.log| - 1, Refresh(ledger, stale);
    var blank, a := Blank(once, time), |once.log|;
    var log := Refresh(once, blank).log;
    assert key in Releasable(once, blank);
    var i := RefreshReleases(once, blank, key);
    forall j | t < j < |log|
      ensures if j == t + 1 then log[j] == Applied(stale)
              else if j == a then log[j] == Applied(blank)
              else log[j].Released?
    {
      if j < a {
        RefreshLog(ledger, stale, j);
        assert log[j] == once.log[j];
      } else {
        RefreshLog(once, blank, j);
      }
    }
    assert log[t] == once.log[t] == ledger.log[t];
    assert Hasty(ledger.mirrored, log, t, a, i, key);
  }

  lemma {:induction false} ReadsLieBehind(mirrored: bool, run: seq<Step>)
    requires Run(mirrored, run).Some?
    ensures var s := Run(mirrored, run).value; s.refresher.Delivering? ==> s.refresher.snapshot.read <= |s.ledger.log|
  {
    if run != [] {
      var earlier := run[..|run| - 1];
      ReadsLieBehind(mirrored, earlier);
      LogGrows(Run(mirrored, earlier).value, run[|run| - 1]);
    }
  }

  lemma {:induction false} LogGrows(s: State, step: Step)
    requires Can(s, step)
    ensures |Do(s, step).ledger.log| >= |s.ledger.log|
    ensures Do(s, step).refresher.Delivering? ==>
              Do(s, step).refresher == s.refresher || Do(s, step).refresher.snapshot.read == |s.ledger.log|
  {
  }

  /** The port was tracked last, and a listing read before shows it and is still under way. */
  ghost predicate StaleUnderWay(s: State, key: PortAllocation) {
    && ListingUnderWay(s, key) && s.refresher.snapshot.read < |s.ledger.log| && key in s.ledger.tracked
    && s.ledger.log[|s.ledger.log| - 1].Tracked? && s.ledger.log[|s.ledger.log| - 1].key == key
  }

  predicate TurnAnswered(tracker: Tracker) {
    (tracker.Replying? && !tracker.deferred) || tracker == Polling(true)
  }

  lemma {:induction false} TrackingPoises(s: State, step: Step, key: PortAllocation)
    requires Tracks(s, step, key) && ListingUnderWay(s, key) && s.refresher.snapshot.read <= |s.ledger.log|
    ensures StaleUnderWay(Do(s, step), key) && TurnAnswered(Do(s, step).tracker)
  {
  }

  /** The turn that tracked a port ends, with the listing still under way. */
  lemma {:induction false} FinishTurn(mirrored: bool, run: seq<Step>, s: State, time: int)
    returns (longer: seq<Step>, s': State)
    requires Run(mirrored, run) == Some(s) && s.refresher.Delivering? && TurnAnswered(s.tracker)
    ensures run <= longer && Run(mirrored, longer) == Some(s')
    ensures s'.tracker.Head? && s'.refresher == s.refresher && s'.ledger == s.ledger && s'.request.None?
    ensures InTimeUntil(run, time) ==> InTimeUntil(longer, time)
  {
    longer, s' := run, s;
    if s.tracker.Replying? {
      CallInvariantHolds(mirrored, run);
      longer, s' := Extend(mirrored, longer, s', TReply, time);
    }
    longer, s' := BackToHead(mirrored, longer, s', time);
    longer, s' := ServePosted(mirrored, longer, s', time);
  }

  /** Two quiet turns: the listing under way is applied, then one with nothing in it. */
  lemma {:induction false} TwoQuietTurns(mirrored: bool, run: seq<Step>, s: State, time: int)
    returns (longer: seq<Step>, s': State)
    requires Run(mirrored, run) == Some(s) && s.tracker.Head? && s.refresher.Delivering? && s.request.None?
    requires Refresh(s.ledger, s.refresher.snapshot).tracked != map[]
    ensures run <= longer && Run(mirrored, longer) == Some(s')
    ensures s'.ledger == RefreshedTwice(s.ledger, s.refresher.snapshot, time)
    ensures InTimeUntil(run, time) ==> InTimeUntil(longer, time)
  {
    longer, s' := QuietTurn(mirrored, run, s, time);
    longer, s' := ResumeLister(mirrored, longer, s', time);
    longer, s' := ReadAgain(mirrored, longer, s', ActivePorts({}, {}), time);
    longer, s' := QuietTurn(mirrored, longer, s', time);
  }

  lemma {:induction false} GraceKept(mirrored: bool, start: seq<Step>, longer: seq<Step>, t: int, key: PortAllocation)
    requires Run(mirrored, start).Some? && NoStaleListing(Run(mirrored, start).value, t, key)
    requires start <= longer && Run(mirrored, longer).Some?
    ensures !GraceBroken(mirrored, Run(mirrored, longer).value.ledger.log, t, key)
  {
    var more := longer[|start|..];
    assert longer == start + more;
    NoStaleHolds(mirrored, start, more, t, key);
    LedgerHolds(mirrored, longer);
    var ledger := Run(mirrored, longer).value.ledger;
    forall a, i ensures !Hasty(mirrored, ledger.log, t, a, i, key) {
      HarmlessIsNotHasty(ledger, t, a, i, key);
    }
  }

  /** The run has just tracked the port, as its last step. */
  ghost predicate JustTracked(mirrored: bool, run: seq<Step>, key: PortAllocation) {
    && Run(mirrored, run).Some? && run != []
    && Tracks(Run(mirrored, run[..|run| - 1]).value, run[|run| - 1], key)
  }

  /** When it did so, a listing that shows the port was under way. */
  ghost predicate TrackedWhileListing(mirrored: bool, run: seq<Step>, key: PortAllocation)
    requires JustTracked(mirrored, run, key)
  {
    ListingUnderWay(Run(mirrored, run[..|run| - 1]).value, key)
  }

  lemma {:induction false} TrackedStale(mirrored: bool, run: seq<Step>, key: PortAllocation)
    requires JustTracked(mirrored, run, key) && TrackedWhileListing(mirrored, run, key)
    ensures var s := Run(mirrored, run).value;
            StaleUnderWay(s, key) && TurnAnswered(s.tracker) && s.ledger.mirrored == mirrored
  {
    ReadsLieBehind(mirrored, run[..|run| - 1]);
    TrackingPoises(Run(mirrored, run[..|run| - 1]).value, run[|run| - 1], key);
    LedgerHolds(mirrored, run);
  }

  /** The step that tracks a port reads the clock for it. */
  lemma {:induction false} TrackingReadsClock(s: State, step: Step, key: PortAllocation)
    requires Tracks(s, step, key)
    ensures var log := Do(s, step).ledger.log; TimeOf(step) == Some(log[|log| - 1].time)
  {
  }

  lemma {:induction false} StaleLedger(s: State, key: PortAllocation)
    requires StaleUnderWay(s, key)
    ensures Refresh(s.ledger, s.refresher.snapshot).tracked != map[]
    ensures var time := s.ledger.log[|s.ledger.log| - 1].time;
            GraceBroken(s.ledger.mirrored, RefreshedTwice(s.ledger, s.refresher.snapshot, time).log,
                        |s.ledger.log| - 1, key)
  {
    StaleSightingBreaksGrace(s.ledger, s.refresher.snapshot, s.ledger.log[|s.ledger.log| - 1].time, key);
  }

  /** A longer run does not release the port of that tracking hastily. */
  ghost predicate KeepsGrace(mirrored: bool, run: seq<Step>, longer: seq<Step>, key: PortAllocation)
    requires Run(mirrored, run).Some?
  {
    Run(mirrored, longer).Some? ==>
      !GraceBroken(mirrored, Run(mirrored, longer).value.ledger.log, |Run(mirrored, run).value.ledger.log| - 1, key)
  }

  lemma {:induction false} StaleBreaks(mirrored: bool, run: seq<Step>, s: State, key: PortAllocation)
    returns (longer: seq<Step>, s': State)
    requires Run(mirrored, run) == Some(s)
    requires StaleUnderWay(s, key) && TurnAnswered(s.tracker) && s.ledger.mirrored == mirrored
    ensures run <= longer && Run(mirrored, longer) == Some(s')
    ensures GraceBroken(mirrored, s'.ledger.log, |s.ledger.log| - 1, key)
    ensures var time := s.ledger.log[|s.ledger.log| - 1].time; InTimeUntil(run, time) ==> InTimeUntil(longer, time)
  {
    var time := s.ledger.log[|s.ledger.log| - 1].time;
    StaleLedger(s, key);
    longer, s' := FinishTurn(mirrored, run, s, time);
    longer, s' := TwoQuietTurns(mirrored, longer, s', time);
  }

  /** A run that breaks the grace period; the clock stands still in what it adds. */
  lemma {:induction false} GraceCanBreak(mirrored: bool, run: seq<Step>, s: State, key: PortAllocation)
    returns (longer: seq<Step>)
    requires Run(mirrored, run) == Some(s)
    requires StaleUnderWay(s, key) && TurnAnswered(s.tracker) && s.ledger.mirrored == mirrored
    ensures run <= longer && !KeepsGrace(mirrored, run, longer, key)
    ensures var time := s.ledger.log[|s.ledger.log| - 1].time; InTimeUntil(run, time) ==> InTimeUntil(longer, time)
  {
    var s';
    longer, s' := StaleBreaks(mirrored, run, s, key);
  }

  lemma {:induction false} TrackedClean(mirrored: bool, run: seq<Step>, key: PortAllocation)
    requires JustTracked(mirrored, run, key) && !TrackedWhileListing(mirrored, run, key)
    ensures NoStaleListing(Run(mirrored, run).value, |Run(mirrored, run).value.ledger.log| - 1, key)
  {
    TrackingStartsClean(Run(mirrored, run[..|run| - 1]).value, run[|run| - 1], key);
  }

  lemma {:induction false} CleanKeepsGrace(mirrored: bool, run: seq<Step>, s: State, longer: seq<Step>,
                                           key: PortAllocation)
    requires Run(mirrored, run) == Some(s) && NoStaleListing(s, |s.ledger.log| - 1, key) && run <= longer
    ensures KeepsGrace(mirrored, run, longer, key)
  {
    if Run(mirrored, longer).Some? {
      GraceKept(mirrored, run, longer, |s.ledger.log| - 1, key);
    }
  }

  /** The clock never goes back during the run. */
  ghost predicate InTime(run: seq<Step>) {
    exists time :: InTimeUntil(run, time)
  }

  /** A run in time that ends by reading the clock is in time until then. */
  lemma {:induction false} EndsInTime(run: seq<Step>, time: int)
    requires run != [] && TimeOf(run[|run| - 1]) == Some(time) && InTime(run)
    ensures InTimeUntil(run, time)
  {
  }

  /** A continuation that breaks the grace period, in time if the run so far is. */
  lemma {:induction false} TrackedWhileListingBreaks(mirrored: bool, run: seq<Step>, key: PortAllocation)
    returns (longer: seq<Step>)
    requires JustTracked(mirrored, run, key) && TrackedWhileListing(mirrored, run, key)
    ensures run <= longer && !KeepsGrace(mirrored, run, longer, key) && (InTime(run) ==> InTime(longer))
  {
    var s := Run(mirrored, run).value;
    TrackedStale(mirrored, run, key);
    TrackingReadsClock(Run(mirrored, run[..|run| - 1]).value, run[|run| - 1], key);
    longer := GraceCanBreak(mirrored, run, s, key);
    if InTime(run) {
      EndsInTime(run, s.ledger.log[|s.ledger.log| - 1].time);
    }
  }

  /** However a run goes on that has just tracked a port: the port is not released within its sixty
      seconds before a listing read since has shown it, if and only if no listing that shows it was
      under way at the tracking. For a run in time, this is so already of the continuations in time. */
  lemma {:induction false} GraceIsKeptIff(mirrored: bool, run: seq<Step>, key: PortAllocation)
    requires JustTracked(mirrored, run, key)
    ensures !TrackedWhileListing(mirrored, run, key) <==>
            forall longer | run <= longer :: KeepsGrace(mirrored, run, longer, key)
    ensures InTime(run) ==>
              (!TrackedWhileListing(mirrored, run, key) <==>
               forall longer | run <= longer && InTime(longer) :: KeepsGrace(mirrored, run, longer, key))
  {
    var s := Run(mirrored, run).value;
    if TrackedWhileListing(mirrored, run, key) {
      var longer := TrackedWhileListingBreaks(mirrored, run, key);
    } else {
      TrackedClean(mirrored, run, key);
      forall longer | run <= longer ensures KeepsGrace(mirrored, run, longer, key) {
        CleanKeepsGrace(mirrored, run, s, longer, key);
      }
    }
  }

  // ---------------------------------------------------------------------------
  // One such run

  /** A socket listening on port 80 of 0.0.0.0. */
  const WEB_SERVER: Storage := seq(SIZEOF_SOCKADDR_STORAGE, i => if i == 0 then AF_INET else if i == 3 then 80 else 0)

  const WEB_KEY: PortAllocation := SockaddrKey(WEB_SERVER, IPPROTO_TCP)

  const WEB_CALL := THandle(Caller(Some(true), None, Some(IPPROTO_TCP), true, true, Some(WEB_SERVER)), true, 0, 0, 100)

  lemma {:induction false} CallArrives() returns (run: seq<Step>, s: State)
    ensures Run(false, run) == Some(s) && InTimeUntil(run, 100)
    ensures s.tracker.Handling? && s.refresher.Listing? && s.ledger == Empty(false)
  {
    run, s := [], Initial(false);
    run, s := Extend(false, run, s, TBegin, 100);
    run, s := Extend(false, run, s, DReceive(Call(1, true)), 100);
    run, s := Extend(false, run, s, DPost, 100);
    run, s := Extend(false, run, s, TTryGet, 100);
  }

  lemma {:induction false} ServeWebServer(s: State)
    requires s.tracker.Handling? && s.ledger == Empty(false)
    ensures Can(s, WEB_CALL) && Do(s, WEB_CALL).ledger.log == [Asked(WEB_KEY, 0), Tracked(WEB_KEY, 100)]
  {
  }

  /** The sockets are listed while its listen() call is being served, and the listing is handed over in the
      next turn of the loop: the port is then released at time 100, when it was tracked. */
  lemma {:induction false} GraceExample() returns (run: seq<Step>)
    ensures JustTracked(false, run, WEB_KEY) && TrackedWhileListing(false, run, WEB_KEY) && InTime(run)
    ensures Run(false, run).value.ledger.log == [Asked(WEB_KEY, 0), Tracked(WEB_KEY, 100)]
    ensures exists longer :: run <= longer && InTime(longer) && !KeepsGrace(false, run, longer, WEB_KEY)
  {
    var s;
    run, s := CallArrives();
    run, s := Extend(false, run, s, RList(ActivePorts({WEB_KEY}, {Pair(WEB_KEY)}), 100), 100);
    ServeWebServer(s);
    var before, s' := run, s;
    run, s' := Extend(false, run, s, WEB_CALL, 100);
    assert run[..|run| - 1] == before;
    GraceIsKeptIff(false, run, WEB_KEY);
  }
}

/**
  What the port tracker remembers and what it has said: the tracked map together with the
  history of host messages, trackings and applied listings. Each operation of the tracker
  is a step on this ledger, and the ledger stays consistent under all of them.
 */
module PortLedger {
  import opened Wrappers
  import opened PortKeys

  const BIND_TIMEOUT_SECONDS := 60

  /** A listing and its time. For the history, `read` is how many events the ledger held when the
      sockets were listed. */
  datatype Snapshot = Snapshot(ports: ActivePorts, timestamp: int, read: nat)

  datatype Event =
    | Asked(key: PortAllocation, result: int)   // allocate request and the host's answer
    | Released(key: PortAllocation)             // release request
    | Tracked(key: PortAllocation, time: int)
    | Applied(snapshot: Snapshot)

  type Deadlines = map<PortAllocation, Option<int>>

  datatype Ledger = Ledger(mirrored: bool, tracked: Deadlines, log: seq<Event>)

  // ---------------------------------------------------------------------------
  // The tracker's operations

  ghost function Empty(mirrored: bool): (ledger: Ledger) {
    Ledger(mirrored, map[], [])
  }

  ghost function Ask(ledger: Ledger, key: PortAllocation, reply: int): (asked: Ledger) {
    ledger.(log := ledger.log + [Asked(key, reply)])
  }

  /** HandleRequest: a tracked port is let through, any other is asked of the host. */
  ghost function HandleRequest(ledger: Ledger, key: PortAllocation, reply: int): (outcome: (Ledger, int)) {
    if key in ledger.tracked then (ledger, 0)
    else (Ask(ledger, key, reply), reply)
  }

  /** TrackPort: insert_or_assign, so the deadline of a tracked port starts again. */
  ghost function TrackPort(ledger: Ledger, key: PortAllocation, now: int): (after: Ledger) {
    ledger.(tracked := ledger.tracked[key := Some(now + BIND_TIMEOUT_SECONDS)],
            log := ledger.log + [Tracked(key, now)])
  }

  /** A request and, if it succeeded, its tracking. */
  ghost function Request(ledger: Ledger, key: PortAllocation, reply: int, now: int): (outcome: (Ledger, int)) {
    var (asked, result) := HandleRequest(ledger, key, reply);
    if result == 0 then (TrackPort(asked, key, now), 0) else (asked, result)
  }

  predicate Expired(deadline: Option<int>, timestamp: int) {
    deadline.None? || deadline.value < timestamp
  }

  ghost function Releasable(ledger: Ledger, snapshot: Snapshot): (keys: set<PortAllocation>) {
    set key | key in ledger.tracked
              && !Active(ledger.mirrored, snapshot.ports, key)
              && Expired(ledger.tracked[key], snapshot.timestamp)
  }

  ghost function Mark(mirrored: bool, tracked: Deadlines, ports: ActivePorts): (marked: Deadlines) {
    map key | key in tracked :: if Active(mirrored, ports, key) then None else tracked[key]
  }

  ghost function Releases(keys: seq<PortAllocation>): (events: seq<Event>) {
    seq(|keys|, i requires 0 <= i < |keys| => Released(keys[i]))
  }

  /** OnRefreshAllocatedPorts: ports seen in use lose their deadline, ports not in use whose
      deadline is gone or past are released, in key order. */
  ghost function Refresh(ledger: Ledger, snapshot: Snapshot): (after: Ledger) {
    var gone := Releasable(ledger, snapshot);
    Ledger(ledger.mirrored, Mark(ledger.mirrored, ledger.tracked, snapshot.ports) - gone,
           ledger.log + [Applied(snapshot)] + Releases(Sorted(gone)))
  }

  // ---------------------------------------------------------------------------
  // What the history says

  /** The granted allocations (true) and the releases (false) of one port, in order. */
  ghost function Messages(log: seq<Event>, key: PortAllocation): (messages: seq<bool>) {
    if log == [] then []
    else
      var last := log[|log| - 1];
      Messages(log[..|log| - 1], key) +
      (if last == Asked(key, 0) then [true] else if last == Released(key) then [false] else [])
  }

  /** Grants and releases take turns, and a grant comes first. */
  ghost predicate Alternates(messages: seq<bool>) {
    forall i | 0 <= i < |messages| :: messages[i] <==> i % 2 == 0
  }

  /** The last tracking of the port among the first `end` events is event t. */
  ghost predicate LastTracked(log: seq<Event>, end: int, t: int, key: PortAllocation) {
    && 0 <= t < end <= |log|
    && log[t].Tracked? && log[t].key == key
    && forall i | t < i < end :: !(log[i].Tracked? && log[i].key == key)
  }

  ghost predicate LastApplied(log: seq<Event>, end: int, a: int) {
    && 0 <= a < end <= |log|
    && log[a].Applied?
    && forall i | a < i < end :: !log[i].Applied?
  }

  /** Event s applied a listing that shows the port in use. */
  ghost predicate ShowsInUse(mirrored: bool, log: seq<Event>, s: int, key: PortAllocation) {
    0 <= s < |log| && log[s].Applied? && Active(mirrored, log[s].snapshot.ports, key)
  }

  ghost predicate SeenBetween(mirrored: bool, log: seq<Event>, start: int, end: int, key: PortAllocation) {
    exists s | start < s < end :: ShowsInUse(mirrored, log, s, key)
  }

  /** The deadline held for a tracked port is what its history calls for. */
  ghost predicate DeadlineOf(ledger: Ledger, key: PortAllocation, t: int)
    requires key in ledger.tracked
  {
    && LastTracked(ledger.log, |ledger.log|, t, key)
    && ledger.tracked[key] ==
       if SeenBetween(ledger.mirrored, ledger.log, t, |ledger.log|, key) then None
       else Some(ledger.log[t].time + BIND_TIMEOUT_SECONDS)
  }

  /** Release number i had a reason: the listing then applied lacked the port, and since the
      last tracking either an earlier listing had shown it in use or the deadline had passed. */
  ghost predicate Justified(mirrored: bool, log: seq<Event>, i: int, t: int, a: int)
    requires 0 <= i < |log| && log[i].Released?
  {
    && LastApplied(log, i, a) && !ShowsInUse(mirrored, log, a, log[i].key)
    && LastTracked(log, i, t, log[i].key) && t < a
    && (SeenBetween(mirrored, log, t, a, log[i].key) ||
        log[t].time + BIND_TIMEOUT_SECONDS < log[a].snapshot.timestamp)
  }

  ghost predicate ReleaseJustified(mirrored: bool, log: seq<Event>, i: int)
    requires 0 <= i < |log| && log[i].Released?
  {
    exists t, a :: Justified(mirrored, log, i, t, a)
  }

  ghost predicate PortConsistent(ledger: Ledger, key: PortAllocation) {
    && Alternates(Messages(ledger.log, key))
    && (key in ledger.tracked <==> |Messages(ledger.log, key)| % 2 == 1)
    && (key in ledger.tracked ==> key.port != 0 && exists t :: DeadlineOf(ledger, key, t))
  }

  ghost predicate Consistent(ledger: Ledger) {
    && (forall key :: PortConsistent(ledger, key))
    && forall i | 0 <= i < |ledger.log| && ledger.log[i].Released? :: ReleaseJustified(ledger.mirrored, ledger.log, i)
  }

  lemma {:induction false} EmptyConsistent(mirrored: bool)
    ensures Consistent(Empty(mirrored))
  {
  }

  // ---------------------------------------------------------------------------
  // Adding one event

  lemma {:induction false} MessagesAppend(log: seq<Event>, event: Event, key: PortAllocation)
    ensures Messages(log + [event], key) == Messages(log, key) +
            (if event == Asked(key, 0) then [true] else if event == Released(key) then [false] else [])
  {
  }

  /** What is said about a prefix stays said when the log grows. */
  lemma {:induction false} JustifiedGrows(mirrored: bool, log: seq<Event>, event: Event, i: int)
    requires 0 <= i < |log| && log[i].Released? && ReleaseJustified(mirrored, log, i)
    ensures ReleaseJustified(mirrored, log + [event], i)
  {
    var t, a :| Justified(mirrored, log, i, t, a);
    var longer := log + [event];
    assert forall j | 0 <= j < |log| :: longer[j] == log[j];
    assert LastApplied(longer, i, a) && LastTracked(longer, i, t, log[i].key);
    if SeenBetween(mirrored, log, t, a, log[i].key) {
      var s :| t < s < a && ShowsInUse(mirrored, log, s, log[i].key);
      assert ShowsInUse(mirrored, longer, s, log[i].key);
    }
    assert Justified(mirrored, longer, i, t, a);
  }

  lemma {:induction false} ReleasesStayJustified(mirrored: bool, log: seq<Event>, event: Event)
    requires forall i | 0 <= i < |log| && log[i].Released? :: ReleaseJustified(mirrored, log, i)
    requires event.Released? ==> ReleaseJustified(mirrored, log + [event], |log|)
    ensures forall i | 0 <= i < |log + [event]| && (log + [event])[i].Released? ::
              ReleaseJustified(mirrored, log + [event], i)
  {
    var longer := log + [event];
    forall i | 0 <= i < |longer| && longer[i].Released? ensures ReleaseJustified(mirrored, longer, i) {
      if i < |log| {
        JustifiedGrows(mirrored, log, event, i);
      }
    }
  }

  lemma {:induction false} SeenAppend(mirrored: bool, log: seq<Event>, event: Event, t: int, key: PortAllocation)
    requires 0 <= t < |log|
    ensures SeenBetween(mirrored, log + [event], t, |log| + 1, key) <==>
            SeenBetween(mirrored, log, t, |log|, key) || (event.Applied? && Active(mirrored, event.snapshot.ports, key))
  {
    var longer := log + [event];
    if SeenBetween(mirrored, log, t, |log|, key) {
      var s :| t < s < |log| && ShowsInUse(mirrored, log, s, key);
      assert ShowsInUse(mirrored, longer, s, key);
    }
    if event.Applied? && Active(mirrored, event.snapshot.ports, key) {
      assert ShowsInUse(mirrored, longer, |log|, key);
    }
    if SeenBetween(mirrored, longer, t, |log| + 1, key) {
      var s :| t < s < |log| + 1 && ShowsInUse(mirrored, longer, s, key);
      assert s < |log| ==> ShowsInUse(mirrored, log, s, key);
    }
  }

  /** A port's deadline survives any event that is not its own tracking. */
  lemma {:induction false} DeadlineAppend(ledger: Ledger, event: Event, after: Ledger, key: PortAllocation)
    requires key in ledger.tracked && exists t :: DeadlineOf(ledger, key, t)
    requires key in after.tracked && after.mirrored == ledger.mirrored && after.log == ledger.log + [event]
    requires !(event.Tracked? && event.key == key)
    requires after.tracked[key] ==
             if event.Applied? && Active(ledger.mirrored, event.snapshot.ports, key) then None else ledger.tracked[key]
    ensures exists t :: DeadlineOf(after, key, t)
  {
    var t :| DeadlineOf(ledger, key, t);
    SeenAppend(ledger.mirrored, ledger.log, event, t, key);
    assert LastTracked(after.log, |after.log|, t, key);
    assert DeadlineOf(after, key, t);
  }

  // ---------------------------------------------------------------------------
  // Every operation keeps the ledger consistent

  lemma {:induction false} TrackPortConsistent(ledger: Ledger, key: PortAllocation, now: int, other: PortAllocation)
    requires if other == key then Alternates(Messages(ledger.log, key)) && |Messages(ledger.log, key)| % 2 == 1
             else PortConsistent(ledger, other)
    requires key.port != 0
    ensures PortConsistent(TrackPort(ledger, key, now), other)
  {
    var event := Tracked(key, now);
    var after := TrackPort(ledger, key, now);
    MessagesAppend(ledger.log, event, other);
    if other == key {
      assert !SeenBetween(after.mirrored, after.log, |ledger.log|, |after.log|, key);
      assert DeadlineOf(after, key, |ledger.log|);
    } else if other in ledger.tracked {
      DeadlineAppend(ledger, event, after, other);
    }
  }

  lemma {:induction false} TrackConsistent(ledger: Ledger, key: PortAllocation, now: int)
    requires forall other | other != key :: PortConsistent(ledger, other)
    requires Alternates(Messages(ledger.log, key)) && |Messages(ledger.log, key)| % 2 == 1
    requires forall i | 0 <= i < |ledger.log| && ledger.log[i].Released? ::
               ReleaseJustified(ledger.mirrored, ledger.log, i)
    requires key.port != 0
    ensures Consistent(TrackPort(ledger, key, now))
  {
    ReleasesStayJustified(ledger.mirrored, ledger.log, Tracked(key, now));
    forall other ensures PortConsistent(TrackPort(ledger, key, now), other) {
      TrackPortConsistent(ledger, key, now, other);
    }
  }

  lemma {:induction false} AskPortConsistent(ledger: Ledger, key: PortAllocation, reply: int, other: PortAllocation)
    requires PortConsistent(ledger, other) && key !in ledger.tracked
    ensures other != key || reply != 0 ==> PortConsistent(Ask(ledger, key, reply), other)
    ensures other == key && reply == 0 ==>
              var messages := Messages(Ask(ledger, key, reply).log, key);
              Alternates(messages) && |messages| % 2 == 1
  {
    MessagesAppend(ledger.log, Asked(key, reply), other);
    if other in ledger.tracked {
      DeadlineAppend(ledger, Asked(key, reply), Ask(ledger, key, reply), other);
    }
  }

  lemma {:induction false} AskConsistent(ledger: Ledger, key: PortAllocation, reply: int)
    requires Consistent(ledger) && key !in ledger.tracked
    ensures var asked := Ask(ledger, key, reply);
            && (forall other | other != key || reply != 0 :: PortConsistent(asked, other))
            && (reply == 0 ==> Alternates(Messages(asked.log, key)) && |Messages(asked.log, key)| % 2 == 1)
            && forall i | 0 <= i < |asked.log| && asked.log[i].Released? ::
                 ReleaseJustified(asked.mirrored, asked.log, i)
  {
    ReleasesStayJustified(ledger.mirrored, ledger.log, Asked(key, reply));
    forall other ensures other != key || reply != 0 ==> PortConsistent(Ask(ledger, key, reply), other) {
      assert PortConsistent(ledger, other);
      AskPortConsistent(ledger, key, reply, other);
    }
    assert PortConsistent(ledger, key);
    AskPortConsistent(ledger, key, reply, key);
  }

  lemma {:induction false} RequestConsistent(ledger: Ledger, key: PortAllocation, reply: int, now: int)
    requires Consistent(ledger) && key.port != 0
    ensures Consistent(Request(ledger, key, reply, now).0)
  {
    assert PortConsistent(ledger, key);
    if key !in ledger.tracked {
      AskConsistent(ledger, key, reply);
    }
    var (asked, result) := HandleRequest(ledger, key, reply);
    if result == 0 {
      TrackConsistent(asked, key, now);
    }
  }

  /** How the answer to a request goes together with the map and the history before and after it: success
      means that the port is tracked from now on, and the host was asked unless it was tracked before;
      failure is the host's refusal, which changes nothing else. */
  ghost predicate Settled(before: Ledger, after: Ledger, key: PortAllocation, now: int, result: int) {
    && (result == 0 <==> key in after.tracked)
    && (result != 0 ==> after.tracked == before.tracked && after.log == before.log + [Asked(key, result)])
    && (result == 0 ==>
          && after.tracked == before.tracked[key := Some(now + 60)]
          && after.log == before.log + (if key in before.tracked then [] else [Asked(key, 0)]) + [Tracked(key, now)])
  }

  /** Serving a request settles it, and the host's reply decides a port that is not tracked. */
  lemma {:induction false} RequestSettles(ledger: Ledger, key: PortAllocation, reply: int, now: int)
    ensures var (after, result) := Request(ledger, key, reply, now);
            && Settled(ledger, after, key, now, result) && after.mirrored == ledger.mirrored
            && (key !in ledger.tracked ==> result == reply)
  {
    assert ledger.log + [] + [Tracked(key, now)] == ledger.log + [Tracked(key, now)];
  }

  lemma {:induction false} ApplyConsistent(ledger: Ledger, snapshot: Snapshot)
    requires Consistent(ledger)
    ensures Consistent(Ledger(ledger.mirrored, Mark(ledger.mirrored, ledger.tracked, snapshot.ports),
                              ledger.log + [Applied(snapshot)]))
  {
    var event := Applied(snapshot);
    var after := Ledger(ledger.mirrored, Mark(ledger.mirrored, ledger.tracked, snapshot.ports), ledger.log + [event]);
    ReleasesStayJustified(ledger.mirrored, ledger.log, event);
    forall key ensures PortConsistent(after, key) {
      assert PortConsistent(ledger, key);
      MessagesAppend(ledger.log, event, key);
      if key in ledger.tracked {
        DeadlineAppend(ledger, event, after, key);
      }
    }
  }

  /** Since event a, which applied a listing, only releases were logged. */
  ghost predicate OnlyReleasesSince(log: seq<Event>, a: int) {
    && 0 <= a < |log| && log[a].Applied?
    && forall i | a < i < |log| :: log[i].Released?
  }

  ghost predicate MayRelease(ledger: Ledger, key: PortAllocation, a: int)
    requires OnlyReleasesSince(ledger.log, a)
  {
    && key in ledger.tracked
    && !ShowsInUse(ledger.mirrored, ledger.log, a, key)
    && Expired(ledger.tracked[key], ledger.log[a].snapshot.timestamp)
  }

  lemma {:induction false} ReleaseHasReason(ledger: Ledger, key: PortAllocation, a: int)
    requires OnlyReleasesSince(ledger.log, a) && MayRelease(ledger, key, a)
    requires PortConsistent(ledger, key)
    ensures ReleaseJustified(ledger.mirrored, ledger.log + [Released(key)], |ledger.log|)
  {
    var log, end := ledger.log, |ledger.log|;
    var longer := log + [Released(key)];
    var t :| DeadlineOf(ledger, key, t);
    assert forall j | 0 <= j < end :: longer[j] == log[j];
    assert LastApplied(longer, end, a) && LastTracked(longer, end, t, key);
    assert ShowsInUse(ledger.mirrored, longer, a, key) == ShowsInUse(ledger.mirrored, log, a, key);
    if SeenBetween(ledger.mirrored, log, t, end, key) {
      var s :| t < s < end && ShowsInUse(ledger.mirrored, log, s, key);
      assert s < a && ShowsInUse(ledger.mirrored, longer, s, key);
    }
    assert Justified(ledger.mirrored, longer, end, t, a);
  }

  lemma {:induction false} ReleasePortConsistent(ledger: Ledger, key: PortAllocation, other: PortAllocation)
    requires PortConsistent(ledger, other) && key in ledger.tracked
    ensures PortConsistent(Ledger(ledger.mirrored, ledger.tracked - {key}, ledger.log + [Released(key)]), other)
  {
    var event := Released(key);
    var after := Ledger(ledger.mirrored, ledger.tracked - {key}, ledger.log + [event]);
    MessagesAppend(ledger.log, event, other);
    if other in after.tracked {
      DeadlineAppend(ledger, event, after, other);
    }
  }

  lemma {:induction false} ReleaseConsistent(ledger: Ledger, key: PortAllocation, a: int)
    requires Consistent(ledger)
    requires OnlyReleasesSince(ledger.log, a) && MayRelease(ledger, key, a)
    ensures Consistent(Ledger(ledger.mirrored, ledger.tracked - {key}, ledger.log + [Released(key)]))
  {
    assert PortConsistent(ledger, key);
    ReleaseHasReason(ledger, key, a);
    ReleasesStayJustified(ledger.mirrored, ledger.log, Released(key));
    var after := Ledger(ledger.mirrored, ledger.tracked - {key}, ledger.log + [Released(key)]);
    forall other ensures PortConsistent(after, other) {
      assert PortConsistent(ledger, other);
      ReleasePortConsistent(ledger, key, other);
    }
  }

  /** Releasing the first key and then the rest releases them all. */
  lemma {:induction false} ReleaseFirst(ledger: Ledger, keys: seq<PortAllocation>)
    requires keys != []
    ensures ledger.log + [Released(keys[0])] + Releases(keys[1..]) == ledger.log + Releases(keys)
    ensures ledger.tracked - {keys[0]} - (set key | key in keys[1..]) == ledger.tracked - (set key | key in keys)
  {
    assert (set key | key in keys) == {keys[0]} + (set key | key in keys[1..]);
  }

  lemma {:induction false} ReleaseAllConsistent(ledger: Ledger, keys: seq<PortAllocation>, a: int)
    requires Consistent(ledger) && OnlyReleasesSince(ledger.log, a)
    requires forall i | 0 <= i < |keys| :: MayRelease(ledger, keys[i], a)
    requires forall i, j | 0 <= i < j < |keys| :: keys[i] != keys[j]
    ensures Consistent(Ledger(ledger.mirrored, ledger.tracked - (set key | key in keys), ledger.log + Releases(keys)))
    decreases |keys|
  {
    if keys == [] {
      assert ledger.log + Releases(keys) == ledger.log;
      assert ledger.tracked - (set key | key in keys) == ledger.tracked;
    } else {
      var next := Ledger(ledger.mirrored, ledger.tracked - {keys[0]}, ledger.log + [Released(keys[0])]);
      var rest := keys[1..];
      assert MayRelease(ledger, keys[0], a);
      ReleaseConsistent(ledger, keys[0], a);
      forall i | 0 <= i < |rest| ensures MayRelease(next, rest[i], a) {
        assert rest[i] == keys[i + 1] && MayRelease(ledger, keys[i + 1], a);
      }
      ReleaseAllConsistent(next, rest, a);
      ReleaseFirst(ledger, keys);
    }
  }

  lemma {:induction false} RefreshConsistent(ledger: Ledger, snapshot: Snapshot)
    requires Consistent(ledger)
    ensures Consistent(Refresh(ledger, snapshot))
  {
    var marked := Ledger(ledger.mirrored, Mark(ledger.mirrored, ledger.tracked, snapshot.ports),
                         ledger.log + [Applied(snapshot)]);
    var gone := Releasable(ledger, snapshot);
    var keys := Sorted(gone);
    var a := |ledger.log|;
    ApplyConsistent(ledger, snapshot);
    SortedIsSorted(gone);
    forall i | 0 <= i < |keys| ensures MayRelease(marked, keys[i], a) {
      assert keys[i] in keys;
    }
    forall i, j | 0 <= i < j < |keys| ensures keys[i] != keys[j] {
      LessIsStrictTotal(keys[i], keys[j], keys[i]);
    }
    ReleaseAllConsistent(marked, keys, a);
    assert (set key | key in keys) == gone;
  }

  /** Dump number i is what the listing applied as event i was made of. */
  ghost predicate DumpsOf(log: seq<Event>, dumps: seq<Dump>) {
    |dumps| == |log| && forall i | 0 <= i < |log| && log[i].Applied? :: IsListing(log[i].snapshot.ports, dumps[i])
  }

  lemma {:induction false} SeenIff(mirrored: bool, log: seq<Event>, dumps: seq<Dump>, t: int, key: PortAllocation)
    requires DumpsOf(log, dumps) && 0 <= t < |log|
    ensures SeenBetween(mirrored, log, t, |log|, key) <==>
            exists s | t < s < |log| :: log[s].Applied? && InUse(mirrored, dumps[s], key)
  {
    forall s | t < s < |log| && log[s].Applied?
      ensures ShowsInUse(mirrored, log, s, key) <==> InUse(mirrored, dumps[s], key)
    {
      ActiveIff(mirrored, log[s].snapshot.ports, dumps[s], key);
    }
    if SeenBetween(mirrored, log, t, |log|, key) {
      var s :| t < s < |log| && ShowsInUse(mirrored, log, s, key);
      assert log[s].Applied? && InUse(mirrored, dumps[s], key);
    }
    if s :| t < s < |log| && log[s].Applied? && InUse(mirrored, dumps[s], key) {
      assert ShowsInUse(mirrored, log, s, key);
    }
  }

  /** Which tracked ports a listing releases, told from the history and the sockets alone. */
  lemma {:induction false} ReleasedIff(ledger: Ledger, snapshot: Snapshot, key: PortAllocation, t: int, dump: Dump,
                                       dumps: seq<Dump>)
    requires Consistent(ledger) && key in ledger.tracked && LastTracked(ledger.log, |ledger.log|, t, key)
    requires IsListing(snapshot.ports, dump) && DumpsOf(ledger.log, dumps)
    ensures key in Refresh(ledger, snapshot).tracked <==>
            || InUse(ledger.mirrored, dump, key)
            || (!(exists s | t < s < |ledger.log| :: ledger.log[s].Applied? && InUse(ledger.mirrored, dumps[s], key))
                && snapshot.timestamp <= ledger.log[t].time + 60)
  {
    assert PortConsistent(ledger, key);
    var t' :| DeadlineOf(ledger, key, t');
    assert t == t';
    ActiveIff(ledger.mirrored, snapshot.ports, dump, key);
    SeenIff(ledger.mirrored, ledger.log, dumps, t, key);
  }
}

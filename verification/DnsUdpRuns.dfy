/** The UDP part of the DNS server in every interleaving of its two threads. */
module DnsUdpRuns {
  import opened Wrappers
  import opened DnsUdp

  /** The server thread waits for events or is handing a request to the tunnel without the lock. */
  datatype Server = Waiting | Tunnelling(id: Id, handle: nat)

  datatype State = State(table: Table, clock: int, server: Server)

  datatype Step =
    | Datagram(remote: Endpoint, now: int)
    | TunnelAccepts
    | TunnelFails
    | ExpiryPass(now: int)
    | Response(id: Id)          // from the thread that receives tunnelled answers, at any time

  ghost predicate Can(s: State, step: Step) {
    match step
    case Datagram(_, now) => s.server.Waiting? && s.clock <= now
    case TunnelAccepts => s.server.Tunnelling?
    case TunnelFails => s.server.Tunnelling?
    case ExpiryPass(now) => s.server.Waiting? && s.clock <= now
    case Response(_) => true
  }

  ghost function Do(s: State, step: Step): (s': State)
    requires Can(s, step)
  {
    match step
    case Datagram(remote, now) =>
      State(Track(s.table, remote, now), now,
            if s.table.currentId in s.table.requests then Waiting
            else Tunnelling(s.table.currentId, s.table.nextHandle))
    case TunnelAccepts => s.(server := Waiting)
    case TunnelFails => s.(table := RollBack(s.table, s.server.id), server := Waiting)
    case ExpiryPass(now) => s.(table := Expire(s.table, now), clock := now)
    case Response(id) => s.(table := Respond(s.table, id))
  }

  ghost function Run(start: int, steps: seq<Step>): (end: Option<State>) {
    if steps == [] then Some(State(Start(), start, Waiting))
    else
      var before := Run(start, steps[..|steps| - 1]);
      var step := steps[|steps| - 1];
      if before.Some? && Can(before.value, step) then Some(Do(before.value, step)) else None
  }

  /** The id being tunnelled, if still tracked, is the entry this very call made. */
  ghost predicate OwnsEntry(s: State) {
    s.server.Tunnelling? && s.server.id in s.table.requests ==> s.table.requests[s.server.id].node == s.server.handle
  }

  ghost predicate Invariant(s: State) {
    Good(s.table, s.clock) && OwnsEntry(s)
  }

  lemma {:induction false} InvariantStep(s: State, step: Step)
    requires Invariant(s) && Can(s, step)
    ensures Invariant(Do(s, step))
  {
    match step
    case Datagram(remote, now) => GoodTrack(s.table, remote, s.clock, now);
    case TunnelAccepts =>
    case TunnelFails => GoodClose(s.table, s.server.id, (context: Context) => RolledBack(context.node), s.clock);
    case ExpiryPass(now) => GoodExpire(s.table, s.clock, now);
    case Response(id) => GoodClose(s.table, id, (context: Context) => Answered(context.node, context.remote), s.clock);
  }

  lemma {:induction false} InvariantHolds(start: int, steps: seq<Step>)
    requires Run(start, steps).Some?
    ensures Invariant(Run(start, steps).value)
  {
    if steps != [] {
      InvariantHolds(start, steps[..|steps| - 1]);
      InvariantStep(Run(start, steps[..|steps| - 1]).value, steps[|steps| - 1]);
    }
  }

  /** In every run the map and the list are in bijection, no id is listed twice, and the list is
      sorted by expiration. */
  lemma {:induction false} MapAndListAgree(start: int, steps: seq<Step>)
    requires Run(start, steps).Some?
    ensures var t := Run(start, steps).value.table;
            && EntriesPoint(t.requests, t.queue)
            && (forall i | 0 <= i < |t.queue| :: Belongs(t.queue[i], t.requests))
            && (forall i, j | 0 <= i < j < |t.queue| ::
                  t.queue[i].id != t.queue[j].id && t.queue[i].expiration <= t.queue[j].expiration)
  {
    InvariantHolds(start, steps);
    var t := Run(start, steps).value.table;
    forall i, j | 0 <= i < j < |t.queue| ensures t.queue[i].id != t.queue[j].id {
      NoIdTwice(t, i, j);
    }
  }

  /** Every tracked request ends at most once, and if it is answered, then at its recorded address
      and while it was tracked. */
  lemma {:induction false} AnsweredAtMostOnce(start: int, steps: seq<Step>, handle: nat)
    requires Run(start, steps).Some?
    ensures LivesOnce(Run(start, steps).value.table, handle)
  {
    InvariantHolds(start, steps);
  }

  lemma {:induction false} FateIsInLog(log: seq<Event>, handle: nat)
    ensures forall event | event in Fate(log, handle) :: event in log
  {
    if log != [] {
      FateIsInLog(log[..|log| - 1], handle);
    }
  }

  /** A tracked id was tracked for a datagram that came from the recorded address. */
  lemma {:induction false} TrackedIsLogged(t: Table, clock: int, id: Id) returns (expiration: int)
    requires Good(t, clock) && id in t.requests
    ensures Tracked(t.requests[id].node, id, t.requests[id].remote, expiration) in t.log
  {
    var context := t.requests[id];
    var i :| PointsTo(t.queue, i, context.node, id);
    assert t.queue[i] in t.queue;
    assert LivesOnce(t, context.node);
    FateIsInLog(t.log, context.node);
    var first := Fate(t.log, context.node)[0];
    assert first in t.log;
    expiration := first.expiration;
  }

  lemma {:induction false} UntrackedIsUnlisted(t: Table, id: Id)
    requires Linked(t) && id !in t.requests
    ensures forall node | node in t.queue :: node.id != id
  {
    forall node | node in t.queue ensures node.id != id {
      var i :| 0 <= i < |t.queue| && t.queue[i] == node;
      assert Belongs(t.queue[i], t.requests);
    }
  }

  /** What an answer to an id leaves of a table. */
  ghost predicate AnswerLeaves(t: Table, t': Table, id: Id) {
    && t'.requests == t.requests - {id}
    && (forall node | node in t'.queue :: node.id != id)
    && if id in t.requests then
         && t'.log == t.log + [Answered(t.requests[id].node, t.requests[id].remote)]
         && exists e :: Tracked(t.requests[id].node, id, t.requests[id].remote, e) in t.log
       else t' == t
  }

  lemma {:induction false} RespondLeaves(t: Table, clock: int, id: Id)
    requires Good(t, clock) && Good(Respond(t, id), clock)
    ensures AnswerLeaves(t, Respond(t, id), id)
  {
    UntrackedIsUnlisted(Respond(t, id), id);
    if id in t.requests {
      var e := TrackedIsLogged(t, clock, id);
    } else {
      assert t.requests - {id} == t.requests;
    }
  }

  /** An answer to a tracked id ends the request it belongs to, at the address that its datagram came from,
      and one to any other id changes nothing. */
  lemma {:induction false} ResponseEndsIt(start: int, steps: seq<Step>, s: State, id: Id)
    requires Run(start, steps) == Some(s)
    ensures AnswerLeaves(s.table, Do(s, Response(id)).table, id)
  {
    InvariantHolds(start, steps);
    InvariantStep(s, Response(id));
    RespondLeaves(s.table, s.clock, id);
  }

  /** While a request is handed to the tunnel, all that can have happened to it is an answer. */
  ghost predicate OnlyAnswered(s: State) {
    s.server.Tunnelling? ==>
      var fate := Fate(s.table.log, s.server.handle);
      && 1 <= |fate| <= 2 && fate[0].Tracked? && fate[0].id == s.server.id
      && (|fate| == 2 ==> fate[1].Answered?)
  }

  lemma {:induction false} TrackingStartsFate(s: State, remote: Endpoint, now: int)
    requires Invariant(s) && Can(s, Datagram(remote, now))
    ensures OnlyAnswered(Do(s, Datagram(remote, now)))
  {
    var t := s.table;
    if t.currentId !in t.requests {
      assert LivesOnce(t, t.nextHandle);
      FateAppend(t.log, Tracked(t.nextHandle, t.currentId, remote, now + REQUEST_TIMEOUT), t.nextHandle);
    }
  }

  lemma {:induction false} OnlyAnsweredStep(s: State, step: Step)
    requires Invariant(s) && OnlyAnswered(s) && Can(s, step)
    ensures OnlyAnswered(Do(s, step))
  {
    match step
    case Datagram(remote, now) => TrackingStartsFate(s, remote, now);
    case Response(id) =>
      if s.server.Tunnelling? && id in s.table.requests {
        InvariantStep(s, step);
        assert LivesOnce(Do(s, step).table, s.server.handle);
        var context := s.table.requests[id];
        FateAppend(s.table.log, Answered(context.node, context.remote), s.server.handle);
      }
    case _ =>
  }

  lemma {:induction false} OnlyAnsweredHolds(start: int, steps: seq<Step>)
    requires Run(start, steps).Some?
    ensures OnlyAnswered(Run(start, steps).value)
  {
    if steps != [] {
      var earlier := steps[..|steps| - 1];
      InvariantHolds(start, earlier);
      OnlyAnsweredHolds(start, earlier);
      OnlyAnsweredStep(Run(start, earlier).value, steps[|steps| - 1]);
    }
  }

  /** The id is still tracked exactly if no answer has come in. */
  lemma {:induction false} TrackedIffUnanswered(s: State)
    requires Invariant(s) && OnlyAnswered(s) && s.server.Tunnelling?
    ensures s.server.id in s.table.requests <==> |Fate(s.table.log, s.server.handle)| == 1
  {
    assert LivesOnce(s.table, s.server.handle);
    if s.server.id in s.table.requests {
      var i :| PointsTo(s.table.queue, i, s.table.requests[s.server.id].node, s.server.id);
      assert s.table.queue[i] in s.table.queue;
    }
  }

  /** When the tunnel fails, what is taken back is the request of that call; nothing is, exactly if it
      was answered in the meantime. */
  lemma {:induction false} RollBackTakesBackItsOwn(start: int, steps: seq<Step>)
    requires Run(start, steps + [TunnelFails]).Some?
    ensures Run(start, steps).Some? && Run(start, steps).value.server.Tunnelling?
    ensures var s := Run(start, steps).value;
            var s' := Run(start, steps + [TunnelFails]).value;
            var fate := Fate(s.table.log, s.server.handle);
            && (s'.table == s.table <==> |fate| == 2)
            && (|fate| == 2 ==> fate[1].Answered?)
            && (|fate| != 2 ==> s'.table.log == s.table.log + [RolledBack(s.server.handle)])
  {
    assert (steps + [TunnelFails])[..|steps|] == steps;
    InvariantHolds(start, steps);
    OnlyAnsweredHolds(start, steps);
    TrackedIffUnanswered(Run(start, steps).value);
  }

  // ---------------------------------------------------------------------------
  // Ids

  ghost function Datagrams(steps: seq<Step>): (n: nat) {
    if steps == [] then 0
    else Datagrams(steps[..|steps| - 1]) + if steps[|steps| - 1].Datagram? then 1 else 0
  }

  /** The node carries its own number, modulo 2^32, as its id. */
  ghost predicate OwnId(node: Node) {
    node.id == node.handle % 0x1_0000_0000
  }

  /** Datagrams are numbered from 0 by the handles; number n gets the id n modulo 2^32. */
  ghost predicate Numbered(t: Table, n: nat) {
    && t.nextHandle == n && t.currentId == n % 0x1_0000_0000
    && forall i | 0 <= i < |t.queue| :: OwnId(t.queue[i])
  }

  lemma {:induction false} EraseKeepsNumbers(queue: seq<Node>, handle: nat)
    requires forall i | 0 <= i < |queue| :: OwnId(queue[i])
    ensures forall i | 0 <= i < |Erase(queue, handle)| :: OwnId(Erase(queue, handle)[i])
  {
    if queue != [] && queue[0].handle != handle {
      var rest := Erase(queue[1..], handle);
      EraseKeepsNumbers(queue[1..], handle);
      forall i | 0 <= i < |rest| + 1 ensures OwnId(([queue[0]] + rest)[i]) {
        assert i > 0 ==> OwnId(rest[i - 1]);
      }
    }
  }

  lemma {:induction false} ExpireKeepsNumbers(t: Table, now: int, n: nat)
    requires Numbered(t, n)
    ensures Numbered(Expire(t, now), n)
    decreases |t.queue|
  {
    if t.queue != [] && t.queue[0].expiration <= now {
      ExpireKeepsNumbers(PopFirst(t, now), now, n);
    }
  }

  lemma {:induction false} CloseKeepsNumbers(t: Table, id: Id, reason: Context -> Event, n: nat)
    requires Numbered(t, n)
    ensures Numbered(Close(t, id, reason), n)
  {
    if id in t.requests {
      EraseKeepsNumbers(t.queue, t.requests[id].node);
    }
  }

  lemma {:induction false} NextResidue(n: nat)
    ensures NextId(n % 0x1_0000_0000) == (n + 1) % 0x1_0000_0000
  {
  }

  lemma {:induction false} TrackKeepsNumbers(t: Table, remote: Endpoint, now: int, n: nat)
    requires Numbered(t, n)
    ensures Numbered(Track(t, remote, now), n + 1)
  {
    NextResidue(n);
    assert OwnId(Node(t.nextHandle, now + REQUEST_TIMEOUT, t.currentId));
  }

  lemma {:induction false} NumberedStep(s: State, step: Step, n: nat)
    requires Numbered(s.table, n) && Can(s, step)
    ensures Numbered(Do(s, step).table, n + if step.Datagram? then 1 else 0)
  {
    match step
    case Datagram(remote, now) => TrackKeepsNumbers(s.table, remote, now, n);
    case TunnelAccepts =>
    case TunnelFails => CloseKeepsNumbers(s.table, s.server.id, (context: Context) => RolledBack(context.node), n);
    case ExpiryPass(now) => ExpireKeepsNumbers(s.table, now, n);
    case Response(id) =>
      CloseKeepsNumbers(s.table, id, (context: Context) => Answered(context.node, context.remote), n);
  }

  /** In every run the next id is the number of datagrams so far, modulo 2^32. */
  lemma {:induction false} NumberedHolds(start: int, steps: seq<Step>)
    requires Run(start, steps).Some?
    ensures Numbered(Run(start, steps).value.table, Datagrams(steps))
  {
    if steps != [] {
      var earlier := steps[..|steps| - 1];
      NumberedHolds(start, earlier);
      NumberedStep(Run(start, earlier).value, steps[|steps| - 1], Datagrams(earlier));
    }
  }

  /** Number h came a positive multiple of 2^32 datagrams before number n. */
  ghost predicate RoundsBefore(h: nat, n: nat) {
    h < n && (n - h) % 0x1_0000_0000 == 0
  }

  /** The datagram that came as number h is tracked. */
  ghost predicate StillTracked(t: Table, h: nat) {
    exists id :: id in t.requests && t.requests[id].node == h
  }

  lemma {:induction false} SameResidue(n: nat, h: nat)
    requires h < n
    ensures n % 0x1_0000_0000 == h % 0x1_0000_0000 <==> RoundsBefore(h, n)
  {
  }

  lemma {:induction false} HandleHasItsId(t: Table, n: nat, h: nat)
    requires Linked(t) && Numbered(t, n) && StillTracked(t, h)
    ensures h < n && h % 0x1_0000_0000 in t.requests && t.requests[h % 0x1_0000_0000].node == h
  {
    var id :| id in t.requests && t.requests[id].node == h;
    var i :| PointsTo(t.queue, i, h, id);
    assert OwnId(t.queue[i]);
  }

  /** The next id is taken exactly if the datagram of a whole number of rounds before is tracked. */
  lemma {:induction false} TakenIff(t: Table, n: nat)
    requires Linked(t) && Numbered(t, n)
    ensures t.currentId in t.requests <==> exists h :: RoundsBefore(h, n) && StillTracked(t, h)
  {
    if h :| RoundsBefore(h, n) && StillTracked(t, h) {
      HandleHasItsId(t, n, h);
      SameResidue(n, h);
    }
    if t.currentId in t.requests {
      var h := t.requests[t.currentId].node;
      assert StillTracked(t, h);
      var i :| PointsTo(t.queue, i, h, t.currentId);
      assert OwnId(t.queue[i]);
      SameResidue(n, h);
    }
  }

  /** What a datagram does in any run: it is tracked under its number modulo 2^32, with its address and for
      sixty seconds, and tunnelled, unless a datagram that came a positive multiple of 2^32 before it is
      still tracked; then it is dropped. */
  lemma {:induction false} DroppedIff(start: int, steps: seq<Step>, s: State, remote: Endpoint, now: int)
    requires Run(start, steps) == Some(s) && Can(s, Datagram(remote, now))
    ensures var n, s' := Datagrams(steps), Do(s, Datagram(remote, now));
            var id := n % 0x1_0000_0000;
            if exists h :: RoundsBefore(h, n) && StillTracked(s.table, h)
            then s'.table.requests == s.table.requests && s'.table.queue == s.table.queue && s'.server.Waiting?
            else && s'.table.requests == s.table.requests[id := Context(remote, n)] && id !in s.table.requests
                 && s'.table.queue == s.table.queue + [Node(n, now + 60_000_000_000, id)]
                 && s'.server == Tunnelling(id, n)
  {
    InvariantHolds(start, steps);
    NumberedHolds(start, steps);
    TakenIff(s.table, Datagrams(steps));
  }

  /** So the first 2^32 datagrams of a run are all tracked, each under its own number. */
  lemma {:induction false} NoneDroppedEarly(start: int, steps: seq<Step>, s: State, remote: Endpoint, now: int)
    requires Run(start, steps) == Some(s) && Can(s, Datagram(remote, now)) && Datagrams(steps) < 0x1_0000_0000
    ensures var n := Datagrams(steps);
            Do(s, Datagram(remote, now)).table.requests == s.table.requests[n := Context(remote, n)]
  {
    DroppedIff(start, steps, s, remote, now);
  }

  lemma {:induction false} OneMoreStep(start: int, steps: seq<Step>, s: State, step: Step)
    requires Run(start, steps) == Some(s) && Can(s, step)
    ensures Run(start, steps + [step]) == Some(Do(s, step))
    ensures Datagrams(steps + [step]) == Datagrams(steps) + if step.Datagram? then 1 else 0
  {
    assert (steps + [step])[..|steps|] == steps;
  }

  /** One more datagram, taken by the tunnel and answered at once. */
  lemma {:induction false} OneRound(steps: seq<Step>, s: State, client: Endpoint) returns (longer: seq<Step>, s': State)
    requires Run(0, steps) == Some(s) && s.server.Waiting? && s.clock == 0
    requires s.table.currentId == Datagrams(steps) && s.table.currentId !in s.table.requests
    ensures Run(0, longer) == Some(s') && s'.server.Waiting? && s'.clock == 0
    ensures Datagrams(longer) == Datagrams(steps) + 1 && s'.table.requests == s.table.requests
  {
    var id := s.table.currentId;
    var first := Do(s, Datagram(client, 0));
    OneMoreStep(0, steps, s, Datagram(client, 0));
    var second := Do(first, TunnelAccepts);
    OneMoreStep(0, steps + [Datagram(client, 0)], first, TunnelAccepts);
    s' := Do(second, Response(id));
    OneMoreStep(0, steps + [Datagram(client, 0)] + [TunnelAccepts], second, Response(id));
    longer := steps + [Datagram(client, 0)] + [TunnelAccepts] + [Response(id)];
  }

  /** The first datagram is never answered, and all others are, at once. */
  lemma {:induction false} FirstUnanswered(n: nat, client: Endpoint) returns (steps: seq<Step>, s: State)
    requires 1 <= n <= 0x1_0000_0000
    ensures Run(0, steps) == Some(s) && s.server.Waiting? && s.clock == 0
    ensures Datagrams(steps) == n && s.table.requests == map[0 := Context(client, 0)]
  {
    if n == 1 {
      var begin := State(Start(), 0, Waiting);
      var first := Do(begin, Datagram(client, 0));
      OneMoreStep(0, [], begin, Datagram(client, 0));
      OneMoreStep(0, [] + [Datagram(client, 0)], first, TunnelAccepts);
      steps, s := [] + [Datagram(client, 0)] + [TunnelAccepts], Do(first, TunnelAccepts);
    } else {
      var before, t := FirstUnanswered(n - 1, client);
      NumberedHolds(0, before);
      steps, s := OneRound(before, t, client);
    }
  }

  /** Behind 2^32 datagrams in one moment, of which only the first waits for its answer, the next is dropped. */
  lemma {:induction false} DropExample(client: Endpoint) returns (steps: seq<Step>, s: State)
    ensures Run(0, steps) == Some(s) && Can(s, Datagram(client, 0)) && Datagrams(steps) == 0x1_0000_0000
    ensures Do(s, Datagram(client, 0)).table.requests == s.table.requests == map[0 := Context(client, 0)]
  {
    steps, s := FirstUnanswered(0x1_0000_0000, client);
    NumberedHolds(0, steps);
  }
}

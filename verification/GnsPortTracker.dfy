/** The tracker thread: one object whose methods serve calls and apply listings. */
module GnsPortTracker {
  import opened Wrappers
  import opened PortKeys
  import opened PortLedger
  import opened CallInfo

  lemma {:induction false} SortedFromLeast(keys: set<PortAllocation>, least: PortAllocation)
    requires IsLeast(least, keys)
    ensures Sorted(keys) == [least] + Sorted(keys - {least})
  {
    LeastExists(keys);
    var first := Sorted(keys)[0];
    assert IsLeast(first, keys);
    LeastIsUnique(first, least, keys);
  }

  // ---------------------------------------------------------------------------
  // A listing half way through

  /** The map when the keys in `rest` are still to be visited. */
  ghost function HalfRefreshed(ledger: Ledger, snapshot: Snapshot, rest: set<PortAllocation>): (tracked: Deadlines) {
    map key | key in ledger.tracked && (key in rest || key !in Releasable(ledger, snapshot)) ::
      if key in rest || !Active(ledger.mirrored, snapshot.ports, key) then ledger.tracked[key] else None
  }

  lemma {:induction false} HalfRefreshedEnds(ledger: Ledger, snapshot: Snapshot)
    ensures HalfRefreshed(ledger, snapshot, ledger.tracked.Keys) == ledger.tracked
    ensures HalfRefreshed(ledger, snapshot, {}) ==
            Mark(ledger.mirrored, ledger.tracked, snapshot.ports) - Releasable(ledger, snapshot)
  {
  }

  lemma {:induction false} HalfRefreshedStep(ledger: Ledger, snapshot: Snapshot, rest: set<PortAllocation>,
                                             it: PortAllocation)
    requires it in rest && rest <= ledger.tracked.Keys
    ensures var half := HalfRefreshed(ledger, snapshot, rest);
            && it in half && half[it] == ledger.tracked[it]
            && HalfRefreshed(ledger, snapshot, rest - {it}) ==
               if it in Releasable(ledger, snapshot) then half - {it}
               else if Active(ledger.mirrored, snapshot.ports, it) then half[it := None]
               else half
  {
  }

  lemma {:induction false} SortedStep(gone: set<PortAllocation>, rest: set<PortAllocation>, it: PortAllocation)
    requires IsLeast(it, rest)
    ensures Sorted(rest * gone) == (if it in gone then [it] else []) + Sorted((rest - {it}) * gone)
  {
    if it in gone {
      SortedFromLeast(rest * gone, it);
      assert rest * gone - {it} == (rest - {it}) * gone;
    } else {
      assert rest * gone == (rest - {it}) * gone;
    }
  }

  lemma {:induction false} ReleasedStep(gone: set<PortAllocation>, rest: set<PortAllocation>, it: PortAllocation,
                                        released: seq<PortAllocation>)
    requires IsLeast(it, rest)
    requires released + Sorted(rest * gone) == Sorted(gone)
    ensures (if it in gone then released + [it] else released) + Sorted((rest - {it}) * gone) == Sorted(gone)
  {
    SortedStep(gone, rest, it);
    var later := Sorted((rest - {it}) * gone);
    assert released + ([it] + later) == (released + [it]) + later;
    assert [] + later == later;
  }

  lemma {:induction false} ReleasesAppend(log: seq<Event>, released: seq<PortAllocation>, it: PortAllocation)
    ensures log + Releases(released + [it]) == log + Releases(released) + [Released(it)]
  {
  }

  /** The ledger part of serving one call: the request it carries, or the port found after a
      port-zero bind. Also gives the answer for the caller. */
  ghost function Serve(ledger: Ledger, call: BindCall, found: Option<PortAllocation>,
                       reply: int, now: int, laterReply: int, later: int): (outcome: (Ledger, int))
  {
    var (served, result) := if call.request.Some? then Request(ledger, call.request.value, reply, now) else (ledger, 0);
    if call.portZeroBind.Some? && found.Some? then (Request(served, found.value, laterReply, later).0, result)
    else (served, result)
  }

  lemma {:induction false} ServeConsistent(ledger: Ledger, call: BindCall, found: Option<PortAllocation>,
                        reply: int, now: int, laterReply: int, later: int)
    requires Consistent(ledger)
    requires call.request.Some? ==> call.request.value.port != 0
    requires found.Some? ==> found.value.port != 0
    ensures Consistent(Serve(ledger, call, found, reply, now, laterReply, later).0)
  {
    if call.request.Some? {
      RequestConsistent(ledger, call.request.value, reply, now);
    }
    if call.portZeroBind.Some? && found.Some? {
      var served := if call.request.Some? then Request(ledger, call.request.value, reply, now).0 else ledger;
      RequestConsistent(served, found.value, laterReply, later);
    }
  }

  /** What the loop has in hand at its head. */
  datatype View = View(ledger: Ledger, futureHeld: bool, held: Option<Snapshot>)

  /** All that comes from outside in one turn of the loop. */
  datatype Happening = Happening(call: Option<BindCall>, found: Option<PortAllocation>, reply: int, now: int,
                                 laterReply: int, later: int, delivered: Option<Snapshot>)

  const NOTHING := Happening(None, None, 0, 0, 0, 0, None)

  ghost function Served(v: View, h: Happening): (outcome: (Ledger, Option<int>)) {
    if h.call.None? then (v.ledger, None)
    else
      var (ledger, result) := Serve(v.ledger, h.call.value, h.found, h.reply, h.now, h.laterReply, h.later);
      (ledger, Some(result))
  }

  /** A listing that is ready is taken, and applied unless a call was served. */
  ghost function Listed(v: View, h: Happening): (after: View) {
    var ledger := Served(v, h).0;
    if !v.futureHeld || h.delivered.None? then v.(ledger := ledger)
    else View(if h.call.None? then Refresh(ledger, h.delivered.value) else ledger, false, h.delivered)
  }

  /** A listing in hand is resumed as soon as a port is tracked. */
  ghost function Resumed(v: View): (after: View) {
    if v.held.Some? && v.ledger.tracked != map[] then View(v.ledger, true, None) else v
  }

  ghost function AfterTurn(v: View, h: Happening): (after: View) {
    Resumed(Listed(v, h))
  }

  class Tracker {
    const mirrored: bool
    var allocatedPorts: Deadlines
    var futureHeld: bool
    var refreshResult: Option<Snapshot>
    ghost var log: seq<Event>

    ghost function State(): (ledger: Ledger)
      reads this
    {
      Ledger(mirrored, allocatedPorts, log)
    }

    /** The history is in order, and at the head of the loop the tracker holds either the future
        of the next listing or a listing it has not yet resumed, never both. */
    ghost predicate Valid()
      reads this
    {
      Consistent(State()) && (futureHeld <==> refreshResult.None?)
    }

    ghost function AtHead(): (v: View)
      reads this
    {
      View(State(), futureHeld, refreshResult)
    }

    constructor (mirrored: bool)
      ensures AtHead() == View(Empty(mirrored), true, None)
      ensures Valid() && this.mirrored == mirrored && State() == Empty(mirrored) && futureHeld
    {
      this.mirrored := mirrored;
      allocatedPorts, futureHeld, refreshResult, log := map[], true, None, [];
      new;
      EmptyConsistent(mirrored);
    }

    /** The host always replies, with any result. */
    method RequestPort(key: PortAllocation, allocate: bool) returns (result: int)
      modifies this`log
      ensures log == old(log) + [if allocate then Asked(key, result) else Released(key)]
    {
      result := *;
      log := log + [if allocate then Asked(key, result) else Released(key)];
    }

    method HandleRequest(key: PortAllocation) returns (result: int)
      modifies this`log
      ensures (State(), result) == PortLedger.HandleRequest(old(State()), key, result)
    {
      if key in allocatedPorts {
        return 0;
      }
      result := RequestPort(key, true);
    }

    method TrackPort(key: PortAllocation, now: int)
      modifies this`allocatedPorts, this`log
      ensures State() == PortLedger.TrackPort(old(State()), key, now)
    {
      allocatedPorts := allocatedPorts[key := Some(now + BIND_TIMEOUT_SECONDS)];
      log := log + [Tracked(key, now)];
    }

    /** What a listing does to one tracked port. */
    method VisitPort(it: PortAllocation, ports: ActivePorts, timestamp: int) returns (released: bool)
      requires it in allocatedPorts
      modifies this`allocatedPorts, this`log
      ensures released <==> !Active(mirrored, ports, it) && Expired(old(allocatedPorts)[it], timestamp)
      ensures allocatedPorts ==
              if released then old(allocatedPorts) - {it}
              else if Active(mirrored, ports, it) then old(allocatedPorts)[it := None]
              else old(allocatedPorts)
      ensures log == old(log) + if released then [Released(it)] else []
    {
      released := false;
      var portStillActive := Active(mirrored, ports, it);
      if !portStillActive {
        if allocatedPorts[it].None? || allocatedPorts[it].value < timestamp {
          var result := RequestPort(it, false);
          allocatedPorts := allocatedPorts - {it};
          released := true;
        }
      } else {
        allocatedPorts := allocatedPorts[it := None];
      }
    }

    /** Visits the tracked ports in key order, erasing as it goes. */
    method OnRefreshAllocatedPorts(ports: ActivePorts, timestamp: int, ghost read: nat)
      modifies this`allocatedPorts, this`log
      ensures State() == Refresh(old(State()), Snapshot(ports, timestamp, read))
    {
      ghost var before := State();
      ghost var snapshot := Snapshot(ports, timestamp, read);
      ghost var gone := Releasable(before, snapshot);
      ghost var released: seq<PortAllocation> := [];
      log := log + [Applied(snapshot)];
      ghost var base := log;
      var rest := allocatedPorts.Keys;
      HalfRefreshedEnds(before, snapshot);
      assert rest * gone == gone;
      assert base + Releases(released) == base;
      while rest != {}
        invariant rest <= before.tracked.Keys
        invariant allocatedPorts == HalfRefreshed(before, snapshot, rest)
        invariant log == base + Releases(released)
        invariant released + Sorted(rest * gone) == Sorted(gone)
        decreases |rest|
      {
        LeastExists(rest);
        var it :| it in rest && IsLeast(it, rest);
        HalfRefreshedStep(before, snapshot, rest, it);
        ReleasedStep(gone, rest, it, released);
        ReleasesAppend(base, released, it);
        var erased := VisitPort(it, ports, timestamp);
        released := if erased then released + [it] else released;
        rest := rest - {it};
      }
      assert rest * gone == {};
      assert released == Sorted(gone);
    }

    /** The part of a turn of the loop that deals with a call. */
    method ServeCall(call: BindCall, answers: nat -> Option<Storage>, now: int, later: int)
      returns (result: int, ghost found: Option<PortAllocation>, ghost reply: int, ghost laterReply: int)
      requires call.request.Some? ==> call.request.value.port != 0
      modifies this`allocatedPorts, this`log
      ensures (State(), result) == Serve(old(State()), call, found, reply, now, laterReply, later)
      ensures call.request.None? ==> result == 0
      ensures call.request.Some? && call.portZeroBind.None? ==>
                Settled(old(State()), State(), call.request.value, now, result)
      ensures call.request.None? && call.portZeroBind.Some? && found.Some? ==>
                Settled(old(State()), State(), found.value, later, laterReply)
      ensures call.request.None? && (call.portZeroBind.None? || found.None?) ==> State() == old(State())
      ensures found.Some? ==> found.value.port != 0
      ensures call.portZeroBind.Some? ==> Resolution(answers, call.portZeroBind.value, found)
    {
      result, found, reply, laterReply := 0, None, 0, 0;
      ghost var before := State();
      if call.request.Some? {
        result := HandleRequest(call.request.value);
        reply := result;
        if result == 0 {
          TrackPort(call.request.value, now);
        }
        RequestSettles(before, call.request.value, reply, now);
      }
      if call.portZeroBind.Some? {
        var allocation := ResolvePortZeroBind(answers, call.portZeroBind.value);
        found := allocation;
        if allocation.Some? {
          var portResult := HandleRequest(allocation.value);
          laterReply := portResult;
          if portResult == 0 {
            TrackPort(allocation.value, later);
          }
          RequestSettles(before, allocation.value, laterReply, later);
        }
      }
    }

    /** Takes the listing that is ready, if any; it is applied unless this turn served a call. */
    method TakeListing(served: bool, delivered: Option<Snapshot>)
      requires Consistent(State())
      modifies this`allocatedPorts, this`futureHeld, this`refreshResult, this`log
      ensures Consistent(State())
      ensures var taken := old(futureHeld) && delivered.Some?;
              && State() == (if taken && !served then Refresh(old(State()), delivered.value) else old(State()))
              && futureHeld == (old(futureHeld) && !taken)
              && refreshResult == if taken then delivered else old(refreshResult)
    {
      if futureHeld && delivered.Some? {
        refreshResult := delivered;
        futureHeld := false;
        if !served {
          RefreshConsistent(State(), delivered.value);
          OnRefreshAllocatedPorts(delivered.value.ports, delivered.value.timestamp, delivered.value.read);
        }
      }
    }

    /** Lets the lister go on once a port is tracked, and gets the future of its next listing. */
    method ResumeLister() returns (resumed: bool)
      modifies this`futureHeld, this`refreshResult
      ensures resumed <==> old(refreshResult).Some? && allocatedPorts != map[]
      ensures AtHead() == Resumed(old(AtHead())) && (futureHeld <==> old(futureHeld) || resumed)
    {
      resumed := false;
      if refreshResult.Some? {
        if allocatedPorts != map[] {
          futureHeld := true;
          resumed := true;
          refreshResult := None;
        }
      }
    }

    /** One turn of the loop. `delivered` is the listing the refresh thread has ready, if any.
        A listing that arrives in a turn that served a call is not applied. */
    method Turn(bindCall: Option<BindCall>, answers: nat -> Option<Storage>, now: int, later: int,
                delivered: Option<Snapshot>)
      returns (answer: Option<int>, resumed: bool)
      requires Valid()
      requires bindCall.Some? && bindCall.value.request.Some? ==> bindCall.value.request.value.port != 0
      modifies this
      ensures Valid()
      ensures answer.Some? <==> bindCall.Some?
      ensures bindCall.None? ==>
                State() == if old(futureHeld) && delivered.Some? then Refresh(old(State()), delivered.value)
                           else old(State())
      ensures bindCall.Some? ==> exists found, reply, laterReply ::
                && (State(), answer.value) == Serve(old(State()), bindCall.value, found, reply, now, laterReply, later)
                && (found.Some? ==> found.value.port != 0)
                && (bindCall.value.portZeroBind.Some? ==> Resolution(answers, bindCall.value.portZeroBind.value, found))
      ensures bindCall.Some? && bindCall.value.request.Some? && bindCall.value.portZeroBind.None? ==>
                Settled(old(State()), State(), bindCall.value.request.value, now, answer.value)
      ensures bindCall.Some? && bindCall.value.request.None? ==> answer == Some(0)
      ensures exists h: Happening ::
                && h.call == bindCall && h.delivered == delivered
                && AtHead() == AfterTurn(old(AtHead()), h) && answer == Served(old(AtHead()), h).1
      ensures resumed <==> (old(refreshResult).Some? || (old(futureHeld) && delivered.Some?)) && allocatedPorts != map[]
      ensures futureHeld <==> resumed || (old(futureHeld) && delivered.None?)
    {
      answer := None;
      ghost var h := NOTHING.(delivered := delivered);
      if bindCall.Some? {
        var result;
        ghost var found, reply, laterReply;
        ghost var before := State();
        result, found, reply, laterReply := ServeCall(bindCall.value, answers, now, later);
        ServeConsistent(before, bindCall.value, found, reply, now, laterReply, later);
        answer := Some(result);
        h := Happening(bindCall, found, reply, now, laterReply, later, delivered);
      }
      TakeListing(bindCall.Some?, delivered);
      resumed := ResumeLister();
      assert AtHead() == AfterTurn(old(AtHead()), h);
    }
  }
}

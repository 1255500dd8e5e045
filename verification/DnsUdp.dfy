/**
  Tracking of UDP DNS requests: a map from request id to client address and list position, and a
  list of expirations. The server thread and the response thread change both under one lock.
 */
module DnsUdp {

  const NANOSECONDS_PER_MILLISECOND := 1_000_000
  const REQUEST_TIMEOUT := 60_000 * NANOSECONDS_PER_MILLISECOND
  const ID_COUNT := 0x1_0000_0000

  type Id = i: int | 0 <= i < ID_COUNT

  datatype Endpoint = Endpoint(address: int, port: int)

  /** A node of the expiration list. The handle is the node's identity, which a std::list iterator
      keeps denoting however the list around it changes. */
  datatype Node = Node(handle: nat, expiration: int, id: Id)

  datatype Context = Context(remote: Endpoint, node: nat)

  datatype Event =
    | Tracked(handle: nat, id: Id, remote: Endpoint, expiration: int)
    | Answered(handle: nat, remote: Endpoint)
    | Expired(handle: nat, at: int)
    | RolledBack(handle: nat)

  datatype Table = Table(requests: map<Id, Context>, queue: seq<Node>, currentId: Id, nextHandle: nat, log: seq<Event>)

  // ---------------------------------------------------------------------------
  // The critical sections

  function Start(): (t: Table) {
    Table(map[], [], 0, 0, [])
  }

  /** erase(iterator) */
  function Erase(queue: seq<Node>, handle: nat): (rest: seq<Node>) {
    if queue == [] then []
    else if queue[0].handle == handle then queue[1..]
    else [queue[0]] + Erase(queue[1..], handle)
  }

  function NextId(id: Id): (next: Id) {
    (id + 1) % ID_COUNT
  }

  /** A datagram arrives. If the wrapped counter lands on a tracked id the new list node is taken
      out again and the datagram is dropped. */
  function Track(t: Table, remote: Endpoint, now: int): (t': Table) {
    var id := t.currentId;
    var node := Node(t.nextHandle, now + REQUEST_TIMEOUT, id);
    var advanced := t.(currentId := NextId(id), nextHandle := t.nextHandle + 1);
    if id in t.requests then advanced
    else advanced.(requests := t.requests[id := Context(remote, node.handle)], queue := t.queue + [node],
                   log := t.log + [Tracked(node.handle, id, remote, node.expiration)])
  }

  /** A request ends for the given reason; an untracked id changes nothing. */
  function Close(t: Table, id: Id, reason: Context -> Event): (t': Table) {
    if id !in t.requests then t
    else t.(requests := t.requests - {id}, queue := Erase(t.queue, t.requests[id].node),
            log := t.log + [reason(t.requests[id])])
  }

  function Respond(t: Table, id: Id): (t': Table) {
    Close(t, id, (context: Context) => Answered(context.node, context.remote))
  }

  function RollBack(t: Table, id: Id): (t': Table) {
    Close(t, id, (context: Context) => RolledBack(context.node))
  }

  function PopFirst(t: Table, now: int): (t': Table)
    requires t.queue != []
  {
    t.(requests := t.requests - {t.queue[0].id}, queue := t.queue[1..],
       log := t.log + [Expired(t.queue[0].handle, now)])
  }

  function Expire(t: Table, now: int): (t': Table)
    decreases |t.queue|
  {
    if t.queue == [] || t.queue[0].expiration > now then t
    else
      Expire(PopFirst(t, now), now)
  }

  // ---------------------------------------------------------------------------
  // What every critical section keeps

  /** Handles grow along the list, so no node is in it twice. */
  ghost predicate Ordered(queue: seq<Node>, nextHandle: nat) {
    && (forall i, j | 0 <= i < j < |queue| :: queue[i].handle < queue[j].handle)
    && forall i | 0 <= i < |queue| :: queue[i].handle < nextHandle
  }

  ghost predicate PointsTo(queue: seq<Node>, i: int, handle: nat, id: Id) {
    0 <= i < |queue| && queue[i].handle == handle && queue[i].id == id
  }

  /** Every entry's iterator denotes a node that carries its id. */
  ghost predicate EntriesPoint(requests: map<Id, Context>, queue: seq<Node>) {
    forall id | id in requests :: exists i :: PointsTo(queue, i, requests[id].node, id)
  }

  /** The node is denoted by the entry of its id. */
  ghost predicate Belongs(node: Node, requests: map<Id, Context>) {
    node.id in requests && requests[node.id].node == node.handle
  }

  /** The map and the list are in bijection. */
  ghost predicate Linked(t: Table) {
    && Ordered(t.queue, t.nextHandle)
    && EntriesPoint(t.requests, t.queue)
    && forall i | 0 <= i < |t.queue| :: Belongs(t.queue[i], t.requests)
  }

  /** The list is sorted by expiration, none of them further away than the timeout. */
  ghost predicate Timely(queue: seq<Node>, clock: int) {
    && (forall i, j | 0 <= i < j < |queue| :: queue[i].expiration <= queue[j].expiration)
    && forall i | 0 <= i < |queue| :: queue[i].expiration <= clock + REQUEST_TIMEOUT
  }

  lemma {:induction false} NoIdTwice(t: Table, i: int, j: int)
    requires Linked(t) && 0 <= i < j < |t.queue|
    ensures t.queue[i].id != t.queue[j].id
  {
  }

  /** The list without its i-th node. */
  function Removed(queue: seq<Node>, i: nat): (rest: seq<Node>)
    requires i < |queue|
    ensures |rest| == |queue| - 1
    ensures forall j | 0 <= j < |rest| :: rest[j] == queue[if j < i then j else j + 1]
  {
    queue[..i] + queue[i + 1..]
  }

  lemma {:induction false} RemovedFront(queue: seq<Node>, i: nat)
    requires i < |queue|
    ensures Removed(queue, i) == if i == 0 then queue[1..] else [queue[0]] + Removed(queue[1..], i - 1)
  {
  }

  lemma {:induction false} EraseAt(queue: seq<Node>, handle: nat, i: nat)
    requires i < |queue| && queue[i].handle == handle
    requires forall a, b | 0 <= a < b < |queue| :: queue[a].handle < queue[b].handle
    ensures Erase(queue, handle) == Removed(queue, i)
  {
    RemovedFront(queue, i);
    if i > 0 {
      assert queue[0].handle < queue[i].handle;
      EraseAt(queue[1..], handle, i - 1);
    }
  }

  lemma {:induction false} RemovedKeepsOrdered(queue: seq<Node>, i: nat, nextHandle: nat)
    requires i < |queue| && Ordered(queue, nextHandle)
    ensures Ordered(Removed(queue, i), nextHandle)
  {
  }

  lemma {:induction false} RemovedKeepsTimely(queue: seq<Node>, i: nat, clock: int)
    requires i < |queue| && Timely(queue, clock)
    ensures Timely(Removed(queue, i), clock)
  {
  }

  lemma {:induction false} TrackKeepsLinked(t: Table, remote: Endpoint, now: int)
    requires Linked(t)
    ensures Linked(Track(t, remote, now))
  {
    var t' := Track(t, remote, now);
    if t.currentId !in t.requests {
      forall i | 0 <= i < |t'.queue| ensures Belongs(t'.queue[i], t'.requests) {
        assert i < |t.queue| ==> Belongs(t.queue[i], t.requests);
      }
      forall id | id in t'.requests ensures exists i :: PointsTo(t'.queue, i, t'.requests[id].node, id) {
        if id == t.currentId {
          assert PointsTo(t'.queue, |t.queue|, t'.requests[id].node, id);
        } else {
          var i :| PointsTo(t.queue, i, t.requests[id].node, id);
          assert PointsTo(t'.queue, i, t'.requests[id].node, id);
        }
      }
    }
  }

  lemma {:induction false} TrackKeepsTimely(t: Table, remote: Endpoint, clock: int, now: int)
    requires Timely(t.queue, clock) && clock <= now
    ensures Timely(Track(t, remote, now).queue, now)
  {
  }

  lemma {:induction false} RemovalKeepsEntries(requests: map<Id, Context>, queue: seq<Node>, i: nat)
    requires EntriesPoint(requests, queue) && i < |queue|
    ensures EntriesPoint(requests - {queue[i].id}, Removed(queue, i))
  {
    var requests', queue' := requests - {queue[i].id}, Removed(queue, i);
    forall id | id in requests' ensures exists j :: PointsTo(queue', j, requests'[id].node, id) {
      var k :| PointsTo(queue, k, requests[id].node, id);
      assert PointsTo(queue', if k < i then k else k - 1, requests'[id].node, id);
    }
  }

  lemma {:induction false} RemovalKeepsNodes(t: Table, i: nat, j: nat)
    requires Linked(t) && i < |t.queue| && j < |t.queue| - 1
    ensures Belongs(Removed(t.queue, i)[j], t.requests - {t.queue[i].id})
  {
  }

  /** Taking out a node and the entry of its id. */
  lemma {:induction false} RemovalKeepsLinked(t: Table, i: nat, t': Table)
    requires Linked(t) && i < |t.queue|
    requires t'.queue == Removed(t.queue, i) && t'.requests == t.requests - {t.queue[i].id}
    requires t'.nextHandle == t.nextHandle
    ensures Linked(t')
  {
    RemovedKeepsOrdered(t.queue, i, t.nextHandle);
    RemovalKeepsEntries(t.requests, t.queue, i);
    forall j | 0 <= j < |t'.queue| ensures Belongs(t'.queue[j], t'.requests) {
      RemovalKeepsNodes(t, i, j);
    }
  }

  lemma {:induction false} CloseKeepsLinked(t: Table, id: Id, reason: Context -> Event)
    requires Linked(t)
    ensures Linked(Close(t, id, reason))
  {
    if id in t.requests {
      var i :| PointsTo(t.queue, i, t.requests[id].node, id);
      EraseAt(t.queue, t.requests[id].node, i);
      RemovalKeepsLinked(t, i, Close(t, id, reason));
    }
  }

  lemma {:induction false} CloseKeepsTimely(t: Table, id: Id, reason: Context -> Event, clock: int)
    requires Linked(t) && Timely(t.queue, clock)
    ensures Timely(Close(t, id, reason).queue, clock)
  {
    if id in t.requests {
      var i :| PointsTo(t.queue, i, t.requests[id].node, id);
      EraseAt(t.queue, t.requests[id].node, i);
      RemovedKeepsTimely(t.queue, i, clock);
    }
  }

  // ---------------------------------------------------------------------------
  // Expiry is exact

  function CeilMilliseconds(nanoseconds: int): (milliseconds: int) {
    (nanoseconds + NANOSECONDS_PER_MILLISECOND - 1) / NANOSECONDS_PER_MILLISECOND
  }

  function WaitTimeout(queue: seq<Node>, now: int): (timeout: int) {
    if queue == [] then -1 else CeilMilliseconds(queue[0].expiration - now)
  }

  /** Exactly the requests that expire later than now are left, with their contexts. */
  ghost predicate ExpiredUpTo(t: Table, e: Table, now: int) {
    && (forall id | id in e.requests :: id in t.requests && e.requests[id] == t.requests[id])
    && (forall id, i | id in t.requests && PointsTo(t.queue, i, t.requests[id].node, id) ::
          id in e.requests <==> t.queue[i].expiration > now)
    && (forall node :: node in e.queue <==> node in t.queue && node.expiration > now)
  }

  lemma {:induction false} NothingToExpire(t: Table, now: int, clock: int)
    requires Linked(t) && Timely(t.queue, clock)
    requires t.queue == [] || t.queue[0].expiration > now
    ensures ExpiredUpTo(t, t, now)
  {
  }

  /** Popping the first request of a linked table, as the expiry loop does. */
  lemma {:induction false} PopKeepsLinked(t: Table, now: int)
    requires Linked(t) && t.queue != [] && t.queue[0].expiration <= now
    ensures var t' := PopFirst(t, now);
            && Linked(t') && t'.queue == Removed(t.queue, 0) && |t'.queue| < |t.queue|
            && Expire(t, now) == Expire(t', now)
  {
    assert Removed(t.queue, 0) == t.queue[1..];
    RemovalKeepsLinked(t, 0, PopFirst(t, now));
  }

  lemma {:induction false} ExpireKeepsLinked(t: Table, now: int)
    requires Linked(t)
    ensures Linked(Expire(t, now))
    decreases |t.queue|
  {
    if t.queue != [] && t.queue[0].expiration <= now {
      PopKeepsLinked(t, now);
      ExpireKeepsLinked(PopFirst(t, now), now);
    }
  }

  lemma {:induction false} PopThenExpire(t: Table, e: Table, now: int)
    requires Linked(t) && t.queue != [] && t.queue[0].expiration <= now
    requires ExpiredUpTo(PopFirst(t, now), e, now)
    ensures ExpiredUpTo(t, e, now)
  {
    var t' := PopFirst(t, now);
    assert t.queue == [t.queue[0]] + t'.queue;
    forall id, i | id in t.requests && PointsTo(t.queue, i, t.requests[id].node, id)
      ensures id in e.requests <==> t.queue[i].expiration > now
    {
      if i > 0 {
        NoIdTwice(t, 0, i);
        assert PointsTo(t'.queue, i - 1, t'.requests[id].node, id);
      }
    }
  }

  lemma {:induction false} ExpiryIsExact(t: Table, now: int, clock: int)
    requires Linked(t) && Timely(t.queue, clock)
    ensures ExpiredUpTo(t, Expire(t, now), now)
    ensures Timely(Expire(t, now).queue, clock)
    decreases |t.queue|
  {
    if t.queue != [] && t.queue[0].expiration <= now {
      PopKeepsLinked(t, now);
      RemovedKeepsTimely(t.queue, 0, clock);
      ExpiryIsExact(PopFirst(t, now), now, clock);
      PopThenExpire(t, Expire(t, now), now);
    } else {
      NothingToExpire(t, now, clock);
    }
  }

  /** The wait is -1 exactly when nothing is tracked, and otherwise the least number of whole
      milliseconds that reaches the earliest expiration: at least 1 and at most 60000. */
  lemma {:induction false} TimeoutIsExact(t: Table, now: int, clock: int)
    requires Linked(t) && Timely(t.queue, clock) && clock <= now
    ensures var e := Expire(t, now);
            var timeout := WaitTimeout(e.queue, now);
            && (timeout == -1 <==> e.requests == map[])
            && (e.requests != map[] ==>
                  && 1 <= timeout <= 60_000
                  && (forall node | node in e.queue :: e.queue[0].expiration <= node.expiration)
                  && now + (timeout - 1) * NANOSECONDS_PER_MILLISECOND < e.queue[0].expiration
                  && e.queue[0].expiration <= now + timeout * NANOSECONDS_PER_MILLISECOND)
  {
    var e := Expire(t, now);
    ExpireKeepsLinked(t, now);
    ExpiryIsExact(t, now, clock);
    if e.queue == [] {
      assert e.requests.Keys == {};
    } else {
      assert e.queue[0] in e.queue;
      assert Belongs(e.queue[0], e.requests);
      forall node | node in e.queue ensures e.queue[0].expiration <= node.expiration {
        var i :| 0 <= i < |e.queue| && e.queue[i] == node;
        assert i > 0 ==> e.queue[0].expiration <= e.queue[i].expiration;
      }
      assert 0 < e.queue[0].expiration - now <= REQUEST_TIMEOUT;
    }
  }

  // ---------------------------------------------------------------------------
  // The life of a request

  /** What the log says about one node. */
  ghost function Fate(log: seq<Event>, handle: nat): (events: seq<Event>) {
    if log == [] then []
    else
      var last := log[|log| - 1];
      Fate(log[..|log| - 1], handle) + (if last.handle == handle then [last] else [])
  }

  /** The ending fits the beginning: the answer goes to the recorded address, and expiry comes no
      earlier than the recorded time. */
  ghost predicate Ends(tracked: Event, end: Event)
    requires tracked.Tracked?
  {
    match end
    case Tracked(_, _, _, _) => false
    case Answered(_, remote) => remote == tracked.remote
    case Expired(_, at) => tracked.expiration <= at
    case RolledBack(_) => true
  }

  ghost predicate IsLive(t: Table, handle: nat, tracked: Event)
    requires tracked.Tracked?
  {
    && tracked.id in t.requests && t.requests[tracked.id] == Context(tracked.remote, handle)
    && Node(handle, tracked.expiration, tracked.id) in t.queue
  }

  ghost predicate Absent(t: Table, handle: nat) {
    forall node | node in t.queue :: node.handle != handle
  }

  /** A node was never tracked, or is tracked and live, or is tracked, ended once, and gone. */
  ghost predicate LivesOnce(t: Table, handle: nat) {
    var fate := Fate(t.log, handle);
    && (handle >= t.nextHandle ==> fate == [])
    && |fate| <= 2
    && (|fate| >= 1 ==> fate[0].Tracked? && fate[0].handle == handle)
    && (|fate| == 1 ==> IsLive(t, handle, fate[0]))
    && (|fate| == 2 ==> Ends(fate[0], fate[1]))
    && (|fate| != 1 ==> Absent(t, handle))
  }

  ghost predicate AllLiveOnce(t: Table) {
    forall handle: nat :: LivesOnce(t, handle)
  }

  lemma {:induction false} FateAppend(log: seq<Event>, event: Event, handle: nat)
    ensures Fate(log + [event], handle) == Fate(log, handle) + (if event.handle == handle then [event] else [])
  {
  }

  lemma {:induction false} TrackLivesOnce(t: Table, remote: Endpoint, now: int, handle: nat)
    requires Linked(t) && LivesOnce(t, handle)
    ensures LivesOnce(Track(t, remote, now), handle)
  {
    var t' := Track(t, remote, now);
    if t.currentId !in t.requests {
      var node := Node(t.nextHandle, now + REQUEST_TIMEOUT, t.currentId);
      FateAppend(t.log, Tracked(node.handle, node.id, remote, node.expiration), handle);
      assert t'.queue == t.queue + [node];
    }
  }

  /** Ending the request whose node is the i-th of the list. */
  lemma {:induction false} EndLivesOnce(t: Table, i: nat, event: Event, t': Table, handle: nat)
    requires Linked(t) && i < |t.queue| && LivesOnce(t, handle) && LivesOnce(t, t.queue[i].handle)
    requires t' == t.(requests := t.requests - {t.queue[i].id}, queue := Removed(t.queue, i), log := t.log + [event])
    requires event.handle == t.queue[i].handle
    requires match event
             case Tracked(_, _, _, _) => false
             case Answered(_, remote) => t.queue[i].id in t.requests && remote == t.requests[t.queue[i].id].remote
             case Expired(_, at) => t.queue[i].expiration <= at
             case RolledBack(_) => true
    ensures LivesOnce(t', handle)
  {
    var node := t.queue[i];
    FateAppend(t.log, event, handle);
    assert node in t.queue;
    OneNodePerHandle(t, node);
    assert forall n | n in t'.queue :: n in t.queue && n.handle != node.handle by {
      forall n | n in t'.queue ensures n in t.queue && n.handle != node.handle {
        var j :| 0 <= j < |t'.queue| && t'.queue[j] == n;
        var k := if j < i then j else j + 1;
        assert t.queue[k] == n && (if k < i then t.queue[k].handle < t.queue[i].handle
               else t.queue[i].handle < t.queue[k].handle);
      }
    }
    if handle != node.handle && |Fate(t.log, handle)| == 1 {
      SurvivesRemoval(t, i, handle, Fate(t.log, handle)[0], t');
    }
  }

  lemma {:induction false} OneNodePerHandle(t: Table, node: Node)
    requires Linked(t) && node in t.queue
    ensures forall other | other in t.queue && other.handle == node.handle :: other == node
    ensures Belongs(node, t.requests)
  {
  }

  lemma {:induction false} SurvivesRemoval(t: Table, i: nat, handle: nat, tracked: Event, t': Table)
    requires Linked(t) && i < |t.queue| && tracked.Tracked? && IsLive(t, handle, tracked)
    requires handle != t.queue[i].handle
    requires t'.requests == t.requests - {t.queue[i].id} && t'.queue == Removed(t.queue, i)
    ensures IsLive(t', handle, tracked)
  {
  }

  lemma {:induction false} CloseLivesOnce(t: Table, id: Id, reason: Context -> Event)
    requires Linked(t) && AllLiveOnce(t)
    requires forall context :: reason(context).handle == context.node
    requires forall context :: reason(context).RolledBack? || reason(context) == Answered(context.node, context.remote)
    ensures AllLiveOnce(Close(t, id, reason))
  {
    if id in t.requests {
      var t' := Close(t, id, reason);
      var i :| PointsTo(t.queue, i, t.requests[id].node, id);
      EraseAt(t.queue, t.requests[id].node, i);
      forall handle: nat ensures LivesOnce(t', handle) {
        assert LivesOnce(t, handle) && LivesOnce(t, t.queue[i].handle);
        EndLivesOnce(t, i, reason(t.requests[id]), t', handle);
      }
    }
  }

  lemma {:induction false} PopLivesOnce(t: Table, now: int)
    requires Linked(t) && AllLiveOnce(t) && t.queue != [] && t.queue[0].expiration <= now
    ensures AllLiveOnce(PopFirst(t, now))
  {
    var t' := PopFirst(t, now);
    PopKeepsLinked(t, now);
    forall handle: nat ensures LivesOnce(t', handle) {
      assert LivesOnce(t, handle) && LivesOnce(t, t.queue[0].handle);
      EndLivesOnce(t, 0, Expired(t.queue[0].handle, now), t', handle);
    }
  }

  lemma {:induction false} ExpireLivesOnce(t: Table, now: int)
    requires Linked(t) && AllLiveOnce(t)
    ensures AllLiveOnce(Expire(t, now))
    decreases |t.queue|
  {
    if t.queue != [] && t.queue[0].expiration <= now {
      PopKeepsLinked(t, now);
      PopLivesOnce(t, now);
      ExpireLivesOnce(PopFirst(t, now), now);
    }
  }

  // ---------------------------------------------------------------------------
  // All of it together

  ghost predicate Good(t: Table, clock: int) {
    Linked(t) && Timely(t.queue, clock) && AllLiveOnce(t)
  }

  lemma {:induction false} GoodTrack(t: Table, remote: Endpoint, clock: int, now: int)
    requires Good(t, clock) && clock <= now
    ensures Good(Track(t, remote, now), now)
  {
    TrackKeepsLinked(t, remote, now);
    TrackKeepsTimely(t, remote, clock, now);
    forall handle: nat ensures LivesOnce(Track(t, remote, now), handle) {
      assert LivesOnce(t, handle);
      TrackLivesOnce(t, remote, now, handle);
    }
  }

  lemma {:induction false} GoodClose(t: Table, id: Id, reason: Context -> Event, clock: int)
    requires Good(t, clock)
    requires forall context :: reason(context).handle == context.node
    requires forall context :: reason(context).RolledBack? || reason(context) == Answered(context.node, context.remote)
    ensures Good(Close(t, id, reason), clock)
  {
    CloseKeepsLinked(t, id, reason);
    CloseKeepsTimely(t, id, reason, clock);
    CloseLivesOnce(t, id, reason);
  }

  lemma {:induction false} GoodExpire(t: Table, clock: int, now: int)
    requires Good(t, clock) && clock <= now
    ensures Good(Expire(t, now), now)
  {
    ExpireKeepsLinked(t, now);
    ExpiryIsExact(t, now, clock);
    ExpireLivesOnce(t, now);
  }
}

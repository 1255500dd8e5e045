/** The UDP handlers of the DNS server, as methods that change the map and the list in place. */
module DnsUdpServer {
  import opened Wrappers
  import opened Words
  import opened Sequences
  import opened DnsUdp

  lemma {:induction false} LastNodeOut(t: Table, node: Node)
    requires Ordered(t.queue, t.nextHandle) && node.handle == t.nextHandle
    ensures Erase(t.queue + [node], node.handle) == t.queue
  {
    EraseAt(t.queue + [node], node.handle, |t.queue|);
    assert Removed(t.queue + [node], |t.queue|) == t.queue;
  }

  // ---------------------------------------------------------------------------
  // Sending an answer

  /** How many bytes a call of sendto takes of those it is given, or None if it fails. */
  type SendResults = seq<Option<nat>>

  function Taken(count: nat, given: nat): (taken: nat) {
    if count < given then count else given
  }

  /** The datagrams sent: each call is given what the calls before it left, until nothing is left. */
  function Datagrams(response: seq<Byte>, results: SendResults): (datagrams: seq<seq<Byte>>)
    decreases |results|
  {
    if response == [] || results == [] || results[0].None? then []
    else
      var n := Taken(results[0].value, |response|);
      [response[..n]] + Datagrams(response[n..], results[1..])
  }

  /** What the calls offer to take before the first that fails. */
  function Offered(results: SendResults): (bytes: nat) {
    if results == [] || results[0].None? then 0 else results[0].value + Offered(results[1..])
  }

  /** The bytes sent are the response from its beginning, as far as the calls took it. */
  lemma {:induction false} SentInOrder(response: seq<Byte>, results: SendResults)
    ensures Flatten(Datagrams(response, results)) == response[..Taken(Offered(results), |response|)]
    decreases |results|
  {
    if response != [] && results != [] && results[0].Some? {
      var n := Taken(results[0].value, |response|);
      SentInOrder(response[n..], results[1..]);
      assert Flatten(Datagrams(response, results)) == response[..n] + Flatten(Datagrams(response[n..], results[1..]));
    }
  }

  /** The client gets the whole answer exactly if the calls take all of it before one fails, and gets it
      as one datagram exactly if the first call does. */
  lemma {:induction false} WholeAnswerIff(response: seq<Byte>, results: SendResults)
    ensures Flatten(Datagrams(response, results)) == response <==> |response| <= Offered(results)
    ensures Datagrams(response, results) == [response] <==>
            response != [] && results != [] && results[0].Some? && |response| <= results[0].value
  {
    SentInOrder(response, results);
  }

  /** The loop around sendto. */
  method SendResponse(response: seq<Byte>, results: SendResults) returns (datagrams: seq<seq<Byte>>)
    ensures datagrams == Datagrams(response, results)
  {
    var totalBytesSent, i := 0, 0;
    datagrams := [];
    while totalBytesSent < |response| && i < |results| && results[i].Some?
      invariant 0 <= totalBytesSent <= |response| && i <= |results|
      invariant datagrams + Datagrams(response[totalBytesSent..], results[i..]) == Datagrams(response, results)
      decreases |results| - i
    {
      var bytesSent := Taken(results[i].value, |response| - totalBytesSent);
      var datagram := response[totalBytesSent..totalBytesSent + bytesSent];
      ghost var rest := response[totalBytesSent..];
      assert datagram == rest[..bytesSent] && rest[bytesSent..] == response[totalBytesSent + bytesSent..];
      assert results[i..][1..] == results[i + 1..];
      Associative(datagrams, [datagram], Datagrams(rest[bytesSent..], results[i + 1..]));
      datagrams, totalBytesSent, i := datagrams + [datagram], totalBytesSent + bytesSent, i + 1;
    }
  }

  class UdpServer {
    var requests: map<Id, Context>
    var queue: seq<Node>
    var currentId: Id
    var nextHandle: nat
    ghost var log: seq<Event>
    ghost var clock: int

    ghost function State(): (t: Table)
      reads this
    {
      Table(requests, queue, currentId, nextHandle, log)
    }

    ghost predicate Valid()
      reads this
    {
      Good(State(), clock)
    }

    constructor (ghost clock: int)
      ensures Valid() && State() == Start() && this.clock == clock
    {
      requests, queue, currentId, nextHandle, log := map[], [], 0, 0, [];
      this.clock := clock;
    }

    /** erase(iterator); the iterator must denote a node of the list. */
    method EraseNode(handle: nat)
      requires Ordered(queue, nextHandle)
      requires exists i :: 0 <= i < |queue| && queue[i].handle == handle
      modifies this`queue
      ensures queue == Erase(old(queue), handle)
    {
      var i := 0;
      while queue[i].handle != handle
        invariant 0 <= i < |queue|
        invariant forall j | 0 <= j < i :: queue[j].handle != handle
        decreases |queue| - i
      {
        assert exists k :: 0 <= k < |queue| && queue[k].handle == handle;
        i := i + 1;
      }
      EraseAt(queue, handle, i);
      queue := queue[..i] + queue[i + 1..];
    }

    /** Gives the new request a node and an entry; on a tracked id the node goes again. */
    method Insert(remote: Endpoint, now: int) returns (id: Option<Id>)
      requires Ordered(queue, nextHandle)
      modifies this`requests, this`queue, this`currentId, this`nextHandle, this`log
      ensures State() == Track(old(State()), remote, now)
      ensures id == if old(currentId) in old(requests) then None else Some(old(currentId))
    {
      var requestId := currentId;
      currentId := NextId(currentId);
      var node := Node(nextHandle, now + REQUEST_TIMEOUT, requestId);
      LastNodeOut(State(), node);
      nextHandle := nextHandle + 1;
      queue := queue + [node];
      if requestId in requests {
        assert queue[|queue| - 1].handle == node.handle;
        EraseNode(node.handle);
        return None;
      }
      requests := requests[requestId := Context(remote, node.handle)];
      log := log + [Tracked(node.handle, requestId, remote, node.expiration)];
      return Some(requestId);
    }

    /** HandleUdpDnsRequest up to the release of the lock: the id to tunnel, or None if nothing was
        read or the datagram was dropped. */
    method TrackRequest(bytesReceived: nat, remote: Endpoint, now: int) returns (id: Option<Id>)
      requires Valid() && clock <= now
      modifies this
      ensures Valid()
      ensures bytesReceived == 0 ==> id.None? && State() == old(State()) && clock == old(clock)
      ensures bytesReceived > 0 ==> State() == Track(old(State()), remote, now) && clock == now
      ensures bytesReceived > 0 ==> currentId == (old(currentId) + 1) % 0x1_0000_0000
      ensures bytesReceived > 0 ==> id == if old(currentId) in old(requests) then None else Some(old(currentId))
      ensures id.None? ==> requests == old(requests) && queue == old(queue)
    {
      if bytesReceived == 0 {
        return None;
      }
      GoodTrack(State(), remote, clock, now);
      id := Insert(remote, now);
      clock := now;
    }

    method Remove(id: Id)
      requires id in requests && Ordered(queue, nextHandle)
      requires exists i :: PointsTo(queue, i, requests[id].node, id)
      modifies this`requests, this`queue
      ensures requests == old(requests) - {id} && queue == Erase(old(queue), old(requests)[id].node)
    {
      ghost var i :| PointsTo(queue, i, requests[id].node, id);
      EraseNode(requests[id].node);
      requests := requests - {id};
    }

    /** Both scope guards: the entry and its node go, for the reason given to the history. */
    method Untrack(id: Id, ghost reason: Event)
      requires Valid() && id in requests
      modifies this`requests, this`queue, this`log
      ensures requests == old(requests) - {id} && queue == Erase(old(queue), old(requests)[id].node)
      ensures log == old(log) + [reason]
    {
      log := log + [reason];
      Remove(id);
    }

    /** The scope guard that runs when the tunnel throws. */
    method TakeBack(id: Id)
      requires Valid()
      modifies this`requests, this`queue, this`log
      ensures Valid() && State() == RollBack(old(State()), id)
      ensures requests == old(requests) - {id}
      ensures log == old(log) + if id in old(requests) then [RolledBack(old(requests)[id].node)] else []
    {
      GoodClose(State(), id, (context: Context) => RolledBack(context.node), clock);
      if id in requests {
        Untrack(id, RolledBack(requests[id].node));
      }
    }

    /** HandleUdpDnsResponse: the address the answer is sent to, if the id is tracked, and what is sent. The
        request goes however the sending ends. */
    method HandleResponse(id: Id, response: seq<Byte>, results: SendResults)
      returns (remote: Option<Endpoint>, datagrams: seq<seq<Byte>>)
      requires Valid()
      modifies this`requests, this`queue, this`log
      ensures Valid() && State() == Respond(old(State()), id)
      ensures remote == if id in old(requests) then Some(old(requests)[id].remote) else None
      ensures datagrams == if id in old(requests) then Datagrams(response, results) else []
      ensures requests == old(requests) - {id}
      ensures log == old(log) + if remote.Some? then [Answered(old(requests)[id].node, remote.value)] else []
      ensures remote.None? ==> State() == old(State())
    {
      GoodClose(State(), id, (context: Context) => Answered(context.node, context.remote), clock);
      if id !in requests {
        return None, [];
      }
      remote := Some(requests[id].remote);
      datagrams := SendResponse(response, results);
      Untrack(id, Answered(requests[id].node, remote.value));
    }

    /** Pops the front of the list while it has expired. */
    method PopExpired(now: int)
      modifies this`requests, this`queue, this`log
      ensures State() == Expire(old(State()), now)
    {
      ghost var before := State();
      while queue != [] && queue[0].expiration <= now
        invariant Expire(State(), now) == Expire(before, now)
        invariant currentId == before.currentId && nextHandle == before.nextHandle
        decreases |queue|
      {
        log := log + [Expired(queue[0].handle, now)];
        requests := requests - {queue[0].id};
        queue := queue[1..];
      }
    }

    /** Drops what has expired and tells how long epoll may wait. */
    method ExpireAndGetTimeout(now: int) returns (timeout: int)
      requires Valid() && clock <= now
      modifies this
      ensures Valid() && State() == Expire(old(State()), now) && clock == now
      ensures ExpiredUpTo(old(State()), State(), now)
      ensures timeout == WaitTimeout(queue, now)
      ensures timeout == -1 <==> requests == map[]
      ensures requests != map[] ==> 1 <= timeout <= 60_000
    {
      GoodExpire(State(), clock, now);
      ExpiryIsExact(State(), now, clock);
      TimeoutIsExact(State(), now, clock);
      PopExpired(now);
      clock := now;
      if queue == [] {
        return -1;
      }
      return CeilMilliseconds(queue[0].expiration - now);
    }
  }
}

/** Turning a stopped bind() or listen() call into a request the tracker can act on. */
module CallInfo {
  import opened Wrappers
  import opened PortKeys
  import opened Words

  const SIZEOF_SOCKADDR := 16
  const SIZEOF_SOCKADDR_IN6 := 28
  const SIZEOF_SOCKADDR_STORAGE := 128
  const MAX_RETRIES := 25

  // ---------------------------------------------------------------------------
  // struct sockaddr_in and sockaddr_in6, byte by byte

  function FamilyOf(raw: seq<Byte>): (family: int)
    requires |raw| >= 2
  {
    (raw[0] as int) + 0x100 * (raw[1] as int)
  }

  /** The port is in network byte order, at the same place for both families. */
  function PortOf(raw: seq<Byte>): (port: Port)
    requires |raw| >= 4
  {
    FromNetwork(raw[2], raw[3])
  }

  predicate IsIp(family: int) {
    family == AF_INET || family == AF_INET6
  }

  function AddressOf(raw: seq<Byte>): (address: Address)
    requires |raw| >= SIZEOF_SOCKADDR
    requires FamilyOf(raw) == AF_INET6 ==> |raw| >= SIZEOF_SOCKADDR_IN6
  {
    if FamilyOf(raw) == AF_INET6 then raw[8..24] else V4Address(raw[4..8])
  }

  function SockaddrKey(raw: seq<Byte>, protocol: int): (key: PortAllocation)
    requires |raw| >= SIZEOF_SOCKADDR
    requires FamilyOf(raw) == AF_INET6 ==> |raw| >= SIZEOF_SOCKADDR_IN6
  {
    PortAllocation(PortOf(raw), FamilyOf(raw), protocol, AddressOf(raw))
  }

  /** The socket a listing reports is the one the sockaddr names. */
  ghost predicate SameSocket(raw: seq<Byte>, socket: DiagSocket)
    requires |raw| >= SIZEOF_SOCKADDR
    requires FamilyOf(raw) == AF_INET6 ==> |raw| >= SIZEOF_SOCKADDR_IN6
  {
    && socket.family == FamilyOf(raw) && socket.sport == (raw[2], raw[3])
    && if socket.family == AF_INET6 then socket.src == raw[8..24] else socket.src[..4] == raw[4..8]
  }

  /** A bind is tracked under the very key its socket has in a listing. */
  lemma {:induction false} TrackedKeyIsListed(raw: seq<Byte>, socket: DiagSocket, protocol: int,
                                              sockets: seq<DiagSocket>)
    requires |raw| >= SIZEOF_SOCKADDR
    requires FamilyOf(raw) == AF_INET6 ==> |raw| >= SIZEOF_SOCKADDR_IN6
    requires SameSocket(raw, socket) && socket in sockets
    ensures SockaddrKey(raw, protocol) in Keys(protocol, sockets)
  {
  }

  // ---------------------------------------------------------------------------
  // GetCallInfo

  /** What the tracker can find out about the caller; None stands for a lookup that throws. */
  datatype Caller = Caller(
    sameNamespace: Option<bool>,
    memory: Option<seq<Byte>>,
    protocol: Option<int>,
    duplicated: bool,
    cookieValid: bool,
    sockname: Option<Storage>)

  type Storage = raw: seq<Byte> | |raw| == 128 witness seq(128, _ => 0)

  datatype BindCall = BindCall(request: Option<PortAllocation>, portZeroBind: Option<int>, callId: int)

  datatype Attempt = Returned(call: BindCall) | Thrown

  function LetThrough(callId: int): (call: BindCall) {
    BindCall(None, None, callId)
  }

  function ParseSocket(caller: Caller, addressLength: int, callId: int): (attempt: Attempt)
    requires caller.memory.Some? ==> |caller.memory.value| == addressLength
  {
    if addressLength < SIZEOF_SOCKADDR || addressLength > SIZEOF_SOCKADDR_STORAGE then Returned(LetThrough(callId))
    else if caller.sameNamespace.None? then Thrown
    else if !caller.sameNamespace.value then Returned(LetThrough(callId))
    else if caller.memory.None? then Thrown
    else
      var raw := caller.memory.value;
      if !IsIp(FamilyOf(raw)) || (FamilyOf(raw) == AF_INET6 && addressLength < SIZEOF_SOCKADDR_IN6) then
        Returned(LetThrough(callId))
      else if PortOf(raw) == 0 then
        if caller.protocol.None? || !caller.duplicated || !caller.cookieValid then Returned(LetThrough(callId))
        else Returned(BindCall(None, caller.protocol, callId))
      else if caller.protocol.None? || !caller.cookieValid then Thrown
      else Returned(BindCall(Some(SockaddrKey(raw, caller.protocol.value)), None, callId))
  }

  function ParseListen(caller: Caller, callId: int): (attempt: Attempt) {
    if caller.sameNamespace.None? || !caller.sameNamespace.value || caller.protocol.None? ||
       !caller.duplicated || !caller.cookieValid then Returned(LetThrough(callId))
    else if caller.sockname.Some? && IsIp(FamilyOf(caller.sockname.value)) && PortOf(caller.sockname.value) != 0 then
      Returned(BindCall(Some(SockaddrKey(caller.sockname.value, caller.protocol.value)), None, callId))
    else Returned(BindCall(None, caller.protocol, callId))
  }

  /** ReadNextRequest, once the call is taken: whatever goes wrong, the call is let through. */
  function ReadRequest(caller: Caller, isListen: bool, addressLength: int, callId: int): (call: BindCall)
    requires caller.memory.Some? ==> |caller.memory.value| == addressLength
    ensures call.callId == callId
    ensures call.request.Some? ==> call.request.value.port != 0 && IsIp(call.request.value.family)
    ensures call.request.None? || call.portZeroBind.None?
  {
    var attempt := if isListen then ParseListen(caller, callId) else ParseSocket(caller, addressLength, callId);
    if attempt.Thrown? then LetThrough(callId) else attempt.call
  }

  // What becomes of a call, told from the bytes of the address

  /** The bytes name an IPv4 or IPv6 socket; the family is in the byte order of the machine. */
  ghost predicate NamesIp(raw: seq<Byte>) {
    || (|raw| >= 16 && raw[0] == 2 && raw[1] == 0)
    || (|raw| >= 28 && raw[0] == 10 && raw[1] == 0)
  }

  ghost predicate NamesPort(raw: seq<Byte>)
    requires |raw| >= 4
  {
    raw[2] != 0 || raw[3] != 0
  }

  /** The key has the port, the family and the address that the bytes spell. */
  ghost predicate SpelledBy(key: PortAllocation, raw: seq<Byte>)
    requires NamesIp(raw)
  {
    && key.port == 0x100 * (raw[2] as int) + (raw[3] as int)
    && (raw[0] == 2 ==> key.family == 2 && key.address == raw[4..8] + seq(12, _ => 0))
    && (raw[0] == 10 ==> key.family == 10 && key.address == raw[8..24])
  }

  lemma {:induction false} SockaddrKeyIsSpelled(raw: seq<Byte>, protocol: int)
    requires NamesIp(raw)
    ensures IsIp(FamilyOf(raw)) && |raw| >= SIZEOF_SOCKADDR
    ensures FamilyOf(raw) == AF_INET6 ==> |raw| >= SIZEOF_SOCKADDR_IN6
    ensures SpelledBy(SockaddrKey(raw, protocol), raw) && SockaddrKey(raw, protocol).protocol == protocol
  {
  }

  lemma {:induction false} PortNamedIff(raw: seq<Byte>)
    requires |raw| >= 4
    ensures PortOf(raw) != 0 <==> NamesPort(raw)
  {
    NetworkOrder(PortOf(raw), raw[2], raw[3]);
  }

  lemma {:induction false} NamesIpIff(raw: seq<Byte>)
    requires |raw| >= 16
    ensures NamesIp(raw) <==> IsIp(FamilyOf(raw)) && (FamilyOf(raw) == AF_INET6 ==> |raw| >= 28)
  {
  }

  /** The address of a bind could be read: its length is in range, the caller is in the tracker's network
      namespace, and its memory is readable and names an IP socket. */
  ghost predicate Readable(caller: Caller, addressLength: int) {
    && 16 <= addressLength <= 128 && caller.sameNamespace == Some(true)
    && caller.memory.Some? && |caller.memory.value| == addressLength && NamesIp(caller.memory.value)
  }

  lemma {:induction false} ReadableIff(caller: Caller, addressLength: int)
    requires caller.memory.Some? && |caller.memory.value| == addressLength && addressLength >= SIZEOF_SOCKADDR
    ensures var raw := caller.memory.value;
            Readable(caller, addressLength) <==>
            && addressLength <= SIZEOF_SOCKADDR_STORAGE && caller.sameNamespace == Some(true)
            && IsIp(FamilyOf(raw)) && !(FamilyOf(raw) == AF_INET6 && addressLength < SIZEOF_SOCKADDR_IN6)
  {
    NamesIpIff(caller.memory.value);
  }

  /** What a bind whose address can be read comes to. */
  lemma {:induction false} ReadableBind(caller: Caller, addressLength: int, callId: int)
    requires Readable(caller, addressLength)
    ensures var raw := caller.memory.value;
            IsIp(FamilyOf(raw)) && (FamilyOf(raw) == AF_INET6 ==> |raw| >= SIZEOF_SOCKADDR_IN6)
    ensures var raw := caller.memory.value;
            ReadRequest(caller, false, addressLength, callId) ==
            if caller.protocol.None? || !caller.cookieValid || (!NamesPort(raw) && !caller.duplicated)
            then BindCall(None, None, callId)
            else if NamesPort(raw) then BindCall(Some(SockaddrKey(raw, caller.protocol.value)), None, callId)
            else BindCall(None, caller.protocol, callId)
  {
    ReadableIff(caller, addressLength);
    PortNamedIff(caller.memory.value);
  }

  lemma {:induction false} UnreadableBind(caller: Caller, addressLength: int, callId: int)
    requires caller.memory.Some? ==> |caller.memory.value| == addressLength
    requires !Readable(caller, addressLength)
    ensures ReadRequest(caller, false, addressLength, callId) == BindCall(None, None, callId)
  {
    if caller.memory.Some? && addressLength >= SIZEOF_SOCKADDR {
      ReadableIff(caller, addressLength);
    }
  }

  /** A bind carries a request exactly if its address can be read and names a port, and protocol and cookie
      are right; the request is for what the bytes spell. It leaves a lookup for later exactly if the port
      is 0 and the socket could be duplicated as well. */
  lemma {:induction false} BindIff(caller: Caller, addressLength: int, callId: int)
    requires caller.memory.Some? ==> |caller.memory.value| == addressLength
    ensures var call := ReadRequest(caller, false, addressLength, callId);
            && (call.request.Some? <==>
                  && Readable(caller, addressLength) && NamesPort(caller.memory.value)
                  && caller.protocol.Some? && caller.cookieValid)
            && (call.request.Some? ==>
                  && SpelledBy(call.request.value, caller.memory.value)
                  && call.request.value.protocol == caller.protocol.value)
            && (call.portZeroBind.Some? <==>
                  && Readable(caller, addressLength) && !NamesPort(caller.memory.value)
                  && caller.protocol.Some? && caller.duplicated && caller.cookieValid)
            && (call.portZeroBind.Some? ==> call.portZeroBind == caller.protocol)
  {
    if Readable(caller, addressLength) {
      ReadableBind(caller, addressLength, callId);
      if caller.protocol.Some? {
        SockaddrKeyIsSpelled(caller.memory.value, caller.protocol.value);
      }
    } else {
      UnreadableBind(caller, addressLength, callId);
    }
  }

  /** The caller of a listen is in the tracker's network namespace, and its socket could be duplicated. */
  ghost predicate Inspectable(caller: Caller) {
    caller.sameNamespace == Some(true) && caller.protocol.Some? && caller.duplicated && caller.cookieValid
  }

  ghost predicate Bound(caller: Caller) {
    caller.sockname.Some? && NamesIp(caller.sockname.value) && NamesPort(caller.sockname.value)
  }

  lemma {:induction false} BoundIff(caller: Caller)
    requires caller.sockname.Some?
    ensures Bound(caller) <==> IsIp(FamilyOf(caller.sockname.value)) && PortOf(caller.sockname.value) != 0
  {
    NamesIpIff(caller.sockname.value);
    PortNamedIff(caller.sockname.value);
  }

  /** What a listen on a bound socket comes to, and one on any other. */
  lemma {:induction false} BoundListen(caller: Caller, addressLength: int, callId: int)
    requires caller.memory.Some? ==> |caller.memory.value| == addressLength
    requires Inspectable(caller) && Bound(caller)
    ensures ReadRequest(caller, true, addressLength, callId) ==
            BindCall(Some(SockaddrKey(caller.sockname.value, caller.protocol.value)), None, callId)
  {
    BoundIff(caller);
  }

  lemma {:induction false} OtherListen(caller: Caller, addressLength: int, callId: int)
    requires caller.memory.Some? ==> |caller.memory.value| == addressLength
    requires !Inspectable(caller) || !Bound(caller)
    ensures ReadRequest(caller, true, addressLength, callId) ==
            BindCall(None, if Inspectable(caller) then caller.protocol else None, callId)
  {
    if caller.sockname.Some? {
      BoundIff(caller);
    }
  }

  /** A listen carries a request exactly if its socket can be inspected and is bound already; otherwise, if
      it can be inspected, it leaves a lookup for later. */
  lemma {:induction false} ListenIff(caller: Caller, addressLength: int, callId: int)
    requires caller.memory.Some? ==> |caller.memory.value| == addressLength
    ensures var call := ReadRequest(caller, true, addressLength, callId);
            && (call.request.Some? <==> Inspectable(caller) && Bound(caller))
            && (call.request.Some? ==>
                  && SpelledBy(call.request.value, caller.sockname.value)
                  && call.request.value.protocol == caller.protocol.value)
            && (call.portZeroBind.Some? <==> Inspectable(caller) && !Bound(caller))
            && (call.portZeroBind.Some? ==> call.portZeroBind == caller.protocol)
  {
    if Inspectable(caller) && Bound(caller) {
      BoundListen(caller, addressLength, callId);
      SockaddrKeyIsSpelled(caller.sockname.value, caller.protocol.value);
    } else {
      OtherListen(caller, addressLength, callId);
    }
  }

  /** The socket a request was read from has the key of the request in a listing. */
  lemma {:induction false} RequestedKeyIsListed(key: PortAllocation, raw: seq<Byte>, socket: DiagSocket, dump: Dump)
    requires NamesIp(raw) && SpelledBy(key, raw) && socket in SocketsOf(dump, key.protocol)
    requires socket.family == raw[0] && socket.sport == (raw[2], raw[3])
    requires if raw[0] == 10 then socket.src == raw[8..24] else socket.src[..4] == raw[4..8]
    ensures DiagKey(socket, key.protocol) == key && InUse(false, dump, key)
  {
    assert forall i | 0 <= i < 4 :: socket.src[i] == socket.src[..4][i];
    DiagKeyIff(socket, key);
  }

  // ---------------------------------------------------------------------------
  // ResolvePortZeroBind

  /** The answer number i of getsockname ends the polling with a port. */
  ghost predicate Settles(answers: nat -> Option<Storage>, i: nat) {
    && (forall j: nat | j < i :: Pending(answers(j)))
    && answers(i).Some? && IsIp(FamilyOf(answers(i).value)) && PortOf(answers(i).value) != 0
  }

  predicate Pending(answer: Option<Storage>) {
    answer.Some? && IsIp(FamilyOf(answer.value)) && PortOf(answer.value) == 0
  }

  /** What the last twelve bytes of the address buffer hold when attempt n starts: the end of the last
      IPv6 address reported before it. */
  ghost function Tail(answers: nat -> Option<Storage>, n: nat): (tail: seq<Byte>)
    ensures |tail| == 12
  {
    if n == 0 then seq(12, _ => 0)
    else if answers(n - 1).Some? && FamilyOf(answers(n - 1).value) == AF_INET6 then answers(n - 1).value[12..24]
    else Tail(answers, n - 1)
  }

  /** The key that the polling makes of answer number i: an IPv4 address overwrites four bytes only. */
  ghost function ResolvedKey(answers: nat -> Option<Storage>, i: nat, protocol: int): (key: PortAllocation)
    requires Settles(answers, i)
  {
    var raw := answers(i).value;
    PortAllocation(PortOf(raw), FamilyOf(raw), protocol,
                   if FamilyOf(raw) == AF_INET6 then raw[8..24] else raw[4..8] + Tail(answers, i))
  }

  /** What the polling comes to. */
  ghost predicate Resolution(answers: nat -> Option<Storage>, protocol: int, allocation: Option<PortAllocation>) {
    && (allocation.Some? <==> exists i: nat | i < MAX_RETRIES :: Settles(answers, i))
    && forall i: nat | i < MAX_RETRIES && Settles(answers, i) :: allocation == Some(ResolvedKey(answers, i, protocol))
  }

  /** The resolved key is the one the socket has in a listing, unless an IPv4 address follows an IPv6
      address that did not end in zeros. */
  lemma {:induction false} ResolvesOwnKeyIff(answers: nat -> Option<Storage>, i: nat, protocol: int)
    requires Settles(answers, i)
    ensures ResolvedKey(answers, i, protocol) == SockaddrKey(answers(i).value, protocol) <==>
            FamilyOf(answers(i).value) == AF_INET6 || Tail(answers, i) == seq(12, _ => 0)
  {
    var raw := answers(i).value;
    if FamilyOf(raw) != AF_INET6 {
      var tail, zeros := Tail(answers, i), seq(12, _ => 0);
      assert AddressOf(raw) == raw[4..8] + zeros;
      assert (raw[4..8] + tail)[4..] == tail && (raw[4..8] + zeros)[4..] == zeros;
    }
  }

  /** A socket that reports an IPv6 address and then an IPv4 address and port. */
  function TwoFamilies(n: nat): (answer: Option<Storage>) {
    Some(seq(SIZEOF_SOCKADDR_STORAGE, i =>
      if i == 0 then (if n == 0 then AF_INET6 else AF_INET)
      else if i == 3 && n > 0 then 1
      else if i == 12 then 1
      else 0))
  }

  /** It is tracked under a key that it never has in a listing. */
  lemma {:induction false} TwoFamiliesExample(protocol: int, socket: DiagSocket)
    requires SameSocket(TwoFamilies(1).value, socket)
    ensures Settles(TwoFamilies, 1) && ResolvedKey(TwoFamilies, 1, protocol) !in Keys(protocol, [socket])
  {
    assert Tail(TwoFamilies, 1)[0] == 1;
    ResolvesOwnKeyIff(TwoFamilies, 1, protocol);
    TrackedKeyIsListed(TwoFamilies(1).value, socket, protocol, [socket]);
  }

  /** Polls until a port shows up. The address buffer is kept between attempts. */
  method ResolvePortZeroBind(answers: nat -> Option<Storage>, protocol: int)
    returns (allocation: Option<PortAllocation>)
    ensures allocation.Some? <==> exists i: nat | i < 25 :: Settles(answers, i)
    ensures allocation.Some? ==> allocation.value.port != 0 && allocation.value.protocol == protocol
    ensures forall i: nat | i < MAX_RETRIES && Settles(answers, i) ::
              && allocation == Some(ResolvedKey(answers, i, protocol))
              && (allocation.value == SockaddrKey(answers(i).value, protocol) <==>
                    FamilyOf(answers(i).value) == AF_INET6 || Tail(answers, i) == seq(12, _ => 0))
    ensures Resolution(answers, protocol, allocation)
  {
    var port: Port := 0;
    var address: Address := seq(16, _ => 0);
    var resolvedFamily := 0;
    var attempt := 0;
    while attempt < MAX_RETRIES
      invariant 0 <= attempt <= MAX_RETRIES
      invariant port == 0
      invariant forall j: nat | j < attempt :: Pending(answers(j))
      invariant address[4..] == Tail(answers, attempt)
    {
      var answer := answers(attempt);
      if answer.None? {
        return None;
      }
      var raw := answer.value;
      resolvedFamily := FamilyOf(raw);
      if resolvedFamily == AF_INET {
        port := PortOf(raw);
        address := raw[4..8] + address[4..];
      } else if resolvedFamily == AF_INET6 {
        port := PortOf(raw);
        address := raw[8..24];
        assert raw[8..24][4..] == raw[12..24];
      } else {
        return None;
      }
      if port != 0 {
        assert Settles(answers, attempt);
        ResolvesOwnKeyIff(answers, attempt, protocol);
        break;
      }
      attempt := attempt + 1;
    }
    if port == 0 {
      return None;
    }
    assert forall i: nat | Settles(answers, i) :: i == attempt;
    return Some(PortAllocation(port, resolvedFamily, protocol, address));
  }
}

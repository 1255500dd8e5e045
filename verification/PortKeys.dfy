/** The keys under which guest ports are tracked, and the sets a socket listing yields. */
module PortKeys {
  import opened Words

  type Address = a: seq<Byte> | |a| == 16 witness seq(16, _ => 0)

  const AF_INET := 2
  const AF_INET6 := 10
  const IPPROTO_TCP := 6
  const IPPROTO_UDP := 17

  /** An IPv4 address fills the first word and leaves the rest zero. */
  function V4Address(word: seq<Byte>): (address: Address)
    requires |word| == 4
  {
    word + seq(12, _ => 0)
  }

  datatype PortAllocation = PortAllocation(port: Port, family: int, protocol: int, address: Address)

  /** memcmp on two equally long buffers, as "left sorts first". */
  predicate BytesLess(left: seq<Byte>, right: seq<Byte>)
    requires |left| == |right|
  {
    left != [] && (left[0] < right[0] || (left[0] == right[0] && BytesLess(left[1..], right[1..])))
  }

  /** The ordering of the tracked-port map. */
  predicate Less(a: PortAllocation, b: PortAllocation) {
    if a.port != b.port then a.port < b.port
    else if a.family != b.family then a.family < b.family
    else if a.protocol != b.protocol then a.protocol < b.protocol
    else BytesLess(a.address, b.address)
  }

  lemma {:induction false} BytesLessOrder(a: seq<Byte>, b: seq<Byte>, c: seq<Byte>)
    requires |a| == |b| == |c|
    ensures !BytesLess(a, a)
    ensures BytesLess(a, b) && BytesLess(b, c) ==> BytesLess(a, c)
    ensures BytesLess(a, b) || BytesLess(b, a) || a == b
  {
    if a != [] {
      BytesLessOrder(a[1..], b[1..], c[1..]);
      assert a == [a[0]] + a[1..] && b == [b[0]] + b[1..];
    }
  }

  /** The ordering is a strict total order on the four fields, so no two different
      allocations share an entry of the map. */
  lemma {:induction false} LessIsStrictTotal(a: PortAllocation, b: PortAllocation, c: PortAllocation)
    ensures !Less(a, a)
    ensures Less(a, b) && Less(b, c) ==> Less(a, c)
    ensures Less(a, b) || Less(b, a) || a == b
    ensures !(Less(a, b) && Less(b, a))
  {
    BytesLessOrder(a.address, b.address, c.address);
    BytesLessOrder(a.address, b.address, a.address);
  }

  predicate IsLeast(key: PortAllocation, keys: set<PortAllocation>) {
    key in keys && forall other | other in keys :: other == key || Less(key, other)
  }

  lemma {:induction false} LeastExists(keys: set<PortAllocation>)
    requires keys != {}
    ensures exists key :: IsLeast(key, keys)
  {
    var some :| some in keys;
    var rest := keys - {some};
    if rest == {} {
      assert keys == {some};
      assert IsLeast(some, keys);
    } else {
      LeastExists(rest);
      var least :| IsLeast(least, rest);
      LessIsStrictTotal(some, least, some);
      if Less(some, least) {
        forall other | other in keys ensures other == some || Less(some, other) {
          LessIsStrictTotal(some, least, other);
        }
        assert IsLeast(some, keys);
      } else {
        assert IsLeast(least, keys);
      }
    }
  }

  lemma {:induction false} LeastIsUnique(a: PortAllocation, b: PortAllocation, keys: set<PortAllocation>)
    requires IsLeast(a, keys) && IsLeast(b, keys)
    ensures a == b
  {
    LessIsStrictTotal(a, b, a);
  }

  /** The keys in the order in which the map iterates over them. */
  ghost function Sorted(keys: set<PortAllocation>): (order: seq<PortAllocation>)
    decreases |keys|
  {
    if keys == {} then []
    else
      LeastExists(keys);
      var least :| IsLeast(least, keys);
      [least] + Sorted(keys - {least})
  }

  lemma {:induction false} SortedIsSorted(keys: set<PortAllocation>)
    ensures forall key :: key in Sorted(keys) <==> key in keys
    ensures |Sorted(keys)| == |keys|
    ensures forall i, j | 0 <= i < j < |Sorted(keys)| :: Less(Sorted(keys)[i], Sorted(keys)[j])
    decreases |keys|
  {
    if keys != {} {
      var order := Sorted(keys);
      var least := order[0];
      LeastExists(keys);
      assert IsLeast(least, keys);
      SortedIsSorted(keys - {least});
      assert order == [least] + Sorted(keys - {least});
      forall i, j | 0 <= i < j < |order| ensures Less(order[i], order[j]) {
        if i == 0 {
          assert order[j] in Sorted(keys - {least});
        }
      }
    }
  }

  // ---------------------------------------------------------------------------
  // Socket listings

  /** One socket of a sock_diag dump: the port as two bytes in network order, and sixteen bytes of
      address whatever the family. */
  datatype DiagSocket = DiagSocket(family: int, sport: (Byte, Byte), src: Address)

  datatype ActivePorts = ActivePorts(full: set<PortAllocation>, pairs: set<(Port, int)>)

  function DiagKey(socket: DiagSocket, protocol: int): (key: PortAllocation) {
    PortAllocation(FromNetwork(socket.sport.0, socket.sport.1), socket.family, protocol,
                   if socket.family == AF_INET6 then socket.src else V4Address(socket.src[..4]))
  }

  function Pair(key: PortAllocation): (pair: (Port, int)) {
    (key.port, key.protocol)
  }

  /** Whether a listing shows the port in use: by port and protocol only in mirrored mode, by
      the whole key otherwise. */
  predicate Active(mirrored: bool, ports: ActivePorts, key: PortAllocation) {
    if mirrored then Pair(key) in ports.pairs else key in ports.full
  }

  // What a listing shows, told from the sockets alone

  /** The sockets of the two protocols that the four dumps report. */
  datatype Dump = Dump(tcp: seq<DiagSocket>, udp: seq<DiagSocket>)

  ghost function SocketsOf(dump: Dump, protocol: int): (sockets: seq<DiagSocket>) {
    if protocol == 6 then dump.tcp else if protocol == 17 then dump.udp else []
  }

  ghost predicate HasPort(socket: DiagSocket, port: Port) {
    0x100 * socket.sport.0 + socket.sport.1 == port
  }

  /** An IPv6 socket has all sixteen bytes, any other the first four, and then the rest are zero. */
  ghost predicate HasAddress(socket: DiagSocket, address: Address) {
    forall i | 0 <= i < 16 :: address[i] == if i < 4 || socket.family == 10 then socket.src[i] else 0
  }

  /** Some socket of its protocol has the port of the key; outside mirrored mode, its family and its
      address as well. */
  ghost predicate InUse(mirrored: bool, dump: Dump, key: PortAllocation) {
    exists socket :: socket in SocketsOf(dump, key.protocol) && HasPort(socket, key.port)
                     && (mirrored || (socket.family == key.family && HasAddress(socket, key.address)))
  }

  ghost predicate IsListing(ports: ActivePorts, dump: Dump) {
    && Paired(ports)
    && ports.full == Keys(IPPROTO_TCP, dump.tcp) + Keys(IPPROTO_UDP, dump.udp)
  }

  ghost function Keys(protocol: int, sockets: seq<DiagSocket>): (keys: set<PortAllocation>) {
    set socket | socket in sockets :: DiagKey(socket, protocol)
  }

  /** The pairs are exactly those of the listed keys. */
  ghost predicate Paired(ports: ActivePorts) {
    ports.pairs == (set key | key in ports.full :: Pair(key))
  }

  method AddDump(ports: ActivePorts, protocol: int, sockets: seq<DiagSocket>) returns (more: ActivePorts)
    requires Paired(ports)
    ensures Paired(more)
    ensures more.full == ports.full + Keys(protocol, sockets)
  {
    more := ports;
    for i := 0 to |sockets|
      invariant more.full == ports.full + Keys(protocol, sockets[..i])
      invariant Paired(more)
    {
      var key := DiagKey(sockets[i], protocol);
      ghost var before := more.full;
      more := ActivePorts(more.full + {key}, more.pairs + {Pair(key)});
      assert sockets[..i + 1] == sockets[..i] + [sockets[i]];
      assert forall k :: k in more.full <==> k in before || k == key;
    }
    assert sockets[..|sockets|] == sockets;
  }

  /** ListAllocatedPorts: TCP over both families, then UDP over both families. */
  method ListAllocatedPorts(tcp4: seq<DiagSocket>, tcp6: seq<DiagSocket>, udp4: seq<DiagSocket>, udp6: seq<DiagSocket>)
    returns (ports: ActivePorts)
    ensures IsListing(ports, Dump(tcp4 + tcp6, udp4 + udp6))
  {
    ports := ActivePorts({}, {});
    ports := AddDump(ports, IPPROTO_TCP, tcp4);
    ports := AddDump(ports, IPPROTO_TCP, tcp6);
    ports := AddDump(ports, IPPROTO_UDP, udp4);
    ports := AddDump(ports, IPPROTO_UDP, udp6);
  }

  lemma {:induction false} DiagKeyIff(socket: DiagSocket, key: PortAllocation)
    ensures DiagKey(socket, key.protocol) == key <==>
            HasPort(socket, key.port) && socket.family == key.family && HasAddress(socket, key.address)
  {
    var own := DiagKey(socket, key.protocol);
    assert HasAddress(socket, own.address);
    if HasAddress(socket, key.address) {
      assert own.address == key.address;
    }
  }

  /** A key is among the listed ones exactly if a socket of its protocol has its port, family and address. */
  lemma {:induction false} ListedIff(ports: ActivePorts, dump: Dump, key: PortAllocation)
    requires IsListing(ports, dump)
    ensures key in ports.full <==> InUse(false, dump, key)
  {
    if key in ports.full {
      var socket :| socket in SocketsOf(dump, key.protocol) && DiagKey(socket, key.protocol) == key;
      DiagKeyIff(socket, key);
    }
    if InUse(false, dump, key) {
      var socket :| socket in SocketsOf(dump, key.protocol) && HasPort(socket, key.port)
                    && socket.family == key.family && HasAddress(socket, key.address);
      DiagKeyIff(socket, key);
    }
  }

  lemma {:induction false} SocketIsPaired(ports: ActivePorts, dump: Dump, socket: DiagSocket, key: PortAllocation)
    requires IsListing(ports, dump) && socket in SocketsOf(dump, key.protocol) && HasPort(socket, key.port)
    ensures Pair(key) in ports.pairs
  {
    var own := DiagKey(socket, key.protocol);
    assert own in ports.full && Pair(own) == Pair(key);
  }

  /** Its port and protocol are among the listed pairs exactly if a socket of its protocol has its port. */
  lemma {:induction false} PairListedIff(ports: ActivePorts, dump: Dump, key: PortAllocation)
    requires IsListing(ports, dump)
    ensures Pair(key) in ports.pairs <==> InUse(true, dump, key)
  {
    if Pair(key) in ports.pairs {
      var other :| other in ports.full && Pair(other) == Pair(key);
      ListedIff(ports, dump, other);
      var socket :| socket in SocketsOf(dump, other.protocol) && HasPort(socket, other.port);
      assert socket in SocketsOf(dump, key.protocol) && HasPort(socket, key.port);
    }
    if socket :| socket in SocketsOf(dump, key.protocol) && HasPort(socket, key.port) {
      SocketIsPaired(ports, dump, socket, key);
    }
  }

  /** A listing shows a port in use exactly if the sockets do. */
  lemma {:induction false} ActiveIff(mirrored: bool, ports: ActivePorts, dump: Dump, key: PortAllocation)
    requires IsListing(ports, dump)
    ensures Active(mirrored, ports, key) <==> InUse(mirrored, dump, key)
  {
    ListedIff(ports, dump, key);
    PairListedIff(ports, dump, key);
  }

  /** Mirrored mode never finds a port closed that the other modes find open. */
  lemma {:induction false} MirroredIsMoreCautious(ports: ActivePorts, key: PortAllocation)
    requires Paired(ports)
    requires Active(false, ports, key)
    ensures Active(true, ports, key)
  {
  }
}

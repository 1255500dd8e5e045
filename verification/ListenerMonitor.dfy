/** Keeping the host's listeners in step with the guest's listening sockets, scan after scan. */
module ListenerMonitor {
  import opened Sequences
  import opened Words

  // ---------------------------------------------------------------------------
  // Addresses

  /** A socket address; the port is two bytes in network order, and the other bytes of the storage play
      no part. */
  datatype SockAddr =
    | V4(address: Word, port: (Byte, Byte), other: int)
    | V6(words: (Word, Word, Word, Word), port: (Byte, Byte), other: int)

  datatype Family = Inet | Inet6

  /** What a message to the host says about an address. */
  datatype Listener = Listener(family: Family, address: (Word, Word, Word, Word), port: Port)

  function ToListener(sock: SockAddr): (listener: Listener) {
    match sock
    case V4(address, port, _) => Listener(Inet, (address, 0, 0, 0), FromNetwork(port.0, port.1))
    case V6(words, port, _) => Listener(Inet6, words, FromNetwork(port.0, port.1))
  }

  predicate IsSameSockAddr(left: SockAddr, right: SockAddr) {
    match (left, right)
    case (V4(a, p, _), V4(b, q, _)) => a == b && p == q
    case (V6(a, p, _), V6(b, q, _)) => p == q && a == b
    case _ => false
  }

  /** Two addresses are the same exactly if the host cannot tell them apart. */
  lemma {:induction false} SameIffSameListener(left: SockAddr, right: SockAddr)
    ensures IsSameSockAddr(left, right) <==> ToListener(left) == ToListener(right)
  {
  }

  /** A message names family, address and port of the socket, the port in the byte order of the machine and
      an IPv4 address in the first word. */
  lemma {:induction false} MessageNamesTheSocket(sock: SockAddr)
    ensures ToListener(sock).family.Inet? <==> sock.V4?
    ensures 0x100 * sock.port.0 + sock.port.1 == ToListener(sock).port
    ensures sock.V4? ==> ToListener(sock).address == (sock.address, 0, 0, 0)
    ensures sock.V6? ==> ToListener(sock).address == sock.words
  {
  }

  function Listeners(socks: seq<SockAddr>): (listeners: seq<Listener>)
    ensures |listeners| == |socks|
  {
    if socks == [] then [] else [ToListener(socks[0])] + Listeners(socks[1..])
  }

  // ---------------------------------------------------------------------------
  // What a scan does while no send fails

  datatype Message = Start(listener: Listener) | Stop(listener: Listener)

  function Range(s: seq<Listener>): (elements: set<Listener>) {
    set x | x in s
  }

  /** The relays that stay, or those that go. */
  function Select(relays: seq<Listener>, sockets: seq<Listener>, stay: bool): (selected: seq<Listener>) {
    if relays == [] then []
    else
      var last := relays[|relays| - 1];
      Select(relays[..|relays| - 1], sockets, stay) + if (last in sockets) == stay then [last] else []
  }

  /** The listed addresses without a relay, each at its first place. */
  function Added(relays: seq<Listener>, sockets: seq<Listener>): (added: seq<Listener>) {
    if sockets == [] then []
    else
      var last, before := sockets[|sockets| - 1], Added(relays, sockets[..|sockets| - 1]);
      before + if last in relays + before then [] else [last]
  }

  function Stops(listeners: seq<Listener>): (messages: seq<Message>) {
    if listeners == [] then [] else Stops(listeners[..|listeners| - 1]) + [Stop(listeners[|listeners| - 1])]
  }

  function Starts(listeners: seq<Listener>): (messages: seq<Message>) {
    if listeners == [] then [] else Starts(listeners[..|listeners| - 1]) + [Start(listeners[|listeners| - 1])]
  }

  /** The relays after a scan, and the messages of that scan. */
  function Relays(relays: seq<Listener>, sockets: seq<Listener>): (after: seq<Listener>) {
    var kept := Select(relays, sockets, true);
    kept + Added(kept, sockets)
  }

  function Messages(relays: seq<Listener>, sockets: seq<Listener>): (messages: seq<Message>) {
    Stops(Select(relays, sockets, false)) + Starts(Added(Select(relays, sockets, true), sockets))
  }

  lemma {:induction false} SelectedIff(relays: seq<Listener>, sockets: seq<Listener>, stay: bool, x: Listener)
    ensures x in Select(relays, sockets, stay) <==> x in relays && (x in sockets) == stay
    decreases |relays|
  {
    if relays != [] {
      SelectedIff(relays[..|relays| - 1], sockets, stay, x);
      assert relays == relays[..|relays| - 1] + [relays[|relays| - 1]];
    }
  }

  lemma {:induction false} SelectedOnce(relays: seq<Listener>, sockets: seq<Listener>, stay: bool)
    requires NoDuplicates(relays)
    ensures NoDuplicates(Select(relays, sockets, stay))
    decreases |relays|
  {
    if relays != [] {
      var before, last := relays[..|relays| - 1], relays[|relays| - 1];
      SelectedOnce(before, sockets, stay);
      SelectedIff(before, sockets, stay, last);
    }
  }

  lemma {:induction false} AddedIff(relays: seq<Listener>, sockets: seq<Listener>, x: Listener)
    ensures x in Added(relays, sockets) <==> x in sockets && x !in relays
    decreases |sockets|
  {
    if sockets != [] {
      var before, last := sockets[..|sockets| - 1], sockets[|sockets| - 1];
      AddedIff(relays, before, x);
      assert sockets == before + [last];
    }
  }

  lemma {:induction false} AddedOnce(relays: seq<Listener>, sockets: seq<Listener>)
    ensures NoDuplicates(Added(relays, sockets))
    decreases |sockets|
  {
    if sockets != [] {
      AddedOnce(relays, sockets[..|sockets| - 1]);
    }
  }

  lemma {:induction false} ConcatNoDuplicates(a: seq<Listener>, b: seq<Listener>)
    requires NoDuplicates(a) && NoDuplicates(b) && forall x | x in a :: x !in b
    ensures NoDuplicates(a + b)
  {
    forall i, j | 0 <= i < j < |a + b|
      ensures (a + b)[i] != (a + b)[j]
    {
      assert i < |a| ==> a[i] in a;
    }
  }

  /** After a scan there is one relay for each address that the scan listed. */
  lemma {:induction false} RelaysAreTheSockets(relays: seq<Listener>, sockets: seq<Listener>)
    requires NoDuplicates(relays)
    ensures NoDuplicates(Relays(relays, sockets)) && Range(Relays(relays, sockets)) == Range(sockets)
  {
    var kept := Select(relays, sockets, true);
    SelectedOnce(relays, sockets, true);
    AddedOnce(kept, sockets);
    forall x
      ensures x in Select(relays, sockets, true) <==> x in relays && x in sockets
      ensures x in Added(kept, sockets) <==> x in sockets && x !in kept
    {
      SelectedIff(relays, sockets, true, x);
      AddedIff(kept, sockets, x);
    }
    ConcatNoDuplicates(kept, Added(kept, sockets));
  }

  /** One stop for each address gone and one start for each address new, whatever the scan repeats. */
  lemma {:induction false} MessagesAreTheChanges(relays: seq<Listener>, sockets: seq<Listener>)
    returns (gone: seq<Listener>, added: seq<Listener>)
    requires NoDuplicates(relays)
    ensures Messages(relays, sockets) == Stops(gone) + Starts(added)
    ensures NoDuplicates(gone) && Range(gone) == Range(relays) - Range(sockets)
    ensures NoDuplicates(added) && Range(added) == Range(sockets) - Range(relays)
  {
    var kept := Select(relays, sockets, true);
    gone, added := Select(relays, sockets, false), Added(kept, sockets);
    SelectedOnce(relays, sockets, false);
    AddedOnce(kept, sockets);
    forall x
      ensures x in gone <==> x in relays && x !in sockets
      ensures x in added <==> x in sockets && x !in relays
    {
      SelectedIff(relays, sockets, false, x);
      SelectedIff(relays, sockets, true, x);
      AddedIff(kept, sockets, x);
    }
  }

  // ---------------------------------------------------------------------------
  // The host

  /** The host's listeners after some messages. */
  function HostAfter(host: set<Listener>, messages: seq<Message>): (after: set<Listener>) {
    if messages == [] then host
    else
      var before, last := HostAfter(host, messages[..|messages| - 1]), messages[|messages| - 1];
      if last.Start? then before + {last.listener} else before - {last.listener}
  }

  lemma {:induction false} HostAfterConcat(host: set<Listener>, a: seq<Message>, b: seq<Message>)
    ensures HostAfter(host, a + b) == HostAfter(HostAfter(host, a), b)
    decreases |b|
  {
    if b == [] {
      assert a + b == a;
    } else {
      assert (a + b)[..|a + b| - 1] == a + b[..|b| - 1];
      HostAfterConcat(host, a, b[..|b| - 1]);
    }
  }

  lemma {:induction false} HostAfterStops(host: set<Listener>, listeners: seq<Listener>)
    ensures HostAfter(host, Stops(listeners)) == host - Range(listeners)
    decreases |listeners|
  {
    if listeners != [] {
      var before := listeners[..|listeners| - 1];
      assert Stops(listeners)[..|Stops(before)|] == Stops(before);
      HostAfterStops(host, before);
      assert listeners == before + [listeners[|listeners| - 1]];
    }
  }

  lemma {:induction false} HostAfterStarts(host: set<Listener>, listeners: seq<Listener>)
    ensures HostAfter(host, Starts(listeners)) == host + Range(listeners)
    decreases |listeners|
  {
    if listeners != [] {
      var before := listeners[..|listeners| - 1];
      assert Starts(listeners)[..|Starts(before)|] == Starts(before);
      HostAfterStarts(host, before);
      assert listeners == before + [listeners[|listeners| - 1]];
    }
  }

  /** If the host agreed with the relays before a scan, it does so after it. */
  lemma {:induction false} HostAgrees(relays: seq<Listener>, sockets: seq<Listener>)
    requires NoDuplicates(relays)
    ensures HostAfter(Range(relays), Messages(relays, sockets)) == Range(Relays(relays, sockets)) == Range(sockets)
  {
    var gone, added := MessagesAreTheChanges(relays, sockets);
    HostAfterConcat(Range(relays), Stops(gone), Starts(added));
    HostAfterStops(Range(relays), gone);
    HostAfterStarts(Range(relays) - Range(gone), added);
    RelaysAreTheSockets(relays, sockets);
  }

  // ---------------------------------------------------------------------------
  // Whole runs

  /** The relays after a number of scans, none of which had a send fail. */
  function RelaysAfter(scans: seq<seq<Listener>>): (relays: seq<Listener>) {
    if scans == [] then [] else Relays(RelaysAfter(scans[..|scans| - 1]), scans[|scans| - 1])
  }

  function MessagesAfter(scans: seq<seq<Listener>>): (messages: seq<Message>) {
    if scans == [] then []
    else MessagesAfter(scans[..|scans| - 1]) + Messages(RelaysAfter(scans[..|scans| - 1]), scans[|scans| - 1])
  }

  /** After every scan of a run, relays, host and scan agree. */
  lemma {:induction false} RunAgrees(scans: seq<seq<Listener>>)
    ensures NoDuplicates(RelaysAfter(scans))
    ensures Range(RelaysAfter(scans)) == if scans == [] then {} else Range(scans[|scans| - 1])
    ensures HostAfter({}, MessagesAfter(scans)) == Range(RelaysAfter(scans))
    decreases |scans|
  {
    if scans != [] {
      var before, last := scans[..|scans| - 1], scans[|scans| - 1];
      RunAgrees(before);
      RelaysAreTheSockets(RelaysAfter(before), last);
      HostAfterConcat({}, MessagesAfter(before), Messages(RelaysAfter(before), last));
      HostAgrees(RelaysAfter(before), last);
    }
  }

  // ---------------------------------------------------------------------------
  // The code

  /** None of these sends failed; the n-th send of a run fails if fails(n). */
  ghost predicate AllSent(fails: nat -> bool, from: nat, to: nat) {
    forall n | from <= n < to :: !fails(n)
  }

  lemma {:induction false} ListenersAt(socks: seq<SockAddr>, i: nat)
    requires i < |socks|
    ensures Listeners(socks)[i] == ToListener(socks[i])
  {
    if i > 0 {
      ListenersAt(socks[1..], i - 1);
    }
  }

  lemma {:induction false} ListedIff(socks: seq<SockAddr>, sock: SockAddr)
    ensures ToListener(sock) in Listeners(socks) <==> exists k :: 0 <= k < |socks| && IsSameSockAddr(socks[k], sock)
  {
    forall k | 0 <= k < |socks|
      ensures Listeners(socks)[k] == ToListener(sock) <==> IsSameSockAddr(socks[k], sock)
    {
      ListenersAt(socks, k);
      SameIffSameListener(socks[k], sock);
    }
  }

  /** std::find_if with IsSameSockAddr. */
  method Contains(socks: seq<SockAddr>, sock: SockAddr) returns (found: bool)
    ensures found <==> ToListener(sock) in Listeners(socks)
  {
    ListedIff(socks, sock);
    var i := 0;
    while i < |socks|
      invariant 0 <= i <= |socks|
      invariant forall k | 0 <= k < i :: !IsSameSockAddr(socks[k], sock)
    {
      if IsSameSockAddr(socks[i], sock) {
        return true;
      }
      i := i + 1;
    }
    return false;
  }

  lemma {:induction false} ListenersSnoc(socks: seq<SockAddr>, sock: SockAddr)
    ensures Listeners(socks + [sock]) == Listeners(socks) + [ToListener(sock)]
  {
    if socks != [] {
      ListenersSnoc(socks[1..], sock);
      assert (socks + [sock])[1..] == socks[1..] + [sock];
    }
  }

  lemma {:induction false} ListenersTake(socks: seq<SockAddr>, i: nat)
    requires i < |socks|
    ensures Listeners(socks[..i + 1]) == Listeners(socks[..i]) + [ToListener(socks[i])]
  {
    assert socks[..i + 1] == socks[..i] + [socks[i]];
    ListenersSnoc(socks[..i], socks[i]);
  }

  lemma {:induction false} SelectSnoc(relays: seq<Listener>, x: Listener, sockets: seq<Listener>, stay: bool)
    ensures Select(relays + [x], sockets, stay) ==
            Select(relays, sockets, stay) + if (x in sockets) == stay then [x] else []
  {
  }

  lemma {:induction false} AddedSnoc(relays: seq<Listener>, sockets: seq<Listener>, x: Listener)
    ensures Added(relays, sockets + [x]) ==
            Added(relays, sockets) + if x in relays + Added(relays, sockets) then [] else [x]
  {
  }

  function StartUnless(skip: bool, listener: Listener): (messages: seq<Message>) {
    if skip then [] else [Start(listener)]
  }

  function StopUnless(keep: bool, listener: Listener): (messages: seq<Message>) {
    if keep then [] else [Stop(listener)]
  }

  lemma {:induction false} AllSentJoins(fails: nat -> bool, from: nat, middle: nat, to: nat)
    requires from <= middle <= to
    ensures AllSent(fails, from, to) <==> AllSent(fails, from, middle) && AllSent(fails, middle, to)
  {
  }

  lemma {:induction false} StopsStep(sent: seq<Message>, gone: seq<Listener>, x: Listener, keep: bool)
    ensures sent + Stops(gone + if keep then [] else [x]) == (sent + Stops(gone)) + StopUnless(keep, x)
  {
    if keep {
      assert gone + [] == gone;
    } else {
      assert (gone + [x])[..|gone|] == gone;
    }
  }

  lemma {:induction false} StartsStep(sent: seq<Message>, added: seq<Listener>, x: Listener, skip: bool)
    ensures sent + Starts(added + if skip then [] else [x]) == (sent + Starts(added)) + StartUnless(skip, x)
  {
    if skip {
      assert added + [] == added;
    } else {
      assert (added + [x])[..|added|] == added;
    }
  }

  lemma {:induction false} SelectStep(relays: seq<SockAddr>, i: nat, sockets: seq<Listener>, stay: bool)
    requires i < |relays|
    ensures var x := ToListener(relays[i]);
            Select(Listeners(relays[..i + 1]), sockets, stay) ==
            Select(Listeners(relays[..i]), sockets, stay) + if (x in sockets) == stay then [x] else []
  {
    ListenersTake(relays, i);
    SelectSnoc(Listeners(relays[..i]), ToListener(relays[i]), sockets, stay);
  }

  lemma {:induction false} AddStep(relays: seq<Listener>, sockets: seq<SockAddr>, i: nat)
    requires i < |sockets|
    ensures var x, before := ToListener(sockets[i]), Added(relays, Listeners(sockets[..i]));
            Added(relays, Listeners(sockets[..i + 1])) == before + if x in relays + before then [] else [x]
  {
    ListenersTake(sockets, i);
    AddedSnoc(relays, Listeners(sockets[..i]), ToListener(sockets[i]));
  }

  lemma {:induction false} SplitMessages(sent: seq<Message>, relays: seq<Listener>, sockets: seq<Listener>)
    ensures sent + Messages(relays, sockets) ==
            (sent + Stops(Select(relays, sockets, false))) + Starts(Added(Select(relays, sockets, true), sockets))
  {
    Associative(sent, Stops(Select(relays, sockets, false)), Starts(Added(Select(relays, sockets, true), sockets)));
  }

  /** What each scan listed, as the host sees it. */
  function Listings(scans: seq<seq<SockAddr>>): (listings: seq<seq<Listener>>)
    ensures |listings| == |scans| && forall i | 0 <= i < |scans| :: listings[i] == Listeners(scans[i])
  {
    if scans == [] then [] else [Listeners(scans[0])] + Listings(scans[1..])
  }

  lemma {:induction false} ScanStep(scans: seq<seq<SockAddr>>, i: nat)
    requires i < |scans|
    ensures var before, after := Listings(scans[..i]), Listings(scans[..i + 1]);
            && RelaysAfter(after) == Relays(RelaysAfter(before), Listeners(scans[i]))
            && MessagesAfter(after) == MessagesAfter(before) + Messages(RelaysAfter(before), Listeners(scans[i]))
  {
    assert Listings(scans[..i + 1])[..i] == Listings(scans[..i]);
  }

  class Monitor {
    var relays: seq<SockAddr>
    var result: int
    var sends: nat
    ghost var sent: seq<Message>

    constructor ()
      ensures relays == [] && result == 0 && sends == 0 && sent == []
    {
      relays, result, sends, sent := [], 0, 0, [];
    }

    /** StartHostListener and StopHostListener. */
    method Send(message: Message, fails: nat -> bool) returns (ok: bool)
      modifies this`sends, this`sent
      ensures ok == !fails(old(sends)) && sends == old(sends) + 1
      ensures sent == if ok then old(sent) + [message] else old(sent)
    {
      ok := !fails(sends);
      sends := sends + 1;
      if ok {
        sent := sent + [message];
      }
    }

    /** One entry of the list of relays: kept, or stopped and dropped. */
    method VisitRelay(entry: SockAddr, sockets: seq<SockAddr>, kept: seq<SockAddr>, fails: nat -> bool)
      returns (kept': seq<SockAddr>)
      modifies this`result, this`sends, this`sent
      ensures Listeners(kept') ==
              Listeners(kept) + if ToListener(entry) in Listeners(sockets) then [ToListener(entry)] else []
      ensures old(sends) <= sends <= old(sends) + 1
      ensures result == if AllSent(fails, old(sends), sends) then old(result) else -1
      ensures AllSent(fails, old(sends), sends) ==> sends - old(sends) == |sent| - |old(sent)|
      ensures AllSent(fails, old(sends), sends) ==>
                sent == old(sent) + StopUnless(ToListener(entry) in Listeners(sockets), ToListener(entry))
    {
      kept' := kept;
      var found := Contains(sockets, entry);
      if found {
        ListenersSnoc(kept, entry);
        kept' := kept + [entry];
      } else {
        var ok := Send(Stop(ToListener(entry)), fails);
        if !ok {
          result := -1;
        }
      }
    }

    /** Stops and drops every relay whose address is no longer listed. */
    method StopGone(sockets: seq<SockAddr>, fails: nat -> bool)
      modifies this
      ensures old(sends) <= sends <= old(sends) + |old(relays)|
      ensures result == if AllSent(fails, old(sends), sends) then old(result) else -1
      ensures AllSent(fails, old(sends), sends) ==> sends - old(sends) == |sent| - |old(sent)|
      ensures Listeners(relays) == Select(old(Listeners(relays)), Listeners(sockets), true)
      ensures AllSent(fails, old(sends), sends) ==>
                sent == old(sent) + Stops(Select(old(Listeners(relays)), Listeners(sockets), false))
    {
      ghost var entries, listed, gone: seq<Listener> := relays, Listeners(sockets), [];
      var kept := [];
      var i := 0;
      while i < |relays|
        invariant 0 <= i <= |relays| && relays == entries && old(sends) <= sends <= old(sends) + i
        invariant result == if AllSent(fails, old(sends), sends) then old(result) else -1
        invariant AllSent(fails, old(sends), sends) ==> sends - old(sends) == |sent| - |old(sent)|
        invariant Listeners(kept) == Select(Listeners(entries[..i]), listed, true)
        invariant gone == Select(Listeners(entries[..i]), listed, false)
        invariant AllSent(fails, old(sends), sends) ==> sent == old(sent) + Stops(gone)
      {
        SelectStep(entries, i, listed, true);
        SelectStep(entries, i, listed, false);
        ghost var x := ToListener(entries[i]);
        StopsStep(old(sent), gone, x, x in listed);
        gone := gone + if x in listed then [] else [x];
        ghost var middle := sends;
        kept := VisitRelay(relays[i], sockets, kept, fails);
        AllSentJoins(fails, old(sends), middle, sends);
        i := i + 1;
      }
      assert entries[..i] == entries;
      relays := kept;
    }

    /** One listed address: started unless there is a relay for it. */
    method VisitSocket(socket: SockAddr, fails: nat -> bool)
      modifies this
      ensures old(sends) <= sends <= old(sends) + 1
      ensures result == if AllSent(fails, old(sends), sends) then old(result) else -1
      ensures AllSent(fails, old(sends), sends) ==> sends - old(sends) == |sent| - |old(sent)|
      ensures AllSent(fails, old(sends), sends) ==>
                var x, listeners := ToListener(socket), old(Listeners(relays));
                && Listeners(relays) == listeners + (if x in listeners then [] else [x])
                && sent == old(sent) + StartUnless(x in listeners, x)
    {
      var found := Contains(relays, socket);
      if !found {
        var ok := Send(Start(ToListener(socket)), fails);
        if !ok {
          result := -1;
        } else {
          ListenersSnoc(relays, socket);
          relays := relays + [socket];
        }
      }
    }

    /** Starts a relay for every listed address that has none. */
    method StartNew(sockets: seq<SockAddr>, fails: nat -> bool)
      modifies this
      ensures old(sends) <= sends <= old(sends) + |sockets|
      ensures result == if AllSent(fails, old(sends), sends) then old(result) else -1
      ensures AllSent(fails, old(sends), sends) ==> sends - old(sends) == |sent| - |old(sent)|
      ensures AllSent(fails, old(sends), sends) ==>
                var added := Added(old(Listeners(relays)), Listeners(sockets));
                Listeners(relays) == old(Listeners(relays)) + added && sent == old(sent) + Starts(added)
    {
      ghost var before, added: seq<Listener> := Listeners(relays), [];
      var i := 0;
      while i < |sockets|
        invariant 0 <= i <= |sockets| && old(sends) <= sends <= old(sends) + i
        invariant result == if AllSent(fails, old(sends), sends) then old(result) else -1
        invariant AllSent(fails, old(sends), sends) ==> sends - old(sends) == |sent| - |old(sent)|
        invariant added == Added(before, Listeners(sockets[..i]))
        invariant AllSent(fails, old(sends), sends) ==>
                    Listeners(relays) == before + added && sent == old(sent) + Starts(added)
      {
        AddStep(before, sockets, i);
        ghost var x := ToListener(sockets[i]);
        ghost var more := if x in before + added then [] else [x];
        StartsStep(old(sent), added, x, x in before + added);
        Associative(before, added, more);
        ghost var middle := sends;
        VisitSocket(sockets[i], fails);
        AllSentJoins(fails, old(sends), middle, sends);
        added := added + more;
        i := i + 1;
      }
      assert sockets[..i] == sockets;
    }

    /** One scan. */
    method Scan(sockets: seq<SockAddr>, fails: nat -> bool)
      modifies this
      ensures old(sends) <= sends <= old(sends) + |old(relays)| + |sockets|
      ensures result == if AllSent(fails, old(sends), sends) then old(result) else -1
      ensures AllSent(fails, old(sends), sends) ==> sends - old(sends) == |sent| - |old(sent)|
      ensures AllSent(fails, old(sends), sends) ==>
                && Listeners(relays) == Relays(old(Listeners(relays)), Listeners(sockets))
                && sent == old(sent) + Messages(old(Listeners(relays)), Listeners(sockets))
    {
      ghost var before, listed := Listeners(relays), Listeners(sockets);
      SplitMessages(sent, before, listed);
      StopGone(sockets, fails);
      ghost var middle := sends;
      StartNew(sockets, fails);
      AllSentJoins(fails, old(sends), middle, sends);
    }

    /** MonitorListeningSockets over a number of scans: it goes on while no send fails, and after the
        first scan in which one does it ends with -1. */
    method Run(scans: seq<seq<SockAddr>>, fails: nat -> bool) returns (completed: nat)
      requires relays == [] && result == 0 && sent == [] && sends == 0
      modifies this
      ensures completed <= |scans|
      ensures result == if AllSent(fails, 0, sends) then 0 else -1
      ensures result == 0 ==>
                && completed == |scans|
                && Listeners(relays) == RelaysAfter(Listings(scans)) && sent == MessagesAfter(Listings(scans))
      ensures result == -1 ==>
                && completed < |scans|
                && var sentBefore := |MessagesAfter(Listings(scans[..completed]))|;
                   && AllSent(fails, 0, sentBefore) && !AllSent(fails, sentBefore, sends)
                   && sends <= sentBefore + |RelaysAfter(Listings(scans[..completed]))| + |scans[completed]|
    {
      completed := 0;
      while completed < |scans|
        invariant 0 <= completed <= |scans| && result == 0 && AllSent(fails, 0, sends) && sends == |sent|
        invariant Listeners(relays) == RelaysAfter(Listings(scans[..completed]))
        invariant sent == MessagesAfter(Listings(scans[..completed]))
      {
        ghost var middle := sends;
        ScanStep(scans, completed);
        Scan(scans[completed], fails);
        AllSentJoins(fails, 0, middle, sends);
        if result < 0 {
          return;
        }
        completed := completed + 1;
      }
      assert scans[..completed] == scans;
    }
  }
}

# Verified models of the WSL guest's stateful cores

This project models the parts of the WSL guest (`src/linux`) that keep state across calls and threads, or
rewrite buffers in place, and proves what they promise. Check it with `dafny verify dfyconfig.toml` (Dafny 4.11).

**The port tracker** decides which guest ports the Windows host must hold. `PortKeys` is the ordering of port
keys and the listing of open sockets, `PortLedger` the exchange with the host and the tracked map, `CallInfo` the
decoding of a stopped call, `GnsPortTracker` the object with its loop. `TrackerSystem` puts the dispatcher, the
tracker and the lister next to each other as threads that take steps in any order; `SnapshotHandshake`,
`CallService` and `TrackerRuns` prove what holds over every run, and `TrackerGrace` when a port keeps the sixty
seconds it is given. `TrackerTurns` shows that the tracker thread, between two heads of its loop, does what one turn of
the object does. `WaitableValue` is the one-slot channel, with any number of threads; `TrackerChannels` shows that the
two slots between dispatcher and tracker are such channels.

**The DNS tunnelling server.** `DnsUdp` is the map of open requests and the list ordered by expiration,
`DnsUdpServer` the methods that change both, `DnsUdpRuns` every interleaving of the two threads. `DnsTcp` is the
incremental reader of length-prefixed messages (section 4.2.2 of RFC 1035).

**The seccomp filter.** `SeccompFilter` interprets the classic-BPF program and compares it with the registered
handlers and the decoder.

**String machines.** `CollapsePath` normalises a path backwards in place; `PathAgreement` compares it with the forward
normaliser of the distribution validator. `NtEscape` is the escaping of names for NT. `MountInfo`,
`MountInfoRoundTrip` and `MountInfoInPlace` are the mountinfo parser: a reference parser, the proof that it undoes
printing, and the parser that works in the line's buffer; `MountInfoLines` says which lines parse at all. `MountFlags`
parses mount options, and `MountOptions` says what each option means. `Segments`, `Sequences`, `CStrings`, `Words` and
`Wrappers` are shared vocabulary.

**Small cores.** `ListenerMonitor` reconciles host listeners with listening sockets, `StdinRelay` relays stdin
through a pipe that may not take everything, `ListEntry` is the intrusive circular list.

Some promises turned out to hold only under a condition. Each has a lemma with a concrete input that breaks it and a
lemma that says exactly when it holds:

- Collapsing a path and the forward normaliser differ on `/a/./..`, where the `.` pays for the `..`
  (`SwallowedDotExample`); they agree on an absolute path exactly when no `.` or empty segment stands where a later
  `..` takes it for a name, or the path climbs above its root (`AgreementIsExact`).
- A port tracked while a listing that shows it is under way can be released within its sixty seconds although no
  later listing showed it (`GraceExample`); it cannot exactly when no such listing is under way (`GraceIsKeptIff`),
  whether or not the clock is taken to run forwards.
- The key resolved for a bind to port 0 can differ from the key the socket has in a listing (`TwoFamiliesExample`); it
  is the socket's own exactly when its address is IPv6 or the last IPv6 address reported before it, if any, ended in
  twelve zero bytes (`ResolvesOwnKeyIff`).
- Unescaping undoes escaping exactly on paths that hold nothing that reads like an escape (`RoundTripIff`), and two
  paths share an escaped form exactly when they differ only in places that spell out an escape (`SameEscapeIff`,
  `CollidesIff`); `CollisionExample` breaks both.
- The filter and the decoder classify a 32-bit x86 call alike exactly when the upper half of its first argument is zero
  (`DecoderAgreesIff`, `WideArgumentExample`).
- DNS messages over TCP all arrive if none is empty (`MessagesArrive`); an empty one makes the reader ask for no bytes,
  which the server takes for a close, and nothing from it on is delivered (`EmptyMessageStops`, `EmptyMessageExample`).
- A UDP datagram is dropped exactly when one that came a positive multiple of 2^32 datagrams before it is still tracked
  (`DroppedIff`), as at the end of the run of `DropExample`; the first 2^32 of a run never are (`NoneDroppedEarly`).
- The relay of stdin gives up bytes it has read if poll fails while they are pending (`PollFailsExample`), or if the
  write that follows a read fails; a loop that has ended has delivered every byte read exactly if reading the socket
  failed, or poll failed with nothing pending (`AllDeliveredIff`).
- An escape in a name can decode to the terminator, and then whoever reads the name as a C string sees less of it
  (`CutExample`, `EscapedNulExample`); the whole decoding is seen exactly if the text holds no such escape (`SeenIff`,
  `FieldSeenIff`).

## Model

| member | source | states |
|---|---|---|
| PortKeys.LessIsStrictTotal | src/linux/init/GnsPortTracker.h:59-97 | The key ordering is a strict total order over port, family, protocol and address, so different allocations never share a map entry. |
| PortKeys.SortedIsSorted | src/linux/init/GnsPortTracker.cpp:251-308 | Visiting a set of keys in map order meets each key exactly once, in increasing order. |
| Words.NetworkOrder | src/linux/init/GnsPortTracker.cpp:205-221 | Two bytes spell a port if and only if the first is its high byte and the second its low byte. |
| PortKeys.AddDump | src/linux/init/GnsPortTracker.cpp:192-249 | Reading one socket dump adds exactly the keys of its sockets, and the port-and-protocol pairs stay the projection of the full keys. |
| PortKeys.ListAllocatedPorts | src/linux/init/GnsPortTracker.cpp:192-249 | A listing holds exactly the keys of the TCP and UDP sockets of both families, and its pairs are their projection. |
| PortKeys.ListedIff | src/linux/init/GnsPortTracker.cpp:192-249 | A key is listed if and only if a socket of its protocol has its port bytes, its family and its address, an IPv4 address being four bytes and twelve zeros. |
| PortKeys.PairListedIff | src/linux/init/GnsPortTracker.cpp:192-249 | Its port and protocol are listed if and only if a socket of its protocol has its port. |
| PortKeys.ActiveIff | src/linux/init/GnsPortTracker.cpp:263-280 | A listing keeps a port alive exactly for such a socket: by port and protocol in mirrored mode, by the whole allocation otherwise. |
| PortKeys.MirroredIsMoreCautious | src/linux/init/GnsPortTracker.cpp:263-279 | Mirrored mode, which compares pairs only, never finds a port closed that the full comparison finds open. |
| PortLedger.RequestConsistent | src/linux/init/GnsPortTracker.cpp:328-345 | Serving a request keeps the whole ledger invariant: alternation of grants and releases, tracked exactly between them, deadlines that come from the last tracking, every release justified. |
| PortLedger.RequestSettles | src/linux/init/GnsPortTracker.cpp:106-120 | A request is answered 0 if and only if its key is tracked afterwards, with a deadline 60 seconds ahead, the host having been asked unless it was tracked before; any other answer is the refusal of the host, which is logged and changes nothing. |
| PortLedger.ApplyConsistent | src/linux/init/GnsPortTracker.cpp:301-304 | Clearing the deadlines of the ports that a listing shows keeps the ledger invariant. |
| PortLedger.ReleaseHasReason | src/linux/init/GnsPortTracker.cpp:261-307 | A port released while a listing is applied is absent from it, and a listing applied since its last tracking showed it or it is past its deadline. |
| PortLedger.ReleaseAllConsistent | src/linux/init/GnsPortTracker.cpp:281-300 | Releasing any number of different releasable ports, one message each, keeps the ledger invariant. |
| PortLedger.RefreshConsistent | src/linux/init/GnsPortTracker.cpp:251-308 | Applying a whole listing keeps the ledger invariant. |
| PortLedger.ReleasedIff | src/linux/init/GnsPortTracker.cpp:251-308 | A tracked port survives a listing if and only if a socket reported for it uses the port, or no listing applied since its last tracking had such a socket and this one is not later than that tracking plus 60 seconds; told from the sockets and the history alone. |
| CallInfo.TrackedKeyIsListed | src/linux/init/GnsPortTracker.cpp:205-221 | The key read from the bytes of a caller's socket address is the key made of the bytes a listing reports for that socket, for both families, the ports being in network order in both. |
| CallInfo.ReadRequest | src/linux/init/GnsPortTracker.cpp:347-372 | Whatever fails while decoding, the call gets an answer under its own id; a request never has port 0 or a family other than IPv4 or IPv6, and never comes with a deferred lookup. |
| CallInfo.BindIff | src/linux/init/GnsPortTracker.cpp:374-461 | A bind carries a request if and only if the length is in range, the namespace is the tracker's, the memory is readable and names an IP socket with a port, and protocol and cookie are right; a lookup is left for later if and only if the port is 0 and the socket could be duplicated; the request is for what the bytes spell. |
| CallInfo.ListenIff | src/linux/init/GnsPortTracker.cpp:470-529 | A listen carries a request if and only if its socket can be inspected and already has an IP address and port, and a lookup is left for later if and only if it can be inspected and has none. |
| CallInfo.RequestedKeyIsListed | src/linux/init/GnsPortTracker.cpp:436-461 | A socket with the family, port and address bytes that were read has the key of the request in a listing, and keeps it alive there. |
| CallInfo.ResolvePortZeroBind | src/linux/init/GnsPortTracker.cpp:667-736 | A port is found exactly if one of the first 25 answers settles it; the key has that answer's port and family, and it is the socket's own exactly if the address is IPv6 or the last IPv6 address reported before it, if any, ended in twelve zero bytes. |
| CallInfo.ResolvesOwnKeyIff | src/linux/init/GnsPortTracker.cpp:679-724 | The address buffer kept between attempts spoils the key exactly in the remaining case. |
| CallInfo.TwoFamiliesExample | src/linux/init/GnsPortTracker.cpp:679-724 | A socket that reports an IPv6 address and then an IPv4 address and port is tracked under a key it never has in a listing. |
| GnsPortTracker.ServeConsistent | src/linux/init/GnsPortTracker.cpp:106-160 | Serving a bind, a listen or a bind to port 0, with any replies of the host, keeps the ledger invariant. |
| GnsPortTracker.Tracker.constructor | src/linux/init/GnsPortTracker.cpp:82-92 | The loop starts with nothing tracked and the first future held. |
| GnsPortTracker.Tracker.RequestPort | src/linux/init/GnsPortTracker.cpp:310-326 | Exactly one message goes to the host, and its reply is the result. |
| GnsPortTracker.Tracker.HandleRequest | src/linux/init/GnsPortTracker.cpp:328-345 | A port already tracked is granted without asking; otherwise the host decides. |
| GnsPortTracker.Tracker.TrackPort | src/linux/init/GnsPortTracker.cpp:655-665 | The port is tracked with a deadline 60 seconds ahead; the rest of the state is unchanged. |
| GnsPortTracker.Tracker.VisitPort | src/linux/init/GnsPortTracker.cpp:261-307 | A port is released exactly if it is not listed and its deadline is cleared or past; a listed port loses its deadline; no other port changes. |
| GnsPortTracker.Tracker.OnRefreshAllocatedPorts | src/linux/init/GnsPortTracker.cpp:251-308 | The loop that erases as it goes computes the one-step refresh of the ledger, messages included. |
| GnsPortTracker.Tracker.ServeCall | src/linux/init/GnsPortTracker.cpp:106-160 | The answer is 0 exactly if the key is tracked afterwards, and otherwise the refusal of the host, which changes nothing else; a call without a request is answered 0; a port found late is what polling the socket comes to, never 0, and is settled in the same way. |
| GnsPortTracker.Tracker.TakeListing | src/linux/init/GnsPortTracker.cpp:163-177 | A listing that is ready is taken, and applied exactly if this turn served no call. |
| GnsPortTracker.Tracker.ResumeLister | src/linux/init/GnsPortTracker.cpp:178-188 | The lister goes on, with a new future, exactly if a listing is held and a port is tracked. |
| GnsPortTracker.Tracker.Turn | src/linux/init/GnsPortTracker.cpp:82-190 | One turn answers exactly a call it was given, with the answer that settles its request; it applies a delivered listing exactly if it served no call, resumes the lister exactly if a listing is held and ports are tracked, and afterwards holds a future or a listing but not both; it goes from one loop head to the next as the turns of the tracker thread do. |
| SnapshotHandshake.HandshakeStep | src/linux/init/GnsPortTracker.cpp:43-190 | Every step of every thread keeps the handshake invariant. |
| SnapshotHandshake.HandshakeHolds | src/linux/init/GnsPortTracker.cpp:43-190 | The invariant holds in every reachable state. |
| SnapshotHandshake.HandshakeIsSafe | src/linux/init/GnsPortTracker.cpp:43-73 | In every interleaving, at the head of the loop exactly one of future and un-resumed listing is held; no promise is set twice, no future taken twice. |
| SnapshotHandshake.EachHandOverHappensOnce | src/linux/init/GnsPortTracker.cpp:163-188 | Deliveries, takes and resumes follow one another round by round and none repeats; a listing starts only at the beginning or after a resume. |
| CallService.CallInvariantHolds | src/linux/init/GnsPortTracker.cpp:75-131 | The invariant tying dispatcher, tracker and the two channels holds in every reachable state. |
| CallService.EachCallGetsItsOwnAnswer | src/linux/init/SecCompDispatcher.cpp:77-152 | In every run notifications are answered in order, each under its id with the negated result computed for that call, and the call goes on exactly if that is 0; at most one is outstanding; posting a call or a reply never blocks. |
| CallService.EveryAnswerIsEarned | src/linux/init/GnsPortTracker.cpp:94-131 | In every run each result goes back to one step for that very call: a tracker call without a request got 0 and left the ledger alone, one with a request got what settles it, told by map and history; only other calls are answered elsewhere. |
| CallService.NeverStuck | src/linux/init/GnsPortTracker.cpp:75-131 | In every reachable state the thread whose turn it is can take a step, so the pair cannot deadlock. |
| CallService.RankFalls | src/linux/init/GnsPortTracker.cpp:75-190 | Each step of the responsible thread brings an outstanding call closer to its answer, and no step of another thread sets it back. |
| CallService.AnsweredWithinTwelveTurns | src/linux/init/SecCompDispatcher.cpp:77-152 | An outstanding call is answered before the responsible threads have taken thirteen steps. |
| TrackerRuns.LedgerHolds | src/linux/init/GnsPortTracker.cpp:82-190 | The ledger invariant holds in every run. |
| TrackerRuns.GrantsAndReleasesAlternate | src/linux/init/GnsPortTracker.cpp:106-160 | Over every run, granted allocations and releases of a key alternate starting with a grant, the key is tracked exactly between the two, and no tracked key has port 0. |
| TrackerRuns.EveryReleaseHasAReason | src/linux/init/GnsPortTracker.cpp:261-307 | Over every run, each release message follows a listing that lacks the port; a listing applied since its last tracking showed it, or its deadline is strictly before the listing. |
| TrackerRuns.FlagStep | src/linux/init/GnsPortTracker.cpp:94-177 | In every step of every thread, the condition that decides whether a listing is applied says whether this turn of the loop has served a call. |
| TrackerRuns.OnlyQuietListingsAreApplied | src/linux/init/GnsPortTracker.cpp:163-177 | Over every run, the listings applied are exactly those taken in turns in which no call was served since the loop head, in order. |
| TrackerTurns.OthersStayInTurn | src/linux/init/GnsPortTracker.cpp:43-80 | No step of the dispatcher or the lister moves a turn of the tracker on or sets it back. |
| TrackerTurns.TurnStep | src/linux/init/GnsPortTracker.cpp:94-190 | Each step of the tracker thread is one more part of the turn it is in, and the step that ends the turn leaves ledger, future and held listing as one turn of the object does. |
| TrackerTurns.RunIsTurns | src/linux/init/GnsPortTracker.cpp:82-190 | In every run the states at the loop heads follow one another as turns of the object, from the state it starts in, with the calls, replies and listings that the run brought in between. |
| TrackerGrace.NoStaleStep | src/linux/init/GnsPortTracker.cpp:163-188 | Once no listing read before a tracking can still clear that port's deadline, no step of any thread brings one back. |
| TrackerGrace.EarlyMeansFresh | src/linux/init/GnsPortTracker.cpp:251-307 | Then a release within the sixty seconds comes after a listing that was read since the tracking and showed the port. |
| TrackerGrace.StaleSightingBreaksGrace | src/linux/init/GnsPortTracker.cpp:251-307 | A listing read before the tracking that shows the port clears its deadline, and the next listing without it releases it at once. |
| TrackerGrace.GraceCanBreak | src/linux/init/GnsPortTracker.cpp:82-190 | From every reachable state that has just tracked a port while such a listing is under way, a run goes on to release it hastily, without setting the clock back. |
| TrackerGrace.TrackedWhileListingBreaks | src/linux/init/GnsPortTracker.cpp:82-190 | So every run that ends in such a tracking, with a clock that runs forwards if it did, can be prolonged to one that breaks the grace period. |
| TrackerGrace.GraceIsKeptIff | src/linux/init/GnsPortTracker.cpp:167-172 | However a run goes on after a tracking, the port is not released within sixty seconds before a listing read since showed it, if and only if no listing that shows it was under way at the tracking; the same with only the runs whose clock never goes back. |
| TrackerGrace.GraceExample | src/linux/init/GnsPortTracker.cpp:167-172 | A run, with a clock that never goes back, in which a listening socket on port 80 loses its grace period. |
| WaitableValue.Channel.TryPost | src/linux/init/waitablevalue.h:24-38 | A value is stored exactly if the slot is empty; nothing posted before is overwritten; the object changes as the slot of the monitor does. |
| WaitableValue.Channel.TryTake | src/linux/init/waitablevalue.h:40-74 | Taking gives the slot's contents, if any, and empties it, as in the monitor. |
| WaitableValue.CheckIsOnePass | src/linux/init/waitablevalue.h:24-74 | What a thread of the monitor does with the lock held is one pass of the object's method, and no other step touches slot or history. |
| WaitableValue.EndsOnlyWhenDone | src/linux/init/waitablevalue.h:24-74 | A call returns only after its value is stored, or a value is taken or, for try_get alone, its time is up; until then the thread goes on with the same call. |
| WaitableValue.StepKeepsInvariant | src/linux/init/waitablevalue.h:24-74 | Every step of any thread, waking and timing out included, keeps conservation and the sleeping threads' reasons. |
| WaitableValue.NothingLostOrDuplicated | src/linux/init/waitablevalue.h:24-74 | For any number of threads, the values posted are the values taken followed by the slot's contents. |
| WaitableValue.NoLostWakeUp | src/linux/init/waitablevalue.h:24-74 | A poster and a taker are never both asleep. |
| TrackerChannels.RequestStep | src/linux/init/GnsPortTracker.cpp:75-80 | Each step of the threads is, for the request slot, a series of steps of the one-slot channel, timeouts after a wake-up included. |
| TrackerChannels.ReplyStep | src/linux/init/GnsPortTracker.cpp:75-80 | The same for the reply slot. |
| TrackerChannels.SlotsAreChannels | src/linux/init/GnsPortTracker.cpp:75-80 | Every run of the threads comes from a run of the request channel and one of the reply channel with these two users. |
| TrackerChannels.RequestUseIsCovered | src/linux/init/GnsPortTracker.cpp:75-80 | Conversely, every step that the monitor of the request slot can take with the dispatcher and the tracker as its users is taken by some steps of these threads. |
| TrackerChannels.ReplyUseIsCovered | src/linux/init/GnsPortTracker.cpp:75-80 | The same for the reply slot. |
| TrackerChannels.RequestStaysAt | src/linux/init/GnsPortTracker.cpp:75-80 | A step of the threads that does not use the request slot leaves its monitor where it is. |
| TrackerChannels.ReplyStaysAt | src/linux/init/GnsPortTracker.cpp:75-80 | The same for the reply slot. |
| DnsUdp.NoIdTwice | src/linux/init/DnsServer.h:112-123 | In a linked table no id is listed twice. |
| DnsUdp.TrackKeepsLinked | src/linux/init/DnsServer.cpp:401-424 | Tracking a datagram, or dropping it on a wrapped id, keeps map and list in bijection. |
| DnsUdp.CloseKeepsLinked | src/linux/init/DnsServer.cpp:109-142 | Closing a request, answered or rolled back, keeps the bijection; an untracked id is no exception. |
| DnsUdp.ExpireKeepsLinked | src/linux/init/DnsServer.cpp:306-323 | The expiry loop keeps the bijection. |
| DnsUdp.ExpiryIsExact | src/linux/init/DnsServer.cpp:306-323 | After a pass at a time, exactly the requests that expire later remain, with their contexts, still sorted. |
| DnsUdp.TimeoutIsExact | src/linux/init/DnsServer.cpp:306-323 | The timeout is -1 exactly if nothing is tracked, and otherwise the least number of whole milliseconds that reaches the earliest expiration, between 1 and 60000. |
| DnsUdp.TrackLivesOnce | src/linux/init/DnsServer.cpp:401-424 | Tracking keeps every other request's history and gives the new one its address and expiration. |
| DnsUdp.EndLivesOnce | src/linux/init/DnsServer.cpp:109-142 | A request ends once: answered at its recorded address, expired no earlier than its expiration, or rolled back. |
| DnsUdp.ExpireLivesOnce | src/linux/init/DnsServer.cpp:306-323 | Expiry ends each expired request once and leaves the rest alive. |
| DnsUdpRuns.InvariantStep | src/linux/init/DnsServer.cpp:109-142 | Every step of both threads keeps the table sound, and the id being tunnelled is the call's own entry. |
| DnsUdpRuns.InvariantHolds | src/linux/init/DnsServer.cpp:375-448 | That holds in every reachable state. |
| DnsUdpRuns.MapAndListAgree | src/linux/init/DnsServer.cpp:375-448 | In every interleaving of requests, responses, expiry and rollback, each entry's iterator is the one list node with its id, no id is listed twice, and the list is sorted by expiration. |
| DnsUdpRuns.AnsweredAtMostOnce | src/linux/init/DnsServer.cpp:109-142 | Over every run a tracked request ends at most once, and is answered only at its recorded address. |
| DnsUdpRuns.ResponseEndsIt | src/linux/init/DnsServer.cpp:109-142 | In every run an answer to a tracked id ends that request, at the address its datagram came from, and leaves no entry and no node of that id; an answer to any other id changes nothing. |
| DnsUdpRuns.NumberedHolds | src/linux/init/DnsServer.cpp:401-402 | In every run the next id is the number of datagrams so far modulo 2^32, and each tracked request has the number of its datagram as its id. |
| DnsUdpRuns.DroppedIff | src/linux/init/DnsServer.cpp:401-424 | In every run a datagram is tracked under its number, with its address, for sixty seconds, and tunnelled, unless one that came a positive multiple of 2^32 before it is still tracked; then, and only then, it is dropped. |
| DnsUdpRuns.NoneDroppedEarly | src/linux/init/DnsServer.cpp:401-424 | The first 2^32 datagrams of a run are all tracked. |
| DnsUdpRuns.DropExample | src/linux/init/DnsServer.cpp:401-424 | A run of 2^32 datagrams, of which only the first waits for its answer, after which the next is dropped. |
| DnsUdpRuns.OnlyAnsweredStep | src/linux/init/DnsServer.cpp:375-448 | No step of either thread ends the request being tunnelled in another way than by an answer: expiry does not run meanwhile. |
| DnsUdpRuns.TrackedIffUnanswered | src/linux/init/DnsServer.cpp:426-446 | While a request is tunnelled its id is tracked if and only if it has not been answered. |
| DnsUdpRuns.RollBackTakesBackItsOwn | src/linux/init/DnsServer.cpp:426-446 | A failed tunnel leaves everything as it is if and only if the request of that very call has ended, which can only be by an answer; otherwise it takes that request back. |
| DnsUdpServer.UdpServer.constructor | src/linux/init/DnsServer.h:112-123 | The server starts with an empty map and list. |
| DnsUdpServer.UdpServer.TrackRequest | src/linux/init/DnsServer.cpp:375-424 | A received datagram moves the id on by one, modulo 2^32, and is tracked under the old one; on a tracked id it is dropped and map and list are unchanged. |
| DnsUdpServer.UdpServer.TakeBack | src/linux/init/DnsServer.cpp:426-446 | The rollback erases map entry and list node together, if the id is still tracked, and says so in the history. |
| DnsUdpServer.SendResponse | src/linux/init/DnsServer.cpp:130-140 | The loop around sendto gives each call what the calls before it left, until nothing is left or one fails. |
| DnsUdpServer.SentInOrder | src/linux/init/DnsServer.cpp:130-140 | The bytes of the datagrams sent are the answer from its beginning, as far as the calls took it; none is sent twice or skipped. |
| DnsUdpServer.WholeAnswerIff | src/linux/init/DnsServer.cpp:130-140 | All of the answer is sent if and only if the calls before the first failure take as much, and it is sent as one datagram if and only if it is not empty and the first call takes it all. |
| DnsUdpServer.UdpServer.HandleResponse | src/linux/init/DnsServer.cpp:109-142 | The answer goes to the recorded address exactly if the id is tracked, and the request is over however the sending ends; otherwise nothing changes and nothing is sent. |
| DnsUdpServer.UdpServer.ExpireAndGetTimeout | src/linux/init/DnsServer.cpp:306-323 | Exactly the expired requests go, and the timeout is in range and -1 exactly if none is left. |
| DnsTcp.OnData | src/linux/init/DnsServer.cpp:208-279 | The reader's buffer and offset stay sound whatever arrives. |
| DnsTcp.ClosesIff | src/linux/init/DnsServer.cpp:230-234 | A connection is given up exactly by a read of no bytes. |
| DnsTcp.Connection.constructor | src/linux/init/DnsServer.h:43-63 | A connection starts with room for a length field. |
| DnsTcp.Connection.HandleNewTcpData | src/linux/init/DnsServer.cpp:208-279 | The method on buffer and offset moves as the reader does, and emits the request it completes. |
| DnsTcp.CutLosesNothing | src/linux/init/DnsServer.cpp:208-279 | Cutting bytes into frames, the reference reader, loses no byte. |
| DnsTcp.FrameLayout | src/linux/init/DnsServer.cpp:208-279 | A frame is the length with its high byte first, and then the message. |
| DnsTcp.CutResumes | src/linux/init/DnsServer.cpp:208-279 | Cutting can stop anywhere and go on with the remainder. |
| DnsTcp.CutUndoesFraming | src/linux/init/DnsServer.cpp:208-279 | Cutting is the inverse of putting a length in front of non-empty messages. |
| DnsTcp.ReadIsCut | src/linux/init/DnsServer.cpp:208-279 | One read moves the reader on exactly as cutting the longer remainder does. |
| DnsTcp.RequestsAreTheFrames | src/linux/init/DnsServer.cpp:208-279 | However the stream is split into reads, the requests emitted are the frames of the bytes received, in order. |
| DnsTcp.NothingIsLost | src/linux/init/DnsServer.cpp:208-279 | At every step, bytes emitted followed by the filled part of the buffer are the bytes received. |
| DnsTcp.SplitDoesNotMatter | src/linux/init/DnsServer.cpp:208-279 | Two ways of splitting the same bytes leave the same reader and the same requests. |
| DnsTcp.StuckIffEmptyFrame | src/linux/init/DnsServer.cpp:208-230 | The reader asks for no bytes, and takes that for a close, exactly if it has reached an empty frame. |
| DnsTcp.MessagesArrive | src/linux/init/DnsServer.cpp:208-279 | A stream of non-empty messages comes out message by message, and no prefix leaves the reader asking for nothing. |
| DnsTcp.EmptyMessageStops | src/linux/init/DnsServer.cpp:208-279 | However a stream with an empty message is split, only messages before the first empty one are delivered; the reader asks for nothing exactly when it has read up to the end of that message's length field, has then delivered all of them, and no further read is possible. |
| DnsTcp.EmptyMessageExample | src/linux/init/DnsServer.cpp:208-230 | A zero-length message leaves the reader asking for nothing. |
| SeccompFilter.AcceptedReturns | src/linux/init/main.cpp:3806-3867 | A program whose jumps stay inside and that ends in a return reaches a return from wherever it is entered. |
| SeccompFilter.FilterAccepted | src/linux/init/main.cpp:3806-3867 | Both builds of the filter are such programs. |
| SeccompFilter.RunBehind | src/linux/init/main.cpp:3806-3867 | A block placed behind another runs as it would alone. |
| SeccompFilter.DataLayout | src/linux/init/main.cpp:101-103 | The offsets the program loads from are those of the number, the architecture, the instruction pointer and the halves of the six arguments. |
| SeccompFilter.NativeHead | src/linux/init/main.cpp:3806-3834 | The first instructions send a 64-bit call to the comparisons, and any other past the block. |
| SeccompFilter.SixtyFourBitIff | src/linux/init/main.cpp:3806-3834 | What they test is the highest bit of the architecture. |
| SeccompFilter.NativeBlockComposes | src/linux/init/main.cpp:3806-3834 | The 64-bit block settles every 64-bit call and hands every other call to whatever block follows, with no offset depending on it. |
| SeccompFilter.CompatBlockDecides | src/linux/init/main.cpp:3836-3866 | The 32-bit block notifies exactly for the intended compat calls. |
| SeccompFilter.FilterNotifiesExactly | src/linux/init/main.cpp:3806-3867 | On every input the filter ends in bounds and notifies exactly for bind, listen and the interface ioctl. |
| SeccompFilter.EveryNotifiedCallHasItsHandler | src/linux/init/localhost.cpp:485-524 | Every call that is stopped has a handler registered under its number, and the right one. |
| SeccompFilter.DecoderAgreesIff | src/linux/init/GnsPortTracker.cpp:531-583 | The decoder takes a stopped call for what the filter stopped it for exactly if a 32-bit x86 caller's first argument is zero-extended. |
| SeccompFilter.WideArgumentExample | src/linux/init/GnsPortTracker.cpp:531-583 | A 32-bit bind with a bit set above the lower half of that argument is stopped as a bind and decoded as something else. |
| CollapsePath.MemRChr | src/linux/init/wslpath.cpp:191-197 | The last separator in front of a position, or none. |
| CollapsePath.SegmentTests | src/linux/init/wslpath.cpp:202-212 | The tests on length and characters recognise exactly the ".." segments, and exactly the "." and empty ones. |
| CollapsePath.SweepSegment | src/linux/init/wslpath.cpp:188-227 | One turn of the backward loop keeps the buffer in step with the reference sweep, touching nothing past the terminator. |
| CollapsePath.RemoveSegment | src/linux/init/wslpath.cpp:210-224 | Moving the tail down takes out one segment and the ".." segments that owed it, and nothing else. |
| CollapsePath.CollapseInPlace | src/linux/init/wslpath.cpp:159-228 | The in-place loop ends with the reference result or with the error, stays within the buffer, and leaves everything past the original terminator alone. |
| PathAgreement.DebtIsLargestClimb | src/linux/init/wslpath.cpp:188-227 | The debt counter is the largest number of levels that some prefix of the remaining segments climbs. |
| PathAgreement.FailsIffOverdrawn | src/linux/init/wslpath.cpp:188-227 | Collapsing fails exactly on a path that climbs above its first piece. |
| PathAgreement.CollapsedPieces | src/linux/init/wslpath.cpp:188-227 | A collapsed path is the untouched head, then names only, then at most one empty piece after a trailing separator. |
| PathAgreement.NoDotSegmentsLeft | src/linux/init/wslpath.cpp:188-227 | After the first separator no ".", ".." or interior empty segment is left. |
| PathAgreement.CollapseIsIdempotent | src/linux/init/wslpath.cpp:188-227 | Collapsing a collapsed path changes nothing. |
| PathAgreement.LinuxRealPath | distributions/validate-modern.py:307-325 | The loop that appends and deletes computes the forward stack normalisation. |
| PathAgreement.RealPathIsNormal | distributions/validate-modern.py:307-325 | The forward normaliser keeps a path absolute or relative, leaves names only, and changes nothing the second time. |
| PathAgreement.ForwardIsFairSweep | distributions/validate-modern.py:307-325 | The forward stack equals a backward sweep that never charges noise segments, and underflows exactly if that sweep ends in debt. |
| PathAgreement.SweepBalance | src/linux/init/wslpath.cpp:188-227 | Each swallowed segment leaves one name too many or one debt too few; without one, both sweeps are equal. |
| PathAgreement.AgreementIsExact | src/linux/init/wslpath.cpp:188-227 | On absolute paths the two normalisers agree, up to a trailing separator, if and only if no "." or empty segment is swallowed or the path climbs above the root. |
| PathAgreement.SwallowedDotExample | src/linux/init/wslpath.cpp:188-227 | `/a/./..` collapses to `/a/`, and the two disagree. |
| NtEscape.EscapeDecodes | src/linux/init/escape.cpp:27-156 | Every character that needs an escape reads back from it. |
| NtEscape.EscapeIsUtf8 | src/linux/init/escape.cpp:196-253 | An escape is the encoding, as in section 3 of RFC 3629, of U+F000 plus the character. |
| NtEscape.TakenForEscapeIff | src/linux/init/escape.cpp:298-340 | The unescaper takes three bytes for an escape if and only if the first is 0xEF, the others have the high bit set, and their low bits spell a character that NTFS forbids. |
| NtEscape.EscapedIsNtPath | src/linux/init/escape.cpp:27-253 | Apart from its separators, an escaped path holds no character that NTFS forbids. |
| NtEscape.UnchangedIff | src/linux/init/escape.cpp:27-253 | A path is escaped with nothing but its separators changed if and only if NTFS allows all the rest of it. |
| NtEscape.UnescapeNext | src/linux/init/escape.cpp:298-340 | What one character of a path reads back as from the escaped path. |
| NtEscape.RoundTripIff | src/linux/init/escape.cpp:196-340 | Unescaping the escaped path gives the path with NT separators if and only if the path holds nothing that reads like an escape. |
| NtEscape.RoundTripWithoutLead | src/linux/init/escape.cpp:196-340 | So it does for every path without the byte 0xEF. |
| NtEscape.EscapeIsInjective | src/linux/init/escape.cpp:196-253 | On paths that hold nothing the writer could have written, different paths have different escaped forms. |
| NtEscape.SameEscapeIff | src/linux/init/escape.cpp:196-253 | Any two paths share an escaped form if and only if they are the same once every spelled-out escape is replaced by its character. |
| NtEscape.CollidesIff | src/linux/init/escape.cpp:196-253 | A path shares its escaped form with another that is free of spelled-out escapes if and only if it holds one. |
| NtEscape.CollisionExample | src/linux/init/escape.cpp:196-340 | A colon and the three bytes of its escape share an escaped form, so the three bytes read back as the colon. |
| NtEscape.EscapedLength | src/linux/init/escape.cpp:255-296 | The sizing loop returns the length of the escaped path. |
| NtEscape.WriteEscaped | src/linux/init/escape.cpp:196-253 | One character is written in its escaped form, behind what is there. |
| NtEscape.EscapeInto | src/linux/init/escape.cpp:196-253 | The writer fills exactly that length and nothing behind it. |
| NtEscape.UnescapeInPlace | src/linux/init/escape.cpp:298-340 | On every input the memmove loop leaves one left-to-right decoding pass in the buffer, terminated, and nothing behind the old terminator changes; read as a C string, the buffer holds the whole decoding if and only if no escape in the text decodes to the terminator, and otherwise a prefix. |
| NtEscape.NulDecodedIff | src/linux/init/escape.cpp:298-340 | The decoding holds the terminator if and only if the text holds the escape of it where the pass comes by. |
| NtEscape.SeenIff | src/linux/init/escape.cpp:298-340 | A buffer that holds a terminated decoding shows all of it if and only if the text holds no such escape. |
| NtEscape.CutExample | src/linux/init/escape.cpp:298-340 | A name of two letters around such an escape is seen as its first letter only. |
| NtEscape.UnescapeOne | src/linux/init/escape.cpp:298-340 | One turn of that loop decodes or copies one character and keeps the rest readable. |
| MountInfo.NextToken | src/linux/mountutil/mountutil.c:166-182 | The next token is inside the text, free of the separator, and ends at one or at the end. |
| MountInfo.UnescapeUndoesEscape | src/linux/mountutil/mountutil.c:112-164 | Octal unescaping undoes the kernel's escaping of space, tab, newline and backslash, for every text. |
| MountInfo.OctalReads | src/linux/mountutil/mountutil.c:112-164 | Every eight-bit character reads back from three octal digits, and a backslash in front of anything else stays. |
| MountInfoRoundTrip.AtoiDecimal | src/linux/mountutil/mountutil.c:220-226 | A printed number reads back, and no value on the way exceeds it, so a number that fits an int never overflows. |
| MountInfoRoundTrip.AtoiReads | src/linux/mountutil/mountutil.c:220-226 | atoi reads white space, perhaps a sign, and a number, whatever follows it. |
| MountInfo.MakeDevKeepsBoth | src/linux/mountutil/mountutil.c:200-202 | A device number keeps major and minor number apart, for all 32-bit values. |
| MountInfo.MakeDevLayout | src/linux/mountutil/mountutil.c:200-202 | Small numbers have the old layout of a device, and a negative int counts from the top of the unsigned range. |
| MountInfoRoundTrip.DeviceReads | src/linux/mountutil/mountutil.c:185-208 | A printed device reads back as its device number. |
| MountInfoRoundTrip.OptionalSkipped | src/linux/mountutil/mountutil.c:248-255 | Any number of optional fields is skipped up to right behind the hyphen. |
| MountInfoRoundTrip.LaterFieldsKeepEarlier | src/linux/mountutil/mountutil.c:211-269 | Reading later fields leaves the earlier ones as recorded. |
| MountInfoRoundTrip.ParsingUndoesPrinting | src/linux/mountutil/mountutil.c:211-287 | For any number of optional fields, any non-empty values and any numbers that fit an int, with or without a final newline, the parsed entry has the values printed. |
| MountInfoLines.ParsesIff | src/linux/mountutil/mountutil.c:210-276 | A line parses if and only if a space divides it: in front of it, right behind a word, stand six words of which the third has a colon, any words but a hyphen, a hyphen and two words, with any number of spaces between them; behind it is something other than newlines. |
| MountInfoInPlace.UnescapeOctal | src/linux/mountutil/mountutil.c:142-164 | Three octal digits shifted into eight bits, or nothing; never reads past the terminator. |
| MountInfoInPlace.UnescapeOne | src/linux/mountutil/mountutil.c:122-135 | One turn keeps finished part, unread rest and result in step, and writes one character. |
| MountInfoInPlace.UnescapeField | src/linux/mountutil/mountutil.c:112-140 | The two-index loop leaves the one-pass decoding of the field in place, terminated, and touches nothing outside the field. |
| MountInfoInPlace.NulDecodedIff | src/linux/mountutil/mountutil.c:112-164 | A decoded field holds the terminator if and only if the field holds an octal escape whose eight bits are 0. |
| MountInfoInPlace.FieldSeenIff | src/linux/mountutil/mountutil.c:112-164 | A decoded field in the buffer is seen whole as a C string if and only if it does not, and otherwise as a prefix. |
| MountInfoInPlace.EscapedNulExample | src/linux/mountutil/mountutil.c:142-164 | `a\400b` decodes to a field with the terminator inside, because the first digit is shifted out of the eight bits. |
| MountInfoInPlace.Strtok | src/linux/mountutil/mountutil.c:166-182 | The tokeniser cuts off exactly the reference token, terminated in the buffer, with the rest of the line unread. |
| MountInfoInPlace.ReadDevice | src/linux/mountutil/mountutil.c:185-208 | Writing a terminator over the colon and reading both halves gives the reference device number, or the error. |
| MountInfoInPlace.SkipOptionalFields | src/linux/mountutil/mountutil.c:248-255 | The inner loop stops right behind the hyphen or at the end of the line, like the reference. |
| MountInfoInPlace.RecordField | src/linux/mountutil/mountutil.c:218-268 | Each case of the switch stores what the reference stores, and only the device case writes to the buffer. |
| MountInfoInPlace.TakeField | src/linux/mountutil/mountutil.c:214-269 | A field is recorded, or the reference fails too; strings recorded before stay untouched and do not overlap. |
| MountInfoInPlace.ReadFields | src/linux/mountutil/mountutil.c:211-276 | The loop returns the reference entry or fails with it, with every string standing terminated and no two overlapping. |
| MountInfoInPlace.ParseMountInfoLine | src/linux/mountutil/mountutil.c:210-287 | For every line the result is the reference result; the entry's strings stand in the buffer, root, source and mount point unescaped; nothing behind the line is touched. |
| MountInfoInPlace.StoredValuesArePrinted | src/linux/mountutil/mountutil.c:210-287 | After parsing a printed line in place, the buffer holds the original strings at the entry's positions. |
| MountFlags.NextToken | src/linux/mountutil/mountflags.cpp:112-128 | The token is free of separators and the view is token, separator and rest. |
| MountFlags.TokensOf | src/linux/mountutil/mountflags.cpp:137-145 | Taking a token off the view takes it off the list of non-empty tokens. |
| MountFlags.ParseFlags | src/linux/mountutil/mountflags.cpp:134-177 | The loop over the view folds the options over the non-empty tokens in order. |
| MountFlags.MountParseFlags | src/linux/mountutil/mountflags.cpp:134-177 | The same with the table of the source, whose meaning the lemmas of `MountOptions` give. |
| MountFlags.FoundIffListed | src/linux/mountutil/mountflags.cpp:82-108 | An option is found exactly if some entry has its name and, if it has a value, allows one. |
| MountFlags.OnlyUserTakesAValue | src/linux/mountutil/mountflags.cpp:51-108 | An option with a value is a flag exactly if its name is "user". |
| MountOptions.AloneLeaves | src/linux/mountutil/mountflags.cpp:51-78 | The flags that each of the 39 options leaves set when it is parsed alone; none leaves a string option, and only "nofail" sets NoFail. |
| MountOptions.RecognisedIff | src/linux/mountutil/mountflags.cpp:82-108 | An option is a flag if and only if its name is one of these and, if it has a value, is "user". |
| MountOptions.UserWithValue | src/linux/mountutil/mountflags.cpp:51-108 | Behind any options, "user" means the same with a value as without. |
| MountOptions.InverseUndoes | src/linux/mountutil/mountflags.cpp:35-78 | Behind any options, each of the 13 options with an inverse adds the flags it leaves alone, of which there are some, and its inverse clears exactly these. |
| MountFlags.BitIsLastTouch | src/linux/mountutil/mountflags.cpp:134-177 | A flag bit is set if and only if the last recognised option that touches it is a setter. |
| MountFlags.NoFailIffAsked | src/linux/mountutil/mountflags.cpp:134-177 | NoFail is set if and only if some option asks for it. |
| MountFlags.StringOptionsAreTheRest | src/linux/mountutil/mountflags.cpp:134-177 | The string options are the unrecognised tokens, in order, separated by commas. |
| MountFlags.ParseMeans | src/linux/mountutil/mountflags.cpp:134-177 | All three, for every option string. |
| MountFlags.ReparsingChangesNothing | src/linux/mountutil/mountflags.cpp:134-177 | Parsing the string options again gives them back, with no flags and no nofail. |
| ListenerMonitor.SameIffSameListener | src/linux/init/localhost.cpp:149-171 | Two addresses are the same exactly if the messages about them are. |
| ListenerMonitor.MessageNamesTheSocket | src/linux/init/localhost.cpp:105-124 | A message carries the family, the address and the port of the socket, an IPv4 address in the first word and the port in host order. |
| ListenerMonitor.Contains | src/linux/init/localhost.cpp:185-188 | The search finds an address exactly if its listener is among the entries'. |
| ListenerMonitor.RelaysAreTheSockets | src/linux/init/localhost.cpp:182-217 | After a scan the relays are free of duplicates and are the distinct addresses listed. |
| ListenerMonitor.MessagesAreTheChanges | src/linux/init/localhost.cpp:182-217 | The messages of a scan are one stop per address gone and one start per address new, even if the scan repeats itself. |
| ListenerMonitor.HostAgrees | src/linux/init/localhost.cpp:182-217 | A host that agreed with the relays before a scan agrees with relays and scan after it. |
| ListenerMonitor.RunAgrees | src/linux/init/localhost.cpp:174-230 | After every scan of a run without a failed send, relays, host and last scan agree. |
| ListenerMonitor.Monitor.Send | src/linux/init/localhost.cpp:125-147 | A message is delivered exactly if its send does not fail. |
| ListenerMonitor.Monitor.StopGone | src/linux/init/localhost.cpp:184-199 | The erase loop keeps exactly the listed relays in order; with no failed send it has stopped the others, one message each; any failure is remembered. |
| ListenerMonitor.Monitor.StartNew | src/linux/init/localhost.cpp:201-217 | With no failed send, the loop starts and adds each listed address without a relay once, in order. |
| ListenerMonitor.Monitor.Scan | src/linux/init/localhost.cpp:182-223 | A scan computes the relays and messages of the proofs, or remembers that a send failed. |
| ListenerMonitor.Monitor.Run | src/linux/init/localhost.cpp:174-230 | The loop goes on while no send fails and ends with -1 right after the scan in which one does: every send of the completed scans succeeded, and the failing one is among those of the next scan. |
| StdinRelay.StepKeeps | src/linux/init/init.cpp:1777-1872 | One iteration, with any results of poll, read and the two writes, keeps conservation. |
| StdinRelay.NothingLost | src/linux/init/init.cpp:1777-1872 | At every loop head bytes written followed by bytes pending are the bytes read; so they are when the loop has ended, except that a failed write right after a read leaves the bytes of that read out of both. |
| StdinRelay.AllDeliveredIff | src/linux/init/init.cpp:1777-1872 | When the loop has ended, every byte read has been written if and only if reading the socket failed, or poll failed with nothing pending; otherwise the bytes missing are exactly those pending, or those of the read whose write failed. |
| StdinRelay.PollFailsExample | src/linux/init/init.cpp:1803-1807 | A byte that found the pipe full is given up when poll fails in the next turn. |
| StdinRelay.ReadsExactlyWhenDrained | src/linux/init/init.cpp:1812-1820 | A ready socket is read exactly when nothing is pending, and what is read comes right behind what was written. |
| StdinRelay.ClosedWhenDelivered | src/linux/init/init.cpp:1822-1843 | Stdin is closed exactly by reading the end of the input, with every byte delivered, and afterwards nothing is read or written. |
| StdinRelay.EverythingIsDelivered | src/linux/init/init.cpp:1782-1800 | If the pipe keeps taking at least a byte, every byte read is written within as many turns as there are bytes. |
| StdinRelay.WritePending | src/linux/init/init.cpp:1782-1800 | A delayed write erases exactly the bytes it wrote; an error leaves them pending. |
| StdinRelay.Relay | src/linux/init/init.cpp:1777-1872 | The loop over its own variables computes the state the run lemmas are about. |
| ListEntry.InitializeListHead | src/linux/inc/lxdef.h:200-203 | The head alone is an empty list. |
| ListEntry.IsListEmpty | src/linux/inc/lxdef.h:205-208 | True exactly if the list has no members. |
| ListEntry.InsertTailList | src/linux/inc/lxdef.h:210-217 | An entry from outside becomes the last member; no member but the last one before is touched. |
| ListEntry.RemoveEntryList | src/linux/inc/lxdef.h:219-226 | Exactly that member goes, the others keep their order, and the result is true exactly if the list becomes empty. |
| ListEntry.WalkForward | src/linux/inc/lxdef.h:194-198 | Following the forward links from the head meets the members in order. |
| ListEntry.WalkBackward | src/linux/inc/lxdef.h:194-198 | Following the backward links meets them in reverse. |
| ListEntry.Apply | src/linux/inc/lxdef.h:210-226 | One insert or removal has its effect on the abstract sequence. |
| ListEntry.ApplyAll | src/linux/inc/lxdef.h:200-226 | Any sequence of inserts and removals leaves the list that it describes. |

## Left out

- TrackerSystem: the port found by polling is any port but 0; GnsPortTracker.Tracker.ServeCall ties it to the answers of the socket.
- Sockets, epoll, poll, ioctl, netlink and `/proc`: what they return is a parameter or a step that may happen with any value.
- Allocation failure and exceptions from the host channel: the host always replies, with any result.
- DnsUdpServer.SendResponse: takes the results of any finite number of calls; a sendto that takes nothing for ever, over which the source loops, is not told from one that stops.
- DnsUdpServer.UdpServer.TrackRequest: the clock is steady, so the time given to it is never before an earlier one.
- TCP connection ids and their wrap-around, connection acceptance and the forwarding of TCP responses.
- MountInfoRoundTrip.ParsingUndoesPrinting: numbers are limited to those an int holds, since atoi leaves others undefined.
- MountInfo: opening and reading the file, and skipping lines that do not parse.
- MountFlags: the mount call itself.
- ListenerMonitor.SameIffSameListener: addresses of other families end the process in the source and are not modelled.
- ListenerMonitor.Monitor.Run: takes any finite number of scans in place of the endless loop.
- StdinRelay.Relay: covers the stdin part of the relay loop only; the output relays, signals and terminal messages do not touch its variables.
- CallInfo: reading another process's memory and duplicating its socket are outcomes given to the decoder.
- SecCompDispatcher's buffer handling and its poll on a stop event.
- Configuration, boot sequence, cgroups, network rules, drive letters, environment blocks and file-descriptor wrappers: mostly calls into other code, with only easy members.

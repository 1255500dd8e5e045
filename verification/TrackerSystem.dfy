/**
  The threads around the port tracker, step by step: the seccomp dispatcher, which posts a
  call and waits for its answer; the tracker loop; and the thread that lists sockets. They
  share two one-slot channels, a promise that is replaced after every listing, and a resume
  signal. A run is any interleaving of their steps.
 */
module TrackerSystem {
  import opened Wrappers
  import opened PortKeys
  import opened PortLedger
  import opened CallInfo

  /** A seccomp notification; some system calls have a handler that does not involve the tracker. */
  datatype Call = Call(id: int, forTracker: bool)

  datatype Answer = Answer(id: int, result: int)

  /** What the kernel is told: continue the call exactly when the result is zero. */
  datatype Response = Response(id: int, error: int, resume: bool)

  function ToResponse(answer: Answer): (response: Response) {
    Response(answer.id, -answer.result, answer.result == 0)
  }

  datatype Dispatcher =
    | Idle
    | Posting(call: Call)
    | Awaiting(call: Call)
    | Direct(call: Call)
    | Responding(call: Call, result: int)

  datatype Tracker =
    | Start
    | Head
    | Waiting                                            // asleep in try_get
    | Handling(call: Call)
    | Replying(call: Call, result: int, deferred: bool)
    | Resolving
    | Polling(served: bool)
    | Taken(served: bool)                                // listing taken, promise not yet replaced
    | Applying(served: bool)
    | Checking
    | Resuming

  datatype Refresher = Listing | Delivering(snapshot: Snapshot) | AwaitingResume | Sleeping

  datatype Promise = Promise(generation: nat, value: Option<Snapshot>)

  datatype Signal = Deliver(round: int) | Take(round: int) | Resume(round: int)

  datatype State = State(
    dispatcher: Dispatcher, tracker: Tracker, refresher: Refresher,
    request: Option<Call>, reply: Option<int>,
    promise: Promise, future: Option<nat>, held: Option<Snapshot>, resumeSignalled: bool,
    ledger: Ledger,
    // histories
    received: seq<Call>, computed: seq<Answer>, responses: seq<Response>,
    signals: seq<Signal>, futures: seq<nat>, listings: seq<nat>,
    delivered: seq<Snapshot>, taken: seq<(Snapshot, bool)>,
    handled: seq<int>, handledAtHead: nat)               // calls served, and how many at the last loop head

  ghost function Initial(mirrored: bool): (s: State) {
    State(Idle, Start, Listing, None, None, Promise(0, None), None, None, false, Empty(mirrored),
          [], [], [], [], [], [0], [], [], [], 0)
  }

  /** The steps, with what the environment decides in each. */
  datatype Step =
    | DReceive(call: Call)
    | DAnswerDirectly(result: int)
    | DPost
    | DTakeReply
    | DRespond
    | TBegin
    | TTryGet
    | TWake
    | TTimeout
    | THandle(caller: Caller, isListen: bool, addressLength: int, hostReply: int, now: int)
    | TReply
    | TResolve(found: Option<PortAllocation>, hostReply: int, now: int)
    | TPoll
    | TReplacePromise
    | TApply
    | TCheck
    | TResume
    | RList(ports: ActivePorts, timestamp: int)
    | RFail
    | RDeliver
    | RResumed
    | RWake

  datatype Actor = TheDispatcher | TheTracker | TheRefresher

  function ActorOf(step: Step): (actor: Actor) {
    match step
    case DReceive(_) | DAnswerDirectly(_) | DPost | DTakeReply | DRespond => TheDispatcher
    case RList(_, _) | RFail | RDeliver | RResumed | RWake => TheRefresher
    case _ => TheTracker
  }

  ghost predicate Can(s: State, step: Step) {
    match step
    case DReceive(_) => s.dispatcher.Idle?
    case DAnswerDirectly(_) => s.dispatcher.Direct?
    case DPost => s.dispatcher.Posting? && s.request.None?
    case DTakeReply => s.dispatcher.Awaiting? && s.reply.Some?
    case DRespond => s.dispatcher.Responding?
    case TBegin => s.tracker.Start?
    case TTryGet => s.tracker.Head?
    case TWake => s.tracker.Waiting? && s.request.Some?
    case TTimeout => s.tracker.Waiting?
    case THandle(caller, _, addressLength, _, _) =>
      s.tracker.Handling? && (caller.memory.Some? ==> |caller.memory.value| == addressLength)
    case TReply => s.tracker.Replying? && s.reply.None?
    case TResolve(found, _, _) => s.tracker.Resolving? && (found.Some? ==> found.value.port != 0)
    case TPoll => s.tracker.Polling?
    case TReplacePromise => s.tracker.Taken?
    case TApply => s.tracker.Applying? && s.held.Some?
    case TCheck => s.tracker.Checking?
    case TResume => s.tracker.Resuming?
    case RList(_, _) => s.refresher.Listing?
    case RFail => s.refresher.Listing?
    case RDeliver => s.refresher.Delivering?
    case RResumed => s.refresher.AwaitingResume? && s.resumeSignalled
    case RWake => s.refresher.Sleeping?
  }

  ghost function Do(s: State, step: Step): (s': State)
    requires Can(s, step)
  {
    match step
    case DReceive(call) =>
      s.(dispatcher := if call.forTracker then Posting(call) else Direct(call), received := s.received + [call])
    case DAnswerDirectly(result) =>
      s.(dispatcher := Responding(s.dispatcher.call, result),
         computed := s.computed + [Answer(s.dispatcher.call.id, result)])
    case DPost =>
      s.(dispatcher := Awaiting(s.dispatcher.call), request := Some(s.dispatcher.call))
    case DTakeReply =>
      s.(dispatcher := Responding(s.dispatcher.call, s.reply.value), reply := None)
    case DRespond =>
      s.(dispatcher := Idle,
         responses := s.responses + [ToResponse(Answer(s.dispatcher.call.id, s.dispatcher.result))])
    case TBegin =>
      GetFuture(s).(tracker := Head)
    case TTryGet =>
      if s.request.Some? then s.(tracker := Handling(s.request.value), request := None) else s.(tracker := Waiting)
    case TWake =>
      s.(tracker := Handling(s.request.value), request := None)
    case TTimeout =>
      s.(tracker := Polling(false))
    case THandle(caller, isListen, addressLength, hostReply, now) =>
      var call := ReadRequest(caller, isListen, addressLength, s.tracker.call.id);
      var (ledger, result) :=
        if call.request.Some? then Request(s.ledger, call.request.value, hostReply, now) else (s.ledger, 0);
      s.(tracker := Replying(s.tracker.call, result, call.portZeroBind.Some?), ledger := ledger,
         computed := s.computed + [Answer(call.callId, result)], handled := s.handled + [call.callId])
    case TReply =>
      s.(tracker := if s.tracker.deferred then Resolving else Polling(true), reply := Some(s.tracker.result))
    case TResolve(found, hostReply, now) =>
      s.(tracker := Polling(true),
         ledger := if found.Some? then Request(s.ledger, found.value, hostReply, now).0 else s.ledger)
    case TPoll =>
      if s.future.Some? && s.promise.value.Some? then
        s.(tracker := Taken(s.tracker.served), held := s.promise.value, future := None,
           signals := s.signals + [Take(s.future.value)],
           taken := s.taken + [(s.promise.value.value, |s.handled| > s.handledAtHead)])
      else s.(tracker := Checking)
    case TReplacePromise =>
      s.(tracker := Applying(s.tracker.served), promise := Promise(s.promise.generation + 1, None))
    case TApply =>
      s.(tracker := Checking, ledger := if s.tracker.served then s.ledger else Refresh(s.ledger, s.held.value))
    case TCheck =>
      if s.held.Some? && s.ledger.tracked != map[] then GetFuture(s).(tracker := Resuming)
      else s.(tracker := Head, handledAtHead := |s.handled|)
    case TResume =>
      s.(tracker := Head, held := None, resumeSignalled := true, signals := s.signals + [Resume(|s.taken| - 1)],
         handledAtHead := |s.handled|)
    case RList(ports, timestamp) => s.(refresher := Delivering(Snapshot(ports, timestamp, |s.ledger.log|)))
    case RFail => s.(refresher := Sleeping)
    case RDeliver =>
      s.(refresher := AwaitingResume, promise := s.promise.(value := Some(s.refresher.snapshot)),
         signals := s.signals + [Deliver(s.promise.generation)], delivered := s.delivered + [s.refresher.snapshot])
    case RResumed => s.(refresher := Sleeping, resumeSignalled := false)
    case RWake => s.(refresher := Listing, listings := s.listings + [|s.signals|])
  }

  ghost function GetFuture(s: State): (s': State) {
    s.(future := Some(s.promise.generation), futures := s.futures + [s.promise.generation])
  }

  /** The state after a run, if every step of it was possible when it was taken. */
  ghost function Run(mirrored: bool, steps: seq<Step>): (end: Option<State>) {
    if steps == [] then Some(Initial(mirrored))
    else
      var before := Run(mirrored, steps[..|steps| - 1]);
      var step := steps[|steps| - 1];
      if before.Some? && Can(before.value, step) then Some(Do(before.value, step)) else None
  }
}

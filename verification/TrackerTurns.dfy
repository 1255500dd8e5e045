/** Between two heads of its loop, the tracker thread does what one turn of the tracker object does. */
module TrackerTurns {
  import opened Wrappers
  import opened PortLedger
  import opened CallInfo
  import opened GnsPortTracker
  import opened TrackerSystem

  ghost function ViewOf(s: State): (v: View) {
    View(s.ledger, s.future.Some?, s.held)
  }

  /** How far the turn that began with this view has come, after what has happened in it. */
  ghost predicate InTurn(v: View, h: Happening, s: State) {
    match s.tracker
    case Start => false
    case Head | Waiting | Handling(_) => ViewOf(s) == v && h == NOTHING
    case Replying(call, result, deferred) =>
      && h.call.Some? && h.found.None? && h.call.value.callId == call.id && deferred == h.call.value.portZeroBind.Some?
      && ViewOf(s) == v.(ledger := Served(v, h).0) && Served(v, h).1 == Some(result)
    case Resolving => h.call.Some? && h.found.None? && ViewOf(s) == v.(ledger := Served(v, h).0)
                      && h.call.value.portZeroBind.Some?
    case Polling(served) => served == h.call.Some? && ViewOf(s) == v.(ledger := Served(v, h).0)
    case Taken(served) => served == h.call.Some? && TakenFrom(v, h, s)
    case Applying(served) => served == h.call.Some? && TakenFrom(v, h, s)
    case Checking => ViewOf(s) == Listed(v, h)
    case Resuming => ViewOf(s) == Listed(v, h).(futureHeld := true) && s.held.Some? && s.ledger.tracked != map[]
  }

  ghost predicate TakenFrom(v: View, h: Happening, s: State) {
    v.futureHeld && h.delivered.Some? && ViewOf(s) == View(Served(v, h).0, false, h.delivered)
  }

  /** What a step adds to what has happened in the turn. */
  ghost function Note(h: Happening, s: State, step: Step): (more: Happening)
    requires Can(s, step)
  {
    match step
    case THandle(caller, isListen, addressLength, hostReply, now) =>
      h.(call := Some(ReadRequest(caller, isListen, addressLength, s.tracker.call.id)), reply := hostReply, now := now)
    case TResolve(found, hostReply, now) => h.(found := found, laterReply := hostReply, later := now)
    case TPoll => h.(delivered := s.promise.value)
    case _ => h
  }

  /** The step that brings the tracker back to the head of its loop. */
  ghost predicate EndsTurn(s: State, step: Step)
    requires Can(s, step)
  {
    Do(s, step).tracker.Head? && !s.tracker.Head? && !s.tracker.Start?
  }

  lemma {:induction false} OthersLeaveView(h: Happening, s: State, step: Step)
    requires Can(s, step) && !ActorOf(step).TheTracker?
    ensures ViewOf(Do(s, step)) == ViewOf(s) && Do(s, step).tracker == s.tracker && Note(h, s, step) == h
  {
  }

  lemma {:induction false} OthersStayInTurn(v: View, h: Happening, s: State, step: Step)
    requires InTurn(v, h, s) && Can(s, step) && !ActorOf(step).TheTracker?
    ensures InTurn(v, h, Do(s, step)) && Note(h, s, step) == h && !EndsTurn(s, step)
  {
    OthersLeaveView(h, s, step);
  }

  /** The tracker is at the listing, after the wait for a request and its service. */
  predicate PastService(tracker: TrackerSystem.Tracker) {
    tracker.Polling? || tracker.Taken? || tracker.Applying? || tracker.Checking? || tracker.Resuming?
  }

  lemma {:induction false} ServiceStep(v: View, h: Happening, s: State, step: Step)
    requires InTurn(v, h, s) && Can(s, step) && ActorOf(step).TheTracker? && !PastService(s.tracker)
    ensures InTurn(v, Note(h, s, step), Do(s, step)) && !EndsTurn(s, step)
  {
  }

  lemma {:induction false} ListingStep(v: View, h: Happening, s: State, step: Step)
    requires InTurn(v, h, s) && Can(s, step) && ActorOf(step).TheTracker? && PastService(s.tracker)
    ensures if EndsTurn(s, step) then ViewOf(Do(s, step)) == AfterTurn(v, h)
            else InTurn(v, Note(h, s, step), Do(s, step))
  {
  }

  /** One step of the tracker is one more part of the turn, and the last one leaves what the turn leaves. */
  lemma {:induction false} TurnStep(v: View, h: Happening, s: State, step: Step)
    requires InTurn(v, h, s) && Can(s, step) && ActorOf(step).TheTracker?
    ensures if EndsTurn(s, step) then ViewOf(Do(s, step)) == AfterTurn(v, h)
            else InTurn(v, Note(h, s, step), Do(s, step))
  {
    if PastService(s.tracker) {
      ListingStep(v, h, s, step);
    } else {
      ServiceStep(v, h, s, step);
    }
  }

  /** The views at the heads of the loop so far, what happened in each turn between them, and what has
      happened since the last one. */
  datatype History = History(heads: seq<View>, turns: seq<Happening>, current: Happening)

  ghost function Record(k: History, s: State, step: Step): (longer: History)
    requires Can(s, step)
  {
    if s.tracker.Start? then
      if Do(s, step).tracker.Start? then k else History([ViewOf(Do(s, step))], [], NOTHING)
    else if EndsTurn(s, step) then History(k.heads + [ViewOf(Do(s, step))], k.turns + [k.current], NOTHING)
    else k.(current := Note(k.current, s, step))
  }

  ghost function HistoryOf(mirrored: bool, run: seq<Step>): (k: History)
    requires Run(mirrored, run).Some?
  {
    if run == [] then History([], [], NOTHING)
    else
      var before := run[..|run| - 1];
      Record(HistoryOf(mirrored, before), Run(mirrored, before).value, run[|run| - 1])
  }

  /** Each view is the one before it after one turn, from the one the tracker object starts with, and
      the present state is that of a turn begun with the last. */
  ghost predicate AreTurns(mirrored: bool, k: History, s: State) {
    && |k.heads| == |k.turns| + 1 && k.heads[0] == View(Empty(mirrored), true, None)
    && (forall i | 0 <= i < |k.turns| :: k.heads[i + 1] == AfterTurn(k.heads[i], k.turns[i]))
    && InTurn(k.heads[|k.turns|], k.current, s)
  }

  ghost predicate NotStarted(mirrored: bool, s: State) {
    s.tracker.Start? && s.ledger == Empty(mirrored) && s.held.None?
  }

  lemma {:induction false} StartStep(mirrored: bool, k: History, s: State, step: Step)
    requires NotStarted(mirrored, s) && Can(s, step)
    ensures NotStarted(mirrored, Do(s, step)) || AreTurns(mirrored, Record(k, s, step), Do(s, step))
  {
  }

  lemma {:induction false} RecordStep(mirrored: bool, k: History, s: State, step: Step)
    requires AreTurns(mirrored, k, s) && Can(s, step)
    ensures AreTurns(mirrored, Record(k, s, step), Do(s, step))
  {
    var v := k.heads[|k.turns|];
    if ActorOf(step).TheTracker? {
      TurnStep(v, k.current, s, step);
    } else {
      OthersStayInTurn(v, k.current, s, step);
    }
  }

  /** In every run, whatever the other threads do in between, the views at the loop heads follow one
      another turn by turn, as those of the tracker object do. */
  lemma {:induction false} RunIsTurns(mirrored: bool, run: seq<Step>)
    requires Run(mirrored, run).Some?
    ensures var s := Run(mirrored, run).value;
            NotStarted(mirrored, s) || AreTurns(mirrored, HistoryOf(mirrored, run), s)
  {
    if run != [] {
      var before := run[..|run| - 1];
      RunIsTurns(mirrored, before);
      var k, s := HistoryOf(mirrored, before), Run(mirrored, before).value;
      if NotStarted(mirrored, s) {
        StartStep(mirrored, k, s, run[|run| - 1]);
      } else {
        RecordStep(mirrored, k, s, run[|run| - 1]);
      }
    }
  }
}

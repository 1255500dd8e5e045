/**
  The two slots between dispatcher and tracker are channels: every run of the threads is, for each slot,
  a run of the one-slot channel with these two as its users.
 */
module TrackerChannels {
  import opened Wrappers
  import opened TrackerSystem
  import Channel = WaitableValue

  const DISPATCHER: nat := 0
  const TRACKER: nat := 1

  function ThreadOf<T>(m: Channel.Monitor<T>, t: nat): (thread: Channel.Thread<T>) {
    if t in m.threads then m.threads[t] else Channel.Idle
  }

  /** The request channel: the dispatcher posts, and the tracker may be asleep in try_get, or woken and
      not yet back. */
  ghost predicate IsRequest(m: Channel.Monitor<Call>, s: State) {
    && m.slot == s.request && ThreadOf(m, DISPATCHER) == Channel.Idle
    && ThreadOf(m, TRACKER) ==
       if !s.tracker.Waiting? then Channel.Idle
       else if s.request.Some? then Channel.Checking(Channel.TryGet, true)
       else Channel.Asleep(Channel.TryGet)
  }

  ghost predicate IsReply(m: Channel.Monitor<int>, s: State) {
    m.slot == s.reply && ThreadOf(m, DISPATCHER) == Channel.Idle && ThreadOf(m, TRACKER) == Channel.Idle
  }

  /** What a step of the threads does to the request channel. */
  ghost function OnRequest(s: State, step: Step): (steps: seq<Channel.Step<Call>>)
    requires Can(s, step)
  {
    match step
    case DPost => [Channel.Enter(DISPATCHER, Channel.Post(s.dispatcher.call)), Channel.Check(DISPATCHER)]
    case TTryGet => [Channel.Enter(TRACKER, Channel.TryGet), Channel.Check(TRACKER)]
    case TWake => [Channel.Check(TRACKER)]
    case TTimeout => [Channel.TimeOut(TRACKER)]
    case _ => []
  }

  ghost function OnReply(s: State, step: Step): (steps: seq<Channel.Step<int>>)
    requires Can(s, step)
  {
    match step
    case TReply => [Channel.Enter(TRACKER, Channel.Post(s.tracker.result)), Channel.Check(TRACKER)]
    case DTakeReply => [Channel.Enter(DISPATCHER, Channel.Get), Channel.Check(DISPATCHER)]
    case _ => []
  }

  ghost function Follow<T>(m: Channel.Monitor<T>, steps: seq<Channel.Step<T>>): (end: Option<Channel.Monitor<T>>)
    decreases |steps|
  {
    if steps == [] then Some(m)
    else if Channel.Can(m, steps[0]) then Follow(Channel.Do(m, steps[0]), steps[1..])
    else None
  }

  lemma {:induction false} FollowOne<T>(m: Channel.Monitor<T>, step: Channel.Step<T>)
    requires Channel.Can(m, step)
    ensures Follow(m, [step]) == Some(Channel.Do(m, step))
  {
  }

  lemma {:induction false} FollowTwo<T>(m: Channel.Monitor<T>, first: Channel.Step<T>, second: Channel.Step<T>)
    requires Channel.Can(m, first) && Channel.Can(Channel.Do(m, first), second)
    ensures Follow(m, [first, second]) == Some(Channel.Do(Channel.Do(m, first), second))
  {
    assert [first, second][1..] == [second];
    FollowOne(Channel.Do(m, first), second);
  }

  /** A call of an operation that looks at the slot at once. */
  lemma {:induction false} CallAtOnce<T>(m: Channel.Monitor<T>, t: nat, op: Channel.Operation<T>)
    returns (m': Channel.Monitor<T>)
    requires ThreadOf(m, t) == Channel.Idle
    ensures Follow(m, [Channel.Enter(t, op), Channel.Check(t)]) == Some(m')
    ensures var ready := op.Post? <==> m.slot.None?;
            && m'.slot == (if !ready then m.slot else if op.Post? then Some(op.v) else None)
            && ThreadOf(m', t) == (if ready then Channel.Idle else Channel.Asleep(op))
            && forall u | u != t :: ThreadOf(m', u) ==
                 if ready && ThreadOf(m, u).Asleep? then Channel.Checking(ThreadOf(m, u).op, true) else ThreadOf(m, u)
  {
    FollowTwo(m, Channel.Enter(t, op), Channel.Check(t));
    m' := Channel.Do(Channel.Do(m, Channel.Enter(t, op)), Channel.Check(t));
  }

  lemma {:induction false} RequestStep(m: Channel.Monitor<Call>, s: State, step: Step)
    requires IsRequest(m, s) && Can(s, step)
    ensures Follow(m, OnRequest(s, step)).Some? && IsRequest(Follow(m, OnRequest(s, step)).value, Do(s, step))
  {
    match step
    case DPost => var m' := CallAtOnce(m, DISPATCHER, Channel.Post(s.dispatcher.call));
    case TTryGet => var m' := CallAtOnce(m, TRACKER, Channel.TryGet);
    case TWake => FollowOne(m, Channel.Check(TRACKER));
    case TTimeout => FollowOne(m, Channel.TimeOut(TRACKER));
    case _ =>
  }

  lemma {:induction false} ReplyStep(m: Channel.Monitor<int>, s: State, step: Step)
    requires IsReply(m, s) && Can(s, step)
    ensures Follow(m, OnReply(s, step)).Some? && IsReply(Follow(m, OnReply(s, step)).value, Do(s, step))
  {
    match step
    case TReply => var m' := CallAtOnce(m, TRACKER, Channel.Post(s.tracker.result));
    case DTakeReply => var m' := CallAtOnce(m, DISPATCHER, Channel.Get);
    case _ =>
  }

  lemma {:induction false} RunOn<T>(steps: seq<Channel.Step<T>>, more: seq<Channel.Step<T>>)
    requires Channel.Run(steps).Some? && Follow(Channel.Run(steps).value, more).Some?
    ensures Channel.Run(steps + more) == Follow(Channel.Run(steps).value, more)
    decreases |more|
  {
    if more == [] {
      assert steps + more == steps;
    } else {
      var longer := steps + [more[0]];
      assert longer[..|steps|] == steps;
      RunOn(longer, more[1..]);
      assert longer + more[1..] == steps + more;
    }
  }

  /** Each run of the threads comes from a run of the request channel and one of the reply channel. */
  lemma {:induction false} SlotsAreChannels(mirrored: bool, run: seq<Step>)
    returns (requests: seq<Channel.Step<Call>>, replies: seq<Channel.Step<int>>)
    requires Run(mirrored, run).Some?
    ensures Channel.Run(requests).Some? && IsRequest(Channel.Run(requests).value, Run(mirrored, run).value)
    ensures Channel.Run(replies).Some? && IsReply(Channel.Run(replies).value, Run(mirrored, run).value)
  {
    requests, replies := [], [];
    if run != [] {
      var s, step := Run(mirrored, run[..|run| - 1]).value, run[|run| - 1];
      requests, replies := SlotsAreChannels(mirrored, run[..|run| - 1]);
      RequestStep(Channel.Run(requests).value, s, step);
      ReplyStep(Channel.Run(replies).value, s, step);
      RunOn(requests, OnRequest(s, step));
      RunOn(replies, OnReply(s, step));
      requests, replies := requests + OnRequest(s, step), replies + OnReply(s, step);
    }
  }

  // ---------------------------------------------------------------------------
  // No step of the channels is missing

  /** The request channel at any moment: the dispatcher may be posting the call it has received, and the
      tracker may be in try_get. */
  ghost predicate RequestAt(m: Channel.Monitor<Call>, s: State) {
    && m.slot == s.request
    && (match ThreadOf(m, DISPATCHER)
        case Idle => true
        case Checking(op, _) => s.dispatcher.Posting? && op == Channel.Post(s.dispatcher.call)
        case Asleep(op) => s.dispatcher.Posting? && op == Channel.Post(s.dispatcher.call))
    && (match ThreadOf(m, TRACKER)
        case Idle => !s.tracker.Waiting?
        case Checking(op, woken) => op == Channel.TryGet && (if woken then s.tracker.Waiting? else s.tracker.Head?)
        case Asleep(op) => op == Channel.TryGet && s.tracker.Waiting?)
  }

  /** The reply channel at any moment: the tracker may be posting its result, and the dispatcher may be in
      get. */
  ghost predicate ReplyAt(m: Channel.Monitor<int>, s: State) {
    && m.slot == s.reply
    && (match ThreadOf(m, TRACKER)
        case Idle => true
        case Checking(op, _) => s.tracker.Replying? && op == Channel.Post(s.tracker.result)
        case Asleep(op) => s.tracker.Replying? && op == Channel.Post(s.tracker.result))
    && (match ThreadOf(m, DISPATCHER)
        case Idle => true
        case Checking(op, _) => s.dispatcher.Awaiting? && op == Channel.Get
        case Asleep(op) => s.dispatcher.Awaiting? && op == Channel.Get)
  }

  /** A step of the request channel that one of its two users can take where it stands. */
  ghost predicate RequestUse(m: Channel.Monitor<Call>, s: State, use: Channel.Step<Call>) {
    && Channel.Can(m, use) && (use.thread == DISPATCHER || use.thread == TRACKER)
    && (use.Enter? ==>
          if use.thread == DISPATCHER then s.dispatcher.Posting? && use.op == Channel.Post(s.dispatcher.call)
          else s.tracker.Head? && use.op == Channel.TryGet)
  }

  ghost predicate ReplyUse(m: Channel.Monitor<int>, s: State, use: Channel.Step<int>) {
    && Channel.Can(m, use) && (use.thread == DISPATCHER || use.thread == TRACKER)
    && (use.Enter? ==>
          if use.thread == TRACKER then s.tracker.Replying? && use.op == Channel.Post(s.tracker.result)
          else s.dispatcher.Awaiting? && use.op == Channel.Get)
  }

  /** The threads take these steps, at most one. */
  ghost predicate Takes(s: State, steps: seq<Step>, s': State) {
    if steps == [] then s' == s else |steps| == 1 && Can(s, steps[0]) && s' == Do(s, steps[0])
  }

  /** Every step of the request channel is a step of the threads, or leaves them where they are. */
  lemma {:induction false} RequestUseIsCovered(m: Channel.Monitor<Call>, s: State, use: Channel.Step<Call>)
    returns (steps: seq<Step>, s': State)
    requires RequestAt(m, s) && RequestUse(m, s, use)
    ensures Takes(s, steps, s') && RequestAt(Channel.Do(m, use), s')
  {
    steps := [];
    match use {
      case Check(t) =>
        if t == DISPATCHER {
          steps := if m.slot.None? then [DPost] else [];
        } else if !m.threads[t].woken {
          steps := [TTryGet];
        } else if m.slot.Some? {
          steps := [TWake];
        }
      case TimeOut(t) => steps := [TTimeout];
      case _ =>
    }
    s' := if steps == [] then s else Do(s, steps[0]);
  }

  lemma {:induction false} ReplyUseIsCovered(m: Channel.Monitor<int>, s: State, use: Channel.Step<int>)
    returns (steps: seq<Step>, s': State)
    requires ReplyAt(m, s) && ReplyUse(m, s, use)
    ensures Takes(s, steps, s') && ReplyAt(Channel.Do(m, use), s')
  {
    steps := [];
    if use.Check? && use.thread == TRACKER && m.slot.None? {
      steps := [TReply];
    } else if use.Check? && use.thread == DISPATCHER && m.slot.Some? {
      steps := [DTakeReply];
    }
    s' := if steps == [] then s else Do(s, steps[0]);
  }

  lemma {:induction false} RequestUnused(s: State, step: Step)
    requires Can(s, step) && OnRequest(s, step) == []
    ensures var s' := Do(s, step);
            && s'.request == s.request && (s.dispatcher.Posting? ==> s'.dispatcher == s.dispatcher)
            && (s'.tracker.Waiting? <==> s.tracker.Waiting?) && (s.tracker.Head? ==> s'.tracker.Head?)
  {
  }

  lemma {:induction false} ReplyUnused(s: State, step: Step)
    requires Can(s, step) && OnReply(s, step) == []
    ensures var s' := Do(s, step);
            && s'.reply == s.reply && (s.tracker.Replying? ==> s'.tracker == s.tracker)
            && (s.dispatcher.Awaiting? ==> s'.dispatcher.Awaiting?)
  {
  }

  /** The other steps of the threads leave the users of a channel where they are. */
  lemma {:induction false} RequestStaysAt(m: Channel.Monitor<Call>, s: State, step: Step)
    requires RequestAt(m, s) && Can(s, step) && OnRequest(s, step) == []
    ensures RequestAt(m, Do(s, step))
  {
    RequestUnused(s, step);
  }

  lemma {:induction false} ReplyStaysAt(m: Channel.Monitor<int>, s: State, step: Step)
    requires ReplyAt(m, s) && Can(s, step) && OnReply(s, step) == []
    ensures ReplyAt(m, Do(s, step))
  {
    ReplyUnused(s, step);
  }
}

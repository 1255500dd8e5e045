/** The one-slot channel: a mutex, a condition variable and an optional value. */
module WaitableValue {
  import opened Wrappers

  function SlotContents<T>(slot: Option<T>): (values: seq<T>) {
    if slot.Some? then [slot.value] else []
  }

  /** The slot, and all values posted and taken so far. */
  datatype Contents<T> = Contents(slot: Option<T>, posted: seq<T>, taken: seq<T>)

  function AfterPost<T>(c: Contents<T>, v: T): (after: Contents<T>) {
    if c.slot.Some? then c else Contents(Some(v), c.posted + [v], c.taken)
  }

  function AfterTake<T>(c: Contents<T>): (after: Contents<T>) {
    if c.slot.None? then c else Contents(None, c.posted, c.taken + [c.slot.value])
  }

  /** The object as one lock holder sees it: each method is one pass over the wait condition. */
  class Channel<T> {
    var value: Option<T>
    ghost var posted: seq<T>
    ghost var taken: seq<T>

    ghost predicate Valid()
      reads this
    {
      posted == taken + SlotContents(value)
    }

    ghost function State(): (c: Contents<T>)
      reads this
    {
      Contents(value, posted, taken)
    }

    constructor ()
      ensures Valid() && value.None? && posted == [] && taken == []
    {
      value, posted, taken := None, [], [];
    }

    /** Stores the value, or reports that the caller has to wait. */
    method TryPost(v: T) returns (stored: bool)
      requires Valid()
      modifies this
      ensures Valid() && stored == old(value.None?) && State() == AfterPost(old(State()), v)
      ensures stored ==> value == Some(v) && posted == old(posted) + [v] && taken == old(taken)
      ensures !stored ==> value == old(value) && posted == old(posted) && taken == old(taken)
    {
      stored := value.None?;
      if stored {
        value := Some(v);
        posted := posted + [v];
      }
    }

    /** Takes the value, or reports that the caller has to wait. */
    method TryTake() returns (v: Option<T>)
      requires Valid()
      modifies this
      ensures Valid() && v == old(value) && value.None? && posted == old(posted) && State() == AfterTake(old(State()))
      ensures taken == old(taken) + SlotContents(v)
    {
      v := value;
      value := None;
      taken := taken + SlotContents(v);
    }
  }

  // ---------------------------------------------------------------------------
  // Any number of threads

  datatype Operation<T> = Post(v: T) | Get | TryGet

  /** A thread is idle, about to check the wait condition with the lock held, or asleep in wait. One
      that has been woken may still find that its time is up. */
  datatype Thread<T> = Idle | Checking(op: Operation<T>, woken: bool) | Asleep(op: Operation<T>)

  datatype Monitor<T> = Monitor(slot: Option<T>, threads: map<nat, Thread<T>>,
                                posted: seq<T>, taken: seq<T>, timeouts: nat)

  datatype Step<T> =
    | Enter(thread: nat, op: Operation<T>)
    | Check(thread: nat)
    | WakeUp(thread: nat)       // spurious
    | TimeOut(thread: nat)

  function Fresh<T>(): (m: Monitor<T>) {
    Monitor(None, map[], [], [], 0)
  }

  predicate Can<T>(m: Monitor<T>, step: Step<T>) {
    match step
    case Enter(t, _) => t in m.threads ==> m.threads[t].Idle?
    case Check(t) => t in m.threads && m.threads[t].Checking?
    case WakeUp(t) => t in m.threads && m.threads[t].Asleep?
    case TimeOut(t) =>
      && t in m.threads && (m.threads[t].Asleep? || (m.threads[t].Checking? && m.threads[t].woken))
      && m.threads[t].op.TryGet?
  }

  function NotifyAll<T>(threads: map<nat, Thread<T>>): (woken: map<nat, Thread<T>>) {
    map t | t in threads :: if threads[t].Asleep? then Checking(threads[t].op, true) else threads[t]
  }

  function Do<T>(m: Monitor<T>, step: Step<T>): (m': Monitor<T>)
    requires Can(m, step)
  {
    match step
    case Enter(t, op) => m.(threads := m.threads[t := Checking(op, false)])
    case WakeUp(t) => m.(threads := m.threads[t := Checking(m.threads[t].op, true)])
    case TimeOut(t) => m.(threads := m.threads[t := Idle], timeouts := m.timeouts + 1)
    case Check(t) =>
      var op := m.threads[t].op;
      if op.Post? then
        if m.slot.Some? then m.(threads := m.threads[t := Asleep(op)])
        else m.(slot := Some(op.v), posted := m.posted + [op.v], threads := NotifyAll(m.threads)[t := Idle])
      else
        if m.slot.None? then m.(threads := m.threads[t := Asleep(op)])
        else m.(slot := None, taken := m.taken + [m.slot.value], threads := NotifyAll(m.threads)[t := Idle])
  }

  function Run<T>(steps: seq<Step<T>>): (end: Option<Monitor<T>>) {
    if steps == [] then Some(Fresh())
    else
      var before := Run(steps[..|steps| - 1]);
      var step := steps[|steps| - 1];
      if before.Some? && Can(before.value, step) then Some(Do(before.value, step)) else None
  }

  function ContentsOf<T>(m: Monitor<T>): (c: Contents<T>) {
    Contents(m.slot, m.posted, m.taken)
  }

  /** A thread that checks the wait condition does to the contents what one pass of its method does, and
      no other step touches them. */
  lemma {:induction false} CheckIsOnePass<T>(m: Monitor<T>, step: Step<T>)
    requires Can(m, step)
    ensures ContentsOf(Do(m, step)) ==
            if !step.Check? then ContentsOf(m)
            else
              var op := m.threads[step.thread].op;
              if op.Post? then AfterPost(ContentsOf(m), op.v) else AfterTake(ContentsOf(m))
  {
  }

  /** An operation ends in one of three ways: its value is stored, a value is taken, or, for try_get only, the
      time is up; until then the thread goes on with the same operation. */
  lemma {:induction false} EndsOnlyWhenDone<T>(m: Monitor<T>, step: Step<T>, t: nat)
    requires Can(m, step) && t in m.threads && !m.threads[t].Idle?
    ensures t in Do(m, step).threads
    ensures var m', op := Do(m, step), m.threads[t].op;
            if m'.threads[t].Idle? then
              || (step == Check(t) && op.Post? && m.slot.None? && m'.slot == Some(op.v)
                  && m'.posted == m.posted + [op.v])
              || (step == Check(t) && !op.Post? && m.slot.Some? && m'.slot.None?
                  && m'.taken == m.taken + [m.slot.value])
              || (step == TimeOut(t) && op.TryGet?)
            else m'.threads[t].op == op
  {
  }

  /** A thread sleeps only while what it waits for is really missing. */
  ghost predicate SleepsForAReason<T>(m: Monitor<T>, t: nat)
    requires t in m.threads
  {
    m.threads[t].Asleep? ==> (m.threads[t].op.Post? <==> m.slot.Some?)
  }

  ghost predicate Invariant<T>(m: Monitor<T>) {
    && m.posted == m.taken + SlotContents(m.slot)
    && forall t | t in m.threads :: SleepsForAReason(m, t)
  }

  lemma {:induction false} StepKeepsInvariant<T>(m: Monitor<T>, step: Step<T>)
    requires Invariant(m) && Can(m, step)
    ensures Invariant(Do(m, step))
  {
  }

  /** Whatever the threads do, timeouts included, the values posted are the values taken followed by
      what is in the slot. */
  lemma {:induction false} NothingLostOrDuplicated<T>(steps: seq<Step<T>>)
    requires Run(steps).Some?
    ensures var m := Run(steps).value; m.posted == m.taken + SlotContents(m.slot)
    ensures Invariant(Run(steps).value)
  {
    if steps != [] {
      NothingLostOrDuplicated(steps[..|steps| - 1]);
      StepKeepsInvariant(Run(steps[..|steps| - 1]).value, steps[|steps| - 1]);
    }
  }

  /** No wake-up is lost: a sleeping poster means a full slot and a sleeping taker an empty one, so
      a poster and a taker are never both asleep. */
  lemma {:induction false} NoLostWakeUp<T>(steps: seq<Step<T>>, poster: nat, taker: nat)
    requires Run(steps).Some?
    requires poster in Run(steps).value.threads && taker in Run(steps).value.threads
    ensures var m := Run(steps).value;
            !(&& m.threads[poster].Asleep? && m.threads[poster].op.Post?
              && m.threads[taker].Asleep? && !m.threads[taker].op.Post?)
  {
    NothingLostOrDuplicated(steps);
    var m := Run(steps).value;
    assert SleepsForAReason(m, poster) && SleepsForAReason(m, taker);
  }
}

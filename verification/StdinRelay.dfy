/** The relay from the stdin socket to the child's stdin, a pipe that may not take what it is given. */
module StdinRelay {
  import opened Words

  /** What write(2) answers; it takes at most what it is offered. */
  datatype WriteResult = Wrote(upTo: nat) | WouldBlock | WriteFailed

  /** What the read of the socket answers; no bytes mean the end of the input. */
  datatype ReadResult = Bytes(data: seq<Byte>) | ReadFailed

  /** All that happens to the loop in one iteration. */
  datatype Turn = Turn(pollFails: bool, ready: bool, delayed: WriteResult, read: ReadResult, write: WriteResult)

  datatype Ending = Running | PollFailed | SocketFailed | PipeFailed(lost: seq<Byte>)

  /** The loop's variables, and all bytes read and written so far. */
  datatype State = State(pending: seq<Byte>, open: bool, received: seq<Byte>, written: seq<Byte>, ending: Ending)

  const START := State([], true, [], [], Running)

  /** How many of the offered bytes a write takes. */
  function Taken(result: WriteResult, offered: nat): (n: nat)
    ensures n <= offered
  {
    match result
    case Wrote(upTo) => if upTo <= offered then upTo else offered
    case _ => 0
  }

  // ---------------------------------------------------------------------------
  // One iteration

  /** Pending bytes first; an error leaves them pending. */
  function WriteDelayed(s: State, result: WriteResult): (next: State) {
    var n := Taken(result, |s.pending|);
    s.(pending := s.pending[n..], written := s.written + s.pending[..n])
  }

  /** Then, with nothing pending, what the socket has. */
  function ReadInput(s: State, read: ReadResult, write: WriteResult): (next: State) {
    match read
    case ReadFailed => s.(ending := SocketFailed)
    case Bytes(data) =>
      if data == [] then s.(open := false)
      else
        var n := Taken(write, |data|);
        s.(pending := if write.WriteFailed? then s.pending else data[n..],
           received := s.received + data, written := s.written + data[..n],
           ending := if write.WriteFailed? then PipeFailed(data) else s.ending)
  }

  /** poll ignores a descriptor that was taken out. */
  function Step(s: State, turn: Turn): (next: State) {
    if s.ending != Running then s
    else
      var drained := WriteDelayed(s, turn.delayed);
      if turn.pollFails then drained.(ending := PollFailed)
      else if turn.ready && s.open && drained.pending == [] then ReadInput(drained, turn.read, turn.write)
      else drained
  }

  function After(turns: seq<Turn>): (s: State) {
    if turns == [] then START else Step(After(turns[..|turns| - 1]), turns[|turns| - 1])
  }

  // ---------------------------------------------------------------------------
  // Whole runs

  /** The bytes read and not written: pending, or given up by the write that ended the loop. */
  function Owed(s: State): (owed: seq<Byte>) {
    if s.ending.PipeFailed? then s.ending.lost else s.pending
  }

  ghost predicate Conserved(s: State) {
    && s.received == s.written + Owed(s)
    && (!s.open || s.ending.PipeFailed? || s.ending.SocketFailed? ==> s.pending == [])
    && (s.ending.PipeFailed? ==> s.ending.lost != [])
  }

  lemma {:induction false} Regroup(written: seq<Byte>, data: seq<Byte>, n: nat)
    requires n <= |data|
    ensures written + data == (written + data[..n]) + data[n..]
  {
  }

  lemma {:induction false} NothingMore(written: seq<Byte>)
    ensures written + [] == written
  {
  }

  lemma {:induction false} DelayedKeeps(s: State, result: WriteResult)
    requires Conserved(s) && s.ending == Running
    ensures Conserved(WriteDelayed(s, result))
  {
    var n := Taken(result, |s.pending|);
    Regroup(s.written, s.pending, n);
  }

  lemma {:induction false} ReadKeeps(s: State, read: ReadResult, write: WriteResult)
    requires Conserved(s) && s.ending == Running && s.open && s.pending == []
    ensures Conserved(ReadInput(s, read, write))
  {
    if read.Bytes? && read.data != [] {
      NothingMore(s.written);
      Regroup(s.written, read.data, Taken(write, |read.data|));
    }
  }

  lemma {:induction false} StepKeeps(s: State, turn: Turn)
    requires Conserved(s)
    ensures Conserved(Step(s, turn))
  {
    if s.ending == Running {
      DelayedKeeps(s, turn.delayed);
      var drained := WriteDelayed(s, turn.delayed);
      if !turn.pollFails && turn.ready && s.open && drained.pending == [] {
        ReadKeeps(drained, turn.read, turn.write);
      }
    }
  }

  /** At every loop head the bytes written, followed by those pending, are the bytes read. */
  lemma {:induction false} NothingLost(turns: seq<Turn>)
    ensures Conserved(After(turns))
    ensures After(turns).ending == Running ==> After(turns).written + After(turns).pending == After(turns).received
    decreases |turns|
  {
    if turns != [] {
      NothingLost(turns[..|turns| - 1]);
      StepKeeps(After(turns[..|turns| - 1]), turns[|turns| - 1]);
    }
  }

  /** When the loop has ended, all bytes read have been written if and only if the socket failed, or poll
      failed with nothing pending. A failed poll gives up the pending bytes, and a failed write those of
      its read. */
  lemma {:induction false} AllDeliveredIff(turns: seq<Turn>)
    requires After(turns).ending != Running
    ensures var s := After(turns);
            s.written == s.received <==> s.ending.SocketFailed? || (s.ending.PollFailed? && s.pending == [])
    ensures var s := After(turns);
            s.received == s.written + if s.ending.PipeFailed? then s.ending.lost else s.pending
  {
    NothingLost(turns);
    var s := After(turns);
    NothingMore(s.written);
    assert Owed(s) != [] ==> |s.received| > |s.written|;
  }

  /** A byte is read that the pipe does not take, and poll fails before the next try. */
  lemma {:induction false} PollFailsExample()
    ensures var blocked := Turn(false, true, WouldBlock, Bytes([1]), WouldBlock);
            var failed := Turn(true, false, WouldBlock, ReadFailed, WouldBlock);
            After([blocked, failed]) == State([1], true, [1], [], PollFailed)
  {
    var blocked := Turn(false, true, WouldBlock, Bytes([1]), WouldBlock);
    var failed := Turn(true, false, WouldBlock, ReadFailed, WouldBlock);
    assert [blocked, failed][..1] == [blocked] && [blocked][..0] == [];
    assert After([blocked]) == State([1], true, [1], [], Running);
  }

  /** Once nothing is pending, all that was read has been written. */
  lemma {:induction false} DrainedIsDelivered(s: State)
    requires Conserved(s) && s.ending == Running && s.pending == []
    ensures s.written == s.received
  {
    NothingMore(s.written);
  }

  lemma {:induction false} DelayedPrefix(s: State, result: WriteResult)
    requires Conserved(s)
    ensures s.ending == Running && WriteDelayed(s, result).pending == [] ==>
            WriteDelayed(s, result).written == s.received
  {
    if s.ending == Running && WriteDelayed(s, result).pending == [] {
      DelayedKeeps(s, result);
      DrainedIsDelivered(WriteDelayed(s, result));
    }
  }

  /** The socket is ready, and the delayed write has left nothing pending. */
  ghost predicate MayRead(s: State, turn: Turn) {
    s.ending == Running && !turn.pollFails && s.open && turn.ready && WriteDelayed(s, turn.delayed).pending == []
  }

  /** A ready socket is read exactly when nothing is pending, and what is read comes right behind what
      was written. */
  lemma {:induction false} ReadsExactlyWhenDrained(s: State, turn: Turn)
    requires Conserved(s)
    ensures MayRead(s, turn) ==> WriteDelayed(s, turn.delayed).written == s.received
    ensures Step(s, turn).received == s.received + if MayRead(s, turn) && turn.read.Bytes? then turn.read.data else []
  {
    DelayedPrefix(s, turn.delayed);
    NothingMore(s.received);
  }

  /** Stdin is closed exactly by the end of the input, with every byte delivered, and stays closed. */
  lemma {:induction false} ClosedWhenDelivered(s: State, turn: Turn)
    requires Conserved(s)
    ensures s.open && !Step(s, turn).open <==> MayRead(s, turn) && turn.read == Bytes([])
    ensures s.open && !Step(s, turn).open ==>
              Step(s, turn).pending == [] && Step(s, turn).written == Step(s, turn).received
    ensures !s.open ==>
              var next := Step(s, turn);
              !next.open && next.received == s.received && next.written == s.written
  {
    DelayedPrefix(s, turn.delayed);
  }

  // ---------------------------------------------------------------------------
  // Delivery

  function From(s: State, turns: seq<Turn>): (after: State)
    decreases |turns|
  {
    if turns == [] then s else From(Step(s, turns[0]), turns[1..])
  }

  /** The pipe takes at least a byte when one is pending. */
  ghost predicate PipeMoves(turn: Turn) {
    !turn.pollFails && turn.delayed.Wrote? && turn.delayed.upTo > 0
  }

  /** The first bytes read, up to a goal, of which some are still pending. */
  ghost predicate Owing(s: State, goal: seq<Byte>) {
    && Conserved(s) && goal <= s.received
    && (s.ending != Running ==> |goal| <= |s.written|)
  }

  lemma {:induction false} WrittenGrows(s: State, turn: Turn, goal: seq<Byte>)
    requires Owing(s, goal) && PipeMoves(turn)
    ensures Owing(Step(s, turn), goal)
    ensures |Step(s, turn).written| >= |goal| || |Step(s, turn).written| >= |s.written| + 1
  {
    StepKeeps(s, turn);
    if s.ending == Running {
      DelayedKeeps(s, turn.delayed);
      DelayedPrefix(s, turn.delayed);
    }
  }

  /** If the pipe keeps moving, every byte read is written within as many turns as there are bytes. */
  lemma {:induction false} EverythingIsDelivered(s: State, turns: seq<Turn>, goal: seq<Byte>)
    requires Owing(s, goal) && |goal| <= |s.written| + |turns|
    requires forall turn | turn in turns :: PipeMoves(turn)
    ensures goal <= From(s, turns).written
    decreases |turns|
  {
    if turns == [] {
      assert s.written <= s.received;
    } else {
      assert turns[0] in turns && forall turn | turn in turns[1..] :: turn in turns;
      WrittenGrows(s, turns[0], goal);
      EverythingIsDelivered(Step(s, turns[0]), turns[1..], goal);
    }
  }

  // ---------------------------------------------------------------------------
  // The code

  /** A delayed write: whatever it takes is erased from the pending bytes. */
  method WritePending(pending: seq<Byte>, result: WriteResult, ghost written: seq<Byte>)
    returns (pending': seq<Byte>, ghost written': seq<Byte>)
    ensures pending' == pending[Taken(result, |pending|)..] && written' == written + pending[..Taken(result, |pending|)]
  {
    pending', written' := pending, written + [];
    if pending != [] && result.Wrote? {
      var n := Taken(result, |pending|);
      pending', written' := pending[n..], written + pending[..n];
    }
  }

  /** The stdin part of the relay loop; it runs until an error or to the end of what happens. */
  method Relay(turns: seq<Turn>)
    returns (pending: seq<Byte>, open: bool, ending: Ending, ghost received: seq<Byte>, ghost written: seq<Byte>)
    ensures pending == After(turns).pending && open == After(turns).open && ending == After(turns).ending
    ensures received == After(turns).received && written == After(turns).written
  {
    pending, open, ending, received, written := [], true, Running, [], [];
    var i := 0;
    while i < |turns| && ending == Running
      invariant 0 <= i <= |turns|
      invariant State(pending, open, received, written, ending) == After(turns[..i])
    {
      var turn := turns[i];
      assert turns[..i + 1][..i] == turns[..i];
      pending, written := WritePending(pending, turn.delayed, written);
      if turn.pollFails {
        ending := PollFailed;
      } else if open && turn.ready && pending == [] {
        match turn.read {
          case ReadFailed =>
            ending := SocketFailed;
          case Bytes(data) =>
            if data == [] {
              open := false;
            } else {
              received := received + data;
              match turn.write {
                case Wrote(_) =>
                  var n := Taken(turn.write, |data|);
                  written := written + data[..n];
                  if n < |data| {
                    pending := data[n..];
                  }
                case WouldBlock =>
                  pending := data;
                case WriteFailed =>
                  ending := PipeFailed(data);
              }
            }
        }
      }
      i := i + 1;
    }
    Stopped(turns, i);
  }

  lemma {:induction false} Stopped(turns: seq<Turn>, i: nat)
    requires i <= |turns| && (i < |turns| ==> After(turns[..i]).ending != Running)
    ensures After(turns) == After(turns[..i])
    decreases |turns|
  {
    if i == |turns| {
      assert turns[..i] == turns;
    } else {
      var before := turns[..|turns| - 1];
      assert before[..i] == turns[..i];
      Stopped(before, i);
    }
  }
}

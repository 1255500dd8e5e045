/**
  Reassembly of DNS requests from a TCP stream, where every request is preceded by its length in
  two bytes (section 4.2.2 of RFC 1035). The reader never asks recv for more than the request in
  hand still lacks.
 */
module DnsTcp {
  import opened Wrappers
  import opened Words
  import opened Sequences

  const LENGTH_BYTES := 2

  // ---------------------------------------------------------------------------
  // The reader

  datatype Reader = Open(buffer: seq<Byte>, offset: nat) | Closed

  ghost predicate Sound(reader: Reader) {
    reader.Open? ==> LENGTH_BYTES <= |reader.buffer| && reader.offset <= |reader.buffer|
  }

  function Zeros(n: nat): (zeros: seq<Byte>)
    ensures |zeros| == n
  {
    seq(n, _ => 0)
  }

  /** vector::resize to a larger size */
  function Resized(buffer: seq<Byte>, size: nat): (resized: seq<Byte>)
    requires |buffer| <= size
    ensures |resized| == size
  {
    buffer + Zeros(size - |buffer|)
  }

  function LengthField(bytes: seq<Byte>): (length: nat)
    requires |bytes| >= LENGTH_BYTES
    ensures length < 0x1_0000
  {
    0x100 * (bytes[0] as int) + (bytes[1] as int)
  }

  function Connect(): (reader: Reader) {
    Open(Zeros(LENGTH_BYTES), 0)
  }

  function Wanted(reader: Reader): (n: int)
    requires reader.Open?
  {
    |reader.buffer| - reader.offset
  }

  /** HandleNewTcpData, given the bytes recv put into the buffer: the new state and the request to
      tunnel, if one is complete. */
  function OnData(reader: Reader, chunk: seq<Byte>): (outcome: (Reader, seq<seq<Byte>>))
    requires reader.Open? && Sound(reader) && |chunk| <= Wanted(reader)
    ensures Sound(outcome.0)
  {
    if chunk == [] then (Closed, [])
    else
      var filled := reader.buffer[..reader.offset] + chunk + reader.buffer[reader.offset + |chunk|..];
      var offset := reader.offset + |chunk|;
      if offset < |filled| then (Open(filled, offset), [])
      else if |filled| == LENGTH_BYTES then (Open(Resized(filled, LENGTH_BYTES + LengthField(filled)), offset), [])
      else (Connect(), [filled])
  }

  /** The connection is given up exactly by a read of no bytes, which emits nothing. */
  lemma {:induction false} ClosesIff(reader: Reader, chunk: seq<Byte>)
    requires reader.Open? && Sound(reader) && |chunk| <= Wanted(reader)
    ensures OnData(reader, chunk).0.Closed? <==> chunk == []
    ensures chunk == [] ==> OnData(reader, chunk).1 == []
  {
  }

  class Connection {
    var buffer: seq<Byte>
    var offset: nat
    var tracked: bool

    ghost function State(): (reader: Reader)
      reads this
    {
      if tracked then Open(buffer, offset) else Closed
    }

    constructor ()
      ensures State() == Connect() && Sound(State())
    {
      buffer, offset, tracked := Zeros(LENGTH_BYTES), 0, true;
    }

    method HandleNewTcpData(chunk: seq<Byte>) returns (request: Option<seq<Byte>>)
      requires tracked && Sound(State()) && |chunk| <= |buffer| - offset
      modifies this
      ensures Sound(State())
      ensures tracked <==> chunk != []
      ensures (State(), if request.Some? then [request.value] else []) == OnData(old(State()), chunk)
    {
      request := None;
      var bytesReceived := |chunk|;
      if bytesReceived == 0 {
        tracked := false;
        return;
      }
      buffer := buffer[..offset] + chunk + buffer[offset + bytesReceived..];
      offset := offset + bytesReceived;
      if offset == |buffer| {
        if |buffer| == LENGTH_BYTES {
          buffer := Resized(buffer, LENGTH_BYTES + LengthField(buffer));
        } else {
          request := Some(buffer);
          offset := 0;
          buffer := Zeros(LENGTH_BYTES);
        }
      }
    }
  }

  // ---------------------------------------------------------------------------
  // The reference: cutting a whole byte string into frames

  /** A request with its length in front. */
  function Frame(message: seq<Byte>): (frame: seq<Byte>)
    requires |message| < 0x1_0000
  {
    [|message| / 0x100, |message| % 0x100] + message
  }

  /** The length stands in front with its high byte first. */
  lemma {:induction false} FrameLayout(message: seq<Byte>)
    requires |message| < 0x1_0000
    ensures Frame(message)[2..] == message
    ensures FromNetwork(Frame(message)[0], Frame(message)[1]) == LengthField(Frame(message)) == |message|
  {
  }

  function Frames(messages: seq<seq<Byte>>): (frames: seq<seq<Byte>>)
    requires forall m | m in messages :: |m| < 0x1_0000
  {
    seq(|messages|, i requires 0 <= i < |messages| => Frame(messages[i]))
  }

  /** The first frame is complete and not empty. */
  predicate FrameReady(bytes: seq<Byte>) {
    && |bytes| >= LENGTH_BYTES
    && LengthField(bytes) > 0
    && LENGTH_BYTES + LengthField(bytes) <= |bytes|
  }

  /** The complete frames in order, and what follows them. Cutting stops at an empty frame. */
  function Cut(bytes: seq<Byte>): (parts: (seq<seq<Byte>>, seq<Byte>))
    decreases |bytes|
  {
    if !FrameReady(bytes) then ([], bytes)
    else
      var n := LENGTH_BYTES + LengthField(bytes);
      var later := Cut(bytes[n..]);
      ([bytes[..n]] + later.0, later.1)
  }

  /** The next frame of what is left says it is empty. */
  predicate AtEmptyFrame(rest: seq<Byte>) {
    |rest| >= LENGTH_BYTES && LengthField(rest) == 0
  }

  lemma {:induction false} CutLosesNothing(bytes: seq<Byte>)
    ensures Flatten(Cut(bytes).0) + Cut(bytes).1 == bytes
    decreases |bytes|
  {
    if FrameReady(bytes) {
      var n := LENGTH_BYTES + LengthField(bytes);
      CutLosesNothing(bytes[n..]);
      var later := Cut(bytes[n..]);
      assert Cut(bytes).0[1..] == later.0;
      assert bytes == bytes[..n] + bytes[n..];
    }
  }

  lemma {:induction false} FrameReadyGrows(bytes: seq<Byte>, more: seq<Byte>)
    requires FrameReady(bytes)
    ensures FrameReady(bytes + more) && LengthField(bytes + more) == LengthField(bytes)
  {
  }

  /** Cutting can go on from where it stopped. */
  lemma {:induction false} CutResumes(bytes: seq<Byte>, more: seq<Byte>)
    ensures var (frames, rest) := Cut(bytes);
            var later := Cut(rest + more);
            Cut(bytes + more) == (frames + later.0, later.1)
    decreases |bytes|
  {
    if FrameReady(bytes) {
      var n := LENGTH_BYTES + LengthField(bytes);
      FrameReadyGrows(bytes, more);
      CutResumes(bytes[n..], more);
      assert (bytes + more)[..n] == bytes[..n];
      assert (bytes + more)[n..] == bytes[n..] + more;
      var later := Cut(bytes[n..]);
      var after := Cut(later.1 + more);
      assert [bytes[..n]] + (later.0 + after.0) == [bytes[..n]] + later.0 + after.0;
    } else {
      assert [] + Cut(bytes + more).0 == Cut(bytes + more).0;
    }
  }

  /** Framing and cutting are inverse on non-empty messages. */
  lemma {:induction false} CutUndoesFraming(messages: seq<seq<Byte>>)
    requires forall m | m in messages :: 0 < |m| < 0x1_0000
    ensures Cut(Flatten(Frames(messages))) == (Frames(messages), [])
    decreases |messages|
  {
    var frames := Frames(messages);
    if messages != [] {
      var rest := messages[1..];
      CutUndoesFraming(rest);
      var restFrames := Frames(rest);
      assert frames[1..] == restFrames;
      var bytes := Flatten(frames);
      assert messages[0] in messages;
      assert bytes == frames[0] + Flatten(restFrames);
      assert LengthField(bytes) == |messages[0]|;
      var n := LENGTH_BYTES + LengthField(bytes);
      assert bytes[..n] == frames[0] && bytes[n..] == Flatten(restFrames);
      assert [frames[0]] + restFrames == frames;
    }
  }

  // ---------------------------------------------------------------------------
  // Any way of splitting the stream into reads

  /** What can be left over after cutting when the reader has not read past an empty frame. */
  ghost predicate Pending(rest: seq<Byte>) {
    !FrameReady(rest) && (AtEmptyFrame(rest) ==> |rest| == LENGTH_BYTES)
  }

  /** The reader that has just this left over. */
  ghost function ReaderFor(rest: seq<Byte>): (reader: Reader)
    requires Pending(rest)
  {
    var size := if |rest| < LENGTH_BYTES then LENGTH_BYTES else LENGTH_BYTES + LengthField(rest);
    Open(Resized(rest, size), |rest|)
  }

  /** Filling the buffer behind what is left over. */
  lemma {:induction false} Fill(rest: seq<Byte>, size: nat, chunk: seq<Byte>)
    requires LENGTH_BYTES <= size && 0 < |chunk| <= size - |rest|
    ensures var more := rest + chunk;
            OnData(Open(Resized(rest, size), |rest|), chunk) ==
            if |more| < size then (Open(Resized(more, size), |more|), [])
            else if size == LENGTH_BYTES then (Open(Resized(more, LENGTH_BYTES + LengthField(more)), |more|), [])
            else (Connect(), [more])
  {
    var buffer := Resized(rest, size);
    var more := rest + chunk;
    assert buffer[..|rest|] + chunk + buffer[|rest| + |chunk|..] == Resized(more, size);
    assert |more| == size ==> Resized(more, size) == more;
  }

  lemma {:induction false} CutOneFrame(frame: seq<Byte>)
    requires |frame| > LENGTH_BYTES && |frame| == LENGTH_BYTES + LengthField(frame)
    ensures Cut(frame) == ([frame], [])
  {
    assert FrameReady(frame);
    assert frame[..|frame|] == frame && frame[|frame|..] == [];
    assert [frame] + Cut([]).0 == [frame];
  }

  /** One read moves the reader on as cutting the longer remainder does. */
  lemma {:induction false} ReadIsCut(rest: seq<Byte>, chunk: seq<Byte>)
    requires Pending(rest) && chunk != [] && |chunk| <= Wanted(ReaderFor(rest))
    ensures var (frames, rest') := Cut(rest + chunk);
            Pending(rest') && OnData(ReaderFor(rest), chunk) == (ReaderFor(rest'), frames)
  {
    var size := |ReaderFor(rest).buffer|;
    var more := rest + chunk;
    Fill(rest, size, chunk);
    assert |rest| >= LENGTH_BYTES ==> LengthField(more) == LengthField(rest);
    if |more| == size && size > LENGTH_BYTES {
      CutOneFrame(more);
      assert ReaderFor([]) == Connect();
    } else {
      assert !FrameReady(more);
    }
  }

  /** The requests so far are the frames of the bytes so far, and the reader holds the remainder. */
  ghost predicate InStep(reader: Reader, requests: seq<seq<Byte>>, bytes: seq<Byte>) {
    var (frames, rest) := Cut(bytes);
    && requests == frames
    && Pending(rest)
    && (if reader.Closed? then AtEmptyFrame(rest) else reader == ReaderFor(rest))
  }

  lemma {:induction false} ChunkKeepsStep(reader: Reader, requests: seq<seq<Byte>>, bytes: seq<Byte>, chunk: seq<Byte>)
    requires InStep(reader, requests, bytes) && reader.Open? && Sound(reader)
    requires 0 < |chunk| <= Wanted(reader)
    ensures var (reader', more) := OnData(reader, chunk);
            reader'.Open? && InStep(reader', requests + more, bytes + chunk)
  {
    CutResumes(bytes, chunk);
    ReadIsCut(Cut(bytes).1, chunk);
  }

  /** The reader after a series of reads, and the requests it emitted. None of the reads was empty,
      and none was longer than asked for. */
  ghost function ReadAll(chunks: seq<seq<Byte>>): (outcome: Option<(Reader, seq<seq<Byte>>)>)
    ensures outcome.Some? ==> outcome.value.0.Open? && Sound(outcome.value.0)
  {
    if chunks == [] then Some((Connect(), []))
    else
      var before := ReadAll(chunks[..|chunks| - 1]);
      var chunk := chunks[|chunks| - 1];
      if before.None? || chunk == [] || |chunk| > Wanted(before.value.0) then None
      else
        var (reader, more) := OnData(before.value.0, chunk);
        Some((reader, before.value.1 + more))
  }

  lemma {:induction false} FlattenAppend(chunks: seq<seq<Byte>>, chunk: seq<Byte>)
    ensures Flatten(chunks + [chunk]) == Flatten(chunks) + chunk
  {
    if chunks == [] {
      assert Flatten([chunk]) == chunk + Flatten([]);
    } else {
      FlattenAppend(chunks[1..], chunk);
      assert (chunks + [chunk])[1..] == chunks[1..] + [chunk];
    }
  }

  /** However the stream is split into reads, the requests emitted are exactly the frames of the
      bytes received, and the reader is the one that holds the remainder. */
  lemma {:induction false} RequestsAreTheFrames(chunks: seq<seq<Byte>>)
    requires ReadAll(chunks).Some?
    ensures InStep(ReadAll(chunks).value.0, ReadAll(chunks).value.1, Flatten(chunks))
  {
    if chunks == [] {
      assert ReaderFor([]) == Connect();
    } else {
      var earlier, chunk := chunks[..|chunks| - 1], chunks[|chunks| - 1];
      RequestsAreTheFrames(earlier);
      var (reader, requests) := ReadAll(earlier).value;
      ChunkKeepsStep(reader, requests, Flatten(earlier), chunk);
      FlattenAppend(earlier, chunk);
      assert earlier + [chunk] == chunks;
    }
  }

  /** Bytes emitted, followed by the filled part of the buffer, are the bytes received. */
  lemma {:induction false} NothingIsLost(chunks: seq<seq<Byte>>)
    requires ReadAll(chunks).Some?
    ensures var (reader, requests) := ReadAll(chunks).value;
            Flatten(requests) + reader.buffer[..reader.offset] == Flatten(chunks)
  {
    RequestsAreTheFrames(chunks);
    CutLosesNothing(Flatten(chunks));
    var reader := ReadAll(chunks).value.0;
    assert reader.buffer[..reader.offset] == Cut(Flatten(chunks)).1;
  }

  /** Two ways of splitting the same bytes have the same outcome. */
  lemma {:induction false} SplitDoesNotMatter(chunks: seq<seq<Byte>>, others: seq<seq<Byte>>)
    requires ReadAll(chunks).Some? && ReadAll(others).Some?
    requires Flatten(chunks) == Flatten(others)
    ensures ReadAll(chunks) == ReadAll(others)
  {
    RequestsAreTheFrames(chunks);
    RequestsAreTheFrames(others);
  }

  /** The next recv asks for no bytes, and its result is taken for a close, exactly when an empty
      frame has been reached. */
  lemma {:induction false} StuckIffEmptyFrame(chunks: seq<seq<Byte>>)
    requires ReadAll(chunks).Some?
    ensures Wanted(ReadAll(chunks).value.0) == 0 <==> AtEmptyFrame(Cut(Flatten(chunks)).1)
  {
    RequestsAreTheFrames(chunks);
  }

  /** A stream of non-empty messages comes out message by message, and no prefix of it ever leaves
      the reader asking for nothing. */
  lemma {:induction false} MessagesArrive(messages: seq<seq<Byte>>, chunks: seq<seq<Byte>>, missing: seq<Byte>)
    requires forall m | m in messages :: 0 < |m| < 0x1_0000
    requires ReadAll(chunks).Some? && Flatten(chunks) + missing == Flatten(Frames(messages))
    ensures Wanted(ReadAll(chunks).value.0) > 0
    ensures missing == [] ==> ReadAll(chunks).value == (Connect(), Frames(messages))
  {
    RequestsAreTheFrames(chunks);
    CutUndoesFraming(messages);
    var rest := Cut(Flatten(chunks)).1;
    CutResumes(Flatten(chunks), missing);
    StuckIffEmptyFrame(chunks);
    if missing == [] {
      assert Flatten(chunks) + [] == Flatten(chunks);
      assert ReaderFor([]) == Connect();
    }
  }

  // ---------------------------------------------------------------------------
  // Empty messages

  lemma {:induction false} FlattenConcat(a: seq<seq<Byte>>, b: seq<seq<Byte>>)
    ensures Flatten(a + b) == Flatten(a) + Flatten(b)
  {
    if a == [] {
      assert a + b == b;
    } else {
      assert (a + b)[1..] == a[1..] + b;
      FlattenConcat(a[1..], b);
    }
  }

  /** The first empty message of a stream is number k. */
  ghost predicate FirstEmpty(messages: seq<seq<Byte>>, k: nat) {
    && k < |messages| && messages[k] == [] && (forall j | 0 <= j < k :: messages[j] != [])
    && (forall m | m in messages :: |m| < 0x1_0000) && (forall m | m in messages[..k] :: |m| < 0x1_0000)
  }

  /** Cutting the stream stops at the empty message, whose length field is two zero bytes. */
  lemma {:induction false} CutStopsAtEmpty(messages: seq<seq<Byte>>, k: nat) returns (rest: seq<Byte>)
    requires FirstEmpty(messages, k)
    ensures forall m | m in messages[..k] :: 0 < |m| < 0x1_0000
    ensures Cut(Flatten(Frames(messages))) == (Frames(messages[..k]), [0, 0] + rest)
  {
    var front, back := messages[..k], messages[k..];
    assert forall m | m in front :: m in messages && 0 < |m|;
    assert forall m | m in back :: m in messages;
    assert Frames(messages) == Frames(front) + Frames(back);
    FlattenConcat(Frames(front), Frames(back));
    CutUndoesFraming(front);
    var bytes := Flatten(Frames(back));
    assert Frames(back)[0] == [0, 0];
    rest := Flatten(Frames(back)[1..]);
    assert bytes == [0, 0] + rest;
    CutResumes(Flatten(Frames(front)), bytes);
    assert [] + bytes == bytes && Frames(front) + [] == Frames(front);
  }

  /** What a prefix of such a stream is cut into. */
  lemma {:induction false} PrefixStopsAtEmpty(bytes: seq<Byte>, missing: seq<Byte>, front: seq<seq<Byte>>,
                                              later: seq<Byte>)
    requires Cut(bytes + missing) == (front, [0, 0] + later) && Pending(Cut(bytes).1)
    ensures Cut(bytes).0 <= front
    ensures AtEmptyFrame(Cut(bytes).1) ==> Cut(bytes).0 == front && bytes == Flatten(front) + [0, 0]
  {
    var (frames, rest) := Cut(bytes);
    CutResumes(bytes, missing);
    if AtEmptyFrame(rest) {
      assert rest == [0, 0] && !FrameReady(rest + missing);
      assert frames + [] == frames;
      CutLosesNothing(bytes);
    }
  }

  lemma {:induction false} CutBeforeEmpty(messages: seq<seq<Byte>>)
    requires forall m | m in messages :: 0 < |m| < 0x1_0000
    ensures AtEmptyFrame(Cut(Flatten(Frames(messages)) + [0, 0]).1)
  {
    CutUndoesFraming(messages);
    CutResumes(Flatten(Frames(messages)), [0, 0]);
    assert [] + [0, 0] == [0, 0];
  }

  lemma {:induction false} NoFurtherRead(chunks: seq<seq<Byte>>, chunk: seq<Byte>)
    requires ReadAll(chunks).Some? && Wanted(ReadAll(chunks).value.0) == 0
    ensures ReadAll(chunks + [chunk]).None?
  {
    assert (chunks + [chunk])[..|chunks|] == chunks;
  }

  /** However a stream with an empty message is split, nothing from that message on is ever delivered:
      the reader stops right behind its length field, and no further read is possible. */
  lemma {:induction false} EmptyMessageStops(messages: seq<seq<Byte>>, k: nat, chunks: seq<seq<Byte>>,
                                             missing: seq<Byte>)
    requires FirstEmpty(messages, k)
    requires ReadAll(chunks).Some? && Flatten(chunks) + missing == Flatten(Frames(messages))
    ensures ReadAll(chunks).value.1 <= Frames(messages[..k])
    ensures Wanted(ReadAll(chunks).value.0) == 0 <==> Flatten(chunks) == Flatten(Frames(messages[..k])) + [0, 0]
    ensures Wanted(ReadAll(chunks).value.0) == 0 ==>
              ReadAll(chunks).value.1 == Frames(messages[..k]) && forall chunk :: ReadAll(chunks + [chunk]).None?
  {
    var later := CutStopsAtEmpty(messages, k);
    RequestsAreTheFrames(chunks);
    StuckIffEmptyFrame(chunks);
    PrefixStopsAtEmpty(Flatten(chunks), missing, Frames(messages[..k]), later);
    CutBeforeEmpty(messages[..k]);
    if Wanted(ReadAll(chunks).value.0) == 0 {
      forall chunk ensures ReadAll(chunks + [chunk]).None? {
        NoFurtherRead(chunks, chunk);
      }
    }
  }

  /** The shortest such stream. */
  lemma {:induction false} EmptyMessageExample()
    ensures ReadAll([[0, 0]]).Some? && Wanted(ReadAll([[0, 0]]).value.0) == 0
  {
  }
}

/** The length-prefixed records of a room control stream: gawk-server/wire/room.go and gawk-server/publisher/room.go. */
module RoomRecords {
  import opened Outcomes
  import opened WireFields
  import opened RoomState
  import opened RoomMessages

  predicate Framable(msg: Octets) {
    2 <= |msg| <= MAX_RECORD
  }

  function Frame(msg: Octets): Octets
    requires Framable(msg)
  {
    U16(|msg|) + msg
  }

  function AppendRecord(dst: Octets, msg: Octets): Result<Octets, WireError> {
    if Framable(msg) then Ok(dst + Frame(msg)) else Err(BadRecord)
  }

  function RecordLength(hdr: Octets): Result<nat, WireError> {
    match ReadU16(hdr)
    case None => Err(ShortDatagram)
    case Some(n) => (if n.value < 2 || n.value > MAX_RECORD then Err(BadRecord) else Ok(n.value))
  }

  /** How one read of a record ends. A stream cut right after a header ends like one cut between records (io.ReadFull). */
  datatype Next = Record(msg: Octets, rest: Octets) | EndOfStream | CutShort | Refused(error: WireError)

  function ReadRecord(b: Octets): Next {
    if b == [] then EndOfStream
    else if |b| < 2 then CutShort
    else
      match RecordLength(b)
      case Err(e) => Refused(e)
      case Ok(n) =>
        if |b| == 2 then EndOfStream
        else if |b| < 2 + n then CutShort
        else Record(b[2..2 + n], b[2 + n..])
  }

  /** The read loop: the messages up to the first read that gives none, and how that one ended. */
  function ReadStream(b: Octets): (seq<Octets>, Next)
    decreases |b|
  {
    match ReadRecord(b)
    case Record(msg, rest) =>
      var (msgs, end) := ReadStream(rest);
      ([msg] + msgs, end)
    case end => ([], end)
  }

  function Frames(msgs: seq<Octets>): Octets
    requires forall m | m in msgs :: Framable(m)
  {
    if msgs == [] then []
    else
      assert msgs[0] in msgs;
      Frame(msgs[0]) + Frames(msgs[1..])
  }

  lemma RecordReads(msg: Octets, rest: Octets)
    requires Framable(msg)
    ensures ReadRecord(Frame(msg) + rest) == Record(msg, rest)
  {
    var b := Frame(msg) + rest;
    U16Reads(|msg|, msg + rest);
    assert b == U16(|msg|) + (msg + rest);
    assert b[2..2 + |msg|] == msg && b[2 + |msg|..] == rest;
  }

  lemma HeadFirst(msgs: seq<Octets>, more: seq<Octets>)
    requires msgs != []
    ensures msgs + more == [msgs[0]] + (msgs[1..] + more)
  {}

  lemma FirstFrameReads(msg: Octets, rest: Octets)
    requires Framable(msg)
    ensures ReadStream(Frame(msg) + rest) == ([msg] + ReadStream(rest).0, ReadStream(rest).1)
  {
    RecordReads(msg, rest);
  }

  lemma FirstFrame(msgs: seq<Octets>, tail: Octets)
    requires msgs != [] && forall m | m in msgs :: Framable(m)
    ensures Framable(msgs[0]) && Frames(msgs) + tail == Frame(msgs[0]) + (Frames(msgs[1..]) + tail)
  {
    assert msgs[0] in msgs;
  }

  /** Framed messages followed by anything read back as those messages, and then as whatever follows. */
  lemma {:induction false} FramesReadBack(msgs: seq<Octets>, tail: Octets)
    requires forall m | m in msgs :: Framable(m)
    ensures ReadStream(Frames(msgs) + tail) == (msgs + ReadStream(tail).0, ReadStream(tail).1)
  {
    if msgs == [] {
      assert Frames(msgs) + tail == tail;
      assert msgs + ReadStream(tail).0 == ReadStream(tail).0;
    } else {
      FramesReadBack(msgs[1..], tail);
      FirstFrame(msgs, tail);
      FirstFrameReads(msgs[0], Frames(msgs[1..]) + tail);
      HeadFirst(msgs, ReadStream(tail).0);
    }
  }

  /** Appending a record to a stream of records makes it the stream with one more message, and refuses only what does not fit. */
  lemma AppendedReadsBack(msgs: seq<Octets>, msg: Octets)
    requires forall m | m in msgs :: Framable(m)
    ensures var r := AppendRecord(Frames(msgs), msg);
            if Framable(msg) then r.Ok? && ReadStream(r.value) == (msgs + [msg], EndOfStream) else r == Err(BadRecord)
  {
    if Framable(msg) {
      FramesReadBack(msgs, Frame(msg));
      FirstFrameReads(msg, []);
      assert Frame(msg) + [] == Frame(msg);
      assert [msg] + [] == [msg];
    }
  }

  lemma ReadRecordFrames(b: Octets)
    requires ReadRecord(b).Record?
    ensures Framable(ReadRecord(b).msg) && b == Frame(ReadRecord(b).msg) + ReadRecord(b).rest
  {
    ReadU16Writes(b);
    var n := RecordLength(b).value;
    assert b == b[..2] + b[2..2 + n] + b[2 + n..];
  }

  /** A header that promises a record none of which arrived. */
  predicate BareHeader(b: Octets) {
    |b| == 2 && RecordLength(b).Ok?
  }

  /** The frames, with or without one more header after them. */
  predicate CleanEnd(b: Octets, frames: Octets) {
    b == frames || (|b| >= 2 && b[..|b| - 2] == frames && BareHeader(b[|b| - 2..]))
  }

  lemma FramesEndCleanly(b: Octets, msgs: seq<Octets>)
    requires (forall m | m in msgs :: Framable(m)) && CleanEnd(b, Frames(msgs))
    ensures ReadStream(b) == (msgs, EndOfStream)
  {
    var f := Frames(msgs);
    var tail := b[|f|..];
    assert b == f + tail && (tail == [] || BareHeader(tail));
    FramesReadBack(msgs, tail);
    assert msgs + [] == msgs;
  }

  lemma FramesCons(msg: Octets, msgs: seq<Octets>)
    requires Framable(msg) && forall m | m in msgs :: Framable(m)
    ensures (forall m | m in [msg] + msgs :: Framable(m)) && Frames([msg] + msgs) == Frame(msg) + Frames(msgs)
  {
    assert ([msg] + msgs)[1..] == msgs;
  }

  lemma CleanAfterFrame(b: Octets, msg: Octets, rest: Octets, frames: Octets)
    requires Framable(msg) && b == Frame(msg) + rest && CleanEnd(rest, frames)
    ensures CleanEnd(b, Frame(msg) + frames)
  {
    if rest != frames {
      assert b[|b| - 2..] == rest[|rest| - 2..];
      assert b[..|b| - 2] == Frame(msg) + rest[..|rest| - 2];
    }
  }

  lemma {:induction false} StreamIsFrames(b: Octets)
    requires ReadStream(b).1 == EndOfStream
    ensures (forall m | m in ReadStream(b).0 :: Framable(m)) && CleanEnd(b, Frames(ReadStream(b).0))
    decreases |b|
  {
    match ReadRecord(b)
    case Record(msg, rest) =>
      ReadRecordFrames(b);
      StreamIsFrames(rest);
      var msgs := ReadStream(rest).0;
      FramesCons(msg, msgs);
      CleanAfterFrame(b, msg, rest, Frames(msgs));
    case _ =>
  }

  /** Exactly which bytes a reader takes for a finished stream of the given messages. */
  lemma CleanStreams(b: Octets, msgs: seq<Octets>)
    requires forall m | m in msgs :: Framable(m)
    ensures ReadStream(b) == (msgs, EndOfStream) <==> CleanEnd(b, Frames(msgs))
  {
    if CleanEnd(b, Frames(msgs)) {
      FramesEndCleanly(b, msgs);
    } else if ReadStream(b).1 == EndOfStream {
      StreamIsFrames(b);
    }
  }

  /** Every event the appender accepts, whose voice URL is UTF-8, survives the stream: same events, same order. */
  lemma EventStreamRoundTrip(events: seq<Event>)
    requires forall e | e in events :: AppendEvent([], e).Ok? && (e.kind == VOICE_TICKET ==> Utf8(e.voiceUrl))
    ensures var msgs := Encoded(events);
            (forall m | m in msgs :: Framable(m)) && ReadStream(Frames(msgs)) == (msgs, EndOfStream) &&
            forall i | 0 <= i < |events| :: DecodeEvent(msgs[i], false) == Ok(CleanEvent(events[i]))
  {
    var msgs := Encoded(events);
    forall i | 0 <= i < |msgs| ensures Framable(msgs[i]) && DecodeEvent(msgs[i], false) == Ok(CleanEvent(events[i])) {
      assert events[i] in events;
      AppendsEncoding(events[i]);
      EventRoundTrip(events[i], false);
    }
    FramesReadBack(msgs, []);
    assert Frames(msgs) + [] == Frames(msgs) && msgs + [] == msgs;
  }

  function Encoded(events: seq<Event>): (r: seq<Octets>)
    ensures |r| == |events| && forall i | 0 <= i < |r| :: r[i] == EncodeEvent(events[i])
  {
    seq(|events|, (i: nat) requires i < |events| => EncodeEvent(events[i]))
  }

  lemma AppendsEncoding(e: Event)
    requires AppendEvent([], e).Ok?
    ensures EncodeEvent(e) == AppendEvent([], e).value
  {
    assert [] + EncodeEvent(e) == EncodeEvent(e);
  }
}

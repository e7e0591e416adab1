// What reading a reply can give, and what an attempt makes of it
// (src/anymodbus/bus.py `_one_txn`, src/anymodbus/framing.py): every result is
// tied to one parse of the bytes that were there.
module Replies {
  import opened Bits
  import opened Errors
  import opened Line
  import opened Framing
  import opened RtuFramer
  import opened AsciiFramer
  import opened Timing

  // ----- One read of a frame -----

  // The read was broken off: by the port, the deadline or a cancellation.
  predicate CutOff<T>(r: Result<T>) {
    r.Err? && (r.error.Stream? || r.error.DeadlinePassed? || r.error.Cancelled?)
  }

  // Stray segments for other slaves, then what one parse from the last cut says.
  ghost predicate RtuReplyRead(incoming: seq<byte>, from: nat, to: nat, slave: byte, frame: Result<(byte, seq<byte>)>,
                               cuts: seq<nat>) {
    && Strays(incoming, slave, cuts) && cuts[0] == from && cuts[|cuts| - 1] <= to <= |incoming|
    && (from < |incoming| && incoming[from] == slave ==> |cuts| == 1)
    && (frame.Ok? ==> AcceptedFrame(incoming[cuts[|cuts| - 1]..to], slave, frame.value))
    && var start := cuts[|cuts| - 1];
       AgreesWith(ParseReply(incoming[start..]), frame, to - start, |incoming| - start)
       && (ParseReply(incoming[start..]) == Unframed ==> frame == JudgeBurst(incoming[start..to]))
  }

  // Reading the reply of `slave` from `from` gave `frame` and stopped at `to`.
  ghost predicate ReplyRead(framing: Framing, incoming: seq<byte>, from: nat, to: nat, slave: byte,
                            frame: Result<(byte, seq<byte>)>) {
    && from <= to <= |incoming|
    && (if frame.Ok? then frame.value.0 == slave && frame.value.1 != []
        else CutOff(frame) || frame.error.IsProtocolError())
    && (CutOff(frame)
        || match framing
           case Rtu => exists cuts :: RtuReplyRead(incoming, from, to, slave, frame, cuts)
           case Ascii => ReadsReply(ReplyFrom(incoming, from, slave), frame, to - from, |incoming| - from))
  }

  // One whole frame of `slave` carrying `pdu` was read.
  ghost predicate FrameRead(framing: Framing, incoming: seq<byte>, from: nat, to: nat, slave: byte, pdu: seq<byte>) {
    ReplyRead(framing, incoming, from, to, slave, Ok((slave, pdu)))
  }

  lemma {:induction false} AsciiRefusal(s: seq<byte>, slave: byte)
    requires ParseAsciiReply(s, slave).Refused?
    ensures ParseAsciiReply(s, slave).error.LrcError? || ParseAsciiReply(s, slave).error.FrameError?
    decreases |s|
  {
    var parsed := ParseAscii(s);
    if parsed.RawFrame? && parsed.raw[0] != slave {
      AsciiRefusal(s[parsed.used..], slave);
    }
  }

  lemma AsciiRead(incoming: seq<byte>, from: nat, to: nat, slave: byte, frame: Result<(byte, seq<byte>)>)
    requires from <= to <= |incoming|
             && ReadsReply(ReplyFrom(incoming, from, slave), frame, to - from, |incoming| - from)
    ensures ReplyRead(Ascii, incoming, from, to, slave, frame)
  {
    var s := incoming[from..];
    match ParseAsciiReply(s, slave)
    case Refused(_, _) => AsciiRefusal(s, slave);
    case Reply(_, _, _) => var at := AcceptedReplyIsFrame(s, slave);
    case NoReply(_) =>
  }

  // What the two readers promise is what reading a reply can give.
  lemma RtuResult(incoming: seq<byte>, from: nat, to: nat, slave: byte, r: Result<(byte, seq<byte>)>, cuts: seq<nat>)
    requires from <= to <= |incoming| && Strays(incoming, slave, cuts) && cuts[0] == from && cuts[|cuts| - 1] <= to
    requires r.Ok? ==> AcceptedFrame(incoming[cuts[|cuts| - 1]..to], slave, r.value)
    requires r.Err? ==> r.error.IsProtocolError() || r.error.IsInterruption()
    requires from < |incoming| && incoming[from] == slave ==> |cuts| == 1
    requires !(r.Err? && r.error.IsInterruption()) ==>
               && AgreesWith(ParseReply(incoming[cuts[|cuts| - 1]..]), r, to - cuts[|cuts| - 1],
                             |incoming| - cuts[|cuts| - 1])
               && (ParseReply(incoming[cuts[|cuts| - 1]..]) == Unframed ==>
                   r == JudgeBurst(incoming[cuts[|cuts| - 1]..to]))
    ensures ReplyRead(Rtu, incoming, from, to, slave, r)
    ensures !CutOff(r) ==> RtuReplyRead(incoming, from, to, slave, r, cuts)
  {
    hide Strays, ParseReply, AgreesWith, JudgeBurst;
    if !CutOff(r) {
      hide AcceptedFrame;
      assert RtuReplyRead(incoming, from, to, slave, r, cuts);
    }
  }

  lemma AsciiResult(incoming: seq<byte>, from: nat, to: nat, slave: byte, r: Result<(byte, seq<byte>)>)
    requires from <= to <= |incoming|
    requires ReadsReplyUnless(ReplyFrom(incoming, from, slave), r, to - from, |incoming| - from)
    ensures ReplyRead(Ascii, incoming, from, to, slave, r)
  {
    if !CutOff(r) {
      AsciiRead(incoming, from, to, slave, r);
    }
  }

  // Where the reply that begins at `from` ends, as far as its framing tells.
  function ReplyEnd(framing: Framing, incoming: seq<byte>, from: nat, slave: byte): (end: Option<nat>)
    requires from <= |incoming|
    ensures end.Some? ==> from < end.value
  {
    match framing
    case Rtu =>
      if from < |incoming| && incoming[from] == slave && ParseReply(incoming[from..]) != Unframed
      then Some(from + ParseReply(incoming[from..]).Extent()) else None
    case Ascii =>
      var reply := ReplyFrom(incoming, from, slave);
      if reply.Extent() > 0 then Some(from + reply.Extent()) else None
  }

  // A read that timed out was not waiting for a reply whose end was there in time.
  predicate NoReplyThere(framing: Framing, incoming: seq<byte>, from: nat, slave: byte, expired: bool, began: real,
                         deadline: Deadline, arrivesAt: seq<real>, lag: real) {
    from <= |incoming| &&
    match ReplyEnd(framing, incoming, from, slave)
    case None => true
    case Some(end) => NotThere(expired, began, deadline, arrivesAt, lag, end)
  }

  lemma AsciiInTime(incoming: seq<byte>, from: nat, to: nat, slave: byte, r: Result<(byte, seq<byte>)>, began: real,
                    now: real, deadline: Deadline, arrivesAt: seq<real>, lag: real)
    requires from <= to <= |incoming| && InOrder(arrivesAt)
    requires ReadsReplyUnless(ReplyFrom(incoming, from, slave), r, to - from, |incoming| - from)
    requires Timed(r.Ok?, r.TimedOut(), began, now, deadline, arrivesAt, lag, from, to)
    ensures Waited(r.TimedOut(), began, now, deadline, lag)
    ensures NoReplyThere(Ascii, incoming, from, slave, r.TimedOut(), began, deadline, arrivesAt, lag)
    ensures NotThere(r.TimedOut(), began, deadline, arrivesAt, lag, to + 1)
  {
    hide ReplyFrom;
    var reply := ReplyFrom(incoming, from, slave);
    if reply.Extent() > 0 {
      GivenUpBefore(r.Ok?, r.TimedOut(), began, now, deadline, arrivesAt, lag, from, to, from + reply.Extent());
    }
  }

  // A frame that was read has a function code, of the slave asked for; other reads end as they may.
  lemma ReadOfFrame(framing: Framing, incoming: seq<byte>, from: nat, to: nat, slave: byte,
                    r: Result<(byte, seq<byte>)>)
    requires ReplyRead(framing, incoming, from, to, slave, r)
    ensures if r.Ok? then r.value.1 != [] && r.value.0 == slave else CutOff(r) || r.error.IsProtocolError()
  {}

  // Where the RTU reader has been: past stray frames, each one's whole burst, to a frame of ours, the end of the
  // stream, or a place where it was broken off.
  ghost predicate RtuStopped(incoming: seq<byte>, arrivesAt: seq<real>, lag: real, gap: real, began: real, from: nat,
                             to: nat, slave: byte, frame: Result<(byte, seq<byte>)>, cuts: seq<nat>) {
    && Strays(incoming, slave, cuts) && cuts[0] == from && cuts[|cuts| - 1] <= to <= |incoming|
    && TakesStrays(arrivesAt, lag, gap, began, cuts)
    && StoppedAt(incoming, arrivesAt, lag, gap, began, slave, cuts[|cuts| - 1], to,
                 frame.Err? && frame.error.IsInterruption())
    && (!CutOff(frame) ==> RtuReplyRead(incoming, from, to, slave, frame, cuts))
  }

  // What the RTU reader promises of its timeouts is what an attempt needs.
  lemma RtuInTime(incoming: seq<byte>, arrivesAt: seq<real>, lag: real, gap: real, began: real, from: nat, to: nat,
                  slave: byte, r: Result<(byte, seq<byte>)>, deadline: Deadline, cuts: seq<nat>)
    requires from <= to <= |incoming| && InOrder(arrivesAt) && Strays(incoming, slave, cuts) && cuts[0] == from
    requires Ours(incoming, from, slave) ==> |cuts| == 1
    requires cuts[|cuts| - 1] <= to
    requires StoppedAt(incoming, arrivesAt, lag, gap, began, slave, cuts[|cuts| - 1], to,
                       r.Err? && r.error.IsInterruption())
    requires Ours(incoming, from, slave) && ParseReply(incoming[from..]) != Unframed ==>
               NotThere(r.TimedOut(), began, deadline, arrivesAt, lag, to + 1)
    requires TakesStrays(arrivesAt, lag, gap, began, cuts)
    requires !CutOff(r) ==> RtuReplyRead(incoming, from, to, slave, r, cuts)
    ensures NoReplyThere(Rtu, incoming, from, slave, r.TimedOut(), began, deadline, arrivesAt, lag)
    ensures RtuStopped(incoming, arrivesAt, lag, gap, began, from, to, slave, r, cuts)
  {
    hide Strays, ParseReply, TakesStrays, RtuReplyRead;
    if r.TimedOut() && Ours(incoming, from, slave) && ParseReply(incoming[from..]) != Unframed {
      NotThereLonger(true, began, deadline, arrivesAt, lag, to + 1, from + ParseReply(incoming[from..]).Extent());
    }
  }

  predicate Carries(incoming: seq<byte>, from: nat, frame: seq<byte>) {
    from + |frame| <= |incoming| && incoming[from..from + |frame|] == frame
  }

  // A reply frame that is there, from the first byte, is read: exactly it, whatever follows and
  // however it arrives, unless the read is broken off.
  lemma CarriedReplyIsRead(framing: Framing, incoming: seq<byte>, from: nat, to: nat, slave: byte,
                           frame: Result<(byte, seq<byte>)>, response: seq<byte>)
    requires ReplyRead(framing, incoming, from, to, slave, frame) && !CutOff(frame)
    requires FitsReplyTable(response) && |response| <= 253
    requires Encode(framing, slave, response).Ok? && Carries(incoming, from, Encode(framing, slave, response).value)
    ensures frame == Ok((slave, response)) && to == from + |Encode(framing, slave, response).value|
  {
    hide ReplyRead, EncodeAdu, EncodeAsciiAdu;
    var sent := Encode(framing, slave, response).value;
    var rest := incoming[from + |sent|..];
    assert incoming[from..] == sent + rest;
    match framing
    case Rtu => CarriedRtu(incoming, from, to, slave, frame, response, rest);
    case Ascii => CarriedAscii(incoming, from, to, slave, frame, response, rest);
  }

  lemma CarriedAscii(incoming: seq<byte>, from: nat, to: nat, slave: byte, frame: Result<(byte, seq<byte>)>,
                     response: seq<byte>, rest: seq<byte>)
    requires ReplyRead(Ascii, incoming, from, to, slave, frame) && !CutOff(frame) && 1 <= |response| <= 253
    requires incoming[from..] == EncodeAsciiAdu(slave, response).value + rest
    ensures frame == Ok((slave, response)) && to == from + |EncodeAsciiAdu(slave, response).value|
  {
    ReadBackAtOnce(slave, response, rest);
    hide ParseAsciiReply, EncodeAsciiAdu;
  }

  lemma CarriedRtu(incoming: seq<byte>, from: nat, to: nat, slave: byte, frame: Result<(byte, seq<byte>)>,
                   response: seq<byte>, rest: seq<byte>)
    requires ReplyRead(Rtu, incoming, from, to, slave, frame) && !CutOff(frame) && FitsReplyTable(response)
    requires EncodeAdu(slave, response).Ok? && incoming[from..] == EncodeAdu(slave, response).value + rest
    ensures frame == Ok((slave, response)) && to == from + |EncodeAdu(slave, response).value|
  {
    EncodedAdu(slave, response, rest);
    ReadBackReply(slave, response, rest);
    assert incoming[from] == incoming[from..][0];
    var cuts :| RtuReplyRead(incoming, from, to, slave, frame, cuts);
  }

  // ----- What an attempt makes of it -----

  // What an attempt raises in place of a failure of the port.
  function Translated(error: Error): Error {
    match error
    case Stream(Closed) => BusClosed
    case Stream(Broken) => ConnectionLost
    case Stream(EndOfStream) => ConnectionLost
    case Stream(OsError) => TransportError
    case _ => error
  }

  // A closed port closes the bus, a port that broke or ended is a lost connection, and any other failure of the port is
  // an error of the transport; nothing else is turned into these.
  lemma FaultsTranslated(error: Error)
    ensures Translated(error) == BusClosed <==> error in {Stream(Closed), BusClosed}
    ensures Translated(error) == ConnectionLost <==> error in {Stream(Broken), Stream(EndOfStream), ConnectionLost}
    ensures Translated(error) == TransportError <==> error in {Stream(OsError), TransportError}
    ensures !error.Stream? ==> Translated(error) == error
  {}

  function Reraised<T>(r: Result<T>): Result<T> {
    if r.Err? then Err(Translated(r.error)) else r
  }

  function Judged<T>(pdu: seq<byte>, fc: byte, decode: seq<byte> -> Result<T>): Result<T>
    requires pdu != []
  {
    match Interpret(pdu, fc)
    case Err(error) => Err(error)
    case Ok(reply) => decode(reply)
  }

  // The outcome of the read, interpreted and decoded.
  function Conclusion<T>(frame: Result<(byte, seq<byte>)>, fc: byte, decode: seq<byte> -> Result<T>): Result<T>
    requires frame.Ok? ==> frame.value.1 != []
  {
    match frame
    case Ok(read) => Judged(read.1, fc, decode)
    case Err(error) => Err(if error.DeadlinePassed? then FrameTimeout else error)
  }

  // What an attempt makes of each way its reading can end: a reply that decodes, an exception, an answer to something
  // else, damage as it was found, silence up to the deadline, and a failure of the port.
  lemma ConclusionMeans<T>(frame: Result<(byte, seq<byte>)>, fc: byte, decode: seq<byte> -> Result<T>)
    requires 1 <= fc <= 127 && (frame.Ok? ==> frame.value.1 != [])
    ensures var r := Conclusion(frame, fc, decode);
            match frame
            case Ok((_, pdu)) =>
              if pdu[0] == fc then r == decode(pdu)
              else if pdu[0] as int != fc as int + 128 then
                r == Err(if pdu[0] == 0 then ProtocolError else UnexpectedResponse)
              else if |pdu| >= 2 then r == Err(ExceptionResponse(fc, pdu[1]))
              else r == Err(Unhandled)
            case Err(error) =>
              && (r == Err(FrameTimeout) <==> error in {DeadlinePassed, FrameTimeout})
              && (error != DeadlinePassed ==> r == Err(error))
              && (Reraised(r) == Err(BusClosed) <==> error in {Stream(Closed), BusClosed})
              && (Reraised(r) == Err(ConnectionLost) <==>
                    error in {Stream(Broken), Stream(EndOfStream), ConnectionLost})
              && (Reraised(r) == Err(TransportError) <==> error in {Stream(OsError), TransportError})
    ensures frame.Err? ==>
              (frame.error.IsInterruption()
               <==> frame.error in {DeadlinePassed, Cancelled, Stream(Broken), Stream(Closed), Stream(OsError)})
  {}

  // The line as the reader of a reply sees it, and for how long it waits.
  datatype Wire = Wire(framing: Framing, incoming: seq<byte>, arrivesAt: seq<real>, lag: real, gap: real,
                       timeout: real)
  {
    // Its reader can tell where the next byte was missing.
    predicate Telling() { framing.Ascii? || gap > 0.0 }
  }

  // A read that never began was cut off before; one that timed out had waited its whole time, and the reply it
  // was waiting for was not there in time, nor, as a rule, the next byte.
  predicate InTime(wire: Wire, reading: Reading, slave: byte, frame: Result<(byte, seq<byte>)>) {
    match reading.began
    case None => frame.Err? && (frame.error.Stream? || frame.error.Cancelled?)
    case Some(began) =>
      frame.TimedOut() ==>
        && began + wire.timeout <= reading.ended
        && NoReplyThere(wire.framing, wire.incoming, reading.from, slave, true, began, Some(began + wire.timeout),
                        wire.arrivesAt, wire.lag)
        && (wire.Telling() ==>
              NotThere(true, began, Some(began + wire.timeout), wire.arrivesAt, wire.lag, reading.to + 1))
  }

  ghost predicate FrameGives(wire: Wire, reading: Reading, slave: byte, frame: Result<(byte, seq<byte>)>) {
    && ReplyRead(wire.framing, wire.incoming, reading.from, reading.to, slave, frame)
    && InTime(wire, reading, slave, frame)
    && (wire.framing.Rtu? && reading.began.Some? ==> exists cuts :: StoppedReading(wire, reading, slave, frame, cuts))
  }

  ghost predicate StoppedReading(wire: Wire, reading: Reading, slave: byte, frame: Result<(byte, seq<byte>)>,
                                 cuts: seq<nat>)
    requires reading.began.Some?
  {
    RtuStopped(wire.incoming, wire.arrivesAt, wire.lag, wire.gap, reading.began.value, reading.from, reading.to, slave,
               frame, cuts)
  }

  lemma GivesFrame(wire: Wire, reading: Reading, slave: byte, frame: Result<(byte, seq<byte>)>)
    requires ReplyRead(wire.framing, wire.incoming, reading.from, reading.to, slave, frame)
             && InTime(wire, reading, slave, frame)
    requires wire.framing.Rtu? && reading.began.Some? ==> exists cuts ::
               RtuStopped(wire.incoming, wire.arrivesAt, wire.lag, wire.gap, reading.began.value, reading.from,
                          reading.to, slave, frame, cuts)
    ensures FrameGives(wire, reading, slave, frame)
  {
    hide ReplyRead, InTime, RtuStopped;
    if wire.framing.Rtu? && reading.began.Some? {
      var cuts :| RtuStopped(wire.incoming, wire.arrivesAt, wire.lag, wire.gap, reading.began.value, reading.from,
                             reading.to, slave, frame, cuts);
      assert StoppedReading(wire, reading, slave, frame, cuts);
    }
  }

  ghost predicate Reads<T>(wire: Wire, reading: Reading, slave: byte, fc: byte, decode: seq<byte> -> Result<T>,
                           r: Result<T>) {
    exists frame :: FrameGives(wire, reading, slave, frame) && r == Conclusion(frame, fc, decode)
  }

  // What the attempt returns or raises in the end.
  ghost predicate Concludes<T>(wire: Wire, reading: Reading, slave: byte, fc: byte, decode: seq<byte> -> Result<T>,
                               r: Result<T>) {
    exists frame :: FrameGives(wire, reading, slave, frame) && r == Reraised(Conclusion(frame, fc, decode))
  }

  lemma NothingRead<T>(wire: Wire, reading: Reading, slave: byte, fc: byte, decode: seq<byte> -> Result<T>,
                       error: Error)
    requires reading.from == reading.to <= |wire.incoming| && reading.began.None? && (error.Stream? || error.Cancelled?)
    ensures Reads(wire, reading, slave, fc, decode, Err(error))
  {
    var frame: Result<(byte, seq<byte>)> := Err(error);
    assert FrameGives(wire, reading, slave, frame) && Conclusion(frame, fc, decode) == Err(error);
  }

  lemma ReadsConcludes<T>(wire: Wire, reading: Reading, slave: byte, fc: byte, decode: seq<byte> -> Result<T>,
                          r: Result<T>)
    requires Reads(wire, reading, slave, fc, decode, r)
    ensures Concludes(wire, reading, slave, fc, decode, Reraised(r))
  {}

  // A value or a slave's refusal comes from one whole frame, read within an attempt that began to read.
  lemma CertainReadsFrame<T>(wire: Wire, reading: Reading, slave: byte, fc: byte, decode: seq<byte> -> Result<T>,
                             r: Result<T>) returns (pdu: seq<byte>)
    requires Concludes(wire, reading, slave, fc, decode, r)
    requires r.Ok? || r.error.ExceptionResponse?
    ensures FrameRead(wire.framing, wire.incoming, reading.from, reading.to, slave, pdu)
    ensures pdu != [] && r == Reraised(Judged(pdu, fc, decode)) && reading.began.Some?
  {
    var frame :| FrameGives(wire, reading, slave, frame) && r == Reraised(Conclusion(frame, fc, decode));
    pdu := frame.value.1;
  }

  // The failures that say the port, or a cancellation, cut the attempt short.
  predicate CutShort<T>(r: Result<T>) {
    r.Err? && (r.error.ConnectionLost? || r.error.TransportError? || r.error.BusClosed? || r.error.Cancelled?)
  }

  predicate BrokenOff<T>(r: Result<T>) {
    CutShort(r) || (r.Err? && r.error.FrameTimeout?)
  }

  // Reading waited for the whole request timeout, and the bytes up to `end` were not there in time.
  predicate GaveUp(wire: Wire, reading: Reading, end: nat) {
    && reading.began.Some? && 0 < end <= |wire.arrivesAt|
    && reading.began.value + wire.timeout <= reading.ended
    && reading.began.value + wire.timeout <= wire.arrivesAt[end - 1] + wire.lag
  }

  lemma CarriedEnd(framing: Framing, incoming: seq<byte>, from: nat, slave: byte, response: seq<byte>)
    requires FitsReplyTable(response) && |response| <= 253 && from <= |incoming|
    requires Encode(framing, slave, response).Ok? && Carries(incoming, from, Encode(framing, slave, response).value)
    ensures ReplyEnd(framing, incoming, from, slave) == Some(from + |Encode(framing, slave, response).value|)
  {
    var sent := Encode(framing, slave, response).value;
    var rest := incoming[from + |sent|..];
    assert incoming[from..] == sent + rest;
    match framing
    case Rtu =>
      EncodedAdu(slave, response, rest);
      ReadBackReply(slave, response, rest);
      assert incoming[from] == incoming[from..][0];
    case Ascii =>
      ReadBackAtOnce(slave, response, rest);
  }

  // A call whose reply frame is on the line gets exactly what that reply means, unless it was cut short or the
  // frame was not there in time.
  lemma CarriedReplyConcludes<T>(wire: Wire, reading: Reading, slave: byte, fc: byte, decode: seq<byte> -> Result<T>,
                                 r: Result<T>, response: seq<byte>)
    requires Concludes(wire, reading, slave, fc, decode, r)
    requires 0.0 < wire.timeout && |wire.arrivesAt| == |wire.incoming|
    requires FitsReplyTable(response) && |response| <= 253
    requires Encode(wire.framing, slave, response).Ok?
             && Carries(wire.incoming, reading.from, Encode(wire.framing, slave, response).value)
    ensures var end := reading.from + |Encode(wire.framing, slave, response).value|;
            || CutShort(r)
            || (r == Err(FrameTimeout) && GaveUp(wire, reading, end))
            || (r == Reraised(Judged(response, fc, decode)) && reading.to == end && reading.began.Some?)
  {
    hide StoppedReading, Judged, FitsReplyTable, Encode, ReplyEnd;
    var frame :| FrameGives(wire, reading, slave, frame) && r == Reraised(Conclusion(frame, fc, decode));
    hide ReplyRead;
    CarriedEnd(wire.framing, wire.incoming, reading.from, slave, response);
    if !CutOff(frame) {
      CarriedReplyIsRead(wire.framing, wire.incoming, reading.from, reading.to, slave, frame, response);
    }
  }

  // ----- Behind stray frames -----

  // The line from `marks[0]` on: frames for other slaves, each one burst that fits a reader, up to `marks` last.
  ghost predicate StrayBursts(wire: Wire, began: real, slave: byte, marks: seq<nat>) {
    |marks| >= 1 && forall k :: 0 < k < |marks| ==> StrayBurst(wire, began, slave, marks, k)
  }

  ghost predicate StrayBurst(wire: Wire, began: real, slave: byte, marks: seq<nat>, k: nat)
    requires 0 < k < |marks|
  {
    && marks[k - 1] + 2 < marks[k] <= marks[k - 1] + 256 && marks[k] <= |wire.incoming|
    && wire.incoming[marks[k - 1]] != slave
    && OneBurst(wire.arrivesAt, wire.lag, wire.gap, began, marks[k - 1], marks[k])
  }

  // A reader that takes each burst whole cuts the line exactly there, as far as it gets.
  lemma {:induction false} CutsAreMarks(wire: Wire, began: real, slave: byte, marks: seq<nat>, cuts: seq<nat>, k: nat)
    requires StrayBursts(wire, began, slave, marks) && wire.gap > 0.0
    requires Strays(wire.incoming, slave, cuts) && cuts[0] == marks[0]
    requires TakesStrays(wire.arrivesAt, wire.lag, wire.gap, began, cuts)
    requires Ours(wire.incoming, marks[|marks| - 1], slave) && k < |cuts|
    ensures k < |marks| && cuts[k] == marks[k]
    decreases k
  {
    if k > 0 {
      CutsAreMarks(wire, began, slave, marks, cuts, k - 1);
      StrayAt(wire.incoming, slave, cuts, k);
      assert k < |marks| ==> StrayBurst(wire, began, slave, marks, k);
      assert TakesFrameBurst(wire.arrivesAt, wire.lag, wire.gap, began, cuts[k - 1], cuts[k]);
      hide Strays;
    }
  }

  lemma {:induction false} StrayAt(incoming: seq<byte>, expected: byte, cuts: seq<nat>, k: nat)
    requires Strays(incoming, expected, cuts) && 0 < k < |cuts|
    ensures !Ours(incoming, cuts[k - 1], expected)
    decreases |cuts|
  {
    if k < |cuts| - 1 {
      StrayAt(incoming, expected, cuts[..|cuts| - 1], k);
    }
  }

  // However many stray frames come before it, each ended by a silence, a call gets what its reply frame means,
  // unless it was cut short or the frame was not there in time.
  lemma BehindStrayBursts<T>(wire: Wire, reading: Reading, slave: byte, fc: byte, decode: seq<byte> -> Result<T>,
                             r: Result<T>, marks: seq<nat>, response: seq<byte>)
    requires Concludes(wire, reading, slave, fc, decode, r) && wire.framing.Rtu? && wire.gap > 0.0
    requires 0.0 < wire.timeout && |wire.arrivesAt| == |wire.incoming| && InOrder(wire.arrivesAt)
    requires reading.began.Some? ==>
               StrayBursts(wire, reading.began.value, slave, marks) && marks[0] == reading.from
    requires FitsReplyTable(response) && |response| <= 253 && marks != []
    requires EncodeAdu(slave, response).Ok?
             && Carries(wire.incoming, marks[|marks| - 1], EncodeAdu(slave, response).value)
    ensures var end := marks[|marks| - 1] + |EncodeAdu(slave, response).value|;
            || CutShort(r)
            || (r == Err(FrameTimeout) && GaveUp(wire, reading, end))
            || (r == Reraised(Judged(response, fc, decode)) && reading.to == end && reading.began.Some?)
  {
    var frame :| FrameGives(wire, reading, slave, frame) && r == Reraised(Conclusion(frame, fc, decode));
    hide StoppedReading, StrayBursts, ReplyRead, NoReplyThere, FitsReplyTable, EncodeAdu, Judged, GaveUp, Carries,
      ParseReply;
    if reading.began.Some? {
      var cuts :| StoppedReading(wire, reading, slave, frame, cuts);
      CarriedAt(wire.incoming, marks[|marks| - 1], slave, response);
      StoppedWithin(wire, reading, slave, marks, cuts, frame);
      if CutOff(frame) {
        if frame.TimedOut() {
          TimedOutBefore(wire, reading, slave, marks, cuts, frame, response);
        }
      } else {
        ReadBehind(wire, reading, slave, marks, cuts, frame, response);
      }
    }
  }

  lemma StoppedWithin(wire: Wire, reading: Reading, slave: byte, marks: seq<nat>, cuts: seq<nat>,
                      frame: Result<(byte, seq<byte>)>)
    requires reading.began.Some? && StoppedReading(wire, reading, slave, frame, cuts) && wire.gap > 0.0
    requires StrayBursts(wire, reading.began.value, slave, marks) && marks[0] == reading.from
    requires Ours(wire.incoming, marks[|marks| - 1], slave)
    ensures 0 < |cuts| <= |marks| && cuts[|cuts| - 1] == marks[|cuts| - 1]
  {
    hide StrayBursts, TakesStrays, StoppedAt, RtuReplyRead;
    CutsAreMarks(wire, reading.began.value, slave, marks, cuts, |cuts| - 1);
  }

  // A reply frame of ours at `at` is what a parse from there gives.
  lemma CarriedAt(incoming: seq<byte>, at: nat, slave: byte, response: seq<byte>)
    requires FitsReplyTable(response) && EncodeAdu(slave, response).Ok?
             && Carries(incoming, at, EncodeAdu(slave, response).value)
    ensures Ours(incoming, at, slave) && at + |EncodeAdu(slave, response).value| <= |incoming|
    ensures ParseReply(incoming[at..]) == Framed(slave, response, |EncodeAdu(slave, response).value|)
  {
    var sent := EncodeAdu(slave, response).value;
    var rest := incoming[at + |sent|..];
    assert incoming[at..] == sent + rest;
    EncodedAdu(slave, response, rest);
    ReadBackReply(slave, response, rest);
    assert incoming[at] == incoming[at..][0];
  }

  lemma TimedOutBefore(wire: Wire, reading: Reading, slave: byte, marks: seq<nat>, cuts: seq<nat>,
                       frame: Result<(byte, seq<byte>)>, response: seq<byte>)
    requires reading.began.Some? && StoppedReading(wire, reading, slave, frame, cuts) && frame.TimedOut()
    requires InTime(wire, reading, slave, frame) && wire.gap > 0.0 && 0.0 < wire.timeout
    requires |wire.arrivesAt| == |wire.incoming| && InOrder(wire.arrivesAt)
    requires StrayBursts(wire, reading.began.value, slave, marks) && |cuts| <= |marks|
             && cuts[|cuts| - 1] == marks[|cuts| - 1]
    requires EncodeAdu(slave, response).Ok?
    requires var at, size := marks[|marks| - 1], |EncodeAdu(slave, response).value|;
             && Ours(wire.incoming, at, slave) && at + size <= |wire.incoming| && size > 0
             && ParseReply(wire.incoming[at..]) == Framed(slave, response, size)
    ensures GaveUp(wire, reading, marks[|marks| - 1] + |EncodeAdu(slave, response).value|)
  {
    var end := marks[|marks| - 1] + |EncodeAdu(slave, response).value|;
    hide EncodeAdu, ParseReply, Strays, TakesStrays, NoReplyThere;
    if |cuts| < |marks| {
      MarksRise(wire, reading.began.value, slave, marks, |cuts|);
      assert StrayBurst(wire, reading.began.value, slave, marks, |cuts|);
      assert reading.to <= marks[|cuts|];
    }
    assert reading.to < end;
  }

  lemma {:induction false} MarksRise(wire: Wire, began: real, slave: byte, marks: seq<nat>, k: nat)
    requires StrayBursts(wire, began, slave, marks) && k < |marks|
    ensures marks[k] <= marks[|marks| - 1]
    decreases |marks| - k
  {
    hide OneBurst;
    if k < |marks| - 1 {
      assert StrayBurst(wire, began, slave, marks, k + 1);
      MarksRise(wire, began, slave, marks, k + 1);
    }
  }

  lemma ReadBehind(wire: Wire, reading: Reading, slave: byte, marks: seq<nat>, cuts: seq<nat>,
                   frame: Result<(byte, seq<byte>)>, response: seq<byte>)
    requires reading.began.Some? && StoppedReading(wire, reading, slave, frame, cuts) && !CutOff(frame)
    requires StrayBursts(wire, reading.began.value, slave, marks) && |cuts| <= |marks|
             && cuts[|cuts| - 1] == marks[|cuts| - 1]
    requires EncodeAdu(slave, response).Ok?
    requires var at, size := marks[|marks| - 1], |EncodeAdu(slave, response).value|;
             && Ours(wire.incoming, at, slave) && at + size <= |wire.incoming|
             && ParseReply(wire.incoming[at..]) == Framed(slave, response, size)
    ensures frame == Ok((slave, response)) && reading.to == marks[|marks| - 1] + |EncodeAdu(slave, response).value|
  {
    hide EncodeAdu, ParseReply, Strays, TakesStrays, TakesFrameBurst, OneBurst, AcceptedFrame;
    assert |cuts| < |marks| ==> StrayBurst(wire, reading.began.value, slave, marks, |cuts|);
    assert RtuReplyRead(wire.incoming, reading.from, reading.to, slave, frame, cuts);
  }
}

// The caller's side of one slave (src/anymodbus/slave.py), and what retries can
// do to it (src/anymodbus/bus.py, src/anymodbus/_types.py).
module Client {
  import opened Bits
  import opened Errors
  import opened Pdu
  import opened PduProofs
  import opened Framing
  import opened RtuFramer
  import opened AsciiFramer
  import opened Replies
  import opened Timing
  import opened Buses
  import opened RegisterBanks

  // ----- What a call returns is what a whole reply frame carried -----

  ghost predicate AnsweredBy(call: Call, wire: Wire, reading: Reading, slave: byte, r: Result<Answer>) {
    match r
    case Ok(answer) =>
      exists pdu ::
        && pdu != [] && CarriesAnswer(call, pdu, answer)
        && FrameRead(wire.framing, wire.incoming, reading.from, reading.to, slave, pdu)
    case Err(ExceptionResponse(fc, code)) =>
      fc == call.Fc()
      && exists pdu :: |pdu| >= 2 && pdu[0] == fc as int + 0x80 && pdu[1] == code
                       && FrameRead(wire.framing, wire.incoming, reading.from, reading.to, slave, pdu)
    case _ => true
  }

  // The check a call makes of its reply.
  function Decoder(call: Call): seq<byte> -> Result<Answer> {
    reply => DecodeAnswer(call, reply)
  }

  // The frame a legal call sends.
  function RequestFrame(framing: Framing, slave: byte, call: Call): (r: seq<byte>)
    requires call.Legal()
    ensures EncodeRequest(call).Ok? && Encode(framing, slave, EncodeRequest(call).value) == Ok(r)
  {
    EncodesExactlyLegalCalls(call);
    LegalRequestsFit(call);
    AddressByte(framing, slave, EncodeRequest(call).value);
    Encode(framing, slave, EncodeRequest(call).value).value
  }

  // The attempts of one call that held the lock, and what it returned.
  ghost predicate RequestRan(call: Call, config: BusConfig, wire: Wire, mine: seq<Attempt>, id: nat, slave: byte,
                             r: Result<Answer>) {
    && call.Legal() && mine != []
    && CallRan(config, wire, mine, id, slave, call.Fc(), RequestFrame(wire.framing, slave, call), Decoder(call), r)
    && AnsweredBy(call, wire, mine[|mine| - 1].record.Read(), slave, r)
  }

  lemma DecodeFailures(call: Call, pdu: seq<byte>)
    requires call.Legal()
    ensures DecodeAnswer(call, pdu).Err? ==> DecodeAnswer(call, pdu).error.IsProtocolError()
  {}

  lemma ConcludedAnswer(call: Call, wire: Wire, reading: Reading, slave: byte, r: Result<Answer>)
    requires call.Legal() && Concludes(wire, reading, slave, call.Fc(), Decoder(call), r)
    ensures AnsweredBy(call, wire, reading, slave, r)
  {
    hide Concludes, FrameRead, DecodeAnswer, CarriesAnswer;
    if r.Ok? || r.error.ExceptionResponse? {
      var pdu := CertainReadsFrame(wire, reading, slave, call.Fc(), Decoder(call), r);
      DecodeFailures(call, pdu);
      if r.Ok? {
        AcceptedReplyAnswers(call, pdu);
      }
    }
  }

  // ----- How a call can fail -----

  // The library's own errors, a cancellation, or the one failure it does not translate.
  predicate FailsAsDocumented(r: Result<Answer>) {
    r.Err? ==> r.error.IsModbusError() || r.error == Cancelled || r.error == Unhandled
  }

  // The reply read was an exception PDU without its exception code, in ASCII.
  ghost predicate BareExceptionRead(call: Call, wire: Wire, reading: Reading, slave: byte) {
    wire.framing.Ascii? && FrameRead(Ascii, wire.incoming, reading.from, reading.to, slave, [call.Fc() + 0x80])
  }

  // The RTU tables give an exception response its code.
  lemma RtuExceptionLength(incoming: seq<byte>, from: nat, to: nat, slave: byte, pdu: seq<byte>)
    requires FrameRead(Rtu, incoming, from, to, slave, pdu) && pdu[0] >= 0x80
    ensures |pdu| == 2
  {
    var cuts :| RtuReplyRead(incoming, from, to, slave, Ok((slave, pdu)), cuts);
    var start := cuts[|cuts| - 1];
    assert incoming[start..to][1..to - start - 2][0] == incoming[start + 1];
    ParsesTo(incoming, start);
  }

  lemma JudgedFailures(call: Call, pdu: seq<byte>)
    requires call.Legal() && pdu != []
    ensures var r := Judged(pdu, call.Fc(), Decoder(call));
            r.Err? ==>
              && (r.error.IsProtocolError() || r.error.ExceptionResponse? || r.error == Unhandled)
              && (r.error == Unhandled <==> pdu == [call.Fc() + 0x80])
    ensures pdu == [call.Fc() + 0x80] ==> Judged(pdu, call.Fc(), Decoder(call)) == Err(Unhandled)
  {
    DecodeFailures(call, pdu);
    hide DecodeAnswer;
  }

  // What one read gives, given all it can give.
  lemma ReadFailures(call: Call, wire: Wire, reading: Reading, slave: byte, frame: Result<(byte, seq<byte>)>)
    requires call.Legal() && ReplyRead(wire.framing, wire.incoming, reading.from, reading.to, slave, frame)
    ensures var r := Reraised(Conclusion(frame, call.Fc(), Decoder(call)));
            && FailsAsDocumented(r)
            && (CutOff(frame) <==> BrokenOff(r))
            && (r == Err(FrameTimeout) <==> frame.TimedOut())
            && (r == Err(Unhandled) ==> BareExceptionRead(call, wire, reading, slave))
            && (frame == Ok((slave, [call.Fc() + 0x80])) ==> r == Err(Unhandled))
  {
    hide ReplyRead;
    ReadOfFrame(wire.framing, wire.incoming, reading.from, reading.to, slave, frame);
    if frame.Ok? {
      JudgedFailures(call, frame.value.1);
      if wire.framing.Rtu? && frame.value.1[0] >= 0x80 {
        RtuExceptionLength(wire.incoming, reading.from, reading.to, slave, frame.value.1);
      }
      assert frame == Ok((slave, frame.value.1));
      hide Judged, Decoder;
    }
  }

  // A call never times out early: only after reading for its whole timeout, with no reply there in time, nor the
  // next byte, whatever it would have been - in RTU where there are gaps to tell by.
  lemma TimesOutInTime(call: Call, wire: Wire, reading: Reading, slave: byte)
    requires call.Legal() && 0.0 < wire.timeout && |wire.arrivesAt| == |wire.incoming|
    requires Concludes(wire, reading, slave, call.Fc(), Decoder(call), Err(FrameTimeout))
    ensures reading.began.Some? && reading.began.value + wire.timeout <= reading.ended
    ensures reading.from <= |wire.incoming|
            && var end := ReplyEnd(wire.framing, wire.incoming, reading.from, slave);
               (end.Some? && end.value <= |wire.incoming| ==> GaveUp(wire, reading, end.value))
    ensures wire.Telling() && reading.to < |wire.incoming| ==> GaveUp(wire, reading, reading.to + 1)
  {
    var r: Result<Answer> := Err(FrameTimeout);
    var frame :| FrameGives(wire, reading, slave, frame)
                 && r == Reraised(Conclusion(frame, call.Fc(), Decoder(call)));
    ReadFailures(call, wire, reading, slave, frame);
    hide ReplyRead, Conclusion, Reraised, Decoder, ReplyEnd;
  }

  // Two reads of the same bytes that were not cut off agree.
  lemma SameAsciiRead(incoming: seq<byte>, from: nat, to: nat, slave: byte, frame: Result<(byte, seq<byte>)>,
                      pdu: seq<byte>)
    requires ReplyRead(Ascii, incoming, from, to, slave, frame) && !CutOff(frame)
             && FrameRead(Ascii, incoming, from, to, slave, pdu)
    ensures frame == Ok((slave, pdu))
  {
    hide ParseAsciiReply, RtuReplyRead;
  }

  // A call ends outside the documented errors exactly when it has read a bare exception PDU: never in RTU.
  lemma UnhandledExactly(call: Call, wire: Wire, reading: Reading, slave: byte, r: Result<Answer>)
    requires call.Legal() && Concludes(wire, reading, slave, call.Fc(), Decoder(call), r)
    ensures FailsAsDocumented(r)
    ensures r == Err(Unhandled) <==> !BrokenOff(r) && BareExceptionRead(call, wire, reading, slave)
  {
    var frame :| FrameGives(wire, reading, slave, frame)
                 && r == Reraised(Conclusion(frame, call.Fc(), Decoder(call)));
    ReadFailures(call, wire, reading, slave, frame);
    hide ReplyRead, Conclusion, Reraised, FailsAsDocumented, Decoder;
    if !CutOff(frame) && BareExceptionRead(call, wire, reading, slave) {
      SameAsciiRead(wire.incoming, reading.from, reading.to, slave, frame, [call.Fc() + 0x80]);
    }
  }

  // Such a reply is an ordinary frame with a correct LRC: whoever is there to read it gets the failure.
  lemma BareExceptionEscapes(call: Call, wire: Wire, reading: Reading, slave: byte, r: Result<Answer>)
    requires call.Legal() && wire.framing.Ascii? && 0.0 < wire.timeout && |wire.arrivesAt| == |wire.incoming|
    requires Concludes(wire, reading, slave, call.Fc(), Decoder(call), r)
    requires Carries(wire.incoming, reading.from, EncodeAsciiAdu(slave, [call.Fc() + 0x80]).value)
    ensures var end := reading.from + |EncodeAsciiAdu(slave, [call.Fc() + 0x80]).value|;
            CutShort(r) || (r == Err(FrameTimeout) && GaveUp(wire, reading, end)) || r == Err(Unhandled)
    ensures !Error.Unhandled.IsModbusError()
  {
    var bare, from := [call.Fc() + 0x80], reading.from;
    var sent := EncodeAsciiAdu(slave, bare).value;
    var rest := wire.incoming[from + |sent|..];
    assert wire.incoming[from..] == sent + rest;
    var frame :| FrameGives(wire, reading, slave, frame)
                 && r == Reraised(Conclusion(frame, call.Fc(), Decoder(call)));
    ReadFailures(call, wire, reading, slave, frame);
    ReadBackAtOnce(slave, bare, rest);
    hide ReplyRead, EncodeAsciiAdu, Conclusion, ParseAsciiReply, ParseAsciiRequest;
    if !CutOff(frame) {
      CarriedAscii(wire.incoming, from, reading.to, slave, frame, bare, rest);
    } else if r == Err(FrameTimeout) {
      TimesOutInTime(call, wire, reading, slave);
    }
  }

  lemma CancelledAnswer(call: Call, wire: Wire, reading: Reading, slave: byte)
    ensures AnsweredBy(call, wire, reading, slave, Err(Cancelled))
  {}

  // A call that held the lock has been answered, or has failed as documented, or has read a bare exception PDU.
  lemma CallAnswered(call: Call, config: BusConfig, wire: Wire, mine: seq<Attempt>, id: nat, slave: byte,
                     r: Result<Answer>)
    requires call.Legal() && mine != []
    requires CallRan(config, wire, mine, id, slave, call.Fc(), RequestFrame(wire.framing, slave, call), Decoder(call),
                     r)
    ensures RequestRan(call, config, wire, mine, id, slave, r) && FailsAsDocumented(r)
    ensures r == Err(Unhandled) <==>
              !BrokenOff(r) && BareExceptionRead(call, wire, mine[|mine| - 1].record.Read(), slave)
  {
    hide Concludes, AnsweredBy, CallReports, Paced, RequestFrame, BareExceptionRead, Decoder;
    var last := mine[|mine| - 1];
    if last.willRetry {
      CancelledAnswer(call, wire, last.record.Read(), slave);
    } else {
      ConcludedAnswer(call, wire, last.record.Read(), slave, r);
      UnhandledExactly(call, wire, last.record.Read(), slave, r);
    }
  }

  // Arguments out of range are refused, others make a frame; neither refusal is anything but documented.
  lemma Arguments(call: Call, framing: Framing, slave: byte)
    ensures if call.Legal() then
              && EncodeRequest(call).Ok? && EncodeRequest(call).value != []
              && Encode(framing, slave, EncodeRequest(call).value) == Ok(RequestFrame(framing, slave, call))
            else EncodeRequest(call) == Err(ConfigurationError)
    ensures FailsAsDocumented(Err(ConfigurationError)) && FailsAsDocumented(Err(BusClosed))
  {
    EncodesExactlyLegalCalls(call);
    if call.Legal() {
      AddressByte(framing, slave, EncodeRequest(call).value);
    }
  }

  class Slave {
    const bus: Bus
    const address: byte

    constructor (bus: Bus, address: byte)
      requires bus.Valid() && 1 <= address <= 247
      ensures this.bus == bus && this.address == address
    {
      this.bus, this.address := bus, address;
    }

    // `bus.slave(address)`: only unicast addresses have a handle.
    static method For(bus: Bus, address: int) returns (r: Result<Slave>)
      requires bus.Valid()
      ensures r.Ok? <==> 1 <= address <= 247
      ensures r.Ok? ==> r.value.bus == bus && r.value.address == address
      ensures r.Err? ==> r.error == ConfigurationError
    {
      if address < 1 || 247 < address {
        return Err(ConfigurationError);
      }
      var slave := new Slave(bus, address);
      return Ok(slave);
    }

    // Every `read_*` and `write_*` method and the loopback: encode, run the transaction, decode.
    method Request(call: Call) returns (r: Result<Answer>, ghost mine: seq<Attempt>)
      requires bus.Valid() && 1 <= address <= 247
      modifies bus, bus.stream
      ensures bus.Valid() && bus.reports == old(bus.reports) + mine
      // Nothing goes out for arguments out of range, or on a closed bus.
      ensures mine == [] <==> !call.Legal() || old(bus.closed)
      ensures mine == [] ==> bus.stream.sends == old(bus.stream.sends) && bus.requestCount == old(bus.requestCount)
                             && r == Err(if call.Legal() then BusClosed else ConfigurationError)
      ensures mine != [] ==>
                && bus.requestCount == old(bus.requestCount) + 1
                && old(bus.stream.taken) <= mine[|mine| - 1].record.discardFrom
                && RequestRan(call, bus.config, bus.OnWire(), mine, bus.requestCount, address, r)
      ensures FailsAsDocumented(r)
      ensures r == Err(Unhandled) <==>
                && mine != [] && !BrokenOff(r)
                && BareExceptionRead(call, bus.OnWire(), mine[|mine| - 1].record.Read(), address)
    {
      hide EncodeRequest, RequestFrame, Encode, Decoder, Call.Legal, CallRan, RequestRan, FailsAsDocumented, BrokenOff,
        BareExceptionRead, Bus.Valid;
      Arguments(call, bus.framing, address);
      var pdu := EncodeRequest(call);
      if pdu.Err? {
        return Err(pdu.error), [];
      }
      r, mine := bus.Txn(address, pdu.value, call.Fc(), Decoder(call));
      if mine != [] {
        CallAnswered(call, bus.config, bus.OnWire(), mine, bus.requestCount, address, r);
      }
    }
  }

  // ----- How often a request goes out -----

  lemma {:induction false} SendingsConcat(xs: seq<Attempt>, ys: seq<Attempt>)
    ensures Sendings(xs + ys) == Sendings(xs) + Sendings(ys)
    decreases |ys|
  {
    if ys == [] {
      assert xs + ys == xs;
    } else {
      hide Sendings, OneSending;
      var init, last := ys[..|ys| - 1], ys[|ys| - 1];
      SendingsConcat(xs, init);
      SendingsNext(init, last);
      SendingsNext(xs + init, last);
      assert ys == init + [last];
      Regrouped(xs, init, [last]);
      Regrouped(Sendings(xs), Sendings(init), OneSending(last));
    }
  }

  lemma {:induction false} SendingsOfCall(xs: seq<Attempt>, adu: seq<byte>)
    requires forall i :: 0 <= i < |xs| ==> xs[i].adu == adu
    ensures forall i :: 0 <= i < |Sendings(xs)| ==> Sendings(xs)[i].data == adu
    decreases |xs|
  {
    if xs != [] {
      SendingsOfCall(xs[..|xs| - 1], adu);
    }
  }

  // What a call puts on the line: its one frame, at most `retries + 1` times, and only
  // once where the policy retries nothing, or not this function code.
  lemma SendsPerCall(retries: RetryPolicy, before: seq<Attempt>, mine: seq<Attempt>, id: nat, slave: byte, fc: byte,
                     adu: seq<byte>)
    requires CallReports(retries, mine, id, slave, fc, adu)
    ensures Sendings(before + mine) == Sendings(before) + Sendings(mine)
    ensures forall i :: 0 <= i < |Sendings(mine)| ==> Sendings(mine)[i].data == adu
    ensures |Sendings(mine)| <= |mine| <= MostAttempts(retries, fc) <= retries.retries + 1
  {
    SendingsConcat(before, mine);
    SendingsOfCall(mine, adu);
    MostMade(retries, mine, id, slave, fc, adu);
  }

  // ----- What repetition does to the slave -----

  // The banks after handling the same request n times.
  function Repeated(device: Device, banks: Banks, pdu: seq<byte>, n: nat): Banks
    requires pdu != []
  {
    if n == 0 then banks else Handle(device, Repeated(device, banks, pdu, n - 1), pdu).1
  }

  lemma HandledTwice(device: Device, banks: Banks, pdu: seq<byte>)
    requires pdu != []
    ensures Handle(device, Handle(device, banks, pdu).1, pdu).1 == Handle(device, banks, pdu).1
  {
    DecodedIsLegal(pdu);
    var decoded := DecodeRequest(pdu);
    if decoded.Ok? && InRange(device.limits, banks, decoded.value) {
      AppliedTwice(device.limits, banks, decoded.value);
    }
  }

  lemma AppliedTwice(limits: Limits, banks: Banks, call: Call)
    requires InRange(limits, banks, call)
    ensures InRange(limits, After(limits, banks, call), call)
    ensures After(limits, After(limits, banks, call), call) == After(limits, banks, call)
  {}

  // However many times a request is repeated, it acts once at most - and a retryable one not at all.
  lemma {:induction false} RepetitionActsOnce(device: Device, banks: Banks, pdu: seq<byte>, n: nat)
    requires pdu != []
    ensures Repeated(device, banks, pdu, n) == if n == 0 then banks else Handle(device, banks, pdu).1
    ensures IsIdempotent(pdu[0]) ==> Repeated(device, banks, pdu, n) == banks
  {
    hide Handle;
    if n > 0 {
      RepetitionActsOnce(device, banks, pdu, n - 1);
      HandledTwice(device, banks, pdu);
      BanksKept(device, banks, pdu);
    }
  }

  // Retries are transparent: whichever of a call's sends reach the slave, its banks end as
  // after none or one application, and a write that is not to be retried reaches it once at most.
  lemma {:induction false} RetryTransparency(retries: RetryPolicy, mine: seq<Attempt>, id: nat, slave: byte,
                                             device: Device, banks: Banks, pdu: seq<byte>, adu: seq<byte>,
                                             delivered: nat)
    requires pdu != [] && CallReports(retries, mine, id, slave, pdu[0], adu) && delivered <= |Sendings(mine)|
    ensures delivered <= MostAttempts(retries, pdu[0])
    ensures Repeated(device, banks, pdu, delivered) == if delivered == 0 then banks else Handle(device, banks, pdu).1
    ensures IsIdempotent(pdu[0]) ==> Repeated(device, banks, pdu, delivered) == banks
  {
    hide Handle, Repeated;
    SendsPerCall(retries, [], mine, id, slave, pdu[0], adu);
    RepetitionActsOnce(device, banks, pdu, delivered);
  }
}

// Client and server composed over a loss-free line (src/anymodbus/slave.py,
// src/anymodbus/bus.py, src/anymodbus/framing.py, src/anymodbus/_mock/server.py):
// every call that is not broken off reads or writes plain arrays.
module EndToEnd {
  import opened Bits
  import opened Errors
  import opened Line
  import opened Pdu
  import opened PduProofs
  import opened Framing
  import opened RtuFramer
  import opened Replies
  import opened Timing
  import opened Buses
  import opened Client
  import opened RegisterBanks
  import opened MockServers

  // ----- The call on plain arrays -----

  function Refusal(station: Station, call: Call): Option<byte> {
    if call.Fc() in station.device.disabled then Some(ILLEGAL_FUNCTION)
    else OutOfRange(station.device.limits, station.banks, call)
  }

  // Exactly the bank slice read, nothing for a write, the data itself for a loopback.
  function PlainAnswer(station: Station, call: Call): Result<Answer>
    requires call.Legal()
  {
    match Refusal(station, call)
    case Some(code) => Err(ExceptionResponse(call.Fc(), code))
    case None =>
      match call
      case Read(table, address, count) =>
        if table.OfBits() then Ok(Bits(station.banks.BitsOfTable(table)[address..address + count]))
        else Ok(Words(station.banks.WordsOfTable(table)[address..address + count]))
      case Loopback(data) => Ok(Echo(data))
      case _ => Ok(Done)
  }

  function PlainAfter(station: Station, call: Call): Station
    requires call.Legal()
  {
    station.(emitted := station.emitted + 1,
             banks := if Refusal(station, call).Some? then station.banks
                      else After(station.device.limits, station.banks, call))
  }

  type Request = (byte, Call)

  // A call some slave of the line answers undisturbed.
  predicate Answerable(line: Stations, framing: Framing, request: Request) {
    && request.1.Legal() && request.0 != BROADCAST && request.0 in line
    && var device := line[request.0].device;
       device.address == request.0 && device.framing == framing && device.faults == NO_FAULTS
  }

  function PlainRun(line: Stations, framing: Framing, calls: seq<Request>): (r: (Stations, seq<Result<Answer>>))
    requires AllAnswerable(line, framing, calls)
    ensures |r.1| == |calls| && r.0.Keys == line.Keys
    decreases |calls|
  {
    if calls == [] then (line, [])
    else
      var (slave, call) := calls[|calls| - 1];
      assert Answerable(line, framing, (slave, call));
      var (before, answers) := PlainRun(line, framing, calls[..|calls| - 1]);
      (before[slave as int := PlainAfter(before[slave], call)], answers + [PlainAnswer(before[slave], call)])
  }

  lemma {:induction false} DevicesKept(line: Stations, framing: Framing, calls: seq<Request>, a: int)
    requires AllAnswerable(line, framing, calls) && a in line
    ensures PlainRun(line, framing, calls).0[a].device == line[a].device
    decreases |calls|
  {
    if calls != [] {
      assert Answerable(line, framing, calls[|calls| - 1]);
      hide PlainAnswer;
      DevicesKept(line, framing, calls[..|calls| - 1], a);
    }
  }

  // ----- One call -----

  lemma HandlesPlainly(station: Station, call: Call)
    requires call.Legal()
    ensures Handle(station.device, station.banks, EncodeRequest(call).value)
         == match Refusal(station, call)
            case Some(code) => (Err(ServerException(code)), station.banks)
            case None => (EncodeReply(ReplyTo(station.device.limits, station.banks, call)),
                          After(station.device.limits, station.banks, call))
  {
    DecodeEncodeRequest(call);
    FirstByte(call);
    hide EncodeRequest, DecodeRequest, EncodeReply, ReplyTo, After;
  }

  // The response PDU a legal call gets, and what the client makes of it.
  lemma RespondsPlainly(station: Station, call: Call)
    requires call.Legal()
    ensures var (response, banks) := Respond(station.device, station.banks, EncodeRequest(call).value);
            && response.Some? && FitsReplyTable(response.value) && |response.value| <= 253
            && Judged(response.value, call.Fc(), Decoder(call)) == PlainAnswer(station, call)
            && banks == PlainAfter(station, call).banks
  {
    var pdu := EncodeRequest(call).value;
    FirstByte(call);
    HandlesPlainly(station, call);
    hide Handle, EncodeReply, EncodeRequest, ReplyTo, After, FitsReplyTable, Judged, PlainAnswer, Refusal;
    hide Implemented, OtherDiagnostic, EncodeException;
    if Refusal(station, call).None? {
      AcceptedPlainly(station, call);
    } else {
      RefusedPlainly(station, call);
    }
    ResponseFits(station.device, station.banks, pdu);
  }

  lemma FirstByte(call: Call)
    requires call.Legal()
    ensures EncodeRequest(call).value[0] == call.Fc() && Implemented(call.Fc())
            && !OtherDiagnostic(EncodeRequest(call).value)
    ensures call.Fc() % 0x80 == call.Fc() != 0
  {
    var pdu := EncodeRequest(call).value;
    if call.Loopback? {
      assert pdu[1] == 0 && pdu[2] == 0;
    }
  }

  lemma AcceptedPlainly(station: Station, call: Call)
    requires call.Legal() && Refusal(station, call).None?
    ensures var reply := ReplyTo(station.device.limits, station.banks, call);
            EncodeReply(reply).Ok?
              && Judged(EncodeReply(reply).value, call.Fc(), Decoder(call)) == PlainAnswer(station, call)
  {
    DecodeEncodeReply(call, ReplyTo(station.device.limits, station.banks, call));
  }

  lemma RefusedPlainly(station: Station, call: Call)
    requires call.Legal() && Refusal(station, call).Some?
    ensures Judged(EncodeException(call.Fc(), Refusal(station, call).value).value, call.Fc(), Decoder(call))
            == PlainAnswer(station, call)
  {}

  // One request on the line: the server frames it, steps that slave alone, and sends a frame
  // that fits the reply tables and means the plain answer.
  lemma ServedPlainly(line: Stations, framing: Framing, slave: byte, call: Call) returns (response: seq<byte>)
    requires Answerable(line, framing, (slave, call))
    ensures var pdu := EncodeRequest(call).value;
            && ReadRequests(framing, RequestFrame(framing, slave, call)) == [(slave, pdu)]
            && Step(line, slave, pdu).0 == line[slave as int := PlainAfter(line[slave], call)]
            && Encode(framing, slave, response).Ok?
            && Step(line, slave, pdu).1 == Some(Encode(framing, slave, response).value)
    ensures FitsReplyTable(response) && |response| <= 253
    ensures Judged(response, call.Fc(), Decoder(call)) == PlainAnswer(line[slave], call)
  {
    var pdu := EncodeRequest(call).value;
    RequestReadBack(framing, slave, call);
    RespondsPlainly(line[slave], call);
    FirstByte(call);
    hide Respond, Judged, PlainAnswer, EncodeRequest, FitsReplyTable;
    response := Respond(line[slave].device, line[slave].banks, pdu).0.value;
    FittingEncodes(framing, slave, response);
  }

  lemma FittingEncodes(framing: Framing, slave: byte, response: seq<byte>)
    requires FitsReplyTable(response)
    ensures Encode(framing, slave, response).Ok?
  {
    AddressByte(framing, slave, response);
  }

  lemma RequestReadBack(framing: Framing, slave: byte, call: Call)
    requires call.Legal()
    ensures EncodeRequest(call).Ok?
    ensures ReadRequests(framing, RequestFrame(framing, slave, call)) == [(slave, EncodeRequest(call).value)]
  {
    LegalRequestsFit(call);
    hide FitsRequestTable, EncodeRequest;
    var pdu := EncodeRequest(call).value;
    ReadFirstRequest(framing, slave, pdu, []);
    ReadBackRequests(framing, []);
    assert Encode(framing, slave, pdu).value + [] == Encode(framing, slave, pdu).value;
  }

  // The frame the server of this line answers one call with.
  function ReplyFrame(line: Stations, framing: Framing, request: Request): seq<byte>
    requires Answerable(line, framing, request)
  {
    FirstByte(request.1);
    var frame := Step(line, request.0, EncodeRequest(request.1).value).1;
    if frame.Some? then frame.value else []
  }

  // One call over the line. If the server's frame is what its last attempt finds on the line, `Slave.Request`
  // returns the plain array operation on that slave, unless the attempt was cut short or the frame was not
  // there by the end of its request timeout; the frame is consumed exactly, and no other slave changes.
  lemma CallIsPlain(line: Stations, config: BusConfig, wire: Wire, slave: byte, call: Call, mine: seq<Attempt>,
                    id: nat, r: Result<Answer>)
    requires Answerable(line, wire.framing, (slave, call))
    requires RequestRan(call, config, wire, mine, id, slave, r)
    requires 0.0 < wire.timeout && |wire.arrivesAt| == |wire.incoming|
    requires Carries(wire.incoming, mine[|mine| - 1].record.readFrom, ReplyFrame(line, wire.framing, (slave, call)))
    ensures ReadRequests(wire.framing, RequestFrame(wire.framing, slave, call)) == [(slave, EncodeRequest(call).value)]
    ensures Step(line, slave, EncodeRequest(call).value).0 == line[slave as int := PlainAfter(line[slave], call)]
    ensures var reading := mine[|mine| - 1].record.Read();
            var end := reading.from + |ReplyFrame(line, wire.framing, (slave, call))|;
            || CutShort(r)
            || (r == Err(FrameTimeout) && GaveUp(wire, reading, end))
            || (r == PlainAnswer(line[slave], call) && r != Err(Unhandled) && reading.to == end)
  {
    hide Step, Encode, EncodeRequest, FitsReplyTable, Judged, Concludes, PlainAnswer, PlainAfter, GaveUp, CutShort;
    hide RequestRan, Carries, RequestFrame, ReplyFrame, ReadRequests, Decoder;
    var response := ServedPlainly(line, wire.framing, slave, call);
    FrameOfReply(line, wire.framing, (slave, call));
    LastConcludes(call, config, wire, slave, mine, id, r);
    if !CutShort(r) {
      var reading := mine[|mine| - 1].record.Read();
      CarriedReplyConcludes(wire, reading, slave, call.Fc(), Decoder(call), r, response);
      AnswerStands(line[slave], call, response);
    }
  }

  // In RTU the frame may also stand behind any number of frames for other slaves, each ended by a silence.
  lemma CallBehindStrays(line: Stations, config: BusConfig, wire: Wire, slave: byte, call: Call, mine: seq<Attempt>,
                         id: nat, r: Result<Answer>, marks: seq<nat>)
    requires Answerable(line, wire.framing, (slave, call)) && wire.framing.Rtu? && wire.gap > 0.0
    requires RequestRan(call, config, wire, mine, id, slave, r)
    requires 0.0 < wire.timeout && |wire.arrivesAt| == |wire.incoming| && InOrder(wire.arrivesAt)
    requires var record := mine[|mine| - 1].record;
             record.readAt.Some? ==>
               marks != [] && StrayBursts(wire, record.readAt.value, slave, marks) && marks[0] == record.readFrom
    requires marks != []
             && Carries(wire.incoming, marks[|marks| - 1], ReplyFrame(line, wire.framing, (slave, call)))
    ensures var reading := mine[|mine| - 1].record.Read();
            var end := marks[|marks| - 1] + |ReplyFrame(line, wire.framing, (slave, call))|;
            || CutShort(r)
            || (r == Err(FrameTimeout) && GaveUp(wire, reading, end))
            || (r == PlainAnswer(line[slave], call) && reading.to == end)
  {
    hide Step, EncodeAdu, EncodeRequest, FitsReplyTable, Judged, Concludes, PlainAnswer, PlainAfter, GaveUp, CutShort;
    hide RequestRan, Carries, RequestFrame, ReplyFrame, ReadRequests, Decoder, StrayBursts;
    var response := ServedPlainly(line, wire.framing, slave, call);
    FrameOfReply(line, wire.framing, (slave, call));
    LastConcludes(call, config, wire, slave, mine, id, r);
    if !CutShort(r) {
      BehindStrayBursts(wire, mine[|mine| - 1].record.Read(), slave, call.Fc(), Decoder(call), r, marks, response);
      AnswerStands(line[slave], call, response);
    }
  }

  lemma FrameOfReply(line: Stations, framing: Framing, request: Request)
    requires Answerable(line, framing, request)
    ensures var frame := Step(line, request.0, EncodeRequest(request.1).value).1;
            EncodeRequest(request.1).Ok? && EncodeRequest(request.1).value != []
            && ReplyFrame(line, framing, request) == if frame.Some? then frame.value else []
  {
    FirstByte(request.1);
    hide Step;
  }

  // What a response means is never a failure of the port, nor outside the documented errors.
  lemma AnswerStands(station: Station, call: Call, response: seq<byte>)
    requires call.Legal() && FitsReplyTable(response)
    requires Judged(response, call.Fc(), Decoder(call)) == PlainAnswer(station, call)
    ensures Reraised(Judged(response, call.Fc(), Decoder(call))) == PlainAnswer(station, call) != Err(Unhandled)
  {
    hide Judged, Decoder;
  }

  // A call that was not cut short concluded its last attempt, which began to read.
  lemma LastConcludes(call: Call, config: BusConfig, wire: Wire, slave: byte, mine: seq<Attempt>, id: nat,
                      r: Result<Answer>)
    requires RequestRan(call, config, wire, mine, id, slave, r)
    ensures call.Legal() && mine != []
    ensures CutShort(r) || Concludes(wire, mine[|mine| - 1].record.Read(), slave, call.Fc(), Decoder(call), r)
  {
    hide CallReports, Paced, AnsweredBy, Concludes, RequestFrame, Decoder;
  }

  lemma BeganToRead<T>(wire: Wire, reading: Reading, slave: byte, fc: byte, decode: seq<byte> -> Result<T>,
                       r: Result<T>)
    requires Concludes(wire, reading, slave, fc, decode, r) && !CutShort(r)
    ensures reading.began.Some?
  {
    var frame :| FrameGives(wire, reading, slave, frame) && r == Reraised(Conclusion(frame, fc, decode));
    hide ReplyRead;
  }

  // ----- Any run of calls -----

  function WireRequest(request: Request): (r: (byte, seq<byte>))
    requires request.1.Legal()
    ensures r.0 == request.0 && EncodeRequest(request.1) == Ok(r.1) && r.1 != []
  {
    FirstByte(request.1);
    (request.0, EncodeRequest(request.1).value)
  }

  predicate AllLegal(calls: seq<Request>) {
    forall i :: 0 <= i < |calls| ==> calls[i].1.Legal()
  }

  function Sent(calls: seq<Request>): (r: seq<(byte, seq<byte>)>)
    requires AllLegal(calls)
    ensures |r| == |calls| && AllRequests(r)
    ensures forall i :: 0 <= i < |calls| ==> r[i] == WireRequest(calls[i])
  {
    seq(|calls|, i requires 0 <= i < |calls| => WireRequest(calls[i]))
  }

  predicate AllAnswerable(line: Stations, framing: Framing, calls: seq<Request>) {
    forall i :: 0 <= i < |calls| ==> Answerable(line, framing, calls[i])
  }

  lemma LastSent(line: Stations, framing: Framing, calls: seq<Request>)
    requires AllAnswerable(line, framing, calls) && calls != []
    ensures var last := |calls| - 1;
            && AllAnswerable(line, framing, calls[..last]) && AllLegal(calls[..last]) && AllLegal(calls)
            && Sent(calls) == Sent(calls[..last]) + [WireRequest(calls[last])]
            && Answerable(PlainRun(line, framing, calls[..last]).0, framing, calls[last])
  {
    assert Answerable(line, framing, calls[|calls| - 1]);
    DevicesKept(line, framing, calls[..|calls| - 1], calls[|calls| - 1].0);
  }

  // The server's side of a run: its banks are the plain ones, and it answers every call with its frame.
  lemma {:induction false} BanksArePlain(line: Stations, framing: Framing, calls: seq<Request>)
    requires AllAnswerable(line, framing, calls)
    ensures AllLegal(calls) && |Run(line, Sent(calls)).1| == |calls|
    ensures Run(line, Sent(calls)).0 == PlainRun(line, framing, calls).0
    ensures calls != [] ==>
              var last := |calls| - 1;
              && AllAnswerable(line, framing, calls[..last]) && AllLegal(calls[..last])
              && Answerable(PlainRun(line, framing, calls[..last]).0, framing, calls[last])
              && Run(line, Sent(calls)).1
                 == Run(line, Sent(calls[..last])).1
                   + [ReplyFrame(PlainRun(line, framing, calls[..last]).0, framing, calls[last])]
    decreases |calls|
  {
    hide Run, Respond, PlainAfter, EncodeRequest, Step, Answerable, Sent, WireRequest, Encode, FitsReplyTable, Judged,
      PlainAnswer;
    if calls == [] {
      EmptyRun(line);
    } else {
      var last := |calls| - 1;
      LastSent(line, framing, calls);
      BanksArePlain(line, framing, calls[..last]);
      RunNext(line, Sent(calls[..last]), WireRequest(calls[last]));
      var before := PlainRun(line, framing, calls[..last]).0;
      var response := ServedPlainly(before, framing, calls[last].0, calls[last].1);
    }
  }

  // One call of a run: the line before it, the frame that answers it, and the answer it means.
  ghost predicate OneCall(before: Stations, framing: Framing, request: Request, frame: seq<byte>,
                          answer: Result<Answer>) {
    && Answerable(before, framing, request)
    && frame == ReplyFrame(before, framing, request)
    && answer == PlainAnswer(before[request.0], request.1)
  }

  lemma LastCall(line: Stations, framing: Framing, calls: seq<Request>)
    requires AllAnswerable(line, framing, calls) && calls != []
    ensures var last := |calls| - 1;
            && AllLegal(calls) && AllLegal(calls[..last]) && AllAnswerable(line, framing, calls[..last])
            && |Run(line, Sent(calls)).1| == |calls|
            && Run(line, Sent(calls)).1[..last] == Run(line, Sent(calls[..last])).1
            && PlainRun(line, framing, calls).1[..last] == PlainRun(line, framing, calls[..last]).1
            && OneCall(PlainRun(line, framing, calls[..last]).0, framing, calls[last],
                       Run(line, Sent(calls)).1[last], PlainRun(line, framing, calls).1[last])
  {
    BanksArePlain(line, framing, calls);
    BanksArePlain(line, framing, calls[..|calls| - 1]);
    hide Run, ReplyFrame, PlainAfter, PlainAnswer, Answerable, Sent;
  }

  // A call that was made: its attempts, and what it returned.
  datatype Made = Made(request: Request, mine: seq<Attempt>, id: nat, r: Result<Answer>)
  {
    function Last(): Record
      requires mine != []
    {
      mine[|mine| - 1].record
    }
  }

  ghost predicate Ran(config: BusConfig, wire: Wire, request: Request, made: Made) {
    made.request == request && RequestRan(request.1, config, wire, made.mine, made.id, request.0, made.r)
  }

  ghost predicate AllRan(config: BusConfig, wire: Wire, calls: seq<Request>, made: seq<Made>,
                         results: seq<Result<Answer>>) {
    && |calls| == |made| == |results|
    && forall i :: 0 <= i < |made| ==> Ran(config, wire, calls[i], made[i]) && results[i] == made[i].r
  }

  // Everything they reported, in order.
  function Attempts(made: seq<Made>): seq<Attempt> {
    if made == [] then [] else Attempts(made[..|made| - 1]) + made[|made| - 1].mine
  }

  lemma AttemptsNext(made: seq<Made>, x: Made, before: seq<Attempt>)
    ensures Attempts(made + [x]) == Attempts(made) + x.mine
    ensures (before + Attempts(made)) + x.mine == before + Attempts(made + [x])
  {
    assert (made + [x])[..|made|] == made;
  }

  // Made one after the other, from byte `start` of the line on: each read after the one before it.
  ghost predicate InTurn(made: seq<Made>, start: nat, arrivesAt: seq<real>) {
    && (forall i :: 0 <= i < |made| ==>
          made[i].mine != [] && start <= made[i].Last().readFrom <= made[i].Last().readTo <= |arrivesAt|)
    && (forall i, j :: 0 <= i < j < |made| && made[j].mine != [] ==> made[i].Last().readTo <= made[j].Last().readFrom)
    // What was taken before a send had arrived by then, and nothing is read without a send.
    && (forall i :: 0 <= i < |made| && made[i].Last().readAt.Some? ==> made[i].Last().sendAt.Some?)
    && (forall i :: 0 <= i < |made| && made[i].Last().sendAt.Some? && made[i].Last().readFrom > 0 ==>
          arrivesAt[made[i].Last().readFrom - 1] <= made[i].Last().sendAt.value)
  }

  lemma TurnNext(made: seq<Made>, x: Made, start: nat, taken: nat, arrivesAt: seq<real>, config: BusConfig, lag: real)
    requires InTurn(made, start, arrivesAt) && x.mine != [] && RecordHolds(x.Last(), config, arrivesAt, lag)
    requires start <= taken <= x.Last().discardFrom && ReadBy(made, taken)
    ensures InTurn(made + [x], start, arrivesAt)
  {}

  // All of them had been read by the time `taken` bytes of the line were taken.
  ghost predicate ReadBy(made: seq<Made>, taken: nat) {
    forall i :: 0 <= i < |made| && made[i].mine != [] ==> made[i].Last().readTo <= taken
  }

  lemma ReadByNext(made: seq<Made>, x: Made, before: nat, taken: nat)
    requires x.mine != [] && ReadBy(made, before) && before <= taken && x.Last().readTo <= taken
    ensures ReadBy(made + [x], taken)
  {}

  lemma AllRanNext(config: BusConfig, wire: Wire, calls: seq<Request>, call: Request, made: seq<Made>, x: Made,
                   results: seq<Result<Answer>>)
    requires AllRan(config, wire, calls, made, results) && Ran(config, wire, call, x)
    ensures AllRan(config, wire, calls + [call], made + [x], results + [x.r])
  {}

  lemma NothingMade(config: BusConfig, wire: Wire, start: nat, arrivesAt: seq<real>)
    ensures AllRan(config, wire, [], [], []) && InTurn([], start, arrivesAt) && ReadBy([], start)
    ensures Attempts([]) == []
  {}

  lemma LastReport(bus: Bus)
    requires bus.Valid() && bus.reports != []
    ensures var record := bus.reports[|bus.reports| - 1].record;
            && RecordHolds(record, bus.config, bus.stream.arrivesAt, bus.stream.lag)
            && record.readTo <= bus.stream.taken
  {
    var i := |bus.reports| - 1;
    assert AttemptHolds(bus.reports[i], bus.config, bus.stream.arrivesAt, bus.stream.lag);
    assert Settled(bus.reports[i], bus.Now(), bus.config, bus.stream.arrivesAt, bus.stream.lag);
  }

  // One call on the bus: what it returned, and where on the line its last attempt read.
  method MakeCall(bus: Bus, request: Request) returns (r: Result<Answer>, ghost made: Made)
    requires bus.Valid() && request.1.Legal() && 1 <= request.0 <= 247 && !bus.closed
    modifies bus, bus.stream
    ensures bus.Valid() && Ran(bus.config, bus.OnWire(), request, made) && r == made.r
            && made.mine != []
    ensures RecordHolds(made.Last(), bus.config, bus.stream.arrivesAt, bus.stream.lag)
    ensures old(bus.stream.taken) <= made.Last().discardFrom && made.Last().readTo <= bus.stream.taken
    ensures old(bus.stream.taken) <= bus.stream.taken && bus.reports == old(bus.reports) + made.mine
  {
    hide Bus.Valid, RequestRan, RecordHolds, FailsAsDocumented, BareExceptionRead;
    var handle := Slave.For(bus, request.0);
    ghost var mine;
    r, mine := handle.value.Request(request.1);
    LastReport(bus);
    made := Made(request, mine, bus.requestCount, r);
  }

  // A caller that makes one call after the other, until the bus is closed.
  method MakeCalls(bus: Bus, calls: seq<Request>) returns (results: seq<Result<Answer>>, ghost made: seq<Made>)
    requires bus.Valid() && forall i :: 0 <= i < |calls| ==> 1 <= calls[i].0 <= 247 && calls[i].1.Legal()
    modifies bus, bus.stream
    ensures bus.Valid() && |results| <= |calls| && (|results| < |calls| ==> bus.closed)
    ensures AllRan(bus.config, bus.OnWire(), calls[..|results|], made, results)
    ensures bus.reports == old(bus.reports) + Attempts(made)
    ensures InTurn(made, old(bus.stream.taken), bus.stream.arrivesAt)
  {
    hide *;
    results, made := [], [];
    ghost var start, reported := bus.stream.taken, bus.reports;
    NothingMade(bus.config, bus.OnWire(), start, bus.stream.arrivesAt);
    for i := 0 to |calls|
      invariant bus.Valid() && |results| == i && bus.reports == reported + Attempts(made)
      invariant AllRan(bus.config, bus.OnWire(), calls[..i], made, results)
      invariant InTurn(made, start, bus.stream.arrivesAt) && start <= bus.stream.taken
      invariant ReadBy(made, bus.stream.taken)
    {
      if bus.closed {
        return;
      }
      var r;
      ghost var x;
      ghost var before := bus.stream.taken;
      r, x := MakeCall(bus, calls[i]);
      TurnNext(made, x, start, before, bus.stream.arrivesAt, bus.config, bus.stream.lag);
      ReadByNext(made, x, before, bus.stream.taken);
      AllRanNext(bus.config, bus.OnWire(), calls[..i], calls[i], made, x, results);
      assert calls[..i + 1] == calls[..i] + [calls[i]];
      AttemptsNext(made, x, reported);
      made := made + [x];
      results := results + [r];
    }
  }

  // ----- What a run returns -----

  // These frames, one after the other.
  function Joined(frames: seq<seq<byte>>): seq<byte> {
    if frames == [] then [] else Joined(frames[..|frames| - 1]) + frames[|frames| - 1]
  }

  // A reply at [at, end) of the line comes after its call's last request went out, and in time for its reader.
  predicate ComesInTime(record: Record, at: nat, end: nat, wire: Wire) {
    && at < end <= |wire.arrivesAt|
    && (record.sendAt.Some? ==> record.sendAt.value < wire.arrivesAt[at])
    && (record.readAt.Some? ==> wire.arrivesAt[end - 1] + wire.lag < record.readAt.value + wire.timeout)
  }

  ghost predicate RepliesFollow(made: seq<Made>, frames: seq<seq<byte>>, start: nat, wire: Wire) {
    |made| == |frames|
    && forall i :: 0 <= i < |made| ==>
         made[i].mine != []
         && ComesInTime(made[i].Last(), start + |Joined(frames[..i])|, start + |Joined(frames[..i])| + |frames[i]|,
                        wire)
  }

  lemma JoinedLast(frames: seq<seq<byte>>)
    requires frames != []
    ensures Joined(frames) == Joined(frames[..|frames| - 1]) + frames[|frames| - 1]
  {}

  // A line that carries two parts one after the other carries each in its place.
  lemma CarriesBoth(incoming: seq<byte>, start: nat, first: seq<byte>, second: seq<byte>)
    requires Carries(incoming, start, first + second)
    ensures Carries(incoming, start, first) && Carries(incoming, start + |first|, second)
  {
    var whole := incoming[start..start + |first + second|];
    assert incoming[start..start + |first|] == whole[..|first|] == first;
    assert incoming[start + |first|..start + |first| + |second|] == whole[|first|..] == second;
  }

  lemma AsManyResults(config: BusConfig, wire: Wire, calls: seq<Request>, made: seq<Made>,
                      results: seq<Result<Answer>>)
    requires AllRan(config, wire, calls, made, results)
    ensures |made| == |results| == |calls|
  {}

  lemma PrefixRan(config: BusConfig, wire: Wire, calls: seq<Request>, made: seq<Made>,
                  results: seq<Result<Answer>>)
    requires calls != [] && AllRan(config, wire, calls, made, results)
    ensures var last := |calls| - 1;
            && |made| == |results| == |calls| && results[last] == made[last].r
            && AllRan(config, wire, calls[..last], made[..last], results[..last])
            && Ran(config, wire, calls[last], made[last])
            && results == results[..last] + [results[last]]
  {
    hide Ran;
  }

  lemma PrefixInTurn(made: seq<Made>, start: nat, arrivesAt: seq<real>)
    requires made != [] && InTurn(made, start, arrivesAt)
    ensures InTurn(made[..|made| - 1], start, arrivesAt) && made[|made| - 1].mine != []
  {}

  lemma PrefixFollows(made: seq<Made>, frames: seq<seq<byte>>, start: nat, wire: Wire)
    requires made != [] && RepliesFollow(made, frames, start, wire)
    ensures RepliesFollow(made[..|made| - 1], frames[..|made| - 1], start, wire)
  {
    var last := |made| - 1;
    forall i | 0 <= i < last
      ensures frames[..last][..i] == frames[..i] && made[..last][i] == made[i]
    {}
    hide Joined, Made.Last, ComesInTime;
  }

  // The last call of a run reads where the one before it stopped, and there is its frame.
  lemma ReadsItsFrame(made: seq<Made>, start: nat, wire: Wire, frames: seq<seq<byte>>)
    requires InTurn(made, start, wire.arrivesAt) && RepliesFollow(made, frames, start, wire) && made != []
    requires InOrder(wire.arrivesAt) && made[|made| - 1].mine != [] && made[|made| - 1].Last().readAt.Some?
    requires var last := |made| - 1;
             last > 0 ==> made[last - 1].Last().readTo == start + |Joined(frames[..last])|
    ensures var last := |made| - 1;
            && made[last].Last().readFrom == start + |Joined(frames[..last])|
            && ComesInTime(made[last].Last(), made[last].Last().readFrom,
                           made[last].Last().readFrom + |frames[last]|, wire)
  {
    var last := |made| - 1;
    var from, at := made[last].Last().readFrom, start + |Joined(frames[..last])|;
    assert at <= from;
    TakenBefore(wire.arrivesAt, from, at, made[last].Last().sendAt.value);
  }

  lemma TakenBefore(arrivesAt: seq<real>, from: nat, at: nat, t: real)
    requires InOrder(arrivesAt) && from <= |arrivesAt| && at < |arrivesAt| && t < arrivesAt[at]
    requires from > 0 ==> arrivesAt[from - 1] <= t
    ensures from <= at
  {}

  // Every run of calls over a line that loses nothing: if the server's frames, in order, are what the client's
  // line carries, each after its request and in time for its reader, and no port failed and no call was
  // cancelled, then `MakeCalls` returns the answers that reading and writing plain arrays in the same order
  // gives, and the server's banks are those arrays.
  lemma {:induction false} RunIsPlain(line: Stations, config: BusConfig, wire: Wire, calls: seq<Request>, start: nat,
                                      made: seq<Made>, results: seq<Result<Answer>>)
    requires AllAnswerable(line, wire.framing, calls) && AllLegal(calls)
    requires AllRan(config, wire, calls, made, results) && InTurn(made, start, wire.arrivesAt)
    requires InOrder(wire.arrivesAt) && |wire.arrivesAt| == |wire.incoming| && 0.0 < wire.timeout
    requires forall i :: 0 <= i < |results| ==> !CutShort(results[i])
    requires Carries(wire.incoming, start, Joined(Run(line, Sent(calls)).1))
    requires RepliesFollow(made, Run(line, Sent(calls)).1, start, wire)
    ensures results == PlainRun(line, wire.framing, calls).1
    ensures Run(line, Sent(calls)).0 == PlainRun(line, wire.framing, calls).0
    ensures calls != [] ==> made[|calls| - 1].Last().readTo == start + |Joined(Run(line, Sent(calls)).1)|
    decreases |calls|
  {
    hide *;
    BanksArePlain(line, wire.framing, calls);
    AsManyResults(config, wire, calls, made, results);
    if calls != [] {
      var last := |calls| - 1;
      var frames := Run(line, Sent(calls)).1;
      LastCall(line, wire.framing, calls);
      PrefixRan(config, wire, calls, made, results);
      PrefixInTurn(made, start, wire.arrivesAt);
      PrefixFollows(made, frames, start, wire);
      JoinedLast(frames);
      CarriesBoth(wire.incoming, start, Joined(frames[..last]), frames[last]);
      RunIsPlain(line, config, wire, calls[..last], start, made[..last], results[..last]);
      RanToReading(config, wire, calls[last], made[last]);
      ReadsItsFrame(made, start, wire, frames);
      LastIsPlain(PlainRun(line, wire.framing, calls[..last]).0, config, wire, calls[last], made[last], results[last],
                  frames[last], PlainRun(line, wire.framing, calls).1[last]);
    }
  }

  lemma RanToReading(config: BusConfig, wire: Wire, call: Request, made: Made)
    requires Ran(config, wire, call, made) && !CutShort(made.r)
    ensures made.mine != [] && made.Last().readAt.Some?
  {
    LastConcludes(call.1, config, wire, call.0, made.mine, made.id, made.r);
    hide Concludes, RequestRan;
    BeganToRead(wire, made.Last().Read(), call.0, call.1.Fc(), Decoder(call.1), made.r);
  }

  lemma LastIsPlain(before: Stations, config: BusConfig, wire: Wire, call: Request, made: Made,
                    result: Result<Answer>, frame: seq<byte>, answer: Result<Answer>)
    requires OneCall(before, wire.framing, call, frame, answer) && 0.0 < wire.timeout
    requires Ran(config, wire, call, made) && result == made.r && !CutShort(result)
    requires made.mine != [] && Carries(wire.incoming, made.Last().readFrom, frame)
    requires |wire.arrivesAt| == |wire.incoming|
    requires ComesInTime(made.Last(), made.Last().readFrom, made.Last().readFrom + |frame|, wire)
    ensures result == answer && made.Last().readTo == made.Last().readFrom + |frame|
  {
    hide RequestRan, CutShort, PlainAnswer, PlainAfter, ReplyFrame, Answerable, Carries, RequestFrame, EncodeRequest;
    hide ReadRequests, Step;
    CallIsPlain(before, config, wire, call.0, call.1, made.mine, made.id, made.r);
  }

  // ----- What a run sends -----

  function RequestFrames(framing: Framing, calls: seq<Request>): (r: seq<seq<byte>>)
    requires AllLegal(calls)
    ensures |r| == |calls|
  {
    seq(|calls|, i requires 0 <= i < |calls| => RequestFrame(framing, calls[i].0, calls[i].1))
  }

  lemma {:induction false} FramesNext(framing: Framing, sent: seq<(byte, seq<byte>)>, x: (byte, seq<byte>))
    requires x.1 != [] && Encode(framing, x.0, x.1).Ok?
    ensures Frames(framing, sent + [x]) == Frames(framing, sent) + Encode(framing, x.0, x.1).value
    decreases |sent|
  {
    hide Encode;
    if sent == [] {
      assert Frames(framing, [x][1..]) == [];
      assert sent + [x] == [x];
    } else {
      FramesNext(framing, sent[1..], x);
      assert (sent + [x])[1..] == sent[1..] + [x];
    }
  }

  // The frames of legal calls, one after the other, are a line the server reads completely.
  lemma {:induction false} CallsAreFramable(framing: Framing, calls: seq<Request>)
    requires AllLegal(calls)
    ensures LineHolds(framing, Joined(RequestFrames(framing, calls)), Sent(calls))
    decreases |calls|
  {
    AllFramable(calls);
    FramesOfCalls(framing, calls);
  }

  lemma AllFramable(calls: seq<Request>)
    requires AllLegal(calls)
    ensures Framable(Sent(calls))
  {
    forall i | 0 <= i < |calls|
      ensures FitsRequestTable(Sent(calls)[i].1) && |Sent(calls)[i].1| <= 253
    {
      LegalRequestsFit(calls[i].1);
      hide FitsRequestTable, EncodeRequest;
      assert Sent(calls)[i] == WireRequest(calls[i]);
    }
  }

  lemma {:induction false} FramesOfCalls(framing: Framing, calls: seq<Request>)
    requires AllLegal(calls)
    ensures Joined(RequestFrames(framing, calls)) == Frames(framing, Sent(calls))
    decreases |calls|
  {
    hide RequestFrame, WireRequest, Encode, EncodeRequest;
    if calls != [] {
      var last := |calls| - 1;
      FramesOfCalls(framing, calls[..last]);
      assert RequestFrames(framing, calls)[..last] == RequestFrames(framing, calls[..last]);
      assert Sent(calls) == Sent(calls[..last]) + [WireRequest(calls[last])];
      var frame := RequestFrame(framing, calls[last].0, calls[last].1);
      assert RequestFrames(framing, calls)[last] == frame;
      FramesNext(framing, Sent(calls[..last]), WireRequest(calls[last]));
    }
  }

  // Every call of a run sends its frame, so as many sends as calls are exactly these frames in order.
  lemma {:induction false} OneSendPerCall(config: BusConfig, wire: Wire, calls: seq<Request>, made: seq<Made>,
                                          results: seq<Result<Answer>>)
    requires AllLegal(calls) && AllRan(config, wire, calls, made, results)
    requires forall i :: 0 <= i < |made| ==> made[i].mine != [] && made[i].Last().sendAt.Some?
    ensures |Sendings(Attempts(made))| >= |calls|
    ensures |Sendings(Attempts(made))| == |calls| ==>
              Payloads(Sendings(Attempts(made))) == RequestFrames(wire.framing, calls)
    decreases |calls|
  {
    hide Ran, Sendings, RequestFrame;
    if calls != [] {
      var last := |calls| - 1;
      PrefixRan(config, wire, calls, made, results);
      OneSendPerCall(config, wire, calls[..last], made[..last], results[..last]);
      SendsOfCall(config, wire, calls[last], made[last]);
      SendingsConcat(Attempts(made[..last]), made[last].mine);
      var sends := Sendings(made[last].mine);
      if |Sendings(Attempts(made))| == |calls| {
        assert sends == [sends[0]];
        PayloadsNext(Sendings(Attempts(made[..last])), sends[0]);
        assert RequestFrames(wire.framing, calls) == RequestFrames(wire.framing, calls[..last]) + [sends[0].data];
      }
    }
  }

  lemma PayloadsNext(sends: seq<Sending>, x: Sending)
    ensures Payloads(sends + [x]) == Payloads(sends) + [x.data]
  {}

  lemma SendsOfCall(config: BusConfig, wire: Wire, call: Request, made: Made)
    requires call.1.Legal() && Ran(config, wire, call, made) && made.mine != [] && made.Last().sendAt.Some?
    ensures |Sendings(made.mine)| >= 1
    ensures forall i :: 0 <= i < |Sendings(made.mine)| ==>
              Sendings(made.mine)[i].data == RequestFrame(wire.framing, call.0, call.1)
  {
    hide Concludes, AnsweredBy, RequestFrame;
    SendingsOfCall(made.mine, RequestFrame(wire.framing, call.0, call.1));
  }

  // ----- Both ends -----

  function Since<T>(before: seq<T>, after: seq<T>): seq<T> {
    if |before| <= |after| then after[|before|..] else []
  }

  // What is still to come on this end of the line.
  ghost function Ahead(stream: ByteStream): seq<byte>
    reads stream
  {
    if stream.taken <= |stream.incoming| then stream.incoming[stream.taken..] else []
  }

  lemma WhatIsAhead(stream: ByteStream)
    requires stream.Valid()
    ensures stream.taken <= |stream.incoming| && Ahead(stream) == stream.incoming[stream.taken..]
  {}

  // The line lost nothing: the server received what the client sent, each request once, and the client's line
  // carries what the server sent, each frame after its request and in time; no port failed at either end and
  // nothing was cancelled.
  ghost predicate LossFree(calls: seq<Request>, results: seq<Result<Answer>>, made: seq<Made>, wire: Wire, start: nat,
                           asked: seq<Sending>, received: seq<byte>, answered: seq<Sending>, served: Result<()>,
                           ended: bool) {
    && |results| == |calls| == |asked| && (forall i :: 0 <= i < |results| ==> !CutShort(results[i]))
    && served.Ok? && ended && received == Joined(Payloads(asked))
    && Carries(wire.incoming, start, Joined(Payloads(answered)))
    && RepliesFollow(made, Payloads(answered), start, wire)
  }

  lemma EveryCallLegal(line: Stations, framing: Framing, calls: seq<Request>)
    requires AllAnswerable(line, framing, calls)
    ensures AllLegal(calls) && forall i :: 0 <= i < |calls| ==> calls[i].1.Legal()
  {
    forall i | 0 <= i < |calls|
      ensures calls[i].1.Legal()
    {
      assert Answerable(line, framing, calls[i]);
    }
  }

  lemma SendsOfHistory(bus: Bus)
    requires bus.Valid()
    ensures bus.stream.sends == bus.sentBefore + Sendings(bus.reports) && 0.0 < bus.config.requestTimeout
    ensures bus.OnWire() == Wire(bus.framing, bus.stream.incoming, bus.stream.arrivesAt, bus.stream.lag,
                                 bus.config.timing.interCharIdle, bus.config.requestTimeout)
    ensures InOrder(bus.stream.arrivesAt) && |bus.stream.arrivesAt| == |bus.stream.incoming|
  {}

  lemma SentSince(first: seq<Sending>, before: seq<Sending>, after: seq<Sending>, xs: seq<Attempt>, ys: seq<Attempt>)
    requires before == first + Sendings(xs) && after == first + Sendings(xs + ys)
    ensures Since(before, after) == Sendings(ys)
  {
    SendingsConcat(xs, ys);
    hide Sendings;
    assert after == before + Sendings(ys);
  }

  lemma PayloadsSince(before: seq<Sending>, after: seq<Sending>, frames: seq<seq<byte>>)
    requires Payloads(after) == Payloads(before) + frames
    ensures Payloads(Since(before, after)) == frames
  {
    assert |Payloads(after)| == |before| + |frames|;
    forall i | 0 <= i < |frames|
      ensures Payloads(Since(before, after))[i] == frames[i]
    {
      assert Payloads(after)[|before| + i] == frames[i];
    }
  }

  // Whoever was not cut short sent its request.
  lemma AllSent(config: BusConfig, wire: Wire, calls: seq<Request>, made: seq<Made>, results: seq<Result<Answer>>,
                start: nat)
    requires AllRan(config, wire, calls, made, results) && InTurn(made, start, wire.arrivesAt)
    requires forall i :: 0 <= i < |results| ==> !CutShort(results[i])
    ensures forall i :: 0 <= i < |made| ==> made[i].mine != [] && made[i].Last().sendAt.Some?
  {
    hide CutShort;
    forall i | 0 <= i < |made|
      ensures made[i].mine != [] && made[i].Last().sendAt.Some?
    {
      assert Ran(config, wire, calls[i], made[i]) && results[i] == made[i].r;
      RanToReading(config, wire, calls[i], made[i]);
    }
  }

  // So what both ends did is a run of plain calls.
  lemma LossFreeIsPlain(line: Stations, config: BusConfig, wire: Wire, calls: seq<Request>,
                        results: seq<Result<Answer>>, made: seq<Made>, start: nat, asked: seq<Sending>,
                        received: seq<byte>, answered: seq<Sending>, served: Result<()>, ended: bool,
                        requests: seq<(byte, seq<byte>)>)
    requires AllAnswerable(line, wire.framing, calls) && AllLegal(calls)
    requires InOrder(wire.arrivesAt) && |wire.arrivesAt| == |wire.incoming| && 0.0 < wire.timeout
    requires |results| <= |calls| && AllRan(config, wire, calls[..|results|], made, results)
    requires InTurn(made, start, wire.arrivesAt)
    requires asked == Sendings(Attempts(made))
    requires AllRequests(requests) && (served.Ok? ==> Payloads(answered) == Run(line, requests).1)
    requires LineHolds(wire.framing, received, Sent(calls)) && ended ==> requests == Sent(calls)
    requires LossFree(calls, results, made, wire, start, asked, received, answered, served, ended)
    ensures results == PlainRun(line, wire.framing, calls).1
    ensures Run(line, requests).0 == PlainRun(line, wire.framing, calls).0
  {
    hide AllAnswerable, AllLegal, AllRan, InTurn, Carries, Sendings, Attempts, CutShort, Run, PlainRun, Joined,
      LineHolds, InOrder;
    assert calls[..|results|] == calls;
    AsManyResults(config, wire, calls, made, results);
    AllSent(config, wire, calls, made, results, start);
    OneSendPerCall(config, wire, calls, made, results);
    CallsAreFramable(wire.framing, calls);
    hide RepliesFollow;
    RunIsPlain(line, config, wire, calls, start, made, results);
  }

  lemma BothEndsArePlain(line: Stations, config: BusConfig, wire: Wire, calls: seq<Request>,
                         results: seq<Result<Answer>>, made: seq<Made>, start: nat,
                         sentBefore: seq<Sending>, reported: seq<Attempt>, near0: seq<Sending>, near1: seq<Sending>,
                         received: seq<byte>, far0: seq<Sending>, far1: seq<Sending>, served: Result<()>, ended: bool,
                         requests: seq<(byte, seq<byte>)>)
    requires AllAnswerable(line, wire.framing, calls) && AllLegal(calls)
    requires InOrder(wire.arrivesAt) && |wire.arrivesAt| == |wire.incoming| && 0.0 < wire.timeout
    requires |results| <= |calls| && AllRan(config, wire, calls[..|results|], made, results)
    requires InTurn(made, start, wire.arrivesAt)
    requires near0 == sentBefore + Sendings(reported) && near1 == sentBefore + Sendings(reported + Attempts(made))
    requires AllRequests(requests) && (served.Ok? ==> Payloads(far1) == Payloads(far0) + Run(line, requests).1)
    requires LineHolds(wire.framing, received, Sent(calls)) ==>
               requests <= Sent(calls) && (ended ==> requests == Sent(calls))
    ensures LossFree(calls, results, made, wire, start, Since(near0, near1), received, Since(far0, far1), served,
                     ended) ==>
              && results == PlainRun(line, wire.framing, calls).1
              && Run(line, requests).0 == PlainRun(line, wire.framing, calls).0
  {
    hide *;
    SentSince(sentBefore, near0, near1, reported, Attempts(made));
    if served.Ok? {
      PayloadsSince(far0, far1, Run(line, requests).1);
    }
    if LossFree(calls, results, made, wire, start, Since(near0, near1), received, Since(far0, far1), served, ended) {
      LossFreeIsPlain(line, config, wire, calls, results, made, start, Since(near0, near1), received,
                      Since(far0, far1), served, ended, requests);
    }
  }

  // A client and a server at the two ends of a line that loses nothing: every call returns what reading or
  // writing plain arrays would, and the banks end as those arrays.
  method Converse(bus: Bus, calls: seq<Request>, server: MockServer, far: ByteStream, ghost line: Stations)
    returns (results: seq<Result<Answer>>, served: Result<()>, ghost made: seq<Made>, ghost ended: bool)
    requires bus.Valid() && forall i :: 0 <= i < |calls| ==> 1 <= calls[i].0 <= 247
    requires server.Valid() && server.Holds(line) && server.framing == bus.framing && far.Valid() && far !in server.Repr
    requires AllAnswerable(line, bus.framing, calls)
    requires bus !in server.Repr && bus.stream !in server.Repr && bus.stream != far
    modifies bus, bus.stream, server.Repr, far
    ensures bus.Valid()
    ensures LossFree(calls, results, made, bus.OnWire(), old(bus.stream.taken),
                     Since(old(bus.stream.sends), bus.stream.sends), old(Ahead(far)),
                     Since(old(far.sends), far.sends), served, ended) ==>
              results == PlainRun(line, bus.framing, calls).1 && server.Holds(PlainRun(line, bus.framing, calls).0)
  {
    hide *;
    WhatIsAhead(far);
    ghost var start, reported, asked := bus.stream.taken, bus.reports, bus.stream.sends;
    ghost var received, sent := Ahead(far), far.sends;
    ghost var requests;
    SendsOfHistory(bus);
    EveryCallLegal(line, bus.framing, calls);
    results, made := MakeCalls(bus, calls);
    SendsOfHistory(bus);
    served, requests, ended := server.Serve(far, line, Sent(calls));
    BothEndsArePlain(line, bus.config, bus.OnWire(), calls, results, made, start, bus.sentBefore, reported, asked,
                     bus.stream.sends, received, sent, far.sends, served, ended, requests);
  }
}

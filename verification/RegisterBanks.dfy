// What a mock slave does, on plain arrays (the meaning of
// src/anymodbus/_mock/slave.py and src/anymodbus/_mock/server.py): four register
// banks, the requests that read and write them, and the frames sent back.
module RegisterBanks {
  import opened Bits
  import opened Errors
  import opened Crc
  import opened Lrc
  import opened Pdu
  import opened PduProofs
  import opened Framing
  import opened AsciiFramer

  const ILLEGAL_FUNCTION: byte := 1
  const ILLEGAL_DATA_ADDRESS: byte := 2
  const ILLEGAL_DATA_VALUE: byte := 3

  datatype Limits = Limits(readBits: nat, readRegisters: nat, writeCoils: nat, writeRegisters: nat)
  {
    predicate Valid() {
      && 1 <= readBits <= MAX_READ_BITS && 1 <= readRegisters <= MAX_READ_REGISTERS
      && 1 <= writeCoils <= MAX_WRITE_COILS && 1 <= writeRegisters <= MAX_WRITE_REGISTERS
    }
  }

  // Which responses to drop, corrupt or send under another address.
  datatype FaultPlan = FaultPlan(corruptAfter: Option<nat>, delay: real, wrongAddress: Option<byte>,
                                 dropAfter: Option<nat>)

  const NO_FAULTS := FaultPlan(None, 0.0, None, None)

  datatype Device = Device(address: byte, framing: Framing, disabled: set<byte>, limits: Limits, faults: FaultPlan)

  datatype Banks = Banks(coils: seq<bool>, discrete: seq<bool>, holding: seq<word>, inputs: seq<word>)
  {
    function BitsOfTable(table: Table): seq<bool>
      requires table.OfBits()
    {
      if table.CoilTable? then coils else discrete
    }

    function WordsOfTable(table: Table): seq<word>
      requires !table.OfBits()
    {
      if table.HoldingTable? then holding else inputs
    }

    function Size(table: Table): nat { if table.OfBits() then |BitsOfTable(table)| else |WordsOfTable(table)| }
  }

  function Overwrite<T>(s: seq<T>, at: nat, values: seq<T>): (r: seq<T>)
    requires at + |values| <= |s|
    ensures |r| == |s|
    ensures forall i :: 0 <= i < |s| ==> r[i] == if at <= i < at + |values| then values[i - at] else s[i]
  {
    s[..at] + values + s[at + |values|..]
  }

  // ----- One decoded request -----

  // The exception code a legal request is refused with, if it is.
  function OutOfRange(limits: Limits, banks: Banks, call: Call): Option<byte> {
    match call
    case Read(table, address, count) =>
      if count > (if table.OfBits() then limits.readBits else limits.readRegisters) then Some(ILLEGAL_DATA_VALUE)
      else if address + count > banks.Size(table) then Some(ILLEGAL_DATA_ADDRESS)
      else None
    case WriteCoil(address, _) => if address >= |banks.coils| then Some(ILLEGAL_DATA_ADDRESS) else None
    case WriteRegister(address, _) => if address >= |banks.holding| then Some(ILLEGAL_DATA_ADDRESS) else None
    case WriteCoils(address, coils) =>
      if |coils| > limits.writeCoils then Some(ILLEGAL_DATA_VALUE)
      else if address + |coils| > |banks.coils| then Some(ILLEGAL_DATA_ADDRESS)
      else None
    case WriteRegisters(address, registers) =>
      if |registers| > limits.writeRegisters then Some(ILLEGAL_DATA_VALUE)
      else if address + |registers| > |banks.holding| then Some(ILLEGAL_DATA_ADDRESS)
      else None
    case Loopback(_) => None
  }

  // A legal request the slave accepts.
  predicate InRange(limits: Limits, banks: Banks, call: Call) {
    call.Legal() && OutOfRange(limits, banks, call).None?
  }

  // The banks once the request has been applied: a plain array write.
  function After(limits: Limits, banks: Banks, call: Call): Banks
    requires InRange(limits, banks, call)
  {
    match call
    case WriteCoil(address, on) => banks.(coils := Overwrite(banks.coils, address, [on]))
    case WriteRegister(address, value) => banks.(holding := Overwrite<word>(banks.holding, address, [value]))
    case WriteCoils(address, coils) => banks.(coils := Overwrite(banks.coils, address, coils))
    case WriteRegisters(address, registers) => banks.(holding := Overwrite<word>(banks.holding, address, registers))
    case _ => banks
  }

  // The reply: a plain array slice, or the echo of the write.
  function ReplyTo(limits: Limits, banks: Banks, call: Call): (reply: Reply)
    requires InRange(limits, banks, call)
    ensures Answers(call, reply)
  {
    match call
    case Read(table, address, count) =>
      if table.OfBits() then BitsRead(table, banks.BitsOfTable(table)[address..address + count])
      else WordsRead(table, banks.WordsOfTable(table)[address..address + count])
    case WriteCoil(address, on) => CoilWritten(address, on)
    case WriteRegister(address, value) => RegisterWritten(address, value)
    case WriteCoils(address, coils) => CoilsWritten(address, |coils|)
    case WriteRegisters(address, registers) => RegistersWritten(address, |registers|)
    case Loopback(data) => LoopedBack(data)
  }

  // A decoded request, or the decoder's refusal, carried through to the response PDU.
  function Perform(limits: Limits, banks: Banks, decoded: Result<Call>): (r: (Result<seq<byte>>, Banks))
    requires decoded.Ok? ==> decoded.value.Legal()
    ensures r.0.Ok? ==> r.0.value != []
  {
    match decoded
    case Err(error) => (Err(error), banks)
    case Ok(call) =>
      match OutOfRange(limits, banks, call)
      case Some(code) => (Err(ServerException(code)), banks)
      case None => (EncodeReply(ReplyTo(limits, banks, call)), After(limits, banks, call))
  }

  // ----- One request PDU -----

  predicate Implemented(fc: byte) {
    1 <= fc <= 6 || fc == DIAGNOSTICS || fc == WRITE_MULTIPLE_COILS || fc == WRITE_MULTIPLE_REGISTERS
  }

  // FC 0x08 with a sub-function other than Return Query Data.
  predicate OtherDiagnostic(pdu: seq<byte>) {
    |pdu| == 5 && pdu[0] == DIAGNOSTICS && WordAt(pdu, 1) != 0
  }

  function Handle(device: Device, banks: Banks, pdu: seq<byte>): (r: (Result<seq<byte>>, Banks))
    requires pdu != []
    ensures r.0.Ok? ==> r.0.value != []
  {
    if pdu[0] in device.disabled || !Implemented(pdu[0]) || OtherDiagnostic(pdu) then
      (Err(ServerException(ILLEGAL_FUNCTION)), banks)
    else
      DecodedIsLegal(pdu);
      Perform(device.limits, banks, DecodeRequest(pdu))
  }

  lemma DecodedIsLegal(pdu: seq<byte>)
    requires pdu != []
    ensures DecodeRequest(pdu).Ok? ==> DecodeRequest(pdu).value.Legal() && DecodeRequest(pdu).value.Fc() == pdu[0]
  {
    if DecodeRequest(pdu).Ok? {
      EncodeDecodeRequest(pdu);
    }
  }

  // The exception code answering a failure of `Handle`: a malformed request is an illegal value.
  function ExceptionCode(error: Error): byte {
    if error.ServerException? then error.code else ILLEGAL_DATA_VALUE
  }

  // The response PDU, if any: function code 0 has no exception response.
  function Respond(device: Device, banks: Banks, pdu: seq<byte>): (r: (Option<seq<byte>>, Banks))
    requires pdu != []
    ensures r.0.Some? ==> r.0.value != []
  {
    hide Handle;
    var (result, after) := Handle(device, banks, pdu);
    match result
    case Ok(reply) => (Some(reply), after)
    case Err(error) =>
      if pdu[0] % 0x80 == 0 then (None, after)
      else (Some(EncodeException(pdu[0] % 0x80, ExceptionCode(error)).value), after)
  }

  // ----- The frame sent back -----

  function FlipLowBit(b: byte): byte { if Odd(b) then b - 1 else b + 1 }

  // What goes on the wire as response number `index`, or nothing when it is dropped.
  function SentFrame(device: Device, index: nat, pdu: seq<byte>): Option<seq<byte>>
    requires pdu != []
  {
    var faults := device.faults;
    if faults.dropAfter == Some(index) then None
    else
      var slave := if faults.wrongAddress.Some? then faults.wrongAddress.value else device.address;
      var body := [slave] + pdu;
      if faults.corruptAfter == Some(index) then
        match device.framing
        case Ascii => Some(Wrap(body + [FlipLowBit(Lrc8(body))]))
        case Rtu => Some(body + [FlipLowBit(CrcBytes(body)[0]), CrcBytes(body)[1]])
      else Some(Encode(device.framing, slave, pdu).value)
  }

  // ----- A line of slaves -----

  // `padding`: the unused bits of the last coil byte.
  datatype Station = Station(device: Device, banks: Banks, emitted: nat, padding: seq<bool>)

  type Stations = map<int, Station>

  const BROADCAST: byte := 0

  function Applied(station: Station, pdu: seq<byte>): Station
    requires pdu != []
  {
    station.(banks := Respond(station.device, station.banks, pdu).1)
  }

  function Answered(station: Station, pdu: seq<byte>): (Station, Option<seq<byte>>)
    requires pdu != []
  {
    match Respond(station.device, station.banks, pdu).0
    case None => (Applied(station, pdu), None)
    case Some(response) =>
      (Applied(station, pdu).(emitted := station.emitted + 1), SentFrame(station.device, station.emitted, response))
  }

  // One request on the line: what every slave makes of it and the frame it brings back.
  function Step(line: Stations, address: int, pdu: seq<byte>): (Stations, Option<seq<byte>>)
    requires pdu != []
  {
    if address == BROADCAST then (map a | a in line :: Applied(line[a], pdu), None)
    else if address !in line then (line, None)
    else
      var (after, frame) := Answered(line[address], pdu);
      (line[address := after], frame)
  }

  predicate AllRequests(requests: seq<(byte, seq<byte>)>) {
    forall i :: 0 <= i < |requests| ==> requests[i].1 != []
  }

  // The line after a list of requests, and the frames it sent, in order.
  function Run(line: Stations, requests: seq<(byte, seq<byte>)>): (Stations, seq<seq<byte>>)
    requires AllRequests(requests)
    decreases |requests|
  {
    if requests == [] then (line, [])
    else
      var (before, frames) := Run(line, requests[..|requests| - 1]);
      var (after, frame) := Step(before, requests[|requests| - 1].0, requests[|requests| - 1].1);
      (after, if frame.Some? then frames + [frame.value] else frames)
  }

  lemma EmptyRun(line: Stations)
    ensures Run(line, []) == (line, [])
  {}

  lemma RunNext(line: Stations, served: seq<(byte, seq<byte>)>, request: (byte, seq<byte>))
    requires AllRequests(served) && request.1 != []
    ensures AllRequests(served + [request])
    ensures var (now, frames) := Run(line, served);
            var (after, frame) := Step(now, request.0, request.1);
            Run(line, served + [request]) == (after, if frame.Some? then frames + [frame.value] else frames)
  {
    assert (served + [request])[..|served|] == served;
  }

  // One slave's own history: the requests addressed to it or broadcast.
  function OwnRun(station: Station, address: int, requests: seq<(byte, seq<byte>)>): Station
    requires AllRequests(requests)
    decreases |requests|
  {
    if requests == [] then station
    else
      var (to, pdu) := requests[|requests| - 1];
      var before := OwnRun(station, address, requests[..|requests| - 1]);
      if to == BROADCAST then Applied(before, pdu)
      else if to == address then Answered(before, pdu).0
      else before
  }

  // ----- Properties -----

  // A refused request, a read and a loopback change nothing; a write never changes a size,
  // the discrete inputs or the input registers.
  lemma BanksKept(device: Device, banks: Banks, pdu: seq<byte>)
    requires pdu != []
    ensures var (result, after) := Handle(device, banks, pdu);
            && (result.Err? ==> after == banks && (result.error.ServerException? || result.error.ProtocolError?))
            && (after == banks
                || pdu[0] in {WRITE_SINGLE_COIL, WRITE_SINGLE_REGISTER, WRITE_MULTIPLE_COILS, WRITE_MULTIPLE_REGISTERS})
            && |after.coils| == |banks.coils| && |after.holding| == |banks.holding|
            && after.discrete == banks.discrete && after.inputs == banks.inputs
  {
    DecodedIsLegal(pdu);
    var decoded := DecodeRequest(pdu);
    if decoded.Ok? && InRange(device.limits, banks, decoded.value) {
      DecodeEncodeReply(decoded.value, ReplyTo(device.limits, banks, decoded.value));
    }
  }

  // What a request leaves in coil i and in holding register i, given what was there.
  function NewCoil(call: Call, i: nat, before: bool): bool {
    match call
    case WriteCoil(address, on) => if i == address then on else before
    case WriteCoils(address, coils) => if address <= i < address + |coils| then coils[i - address] else before
    case _ => before
  }

  function NewRegister(call: Call, i: nat, before: word): int {
    match call
    case WriteRegister(address, value) => if i == address then value else before
    case WriteRegisters(address, registers) =>
      if address <= i < address + |registers| then registers[i - address] else before
    case _ => before
  }

  // Exactly the addressed coils and registers take the written values.
  lemma WritesExactlyTheSlice(limits: Limits, banks: Banks, call: Call)
    requires InRange(limits, banks, call)
    ensures var after := After(limits, banks, call);
            && |after.coils| == |banks.coils| && |after.holding| == |banks.holding|
            && (forall i :: 0 <= i < |banks.coils| ==> after.coils[i] == NewCoil(call, i, banks.coils[i]))
            && (forall i :: 0 <= i < |banks.holding| ==> after.holding[i] == NewRegister(call, i, banks.holding[i]))
            && after.discrete == banks.discrete && after.inputs == banks.inputs
  {}

  // A response PDU always has a frame of its own: it is what the reply or exception encoder made.
  lemma ResponseFits(device: Device, banks: Banks, pdu: seq<byte>)
    requires pdu != [] && Respond(device, banks, pdu).0.Some?
    ensures var response := Respond(device, banks, pdu).0.value;
            FitsReplyTable(response) && |response| <= 253 && response[0] % 0x80 == pdu[0] % 0x80
  {
    DecodedIsLegal(pdu);
    var (result, _) := Handle(device, banks, pdu);
    if result.Ok? {
      var call := DecodeRequest(pdu).value;
      DecodeEncodeReply(call, ReplyTo(device.limits, banks, call));
      LegalRepliesFit(ReplyTo(device.limits, banks, call));
    } else {
      ExceptionsFit(pdu[0] % 0x80, ExceptionCode(result.error));
    }
  }

  // Each slave ends where its own history leads, whatever the others were sent.
  lemma {:induction false} EachSlaveIsItsOwnFold(line: Stations, requests: seq<(byte, seq<byte>)>, address: int)
    requires AllRequests(requests) && BROADCAST !in line && address in line
    ensures Run(line, requests).0.Keys == line.Keys
    ensures Run(line, requests).0[address] == OwnRun(line[address], address, requests)
    decreases |requests|
  {
    if requests != [] {
      EachSlaveIsItsOwnFold(line, requests[..|requests| - 1], address);
    }
  }

  // Whatever is requested, no bit past the last coil is ever written, and no slave changes its settings.
  lemma {:induction false} PaddingKept(line: Stations, requests: seq<(byte, seq<byte>)>, address: int)
    requires AllRequests(requests) && address in line
    ensures address in Run(line, requests).0
    ensures Run(line, requests).0[address].padding == line[address].padding
    ensures Run(line, requests).0[address].device == line[address].device
    decreases |requests|
  {
    hide Respond, SentFrame;
    if requests != [] {
      PaddingKept(line, requests[..|requests| - 1], address);
    }
  }
}

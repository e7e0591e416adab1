// What a mock slave does with a request, in the bytes of the request and the reply and on its four banks by name: an
// independent reference for src/anymodbus/_mock/slave.py and server.py (sections 6.1 to 6.12 and 7 of MODBUS
// Application Protocol V1.1b3).
module ServedRequests {
  import opened Bits
  import opened Errors
  import opened Pdu
  import opened PduProofs
  import opened RegisterBanks
  import opened WireFormat

  // ----- Requests within the ranges -----

  // Exception 3 for a quantity above the limit, exception 2 for cells beyond the bank.
  function TooMuch(count: int, limit: nat, address: int, size: nat): Option<byte> {
    if count > limit then Some(3) else if address + count > size then Some(2) else None
  }

  // The exception a request is refused with, if it is.
  function Refusing(limits: Limits, banks: Banks, call: Call): Option<byte> {
    match call
    case Read(CoilTable, a, n) => TooMuch(n, limits.readBits, a, |banks.coils|)
    case Read(DiscreteTable, a, n) => TooMuch(n, limits.readBits, a, |banks.discrete|)
    case Read(HoldingTable, a, n) => TooMuch(n, limits.readRegisters, a, |banks.holding|)
    case Read(InputTable, a, n) => TooMuch(n, limits.readRegisters, a, |banks.inputs|)
    case WriteCoil(a, _) => TooMuch(1, 1, a, |banks.coils|)
    case WriteRegister(a, _) => TooMuch(1, 1, a, |banks.holding|)
    case WriteCoils(a, bits) => TooMuch(|bits|, limits.writeCoils, a, |banks.coils|)
    case WriteRegisters(a, words) => TooMuch(|words|, limits.writeRegisters, a, |banks.holding|)
    case Loopback(_) => None
  }

  ghost predicate CarriesBits(reply: seq<byte>, fc: byte, bits: seq<bool>) {
    Counted(reply, fc) && HoldsBits(reply[2..], bits) && PaddedWithZeros(reply[2..], |bits|)
  }

  ghost predicate CarriesWords(reply: seq<byte>, fc: byte, words: seq<int>) {
    Counted(reply, fc) && HoldsWords(reply[2..], words)
  }

  // Otherwise function code 1 reads the coils, 2 the discrete inputs, 3 the holding registers and 4 the input
  // registers; 5 and 15 write coils, 6 and 16 holding registers; 8 sends its data back.
  ghost predicate Served(banks: Banks, call: Call, reply: seq<byte>, after: Banks) {
    match call
    case Read(CoilTable, a, n) =>
      0 <= a <= a + n <= |banks.coils| && CarriesBits(reply, 1, banks.coils[a..a + n]) && after == banks
    case Read(DiscreteTable, a, n) =>
      0 <= a <= a + n <= |banks.discrete| && CarriesBits(reply, 2, banks.discrete[a..a + n]) && after == banks
    case Read(HoldingTable, a, n) =>
      0 <= a <= a + n <= |banks.holding| && CarriesWords(reply, 3, banks.holding[a..a + n]) && after == banks
    case Read(InputTable, a, n) =>
      0 <= a <= a + n <= |banks.inputs| && CarriesWords(reply, 4, banks.inputs[a..a + n]) && after == banks
    case WriteCoil(a, on) =>
      && 0 <= a < |banks.coils| && Fields(reply, 5, a, if on then 0xFF00 else 0)
      && after == banks.(coils := banks.coils[a := on])
    case WriteRegister(a, v) =>
      && 0 <= a < |banks.holding| && 0 <= v < 65536 && Fields(reply, 6, a, v)
      && after == banks.(holding := banks.holding[a := v as word])
    case WriteCoils(a, bits) =>
      && 0 <= a <= a + |bits| <= |banks.coils| && Fields(reply, 15, a, |bits|)
      && after == banks.(coils := banks.coils[..a] + bits + banks.coils[a + |bits|..])
    case WriteRegisters(a, words) =>
      && 0 <= a <= a + |words| <= |banks.holding| && AllWords(words) && Fields(reply, 16, a, |words|)
      && after == banks.(holding := banks.holding[..a] + words + banks.holding[a + |words|..])
    case Loopback(data) => |data| == 2 && reply == [8, 0, 0, data[0], data[1]] && after == banks
  }

  lemma RefusingIs(limits: Limits, banks: Banks, call: Call)
    requires limits.Valid()
    ensures Refusing(limits, banks, call) == OutOfRange(limits, banks, call)
  {}

  lemma ServedIs(limits: Limits, banks: Banks, call: Call)
    requires InRange(limits, banks, call)
    ensures EncodeReply(ReplyTo(limits, banks, call)).Ok?
    ensures Served(banks, call, EncodeReply(ReplyTo(limits, banks, call)).value, After(limits, banks, call))
  {
    var reply := ReplyTo(limits, banks, call);
    hide EncodeReply, IsReply, Served, After, ReplyTo;
    DecodeEncodeReply(call, reply);
    ReplySentIff(reply, EncodeReply(reply).value);
    if call.Read? {
      ReadServed(limits, banks, call, EncodeReply(reply).value);
    } else {
      WriteServed(limits, banks, call, EncodeReply(reply).value);
    }
  }

  lemma ReadServed(limits: Limits, banks: Banks, call: Call, pdu: seq<byte>)
    requires InRange(limits, banks, call) && call.Read? && IsReply(pdu, ReplyTo(limits, banks, call))
    ensures Served(banks, call, pdu, After(limits, banks, call))
  {
    hide HoldsBits, HoldsWords, PaddedWithZeros, Counted;
  }

  lemma WriteServed(limits: Limits, banks: Banks, call: Call, pdu: seq<byte>)
    requires InRange(limits, banks, call) && !call.Read? && IsReply(pdu, ReplyTo(limits, banks, call))
    ensures Served(banks, call, pdu, After(limits, banks, call))
  {
    hide Fields;
    match call
    case WriteCoil(a, on) => assert Overwrite(banks.coils, a, [on]) == banks.coils[a := on];
    case WriteRegister(a, v) => assert Overwrite<word>(banks.holding, a, [v]) == banks.holding[a := v as word];
    case _ =>
  }

  lemma Responded(device: Device, banks: Banks, pdu: seq<byte>)
    requires pdu != [] && 0 < pdu[0] < 128
    ensures var (result, after) := Handle(device, banks, pdu);
            Respond(device, banks, pdu)
            == if result.Ok? then (Some(result.value), after)
               else (Some([pdu[0] + 128, ExceptionCode(result.error)]), after)
  {
    hide Handle;
    var (result, after) := Handle(device, banks, pdu);
    if result.Err? {
      ExceptionSent(pdu[0], ExceptionCode(result.error));
    }
  }

  lemma Known(call: Call, pdu: seq<byte>)
    requires IsRequest(pdu, call)
    ensures pdu != [] && pdu[0] in {1, 2, 3, 4, 5, 6, 8, 15, 16} && !OtherDiagnostic(pdu) && Implemented(pdu[0])
  {
    hide HoldsBits, HoldsWords;
    if call.WriteCoils? || call.WriteRegisters? {
      assert pdu[0] == pdu[..5][0];
    }
  }

  // A request within the ranges, whose function code is not disabled, is refused or served so.
  lemma RequestServed(device: Device, banks: Banks, call: Call, pdu: seq<byte>)
    requires device.limits.Valid() && InRanges(call) && IsRequest(pdu, call) && pdu[0] !in device.disabled
    ensures var (reply, after) := Respond(device, banks, pdu);
            && reply.Some?
            && match Refusing(device.limits, banks, call)
               case Some(code) => reply.value == [pdu[0] + 128, code] && after == banks
               case None => Served(banks, call, reply.value, after)
  {
    RequestReadIff(call, pdu);
    DecodedIsLegal(pdu);
    Known(call, pdu);
    Responded(device, banks, pdu);
    RefusingIs(device.limits, banks, call);
    if InRange(device.limits, banks, call) {
      ServedIs(device.limits, banks, call);
    }
    hide Respond, DecodeRequest, EncodeReply, Served, IsRequest, OutOfRange, Refusing, ReplyTo, After, OtherDiagnostic;
  }

  // ----- All others -----

  // Everything else changes nothing. Exception 1 answers a disabled or unknown function code and a diagnostic other
  // than the loopback, exception 3 a malformed request or a quantity out of range, and function code 0 gets no answer.
  lemma RequestRefused(device: Device, banks: Banks, pdu: seq<byte>)
    requires pdu != []
    requires pdu[0] in device.disabled || forall call: Call :: !(InRanges(call) && IsRequest(pdu, call))
    ensures var (reply, after) := Respond(device, banks, pdu);
            var fc := pdu[0] as int % 128;
            var unknown := || pdu[0] in device.disabled || pdu[0] !in {1, 2, 3, 4, 5, 6, 8, 15, 16}
                           || (pdu[0] == 8 && |pdu| == 5 && pdu[1..3] != [0, 0]);
            && after == banks
            && reply == if fc == 0 then None else Some([fc + 128, if unknown then 1 else 3])
  {
    if pdu[0] !in device.disabled && DecodeRequest(pdu).Ok? {
      RequestReadIff(DecodeRequest(pdu).value, pdu);
    }
    OtherDiagnosticIs(pdu);
    NotDecoded(pdu);
    var (result, after) := Handle(device, banks, pdu);
    if result.Err? && pdu[0] % 128 != 0 {
      ExceptionSent(pdu[0] % 0x80, ExceptionCode(result.error));
    }
    hide DecodeRequest, OtherDiagnostic, EncodeException;
  }

  lemma OtherDiagnosticIs(pdu: seq<byte>)
    ensures OtherDiagnostic(pdu) <==> |pdu| == 5 && pdu[0] == 8 && pdu[1..3] != [0, 0]
  {
    if |pdu| == 5 {
      assert pdu[1..3] == [pdu[1], pdu[2]];
    }
  }

  lemma NotDecoded(pdu: seq<byte>)
    requires pdu != []
    ensures DecodeRequest(pdu).Err? ==> DecodeRequest(pdu).error == ProtocolError
  {
    RequestReadIff(Loopback([]), pdu);
  }

  // ----- Written and read back -----

  // After an accepted write, a read of the same cells sends back what was written.
  lemma WriteThenRead(device: Device, banks: Banks, write: Call, sent: seq<byte>, asked: seq<byte>)
    requires device.limits.Valid() && InRanges(write) && IsRequest(sent, write)
    requires sent[0] in {5, 6, 15, 16} && sent[0] !in device.disabled && Refusing(device.limits, banks, write).None?
    requires var (table, count) :=
               match write
               case WriteCoil(_, _) => (CoilTable, 1)
               case WriteRegister(_, _) => (HoldingTable, 1)
               case WriteCoils(_, bits) => (CoilTable, |bits|)
               case WriteRegisters(_, words) => (HoldingTable, |words|)
               case _ => (CoilTable, 0);
             && IsRequest(asked, Read(table, write.address, count)) && ReadCode(table) !in device.disabled
             && count <= if table.CoilTable? then device.limits.readBits else device.limits.readRegisters
    ensures var reply := Respond(device, Respond(device, banks, sent).1, asked).0;
            && reply.Some?
            && match write
               case WriteCoil(_, on) => CarriesBits(reply.value, 1, [on])
               case WriteRegister(_, v) => CarriesWords(reply.value, 3, [v])
               case WriteCoils(_, bits) => CarriesBits(reply.value, 1, bits)
               case WriteRegisters(_, words) => CarriesWords(reply.value, 3, words)
               case _ => true
  {
    var read :=
      match write
      case WriteCoil(_, _) => Read(CoilTable, write.address, 1)
      case WriteRegister(_, _) => Read(HoldingTable, write.address, 1)
      case WriteCoils(_, bits) => Read(CoilTable, write.address, |bits|)
      case WriteRegisters(_, words) => Read(HoldingTable, write.address, |words|)
      case _ => write;
    var (reply, after) := Respond(device, banks, sent);
    RequestServed(device, banks, write, sent);
    hide Respond, IsRequest, InRanges, CarriesBits, CarriesWords;
    StandsThere(banks, write, reply.value, after);
    RequestServed(device, after, read, asked);
  }

  lemma StandsThere(banks: Banks, write: Call, reply: seq<byte>, after: Banks)
    requires Served(banks, write, reply, after)
    ensures match write
            case WriteCoil(a, on) => 0 <= a < |after.coils| && after.coils[a..a + 1] == [on]
            case WriteRegister(a, v) => 0 <= a < |after.holding| && after.holding[a..a + 1] == [v]
            case WriteCoils(a, bits) => 0 <= a <= a + |bits| <= |after.coils| && after.coils[a..a + |bits|] == bits
            case WriteRegisters(a, words) =>
              0 <= a <= a + |words| <= |after.holding| && after.holding[a..a + |words|] == words
            case _ => true
  {
    hide Fields, CarriesBits, CarriesWords;
  }

  // ----- Addresses -----

  // Address 0 is for every slave and is not answered; any other for the one slave of that address.
  lemma AddressedSlaves(line: Stations, address: int, pdu: seq<byte>)
    requires pdu != [] && 0 !in line
    ensures var (after, frame) := Step(line, address, pdu);
            && after.Keys == line.Keys
            && (frame.Some? ==> address in line && address != 0)
            && forall a :: a in line ==>
                 after[a].banks == if address in {0, a} then Respond(line[a].device, line[a].banks, pdu).1
                                   else line[a].banks
  {
    hide Respond, SentFrame;
  }
}

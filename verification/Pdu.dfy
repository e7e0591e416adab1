// The PDU codec (src/anymodbus/pdu.py): both directions of every function code
// the client sends.
module Pdu {
  import opened Bits
  import opened Errors
  import opened Coils

  const READ_COILS: byte := 0x01
  const READ_DISCRETE_INPUTS: byte := 0x02
  const READ_HOLDING_REGISTERS: byte := 0x03
  const READ_INPUT_REGISTERS: byte := 0x04
  const WRITE_SINGLE_COIL: byte := 0x05
  const WRITE_SINGLE_REGISTER: byte := 0x06
  const DIAGNOSTICS: byte := 0x08
  const WRITE_MULTIPLE_COILS: byte := 0x0F
  const WRITE_MULTIPLE_REGISTERS: byte := 0x10
  const MASK_WRITE_REGISTER: byte := 0x16
  const READ_WRITE_MULTIPLE_REGISTERS: byte := 0x17

  const MAX_READ_BITS := 2000
  const MAX_READ_REGISTERS := 125
  const MAX_WRITE_COILS := 1968
  const MAX_WRITE_REGISTERS := 123
  const COIL_ON: word := 0xFF00
  const COIL_OFF: word := 0x0000

  // The register table a read addresses.
  datatype Table = CoilTable | DiscreteTable | HoldingTable | InputTable
  {
    function ReadFc(): byte {
      match this
      case CoilTable => READ_COILS
      case DiscreteTable => READ_DISCRETE_INPUTS
      case HoldingTable => READ_HOLDING_REGISTERS
      case InputTable => READ_INPUT_REGISTERS
    }

    predicate OfBits() { CoilTable? || DiscreteTable? }

    function MaxCount(): nat { if OfBits() then MAX_READ_BITS else MAX_READ_REGISTERS }
  }

  // One request, as the caller states it and as the server decodes it.
  datatype Call =
    | Read(table: Table, address: int, count: int)
    | WriteCoil(address: int, on: bool)
    | WriteRegister(address: int, value: int)
    | WriteCoils(address: int, coils: seq<bool>)
    | WriteRegisters(address: int, registers: seq<int>)
    | Loopback(data: seq<byte>)
  {
    function Fc(): byte {
      match this
      case Read(table, _, _) => table.ReadFc()
      case WriteCoil(_, _) => WRITE_SINGLE_COIL
      case WriteRegister(_, _) => WRITE_SINGLE_REGISTER
      case WriteCoils(_, _) => WRITE_MULTIPLE_COILS
      case WriteRegisters(_, _) => WRITE_MULTIPLE_REGISTERS
      case Loopback(_) => DIAGNOSTICS
    }

    // Within the specification's ranges (Application Protocol V1.1b3, sections 6.1 to 6.12).
    predicate Legal() {
      match this
      case Read(table, address, count) => 0 <= address <= 0xFFFF && 1 <= count <= table.MaxCount()
      case WriteCoil(address, _) => 0 <= address <= 0xFFFF
      case WriteRegister(address, value) => 0 <= address <= 0xFFFF && 0 <= value <= 0xFFFF
      case WriteCoils(address, coils) => 0 <= address <= 0xFFFF && 1 <= |coils| <= MAX_WRITE_COILS
      case WriteRegisters(address, registers) =>
        0 <= address <= 0xFFFF && 1 <= |registers| <= MAX_WRITE_REGISTERS && AllWords(registers)
      case Loopback(data) => |data| == 2
    }
  }

  // What a server answers.
  datatype Reply =
    | BitsRead(table: Table, bits: seq<bool>)
    | WordsRead(table: Table, words: seq<int>)
    | CoilWritten(address: int, on: bool)
    | RegisterWritten(address: int, value: int)
    | CoilsWritten(address: int, count: int)
    | RegistersWritten(address: int, count: int)
    | LoopedBack(data: seq<byte>)

  // What a call returns to its caller.
  datatype Answer = Bits(bits: seq<bool>) | Words(words: seq<word>) | Done | Echo(data: seq<byte>)

  // ----- Big-endian words -----

  predicate AllWords(values: seq<int>) {
    forall i :: 0 <= i < |values| ==> 0 <= values[i] <= 0xFFFF
  }

  function WordBytes(w: word): (r: seq<byte>)
    ensures |r| == 2
  {
    [w / 256, w % 256]
  }

  function WordAt(data: seq<byte>, i: nat): (r: word)
    requires i + 1 < |data|
  {
    256 * data[i] as int + data[i + 1] as int
  }

  function WordsBytes(values: seq<int>): (r: seq<byte>)
    requires AllWords(values)
    ensures |r| == 2 * |values|
  {
    if values == [] then [] else WordBytes(values[0]) + WordsBytes(values[1..])
  }

  function BytesWords(data: seq<byte>): (r: seq<word>)
    requires |data| % 2 == 0
    ensures |r| == |data| / 2
  {
    if data == [] then [] else [WordAt(data, 0)] + BytesWords(data[2..])
  }

  lemma WordRoundTrip(w: word)
    ensures WordAt(WordBytes(w), 0) == w
  {}

  lemma WordAtBytes(data: seq<byte>, i: nat)
    requires i + 1 < |data|
    ensures WordBytes(WordAt(data, i)) == data[i..i + 2]
  {
    var w := WordAt(data, i);
    assert w / 256 == data[i] && w % 256 == data[i + 1];
  }

  lemma {:induction false} WordsRoundTrip(values: seq<int>)
    requires AllWords(values)
    ensures BytesWords(WordsBytes(values)) == values
  {
    if values != [] {
      var bytes := WordsBytes(values);
      WordRoundTrip(values[0]);
      assert WordAt(bytes, 0) == WordAt(WordBytes(values[0]), 0);
      assert bytes[2..] == WordsBytes(values[1..]);
      WordsRoundTrip(values[1..]);
    }
  }

  lemma {:induction false} BytesRoundTrip(data: seq<byte>)
    requires |data| % 2 == 0
    ensures WordsBytes(BytesWords(data)) == data
  {
    if data != [] {
      WordAtBytes(data, 0);
      BytesRoundTrip(data[2..]);
      assert BytesWords(data)[1..] == BytesWords(data[2..]);
    }
  }

  // ----- Request encoders -----

  function ThreeFields(fc: byte, first: word, second: word): (r: seq<byte>)
    ensures |r| == 5 && r[0] == fc
  {
    [fc] + WordBytes(first) + WordBytes(second)
  }

  predicate IsAddress(address: int) { 0 <= address <= 0xFFFF }

  function EncodeReadRequest(fc: byte, address: int, count: int, maxCount: nat): Result<seq<byte>>
    requires maxCount <= 0xFFFF
  {
    if !IsAddress(address) then Err(ConfigurationError)
    else if !(1 <= count <= maxCount) then Err(ConfigurationError)
    else Ok(ThreeFields(fc, address, count))
  }

  function EncodeWriteSingleCoil(address: int, on: bool): Result<seq<byte>> {
    if !IsAddress(address) then Err(ConfigurationError)
    else Ok(ThreeFields(WRITE_SINGLE_COIL, address, if on then COIL_ON else COIL_OFF))
  }

  function EncodeWriteSingleRegister(address: int, value: int): Result<seq<byte>> {
    if !IsAddress(address) then Err(ConfigurationError)
    else if !(0 <= value <= 0xFFFF) then Err(ConfigurationError)
    else Ok(ThreeFields(WRITE_SINGLE_REGISTER, address, value))
  }

  function EncodeWriteMultipleCoils(address: int, values: seq<bool>): Result<seq<byte>> {
    if !IsAddress(address) then Err(ConfigurationError)
    else if !(1 <= |values| <= MAX_WRITE_COILS) then Err(ConfigurationError)
    else
      var packed := PackBits(values);
      Ok(ThreeFields(WRITE_MULTIPLE_COILS, address, |values|) + [|packed|] + packed)
  }

  function EncodeWriteMultipleRegisters(address: int, values: seq<int>): Result<seq<byte>> {
    if !IsAddress(address) then Err(ConfigurationError)
    else if !(1 <= |values| <= MAX_WRITE_REGISTERS) then Err(ConfigurationError)
    else if !AllWords(values) then Err(ConfigurationError)
    else Ok(ThreeFields(WRITE_MULTIPLE_REGISTERS, address, |values|) + [2 * |values|] + WordsBytes(values))
  }

  function EncodeLoopback(data: seq<byte>): Result<seq<byte>> {
    if |data| != 2 then Err(ConfigurationError) else Ok([DIAGNOSTICS, 0, 0] + data)
  }

  function EncodeRequest(call: Call): Result<seq<byte>> {
    match call
    case Read(table, address, count) => EncodeReadRequest(table.ReadFc(), address, count, table.MaxCount())
    case WriteCoil(address, on) => EncodeWriteSingleCoil(address, on)
    case WriteRegister(address, value) => EncodeWriteSingleRegister(address, value)
    case WriteCoils(address, coils) => EncodeWriteMultipleCoils(address, coils)
    case WriteRegisters(address, registers) => EncodeWriteMultipleRegisters(address, registers)
    case Loopback(data) => EncodeLoopback(data)
  }

  // ----- Request decoders -----

  function DecodeReadRequest(pdu: seq<byte>, table: Table): Result<Call> {
    if |pdu| != 5 then Err(ProtocolError)
    else if pdu[0] != table.ReadFc() then Err(ProtocolError)
    else
      var count := WordAt(pdu, 3);
      if !(1 <= count <= table.MaxCount()) then Err(ProtocolError)
      else Ok(Read(table, WordAt(pdu, 1), count))
  }

  function DecodeWriteSingleCoilRequest(pdu: seq<byte>): Result<Call> {
    if |pdu| != 5 then Err(ProtocolError)
    else if pdu[0] != WRITE_SINGLE_COIL then Err(ProtocolError)
    else
      var value := WordAt(pdu, 3);
      if value != COIL_ON && value != COIL_OFF then Err(ProtocolError)
      else Ok(WriteCoil(WordAt(pdu, 1), value == COIL_ON))
  }

  function DecodeWriteSingleRegisterRequest(pdu: seq<byte>): Result<Call> {
    if |pdu| != 5 then Err(ProtocolError)
    else if pdu[0] != WRITE_SINGLE_REGISTER then Err(ProtocolError)
    else Ok(WriteRegister(WordAt(pdu, 1), WordAt(pdu, 3)))
  }

  // The quantity an FC 0x0F or 0x10 request carries, once its lengths agree.
  function DecodeWriteMultiple(pdu: seq<byte>, fc: byte, maxCount: nat, bitsPerItem: nat): (r: Result<nat>)
    ensures r.Ok? ==> 1 <= r.value <= maxCount && |pdu| == 6 + (r.value * bitsPerItem + 7) / 8
  {
    if |pdu| == 0 || pdu[0] != fc then Err(ProtocolError)
    else if |pdu| < 6 then Err(ProtocolError)
    else
      var count := WordAt(pdu, 3);
      if !(1 <= count <= maxCount) then Err(ProtocolError)
      else if pdu[5] != (count * bitsPerItem + 7) / 8 || |pdu| - 6 != pdu[5] then Err(ProtocolError)
      else Ok(count)
  }

  function DecodeWriteMultipleCoilsRequest(pdu: seq<byte>): Result<Call> {
    var count :- DecodeWriteMultiple(pdu, WRITE_MULTIPLE_COILS, MAX_WRITE_COILS, 1);
    Ok(WriteCoils(WordAt(pdu, 1), UnpackBits(pdu[6..], count)))
  }

  function DecodeWriteMultipleRegistersRequest(pdu: seq<byte>): Result<Call> {
    var count :- DecodeWriteMultiple(pdu, WRITE_MULTIPLE_REGISTERS, MAX_WRITE_REGISTERS, 16);
    Ok(WriteRegisters(WordAt(pdu, 1), BytesWords(pdu[6..])))
  }

  function DecodeLoopbackRequest(pdu: seq<byte>): Result<Call> {
    if |pdu| != 5 then Err(ProtocolError)
    else if pdu[0] != DIAGNOSTICS then Err(ProtocolError)
    else if WordAt(pdu, 1) != 0 then Err(ProtocolError)
    else Ok(Loopback(pdu[3..5]))
  }

  // The decoder for the function code the PDU starts with.
  function DecodeRequest(pdu: seq<byte>): Result<Call>
    requires pdu != []
  {
    if pdu[0] == READ_COILS then DecodeReadRequest(pdu, CoilTable)
    else if pdu[0] == READ_DISCRETE_INPUTS then DecodeReadRequest(pdu, DiscreteTable)
    else if pdu[0] == READ_HOLDING_REGISTERS then DecodeReadRequest(pdu, HoldingTable)
    else if pdu[0] == READ_INPUT_REGISTERS then DecodeReadRequest(pdu, InputTable)
    else if pdu[0] == WRITE_SINGLE_COIL then DecodeWriteSingleCoilRequest(pdu)
    else if pdu[0] == WRITE_SINGLE_REGISTER then DecodeWriteSingleRegisterRequest(pdu)
    else if pdu[0] == WRITE_MULTIPLE_COILS then DecodeWriteMultipleCoilsRequest(pdu)
    else if pdu[0] == WRITE_MULTIPLE_REGISTERS then DecodeWriteMultipleRegistersRequest(pdu)
    else if pdu[0] == DIAGNOSTICS then DecodeLoopbackRequest(pdu)
    else Err(ProtocolError)
  }

  // ----- Response encoders -----

  function EncodeReply(reply: Reply): (r: Result<seq<byte>>)
    ensures r.Ok? ==> r.value != []
  {
    match reply
    case BitsRead(table, bits) =>
      if !(1 <= |bits| <= MAX_READ_BITS) then Err(ConfigurationError)
      else Ok([table.ReadFc(), BytesFor(|bits|)] + PackBits(bits))
    case WordsRead(table, words) =>
      if !(1 <= |words| <= MAX_READ_REGISTERS) || !AllWords(words) then Err(ConfigurationError)
      else Ok([table.ReadFc(), 2 * |words|] + WordsBytes(words))
    case CoilWritten(address, on) => EncodeWriteSingleCoil(address, on)
    case RegisterWritten(address, value) => EncodeWriteSingleRegister(address, value)
    case CoilsWritten(address, count) =>
      if !IsAddress(address) || !(1 <= count <= MAX_WRITE_COILS) then Err(ConfigurationError)
      else Ok(ThreeFields(WRITE_MULTIPLE_COILS, address, count))
    case RegistersWritten(address, count) =>
      if !IsAddress(address) || !(1 <= count <= MAX_WRITE_REGISTERS) then Err(ConfigurationError)
      else Ok(ThreeFields(WRITE_MULTIPLE_REGISTERS, address, count))
    case LoopedBack(data) => EncodeLoopback(data)
  }

  function EncodeException(fc: int, code: int): Result<seq<byte>> {
    if !(1 <= fc <= 0x7F) then Err(ConfigurationError)
    else if !(0 <= code <= 0xFF) then Err(ConfigurationError)
    else Ok([fc + 0x80, code])
  }

  // ----- Response decoders -----

  function DecodeReadBits(pdu: seq<byte>, fc: byte, expectedCount: int): Result<seq<bool>> {
    if |pdu| == 0 || pdu[0] != fc then Err(ProtocolError)
    else if !(1 <= expectedCount <= MAX_READ_BITS) then Err(ConfigurationError)
    else if |pdu| < 2 then Err(ProtocolError)
    else if pdu[1] != BytesFor(expectedCount) then Err(UnexpectedResponse)
    else if |pdu| - 2 != pdu[1] then Err(ProtocolError)
    else Ok(UnpackBits(pdu[2..], expectedCount))
  }

  function DecodeReadRegisters(pdu: seq<byte>, fc: byte, expectedCount: Option<int>): Result<seq<word>> {
    if |pdu| == 0 || pdu[0] != fc then Err(ProtocolError)
    else if expectedCount.Some? && !(1 <= expectedCount.value <= MAX_READ_REGISTERS) then Err(ConfigurationError)
    else if |pdu| < 2 then Err(ProtocolError)
    else if pdu[1] == 0 || pdu[1] % 2 != 0 then Err(ProtocolError)
    else if |pdu| - 2 != pdu[1] then Err(ProtocolError)
    else if expectedCount.Some? && pdu[1] / 2 != expectedCount.value then Err(UnexpectedResponse)
    else Ok(BytesWords(pdu[2..]))
  }

  function DecodeWriteSingleCoilResponse(pdu: seq<byte>): Result<(word, bool)> {
    if |pdu| != 5 then Err(ProtocolError)
    else if pdu[0] != WRITE_SINGLE_COIL then Err(ProtocolError)
    else if WordAt(pdu, 3) == COIL_ON then Ok((WordAt(pdu, 1), true))
    else if WordAt(pdu, 3) == COIL_OFF then Ok((WordAt(pdu, 1), false))
    else Err(ProtocolError)
  }

  function DecodeWriteSingleRegisterResponse(pdu: seq<byte>): Result<(word, word)> {
    if |pdu| != 5 then Err(ProtocolError)
    else if pdu[0] != WRITE_SINGLE_REGISTER then Err(ProtocolError)
    else Ok((WordAt(pdu, 1), WordAt(pdu, 3)))
  }

  function DecodeWriteMultipleResponse(pdu: seq<byte>, fc: byte, maxCount: nat): Result<(word, word)> {
    if |pdu| != 5 then Err(ProtocolError)
    else if pdu[0] != fc then Err(ProtocolError)
    else if !(1 <= WordAt(pdu, 3) <= maxCount) then Err(ProtocolError)
    else Ok((WordAt(pdu, 1), WordAt(pdu, 3)))
  }

  function DecodeLoopbackResponse(pdu: seq<byte>): Result<seq<byte>> {
    if |pdu| == 0 || pdu[0] != DIAGNOSTICS then Err(ProtocolError)
    else if |pdu| != 5 then Err(ProtocolError)
    else if WordAt(pdu, 1) != 0 then Err(ProtocolError)
    else Ok(pdu[3..5])
  }

  // The decode callback each `Slave` method hands to the bus (src/anymodbus/slave.py):
  // decode the reply and check that it answers this call.
  function DecodeAnswer(call: Call, pdu: seq<byte>): Result<Answer> {
    match call
    case Read(table, _, count) =>
      if table.OfBits() then
        var bits :- DecodeReadBits(pdu, call.Fc(), count);
        Ok(Bits(bits))
      else
        var words :- DecodeReadRegisters(pdu, call.Fc(), Some(count));
        Ok(Words(words))
    case WriteCoil(address, on) =>
      var echoed :- DecodeWriteSingleCoilResponse(pdu);
      if echoed.0 == address && echoed.1 == on then Ok(Done) else Err(UnexpectedResponse)
    case WriteRegister(address, value) =>
      var echoed :- DecodeWriteSingleRegisterResponse(pdu);
      if echoed.0 == address && echoed.1 == value then Ok(Done) else Err(UnexpectedResponse)
    case WriteCoils(address, coils) =>
      var echoed :- DecodeWriteMultipleResponse(pdu, WRITE_MULTIPLE_COILS, MAX_WRITE_COILS);
      if echoed.0 == address && echoed.1 == |coils| then Ok(Done) else Err(UnexpectedResponse)
    case WriteRegisters(address, registers) =>
      var echoed :- DecodeWriteMultipleResponse(pdu, WRITE_MULTIPLE_REGISTERS, MAX_WRITE_REGISTERS);
      if echoed.0 == address && echoed.1 == |registers| then Ok(Done) else Err(UnexpectedResponse)
    case Loopback(data) =>
      var echoed :- DecodeLoopbackResponse(pdu);
      if echoed == data then Ok(Echo(echoed)) else Err(UnexpectedResponse)
  }
}

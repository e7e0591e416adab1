// Encoders and decoders undo each other, for every legal input and every accepted PDU.
module PduProofs {
  import opened Bits
  import opened Errors
  import opened Coils
  import opened Pdu

  lemma ThreeFieldsRead(fc: byte, first: word, second: word)
    ensures WordAt(ThreeFields(fc, first, second), 1) == first
    ensures WordAt(ThreeFields(fc, first, second), 3) == second
  {
    var s := ThreeFields(fc, first, second);
    WordRoundTrip(first);
    WordRoundTrip(second);
    assert s[1] == WordBytes(first)[0] && s[2] == WordBytes(first)[1];
    assert s[3] == WordBytes(second)[0] && s[4] == WordBytes(second)[1];
  }

  lemma ThreeFieldsWritten(s: seq<byte>)
    requires |s| == 5
    ensures s == ThreeFields(s[0], WordAt(s, 1), WordAt(s, 3))
  {
    WordAtBytes(s, 1);
    WordAtBytes(s, 3);
  }

  // An FC 0x0F / 0x10 request read back field by field.
  lemma WriteMultipleRead(fc: byte, address: word, count: word, data: seq<byte>)
    requires |data| < 256
    ensures var s := ThreeFields(fc, address, count) + [|data|] + data;
            |s| == 6 + |data| && s[0] == fc && WordAt(s, 1) == address && WordAt(s, 3) == count
            && s[5] == |data| && s[6..] == data
  {
    var fields := ThreeFields(fc, address, count);
    var s := fields + [|data|] + data;
    ThreeFieldsRead(fc, address, count);
    assert s[..5] == fields;
    assert s[1] == fields[1] && s[2] == fields[2] && s[3] == fields[3] && s[4] == fields[4];
  }

  lemma WriteMultipleWritten(s: seq<byte>)
    requires |s| >= 6 && s[5] == |s| - 6
    ensures s == ThreeFields(s[0], WordAt(s, 1), WordAt(s, 3)) + [|s[6..]|] + s[6..]
  {
    ThreeFieldsWritten(s[..5]);
    assert WordAt(s[..5], 1) == WordAt(s, 1) && WordAt(s[..5], 3) == WordAt(s, 3);
    assert s == s[..5] + [s[5]] + s[6..];
  }

  lemma EncodesExactlyLegalCalls(call: Call)
    ensures EncodeRequest(call).Ok? <==> call.Legal()
  {}

  lemma DecodeEncodeRequest(call: Call)
    requires call.Legal()
    ensures EncodeRequest(call).Ok? && DecodeRequest(EncodeRequest(call).value) == Ok(call)
  {
    match call
    case Read(table, address, count) => ThreeFieldsRead(table.ReadFc(), address, count);
    case WriteCoil(address, on) => ThreeFieldsRead(WRITE_SINGLE_COIL, address, if on then COIL_ON else COIL_OFF);
    case WriteRegister(address, value) => ThreeFieldsRead(WRITE_SINGLE_REGISTER, address, value);
    case WriteCoils(address, coils) => DecodeEncodeWriteCoils(address, coils);
    case WriteRegisters(address, registers) => DecodeEncodeWriteRegisters(address, registers);
    case Loopback(data) => assert ([DIAGNOSTICS, 0, 0] + data)[3..5] == data;
  }

  lemma DecodeEncodeWriteCoils(address: word, coils: seq<bool>)
    requires 1 <= |coils| <= MAX_WRITE_COILS
    ensures DecodeRequest(EncodeWriteMultipleCoils(address, coils).value) == Ok(WriteCoils(address, coils))
  {
    WriteMultipleRead(WRITE_MULTIPLE_COILS, address, |coils|, PackBits(coils));
    UnpackPack(coils);
  }

  lemma DecodeEncodeWriteRegisters(address: word, registers: seq<int>)
    requires 1 <= |registers| <= MAX_WRITE_REGISTERS && AllWords(registers)
    ensures DecodeRequest(EncodeWriteMultipleRegisters(address, registers).value)
            == Ok(WriteRegisters(address, registers))
  {
    WriteMultipleRead(WRITE_MULTIPLE_REGISTERS, address, |registers|, WordsBytes(registers));
    WordsRoundTrip(registers);
    RegisterBytes(|registers|);
  }

  lemma RegisterBytes(count: nat)
    ensures (count * 16 + 7) / 8 == 2 * count
  {}

  // The bits an FC 0x0F request carries beyond its quantity.
  predicate PaddingIsZero(pdu: seq<byte>, count: nat) {
    |pdu| == 6 + BytesFor(count) && BitsOf(pdu[6..])[count..] == Zeros(8 * BytesFor(count) - count)
  }

  // Every accepted request is one a caller could have sent, and encodes to itself -
  // for coils, exactly when its padding bits are zero.
  lemma EncodeDecodeRequest(pdu: seq<byte>)
    requires pdu != [] && DecodeRequest(pdu).Ok?
    ensures var call := DecodeRequest(pdu).value;
            call.Legal() && call.Fc() == pdu[0] && (!call.WriteCoils? ==> EncodeRequest(call) == Ok(pdu))
    ensures var call := DecodeRequest(pdu).value;
            call.WriteCoils? ==> (EncodeRequest(call) == Ok(pdu) <==> PaddingIsZero(pdu, |call.coils|))
  {
    var call := DecodeRequest(pdu).value;
    match call
    case Read(_, _, _) => ThreeFieldsWritten(pdu);
    case WriteCoil(_, _) => ThreeFieldsWritten(pdu);
    case WriteRegister(_, _) => ThreeFieldsWritten(pdu);
    case WriteCoils(address, coils) => ReencodeCoils(pdu, coils);
    case WriteRegisters(address, registers) =>
      WriteMultipleWritten(pdu);
      BytesRoundTrip(pdu[6..]);
      RegisterBytes(WordAt(pdu, 3));
    case Loopback(data) =>
      assert pdu == [pdu[0], pdu[1], pdu[2]] + pdu[3..5];
  }

  lemma ReencodeCoils(pdu: seq<byte>, coils: seq<bool>)
    requires |pdu| >= 6 && DecodeRequest(pdu) == Ok(WriteCoils(WordAt(pdu, 1), coils))
    ensures WriteCoils(WordAt(pdu, 1), coils).Legal() && pdu[0] == WRITE_MULTIPLE_COILS
    ensures EncodeRequest(WriteCoils(WordAt(pdu, 1), coils)) == Ok(pdu) <==> PaddingIsZero(pdu, |coils|)
  {
    WriteMultipleWritten(pdu);
    PackUnpack(pdu[6..], |coils|);
    var encoded := EncodeWriteMultipleCoils(WordAt(pdu, 1), coils).value;
    WriteMultipleRead(WRITE_MULTIPLE_COILS, WordAt(pdu, 1), |coils|, PackBits(coils));
    assert encoded[6..] == PackBits(coils);
  }

  // ----- Replies -----

  predicate LegalReply(reply: Reply) {
    match reply
    case BitsRead(table, bits) => table.OfBits() && 1 <= |bits| <= MAX_READ_BITS
    case WordsRead(table, words) => !table.OfBits() && 1 <= |words| <= MAX_READ_REGISTERS && AllWords(words)
    case CoilWritten(address, _) => IsAddress(address)
    case RegisterWritten(address, value) => IsAddress(address) && 0 <= value <= 0xFFFF
    case CoilsWritten(address, count) => IsAddress(address) && 1 <= count <= MAX_WRITE_COILS
    case RegistersWritten(address, count) => IsAddress(address) && 1 <= count <= MAX_WRITE_REGISTERS
    case LoopedBack(data) => |data| == 2
  }

  // `reply` answers `call`: the same table and count, or the echo of the write.
  predicate Answers(call: Call, reply: Reply) {
    match call
    case Read(table, _, count) =>
      if table.OfBits() then reply.BitsRead? && reply.table == table && |reply.bits| == count
      else reply.WordsRead? && reply.table == table && |reply.words| == count && AllWords(reply.words)
    case WriteCoil(address, on) => reply == CoilWritten(address, on)
    case WriteRegister(address, value) => reply == RegisterWritten(address, value)
    case WriteCoils(address, coils) => reply == CoilsWritten(address, |coils|)
    case WriteRegisters(address, registers) => reply == RegistersWritten(address, |registers|)
    case Loopback(data) => reply == LoopedBack(data)
  }

  function AnswerOf(reply: Reply): Answer
    requires reply.WordsRead? ==> AllWords(reply.words)
  {
    match reply
    case BitsRead(_, bits) => Bits(bits)
    case WordsRead(_, words) => Words(words)
    case LoopedBack(data) => Echo(data)
    case _ => Done
  }

  // A reply that answers the call decodes to what it carries.
  lemma DecodeEncodeReply(call: Call, reply: Reply)
    requires call.Legal() && Answers(call, reply)
    ensures LegalReply(reply)
    ensures EncodeReply(reply).Ok? && EncodeReply(reply).value[0] == call.Fc()
    ensures DecodeAnswer(call, EncodeReply(reply).value) == Ok(AnswerOf(reply))
  {
    match call
    case Read(table, address, count) =>
      var pdu := EncodeReply(reply).value;
      if table.OfBits() {
        UnpackPack(reply.bits);
        assert pdu[2..] == PackBits(reply.bits);
      } else {
        WordsRoundTrip(reply.words);
        assert pdu[2..] == WordsBytes(reply.words);
      }
    case WriteCoil(address, on) => ThreeFieldsRead(WRITE_SINGLE_COIL, address, if on then COIL_ON else COIL_OFF);
    case WriteRegister(address, value) => ThreeFieldsRead(WRITE_SINGLE_REGISTER, address, value);
    case WriteCoils(address, coils) => ThreeFieldsRead(WRITE_MULTIPLE_COILS, address, |coils|);
    case WriteRegisters(address, registers) => ThreeFieldsRead(WRITE_MULTIPLE_REGISTERS, address, |registers|);
    case Loopback(data) =>
  }

  // What an accepted reply PDU must look like: the requested count of items, or
  // the exact echo; for bits, up to the padding of the last byte.
  ghost predicate CarriesAnswer(call: Call, pdu: seq<byte>, answer: Answer) {
    match call
    case Read(table, _, count) =>
      if table.OfBits() then
        answer.Bits? && |answer.bits| == count && |pdu| == 2 + BytesFor(count)
        && pdu[..2] == [call.Fc(), BytesFor(count)] && BitsOf(pdu[2..])[..count] == answer.bits
      else
        answer.Words? && |answer.words| == count && EncodeReply(WordsRead(table, answer.words)) == Ok(pdu)
    case WriteCoil(address, on) => answer.Done? && EncodeReply(CoilWritten(address, on)) == Ok(pdu)
    case WriteRegister(address, value) => answer.Done? && EncodeReply(RegisterWritten(address, value)) == Ok(pdu)
    case WriteCoils(address, coils) => answer.Done? && EncodeReply(CoilsWritten(address, |coils|)) == Ok(pdu)
    case WriteRegisters(address, registers) => answer.Done?
      && EncodeReply(RegistersWritten(address, |registers|)) == Ok(pdu)
    case Loopback(data) => answer == Echo(data) && EncodeReply(LoopedBack(data)) == Ok(pdu)
  }

  lemma AcceptedReplyAnswers(call: Call, pdu: seq<byte>)
    requires call.Legal() && DecodeAnswer(call, pdu).Ok?
    ensures CarriesAnswer(call, pdu, DecodeAnswer(call, pdu).value)
  {
    match call
    case Read(table, address, count) =>
      if table.OfBits() {
        UnpackedBits(pdu[2..], count);
        assert pdu[..2] == [pdu[0], pdu[1]];
      } else {
        BytesRoundTrip(pdu[2..]);
        assert pdu == [pdu[0], pdu[1]] + pdu[2..];
      }
    case WriteCoil(_, _) => ThreeFieldsWritten(pdu);
    case WriteRegister(_, _) => ThreeFieldsWritten(pdu);
    case WriteCoils(_, _) => ThreeFieldsWritten(pdu);
    case WriteRegisters(_, _) => ThreeFieldsWritten(pdu);
    case Loopback(data) => assert pdu == [pdu[0], pdu[1], pdu[2]] + pdu[3..5];
  }
}

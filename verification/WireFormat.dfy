// The bytes on the wire, written out: what every request, reply, exception and frame looks like (sections 4.1, 5.1
// and 6.1 to 6.12 of MODBUS Application Protocol V1.1b3; sections 2.5.1 and 2.5.2 of MODBUS over Serial Line V1.02).
// An independent reference for the encoders, decoders and length tables of src/anymodbus/pdu.py, framing.py,
// framer.py and framer_ascii.py.
module WireFormat {
  import opened Bits
  import opened Errors
  import opened Coils
  import opened Crc
  import opened Lrc
  import opened Pdu
  import opened PduProofs
  import opened RtuFramer
  import opened Framing
  import opened AsciiFramer

  // ----- Fields -----

  // Bit k of a byte, the least significant first.
  predicate BitOf(b: byte, k: nat)
    requires k < 8
  {
    (b as int) / [1, 2, 4, 8, 16, 32, 64, 128][k] % 2 == 1
  }

  // The first bits of packed bytes, eight to a byte.
  ghost predicate HoldsBits(data: seq<byte>, bits: seq<bool>) {
    |data| == (|bits| + 7) / 8 && forall i :: 0 <= i < |bits| ==> bits[i] == BitOf(data[i / 8], i % 8)
  }

  // And the rest of the last byte is zero.
  ghost predicate PaddedWithZeros(data: seq<byte>, count: nat) {
    forall i :: count <= i < 8 * |data| ==> !BitOf(data[i / 8], i % 8)
  }

  // Words, the high byte first.
  ghost predicate HoldsWords(data: seq<byte>, values: seq<int>) {
    && |data| == 2 * |values|
    && forall i :: 0 <= i < |values| ==>
         0 <= values[i] < 65536 && data[2 * i] as int == values[i] / 256 && data[2 * i + 1] as int == values[i] % 256
  }

  lemma BitByHalving(b: byte, k: nat)
    requires k < 8
    ensures BitAt(b, k) == BitOf(b, k)
  {
    HalvedFrom(b, 0, k);
  }

  lemma {:induction false} HalvedFrom(b: byte, j: nat, k: nat)
    requires j <= k < 8
    ensures BitAt(b as nat / [1, 2, 4, 8, 16, 32, 64, 128][j], k - j) == BitOf(b, k)
    decreases k - j
  {
    if j < k {
      HalvedFrom(b, j + 1, k);
      HalvedAgain(b, j);
    }
  }

  lemma HalvedAgain(b: nat, j: nat)
    requires j < 7
    ensures b / [1, 2, 4, 8, 16, 32, 64, 128][j] / 2 == b / [1, 2, 4, 8, 16, 32, 64, 128][j + 1]
  {}

  lemma BitOfBits(data: seq<byte>, i: nat)
    requires i < 8 * |data|
    ensures BitsOf(data)[i] == BitOf(data[i / 8], i % 8)
  {
    BitsOfAt(data, i);
    LowBitsAt(data[i / 8], 8, i % 8);
    BitByHalving(data[i / 8], i % 8);
  }

  lemma PackedBits(bits: seq<bool>)
    ensures HoldsBits(PackBits(bits), bits) && PaddedWithZeros(PackBits(bits), |bits|)
  {
    var data := PackBits(bits);
    BitsOfPacked(bits);
    forall i | 0 <= i < 8 * |data|
      ensures BitOf(data[i / 8], i % 8) == (i < |bits| && bits[i])
    {
      BitOfBits(data, i);
    }
  }

  // Only one padded string of bytes holds given bits.
  lemma PackedOnlySo(data: seq<byte>, bits: seq<bool>)
    requires HoldsBits(data, bits) && PaddedWithZeros(data, |bits|)
    ensures data == PackBits(bits)
  {
    PackedBits(bits);
    var packed := PackBits(bits);
    forall i | 0 <= i < 8 * |data|
      ensures BitsOf(data)[i] == BitsOf(packed)[i]
    {
      BitOfBits(data, i);
      BitOfBits(packed, i);
    }
    BitsOfInjective(data, packed);
  }

  lemma UnpackedSo(data: seq<byte>, bits: seq<bool>)
    requires |data| == (|bits| + 7) / 8
    ensures UnpackBits(data, |bits|) == bits <==> HoldsBits(data, bits)
  {
    var unpacked := UnpackBits(data, |bits|);
    forall i | 0 <= i < |bits|
      ensures unpacked[i] == BitOf(data[i / 8], i % 8)
    {
      BitByHalving(data[i / 8], i % 8);
    }
    if unpacked != bits {
      var i :| 0 <= i < |bits| && unpacked[i] != bits[i];
      assert bits[i] != BitOf(data[i / 8], i % 8);
    }
  }

  lemma {:induction false} WordsAreBytes(values: seq<int>)
    requires AllWords(values)
    ensures HoldsWords(WordsBytes(values), values)
  {
    if values != [] {
      WordsAreBytes(values[1..]);
      var data, rest := WordsBytes(values), WordsBytes(values[1..]);
      assert data[..2] == WordBytes(values[0]) && data[2..] == rest;
      forall i | 0 <= i < |values|
        ensures data[2 * i] as int == values[i] / 256 && data[2 * i + 1] as int == values[i] % 256
      {
        if i > 0 {
          assert data[2 * i] == rest[2 * (i - 1)] && data[2 * i + 1] == rest[2 * (i - 1) + 1];
          assert values[i] == values[1..][i - 1];
        }
      }
    }
  }

  // Only one string of bytes holds given words, and it holds no others.
  lemma WordsOnlySo(data: seq<byte>, values: seq<int>)
    requires HoldsWords(data, values)
    ensures AllWords(values) && data == WordsBytes(values)
  {
    WordsAreBytes(values);
    var other := WordsBytes(values);
    forall k | 0 <= k < |data|
      ensures data[k] == other[k]
    {
      assert k == 2 * (k / 2) || k == 2 * (k / 2) + 1;
      assert data[2 * (k / 2)] == other[2 * (k / 2)] && data[2 * (k / 2) + 1] == other[2 * (k / 2) + 1];
    }
  }

  lemma WordsReadSo(data: seq<byte>, values: seq<int>)
    requires |data| % 2 == 0
    ensures BytesWords(data) == values <==> HoldsWords(data, values)
  {
    if BytesWords(data) == values {
      BytesRoundTrip(data);
      WordsAreBytes(values);
    }
    if HoldsWords(data, values) {
      WordsOnlySo(data, values);
      WordsRoundTrip(values);
    }
  }

  // ----- Requests -----

  // The ranges of the specification.
  predicate InRanges(call: Call) {
    match call
    case Read(table, address, count) =>
      0 <= address < 65536 && 1 <= count <= if table.CoilTable? || table.DiscreteTable? then 2000 else 125
    case WriteCoil(address, _) => 0 <= address < 65536
    case WriteRegister(address, value) => 0 <= address < 65536 && 0 <= value < 65536
    case WriteCoils(address, coils) => 0 <= address < 65536 && 1 <= |coils| <= 1968
    case WriteRegisters(address, registers) => 0 <= address < 65536 && 1 <= |registers| <= 123
    case Loopback(data) => |data| == 2
  }

  function ReadCode(table: Table): byte {
    match table
    case CoilTable => 1
    case DiscreteTable => 2
    case HoldingTable => 3
    case InputTable => 4
  }

  // Two big-endian words behind a function code.
  predicate Fields(pdu: seq<byte>, fc: byte, first: int, second: int) {
    && |pdu| == 5 && pdu[0] == fc
    && pdu[1] as int == first / 256 && pdu[2] as int == first % 256
    && pdu[3] as int == second / 256 && pdu[4] as int == second % 256
  }

  // The bytes of a request, apart from unused bits of the last coil byte.
  ghost predicate IsRequest(pdu: seq<byte>, call: Call) {
    match call
    case Read(table, address, count) => Fields(pdu, ReadCode(table), address, count)
    case WriteCoil(address, on) => Fields(pdu, 5, address, if on then 0xFF00 else 0)
    case WriteRegister(address, value) => Fields(pdu, 6, address, value)
    case WriteCoils(address, coils) =>
      |pdu| > 6 && Fields(pdu[..5], 15, address, |coils|) && pdu[5] as int == |pdu| - 6 && HoldsBits(pdu[6..], coils)
    case WriteRegisters(address, registers) =>
      && |pdu| > 6 && Fields(pdu[..5], 16, address, |registers|) && pdu[5] as int == |pdu| - 6
      && HoldsWords(pdu[6..], registers)
    case Loopback(data) => |data| == 2 && pdu == [8, 0, 0, data[0], data[1]]
  }

  ghost predicate PaddingIsClear(pdu: seq<byte>, call: Call) {
    call.WriteCoils? && |pdu| > 6 ==> PaddedWithZeros(pdu[6..], |call.coils|)
  }

  lemma FieldsAre(pdu: seq<byte>, fc: byte, first: word, second: word)
    ensures pdu == ThreeFields(fc, first, second) <==> Fields(pdu, fc, first, second)
  {
    var fields := ThreeFields(fc, first, second);
    assert fields == [fc, first / 256, first % 256, second / 256, second % 256];
  }

  // A call is sent as these bytes and no others, and only within the ranges.
  lemma RequestSentIff(call: Call, pdu: seq<byte>)
    ensures EncodeRequest(call) == Ok(pdu) <==> InRanges(call) && IsRequest(pdu, call) && PaddingIsClear(pdu, call)
    ensures EncodeRequest(call).Err? ==> EncodeRequest(call).error == ConfigurationError
  {
    match call
    case Read(table, address, count) =>
      if InRanges(call) {
        FieldsAre(pdu, ReadCode(table), address, count);
      }
    case WriteCoil(address, on) =>
      if InRanges(call) {
        FieldsAre(pdu, 5, address, if on then 0xFF00 else 0);
      }
    case WriteRegister(address, value) =>
      if InRanges(call) {
        FieldsAre(pdu, 6, address, value);
      }
    case WriteCoils(address, coils) =>
      if InRanges(call) {
        CoilsSentIff(address, coils, pdu);
      }
    case WriteRegisters(address, registers) =>
      if InRanges(call) {
        RegistersSentIff(address, registers, pdu);
      }
    case Loopback(data) =>
      if |data| == 2 {
        assert [8, 0, 0] + data == [8, 0, 0, data[0], data[1]];
      }
  }

  lemma CoilsSentIff(address: word, coils: seq<bool>, pdu: seq<byte>)
    requires 1 <= |coils| <= 1968
    ensures var call := WriteCoils(address, coils);
            EncodeRequest(call) == Ok(pdu) <==> IsRequest(pdu, call) && PaddingIsClear(pdu, call)
  {
    var call, packed := WriteCoils(address, coils), PackBits(coils);
    PackedBits(coils);
    var sent := EncodeRequest(call).value;
    assert sent[..5] == ThreeFields(15, address, |coils|) && sent[5] == |packed| && sent[6..] == packed;
    FieldsAre(sent[..5], 15, address, |coils|);
    assert IsRequest(sent, call) && PaddingIsClear(sent, call);
    if IsRequest(pdu, call) && PaddingIsClear(pdu, call) {
      PackedOnlySo(pdu[6..], coils);
      FieldsAre(pdu[..5], 15, address, |coils|);
      assert pdu == pdu[..5] + [pdu[5]] + pdu[6..];
    }
  }

  lemma RegistersSentIff(address: word, registers: seq<int>, pdu: seq<byte>)
    requires 1 <= |registers| <= 123
    ensures var call := WriteRegisters(address, registers); EncodeRequest(call) == Ok(pdu) <==> IsRequest(pdu, call)
  {
    var call := WriteRegisters(address, registers);
    if AllWords(registers) {
      var sent, data := EncodeRequest(call).value, WordsBytes(registers);
      WordsAreBytes(registers);
      assert sent[..5] == ThreeFields(16, address, |registers|) && sent[5] == |data| && sent[6..] == data;
      FieldsAre(sent[..5], 16, address, |registers|);
    }
    if IsRequest(pdu, call) {
      WordsOnlySo(pdu[6..], registers);
      FieldsAre(pdu[..5], 16, address, |registers|);
      assert pdu == pdu[..5] + [pdu[5]] + pdu[6..];
    }
  }

  // A server reads exactly such bytes as that call, whatever the unused bits of the last coil byte.
  lemma RequestReadIff(call: Call, pdu: seq<byte>)
    requires pdu != []
    ensures DecodeRequest(pdu) == Ok(call) <==> InRanges(call) && IsRequest(pdu, call)
    ensures DecodeRequest(pdu).Err? ==> DecodeRequest(pdu).error == ProtocolError
  {
    if DecodeRequest(pdu) == Ok(call) {
      EncodeDecodeRequest(pdu);
      if call.WriteCoils? {
        CoilsRead(pdu, call);
      } else {
        RequestSentIff(call, pdu);
      }
    }
    if InRanges(call) && IsRequest(pdu, call) {
      if call.WriteCoils? {
        CoilsTaken(pdu, call);
      } else {
        RequestSentIff(call, pdu);
        EncodesExactlyLegalCalls(call);
        DecodeEncodeRequest(call);
      }
    }
  }

  lemma CoilsRead(pdu: seq<byte>, call: Call)
    requires pdu != [] && call.WriteCoils? && DecodeRequest(pdu) == Ok(call)
    ensures InRanges(call) && IsRequest(pdu, call)
  {
    UnpackedSo(pdu[6..], call.coils);
    WriteMultipleWritten(pdu);
    assert pdu[..5] == ThreeFields(pdu[0], WordAt(pdu, 1), WordAt(pdu, 3));
    FieldsAre(pdu[..5], 15, WordAt(pdu, 1), WordAt(pdu, 3));
  }

  lemma CoilsTaken(pdu: seq<byte>, call: Call)
    requires call.WriteCoils? && InRanges(call) && IsRequest(pdu, call)
    ensures DecodeRequest(pdu) == Ok(call)
  {
    UnpackedSo(pdu[6..], call.coils);
    assert forall i :: 0 <= i < 5 ==> pdu[i] == pdu[..5][i];
    assert WordAt(pdu, 1) == call.address && WordAt(pdu, 3) == |call.coils|;
  }

  // ----- Replies -----

  predicate ReplyInRanges(reply: Reply) {
    match reply
    case BitsRead(_, bits) => 1 <= |bits| <= 2000
    case WordsRead(_, words) => 1 <= |words| <= 125
    case CoilWritten(address, _) => 0 <= address < 65536
    case RegisterWritten(address, value) => 0 <= address < 65536 && 0 <= value < 65536
    case CoilsWritten(address, count) => 0 <= address < 65536 && 1 <= count <= 1968
    case RegistersWritten(address, count) => 0 <= address < 65536 && 1 <= count <= 123
    case LoopedBack(data) => |data| == 2
  }

  // A function code, the number of data bytes, and the data.
  predicate Counted(pdu: seq<byte>, fc: byte) {
    2 <= |pdu| && pdu[0] == fc && pdu[1] as int == |pdu| - 2
  }

  ghost predicate IsReply(pdu: seq<byte>, reply: Reply) {
    match reply
    case BitsRead(table, bits) =>
      Counted(pdu, ReadCode(table)) && HoldsBits(pdu[2..], bits) && PaddedWithZeros(pdu[2..], |bits|)
    case WordsRead(table, words) => Counted(pdu, ReadCode(table)) && HoldsWords(pdu[2..], words)
    case CoilWritten(address, on) => Fields(pdu, 5, address, if on then 0xFF00 else 0)
    case RegisterWritten(address, value) => Fields(pdu, 6, address, value)
    case CoilsWritten(address, count) => Fields(pdu, 15, address, count)
    case RegistersWritten(address, count) => Fields(pdu, 16, address, count)
    case LoopedBack(data) => |data| == 2 && pdu == [8, 0, 0, data[0], data[1]]
  }

  // What a server sends back, byte for byte.
  lemma ReplySentIff(reply: Reply, pdu: seq<byte>)
    ensures EncodeReply(reply) == Ok(pdu) <==> ReplyInRanges(reply) && IsReply(pdu, reply)
  {
    match reply
    case BitsRead(table, bits) => BitsSentIff(table, bits, pdu);
    case WordsRead(table, words) => WordsSentIff(table, words, pdu);
    case CoilWritten(address, on) =>
      if ReplyInRanges(reply) {
        FieldsAre(pdu, 5, address, if on then 0xFF00 else 0);
      }
    case RegisterWritten(address, value) =>
      if ReplyInRanges(reply) {
        FieldsAre(pdu, 6, address, value);
      }
    case CoilsWritten(address, count) =>
      if ReplyInRanges(reply) {
        FieldsAre(pdu, 15, address, count);
      }
    case RegistersWritten(address, count) =>
      if ReplyInRanges(reply) {
        FieldsAre(pdu, 16, address, count);
      }
    case LoopedBack(data) =>
      if |data| == 2 {
        assert [8, 0, 0] + data == [8, 0, 0, data[0], data[1]];
      }
  }

  lemma BitsSentIff(table: Table, bits: seq<bool>, pdu: seq<byte>)
    ensures var reply := BitsRead(table, bits);
            EncodeReply(reply) == Ok(pdu) <==> ReplyInRanges(reply) && IsReply(pdu, reply)
  {
    var reply := BitsRead(table, bits);
    if ReplyInRanges(reply) {
      var sent := EncodeReply(reply).value;
      PackedBits(bits);
      assert sent[2..] == PackBits(bits);
      if IsReply(pdu, reply) {
        PackedOnlySo(pdu[2..], bits);
        assert pdu == [pdu[0], pdu[1]] + pdu[2..];
      }
    }
  }

  lemma WordsSentIff(table: Table, words: seq<int>, pdu: seq<byte>)
    ensures var reply := WordsRead(table, words);
            EncodeReply(reply) == Ok(pdu) <==> ReplyInRanges(reply) && IsReply(pdu, reply)
  {
    var reply := WordsRead(table, words);
    if ReplyInRanges(reply) {
      if AllWords(words) {
        WordsAreBytes(words);
        assert EncodeReply(reply).value[2..] == WordsBytes(words);
      }
      if IsReply(pdu, reply) {
        WordsOnlySo(pdu[2..], words);
        assert pdu == [pdu[0], pdu[1]] + pdu[2..];
      }
    }
  }

  // What a client takes for the answer to its call: the requested count, or the exact echo.
  ghost predicate IsAnswer(pdu: seq<byte>, call: Call, answer: Answer) {
    match call
    case Read(table, _, count) =>
      && Counted(pdu, ReadCode(table))
      && if table.CoilTable? || table.DiscreteTable? then
           answer.Bits? && |answer.bits| == count && HoldsBits(pdu[2..], answer.bits)
         else answer.Words? && |answer.words| == count && HoldsWords(pdu[2..], answer.words)
    case WriteCoil(address, on) => answer.Done? && Fields(pdu, 5, address, if on then 0xFF00 else 0)
    case WriteRegister(address, value) => answer.Done? && Fields(pdu, 6, address, value)
    case WriteCoils(address, coils) => answer.Done? && Fields(pdu, 15, address, |coils|)
    case WriteRegisters(address, registers) => answer.Done? && Fields(pdu, 16, address, |registers|)
    case Loopback(data) => |data| == 2 && answer == Echo(data) && pdu == [8, 0, 0, data[0], data[1]]
  }

  // A reply of the right kind that answers something else: other counts, an echo of other values.
  ghost predicate AnswersOtherwise(pdu: seq<byte>, call: Call) {
    match call
    case Read(table, _, count) =>
      && 2 <= |pdu| && pdu[0] == ReadCode(table)
      && if table.CoilTable? || table.DiscreteTable? then pdu[1] as int != (count + 7) / 8
         else pdu[1] as int == |pdu| - 2 != 2 * count && pdu[1] % 2 == 0 && pdu[1] > 0
    case WriteCoil(_, _) => |pdu| == 5 && pdu[0] == 5 && pdu[3] in {0, 0xFF} && pdu[4] == 0
    case WriteRegister(_, _) => |pdu| == 5 && pdu[0] == 6
    case WriteCoils(_, _) => |pdu| == 5 && pdu[0] == 15 && 1 <= 256 * pdu[3] as int + pdu[4] as int <= 1968
    case WriteRegisters(_, _) => |pdu| == 5 && pdu[0] == 16 && 1 <= 256 * pdu[3] as int + pdu[4] as int <= 123
    case Loopback(data) => |pdu| == 5 && pdu[..3] == [8, 0, 0]
  }

  // A reply is accepted with exactly the answer its bytes spell; one of the right kind that answers something else is
  // told apart from a malformed one.
  lemma AnswerTakenIff(call: Call, pdu: seq<byte>, answer: Answer)
    requires call.Legal()
    ensures DecodeAnswer(call, pdu) == Ok(answer) <==> IsAnswer(pdu, call, answer)
    ensures DecodeAnswer(call, pdu).Err? ==>
              DecodeAnswer(call, pdu).error == if AnswersOtherwise(pdu, call) then UnexpectedResponse else ProtocolError
  {
    match call
    case Read(table, _, count) =>
      if table.OfBits() {
        BitsTakenIff(call, pdu, answer);
      } else {
        WordsTakenIff(call, pdu, answer);
      }
    case WriteCoil(address, on) => FieldsTaken(pdu, 5, address, if on then 0xFF00 else 0);
    case WriteRegister(address, value) => FieldsTaken(pdu, 6, address, value);
    case WriteCoils(address, coils) => FieldsTaken(pdu, 15, address, |coils|);
    case WriteRegisters(address, registers) => FieldsTaken(pdu, 16, address, |registers|);
    case Loopback(data) =>
      if |pdu| == 5 {
        assert pdu == [pdu[0], pdu[1], pdu[2]] + pdu[3..5];
      }
  }

  lemma FieldsTaken(pdu: seq<byte>, fc: byte, first: word, second: word)
    ensures Fields(pdu, fc, first, second) <==>
              |pdu| == 5 && pdu[0] == fc && WordAt(pdu, 1) == first && WordAt(pdu, 3) == second
  {}

  lemma BitsTakenIff(call: Call, pdu: seq<byte>, answer: Answer)
    requires call.Legal() && call.Read? && call.table.OfBits()
    ensures DecodeAnswer(call, pdu) == Ok(answer) <==> IsAnswer(pdu, call, answer)
    ensures DecodeAnswer(call, pdu).Err? ==>
              DecodeAnswer(call, pdu).error == if AnswersOtherwise(pdu, call) then UnexpectedResponse else ProtocolError
  {
    if |pdu| == 2 + BytesFor(call.count) {
      if answer.Bits? && |answer.bits| == call.count {
        UnpackedSo(pdu[2..], answer.bits);
      }
    }
  }

  lemma WordsTakenIff(call: Call, pdu: seq<byte>, answer: Answer)
    requires call.Legal() && call.Read? && !call.table.OfBits()
    ensures DecodeAnswer(call, pdu) == Ok(answer) <==> IsAnswer(pdu, call, answer)
    ensures DecodeAnswer(call, pdu).Err? ==>
              DecodeAnswer(call, pdu).error == if AnswersOtherwise(pdu, call) then UnexpectedResponse else ProtocolError
  {
    if |pdu| >= 2 && |pdu| % 2 == 0 && answer.Words? {
      WordsReadSo(pdu[2..], answer.words);
    }
  }

  // ----- Exceptions -----

  lemma ExceptionSent(fc: int, code: int)
    ensures EncodeException(fc, code)
            == if 1 <= fc <= 127 && 0 <= code <= 255 then Ok([fc + 128, code]) else Err(ConfigurationError)
  {}

  // Before its data is looked at: a reply under the function code asked for, that function code's exception, or
  // something else.
  lemma ReplyJudged(pdu: seq<byte>, fc: byte)
    requires pdu != [] && 1 <= fc <= 127
    ensures var r := Interpret(pdu, fc);
            && (r.Ok? <==> pdu[0] == fc) && (r.Ok? ==> r.value == pdu)
            && (forall f, code :: r == Err(ExceptionResponse(f, code)) <==>
                                  f == fc && |pdu| >= 2 && pdu[0] as int == fc as int + 128 && pdu[1] == code)
            && (r == Err(ProtocolError) <==> pdu[0] == 0)
            && (r == Err(UnexpectedResponse) <==> pdu[0] as int !in {0, fc as int, fc as int + 128})
  {}

  // ----- Frames -----

  lemma RtuFrameIff(slave: int, pdu: seq<byte>, frame: seq<byte>)
    ensures EncodeAdu(slave, pdu) == Ok(frame) <==>
              && 0 <= slave <= 255 && pdu != [] && |frame| == |pdu| + 3
              && frame[0] as int == slave && frame[1..|pdu| + 1] == pdu
              && frame[|pdu| + 1] as int + 256 * frame[|pdu| + 2] as int == Crc16(frame[..|pdu| + 1])
  {
    if 0 <= slave <= 255 && pdu != [] {
      var body := [slave] + pdu;
      var check := CrcBytes(body);
      var sent := EncodeAdu(slave, pdu).value;
      assert sent[..|pdu| + 1] == body && sent[1..|pdu| + 1] == pdu;
      assert sent == body + [check[0], check[1]];
      if |frame| == |pdu| + 3 && frame[0] as int == slave && frame[1..|pdu| + 1] == pdu {
        assert frame[..|pdu| + 1] == body;
        assert frame == body + [frame[|pdu| + 1], frame[|pdu| + 2]];
      }
    }
  }

  // A hexadecimal digit, in upper case.
  predicate IsDigitFor(c: byte, n: nat) {
    c as int == if n < 10 then 48 + n else 55 + n
  }

  lemma {:induction false} HexDigits(data: seq<byte>, i: nat)
    requires i < |data|
    ensures IsDigitFor(Hex(data)[2 * i], data[i] as int / 16) && IsDigitFor(Hex(data)[2 * i + 1], data[i] as int % 16)
  {
    if i > 0 {
      HexDigits(data[1..], i - 1);
      assert Hex(data)[2..] == Hex(data[1..]);
      assert Hex(data)[2 * i] == Hex(data[1..])[2 * (i - 1)];
      assert Hex(data)[2 * i + 1] == Hex(data[1..])[2 * (i - 1) + 1];
    }
  }

  // No lower-case digit goes out.
  lemma HexIsUpper(data: seq<byte>, k: nat)
    requires k < |Hex(data)|
    ensures '0' as int <= Hex(data)[k] as int <= '9' as int || 'A' as int <= Hex(data)[k] as int <= 'F' as int
  {
    HexDigits(data, k / 2);
    assert k == 2 * (k / 2) || k == 2 * (k / 2) + 1;
  }

  // The byte that makes the sum of a frame's bytes a multiple of 256.
  predicate Balances(body: seq<byte>, lrc: byte) { (Sum(body) + lrc) % 256 == 0 }

  // The LRC of a read of one input register.
  lemma KnownLrc()
    ensures Lrc8([0x1E, 0x04, 0x00, 0x00, 0x00, 0x01]) == 0xDD
  {
    var x, y := [0x1E, 0x04, 0x00], [0x00, 0x00, 0x01];
    assert x + y == [0x1E, 0x04, 0x00, 0x00, 0x00, 0x01];
    SumConcat(x, y);
    SumOfBytes(0x1E, 0x04, 0x00);
    SumOfBytes(0x00, 0x00, 0x01);
  }

  lemma SumOfBytes(a: byte, b: byte, c: byte)
    ensures Sum([a, b, c]) == a as nat + b as nat + c as nat
  {
    assert [a, b, c][1..] == [b, c] && [b, c][1..] == [c] && [c][1..] == [];
    assert Sum([c]) == c as nat + Sum([]) && Sum([b, c]) == b as nat + Sum([c]);
  }

  // An ASCII frame: a colon, two digits for each byte of address, PDU and LRC, carriage return and line feed.
  lemma AsciiFrameSent(slave: byte, pdu: seq<byte>)
    requires pdu != []
    ensures EncodeAsciiAdu(slave, pdu).Ok?
    ensures var frame, lrc := EncodeAsciiAdu(slave, pdu).value, Lrc8([slave] + pdu);
            var raw := [slave] + pdu + [lrc];
            && Balances([slave] + pdu, lrc)
            && |frame| == 2 * |pdu| + 7
            && frame[0] == 58 && frame[|frame| - 2] == 13 && frame[|frame| - 1] == 10
            && forall i :: 0 <= i < |raw| ==>
                 IsDigitFor(frame[1 + 2 * i], raw[i] as int / 16) && IsDigitFor(frame[2 + 2 * i], raw[i] as int % 16)
  {
    var lrc := Lrc8([slave] + pdu);
    var raw := [slave] + pdu + [lrc];
    var frame := EncodeAsciiAdu(slave, pdu).value;
    assert frame == [58] + Hex(raw) + [13, 10];
    forall i | 0 <= i < |raw|
      ensures IsDigitFor(frame[1 + 2 * i], raw[i] as int / 16) && IsDigitFor(frame[2 + 2 * i], raw[i] as int % 16)
    {
      HexDigits(raw, i);
      assert frame[1 + 2 * i] == Hex(raw)[2 * i] && frame[2 + 2 * i] == Hex(raw)[2 * i + 1];
    }
  }

  // ----- How long an RTU frame is, by its first bytes -----

  // How many bytes the frame of a reply has in all, once its head tells.
  function ReplyLength(s: seq<byte>): Option<nat> {
    if |s| < 2 then None
    else
      var fc := s[1];
      if fc >= 128 then Some(5)
      else if fc in {5, 6, 8, 15, 16} then Some(8)
      else if fc == 22 then Some(10)
      else if fc in {1, 2, 3, 4, 23} && |s| >= 3 && s[2] <= 250 then Some(5 + s[2] as int)
      else None
  }

  function RequestLength(s: seq<byte>): Option<nat> {
    if |s| < 2 then None
    else
      var fc := s[1];
      if fc in {1, 2, 3, 4, 5, 6, 8} then Some(8)
      else if fc == 22 then Some(10)
      else if fc in {15, 16} && |s| >= 7 && s[6] <= 250 then Some(9 + s[6] as int)
      else if fc == 23 && |s| >= 11 && s[10] <= 250 then Some(13 + s[10] as int)
      else None
  }

  // A frame of known length is cut out there: accepted exactly if its check agrees.
  predicate CutAt(parsed: Parsed, s: seq<byte>, length: nat)
    requires length >= 4
  {
    if |s| < length then parsed == Partial(length)
    else if Crc16(s[..length]) == 0 then parsed == Framed(s[0], s[1..length - 2], length)
    else parsed == Rejected(CrcError, length)
  }

  lemma ReplyCutOut(s: seq<byte>)
    ensures ReplyLength(s).Some? ==> CutAt(ParseReply(s), s, ReplyLength(s).value)
    ensures ReplyLength(s).None? ==>
              ParseReply(s) == if |s| < 2 then Partial(2)
                               else if s[1] == 0 then Rejected(ProtocolError, 2)
                               else if s[1] !in {1, 2, 3, 4, 23} then Unframed
                               else if |s| < 3 then Partial(3) else Rejected(FrameError, 3)
  {}

  lemma RequestCutOut(s: seq<byte>)
    ensures RequestLength(s).Some? ==> CutAt(ParseRequest(s), s, RequestLength(s).value)
    ensures RequestLength(s).None? ==>
              ParseRequest(s) == if |s| < 2 then Partial(2)
                                 else if s[1] in {15, 16} then if |s| < 7 then Partial(7) else Rejected(FrameError, 7)
                                 else if s[1] == 23 then if |s| < 11 then Partial(11) else Rejected(FrameError, 11)
                                 else Unframed
  {}

  // A burst whose length its head does not tell is judged whole.
  lemma BurstJudgement(frame: seq<byte>)
    ensures JudgeBurst(frame)
            == if |frame| < 4 then Err(FrameError)
               else if Crc16(frame) != 0 then Err(CrcError)
               else Ok((frame[0], frame[1..|frame| - 2]))
  {}

  // ----- How much an ASCII reader takes -----

  // 510 digits are the most a frame may have: one more is refused where it stands.
  lemma AsciiCap(digits: seq<byte>, rest: seq<byte>)
    requires AllHex(digits) && |digits| == 511
    ensures ParseAscii([58] + digits + rest) == Unusable(512)
  {
    var s := digits + rest;
    assert ([58] + digits + rest)[1..] == s;
    CapReached(s, 0);
  }

  lemma {:induction false} CapReached(s: seq<byte>, digits: nat)
    requires digits <= 510 < |s| && AllHex(s[..511])
    ensures ScanBody(s, digits) == Malformed(511)
    decreases 510 - digits
  {
    assert IsHex(s[..511][digits]);
    if digits < 510 {
      CapReached(s, digits + 1);
    }
  }

  // Fewer than three bytes between colon and line end are no frame.
  lemma AsciiTooShort(digits: seq<byte>, rest: seq<byte>)
    requires AllHex(digits) && |digits| <= 5
    ensures ParseAscii([58] + digits + [13, 10] + rest) == Unusable(|digits| + 3)
  {
    var s := digits + [13, 10] + rest;
    assert ([58] + digits + [13, 10] + rest)[1..] == s;
    ShortBody(s, 0, |digits|);
    assert s[..|digits|] == digits;
  }

  lemma {:induction false} ShortBody(s: seq<byte>, digits: nat, end: nat)
    requires digits <= end <= 510 && end + 1 < |s| && AllHex(s[..end]) && s[end] == 13 && s[end + 1] == 10
    ensures ScanBody(s, digits) == Whole(end)
    decreases end - digits
  {
    if digits < end {
      assert IsHex(s[..end][digits]);
      ShortBody(s, digits + 1, end);
    }
  }

  // A body cut short never verifies: an empty one has no check.
  lemma TooShortToVerify(frame: seq<byte>)
    ensures VerifyCrc(frame) <==> |frame| >= 3 && Crc16(frame) == 0
    ensures VerifyLrc(frame) <==> |frame| >= 2 && Sum(frame) % 256 == 0
  {}
}

// The framing seam (src/anymodbus/framing.py), and the agreement of the RTU
// length tables with what the PDU encoders produce.
module Framing {
  import opened Bits
  import opened Errors
  import opened Coils
  import opened Crc
  import opened Pdu
  import opened PduProofs
  import opened RtuFramer
  import AsciiFramer
  import Lrc

  datatype Framing = Rtu | Ascii

  function Encode(framing: Framing, slave: int, pdu: seq<byte>): Result<seq<byte>> {
    match framing
    case Rtu => EncodeAdu(slave, pdu)
    case Ascii => AsciiFramer.EncodeAsciiAdu(slave, pdu)
  }

  // `interpret_response_pdu`. A one-byte exception PDU escapes as a Python IndexError.
  function Interpret(pdu: seq<byte>, expectedFc: byte): Result<seq<byte>>
    requires pdu != []
  {
    if pdu[0] == 0 then Err(ProtocolError)
    else if pdu[0] >= 0x80 then
      if pdu[0] - 0x80 != expectedFc then Err(UnexpectedResponse)
      else if |pdu| < 2 then Err(Unhandled)
      else Err(ExceptionResponse(pdu[0] - 0x80, pdu[1]))
    else if pdu[0] != expectedFc then Err(UnexpectedResponse)
    else Ok(pdu)
  }

  // ----- Lengths -----

  // A request whose length is what the request tables say for its first bytes.
  predicate FitsRequestTable(pdu: seq<byte>) {
    pdu != []
    && if RequestFixedTail(pdu[0]).Some? then RequestFixedTail(pdu[0]).value == |pdu| + 1
       else if RequestPrefix(pdu[0]).Some? then
         var at := RequestPrefix(pdu[0]).value + 1;
         at < |pdu| && pdu[at] <= MAX_BYTE_COUNT && |pdu| == at + 1 + pdu[at] as int
       else false
  }

  predicate FitsReplyTable(pdu: seq<byte>) {
    pdu != [] && pdu[0] != 0
    && if pdu[0] >= 0x80 then |pdu| == 2
       else if HasByteCount(pdu[0]) then |pdu| >= 2 && pdu[1] <= MAX_BYTE_COUNT && |pdu| == 2 + pdu[1] as int
       else FixedTail(pdu[0]).Some? && FixedTail(pdu[0]).value == |pdu| + 1
  }

  lemma LegalRequestsFit(call: Call)
    requires call.Legal()
    ensures EncodeRequest(call).Ok? && FitsRequestTable(EncodeRequest(call).value) && |EncodeRequest(call).value| <= 253
  {
    match call
    case WriteCoils(address, coils) => WriteMultipleRead(WRITE_MULTIPLE_COILS, address, |coils|, PackBits(coils));
    case WriteRegisters(address, registers) =>
      WriteMultipleRead(WRITE_MULTIPLE_REGISTERS, address, |registers|, WordsBytes(registers));
    case _ =>
  }

  lemma LegalRepliesFit(reply: Reply)
    requires LegalReply(reply)
    ensures EncodeReply(reply).Ok? && FitsReplyTable(EncodeReply(reply).value) && |EncodeReply(reply).value| <= 253
  {}

  lemma ExceptionsFit(fc: int, code: int)
    requires EncodeException(fc, code).Ok?
    ensures FitsReplyTable(EncodeException(fc, code).value)
  {}

  lemma EncodedAdu(slave: byte, pdu: seq<byte>, rest: seq<byte>)
    requires pdu != []
    ensures var adu := EncodeAdu(slave, pdu).value;
            var s := adu + rest;
            && |adu| == |pdu| + 3 && s[0] == slave
            && (forall i :: 0 <= i < |pdu| ==> s[i + 1] == pdu[i])
            && Complete(s, |adu|) == Framed(slave, pdu, |adu|)
            && s[|adu|..] == rest
  {
    var adu := EncodeAdu(slave, pdu).value;
    AppendedCrcVerifies([slave] + pdu);
    assert (adu + rest)[..|adu|] == adu;
    assert (adu + rest)[1..|adu| - 2] == pdu;
  }

  // Every frame whose PDU fits the tables reads back as itself, the rest of the line untouched.
  lemma ReadBackRequest(slave: byte, pdu: seq<byte>, rest: seq<byte>)
    requires FitsRequestTable(pdu)
    ensures EncodeAdu(slave, pdu).Ok?
    ensures ParseRequest(EncodeAdu(slave, pdu).value + rest) == Framed(slave, pdu, |pdu| + 3)
    ensures (EncodeAdu(slave, pdu).value + rest)[|pdu| + 3..] == rest
  {
    EncodedAdu(slave, pdu, rest);
    var s := EncodeAdu(slave, pdu).value + rest;
    assert s[1] == pdu[0];
    if RequestPrefix(pdu[0]).Some? {
      var at := RequestPrefix(pdu[0]).value + 1;
      assert s[at + 1] == pdu[at];
    }
  }

  lemma ReadBackReply(slave: byte, pdu: seq<byte>, rest: seq<byte>)
    requires FitsReplyTable(pdu)
    ensures EncodeAdu(slave, pdu).Ok?
    ensures ParseReply(EncodeAdu(slave, pdu).value + rest) == Framed(slave, pdu, |pdu| + 3)
    ensures (EncodeAdu(slave, pdu).value + rest)[|pdu| + 3..] == rest
  {
    EncodedAdu(slave, pdu, rest);
    var s := EncodeAdu(slave, pdu).value + rest;
    assert s[1] == pdu[0];
    assert |pdu| > 1 ==> s[2] == pdu[1];
  }

  // A frame tells what was encoded.
  lemma EncodeInjective(framing: Framing, slave: byte, p: seq<byte>, q: seq<byte>)
    requires p != [] && q != [] && Encode(framing, slave, p).Ok?
             && Encode(framing, slave, p) == Encode(framing, slave, q)
    ensures p == q
  {
    var sent := Encode(framing, slave, p).value;
    match framing
    case Rtu =>
      assert p == sent[1..|sent| - 2] == q;
    case Ascii =>
      var x, y := [slave] + p + [Lrc.Lrc8([slave] + p)], [slave] + q + [Lrc.Lrc8([slave] + q)];
      assert AsciiFramer.Hex(x) == sent[1..|sent| - 2] == AsciiFramer.Hex(y);
      AsciiFramer.HexRoundTrip(x);
      AsciiFramer.HexRoundTrip(y);
      assert p == x[1..|x| - 1] == q;
  }

  // A reply whose function code alone is damaged into one without a length: refused, once its burst is read.
  lemma DamagedFunctionCode(slave: byte, pdu: seq<byte>, fc: byte, rest: seq<byte>)
    requires 1 <= |pdu| <= 253 && fc != pdu[0] && fc != 0 && !KnownReply(fc)
    ensures var damaged := EncodeAdu(slave, pdu).value[1 := fc];
            ParseReply(damaged + rest) == Unframed && 4 <= |damaged| <= 256 && JudgeBurst(damaged) == Err(CrcError)
  {
    var adu := EncodeAdu(slave, pdu).value;
    AppendedCrcVerifies([slave] + pdu);
    ByteChangeDetected(adu, 1, fc);
  }

  // ----- Whole lines of frames -----

  // The line after sending these PDUs, each to its slave.
  function Frames(framing: Framing, sent: seq<(byte, seq<byte>)>): (r: seq<byte>) {
    if sent == [] then []
    else if sent[0].1 == [] then Frames(framing, sent[1..])
    else Encode(framing, sent[0].0, sent[0].1).value + Frames(framing, sent[1..])
  }

  // What a server reads off a line until something cannot be framed.
  function ReadRequests(framing: Framing, s: seq<byte>): seq<(byte, seq<byte>)>
    decreases |s|
  {
    match framing
    case Rtu =>
      (match ParseRequest(s)
       case Framed(slave, pdu, used) =>
         if 0 < used <= |s| then [(slave, pdu)] + ReadRequests(framing, s[used..]) else []
       case _ => [])
    case Ascii =>
      match AsciiFramer.ParseAsciiRequest(s)
      case Reply(slave, pdu, used) => if 0 < used <= |s| then [(slave, pdu)] + ReadRequests(framing, s[used..]) else []
      case _ => []
  }

  // What a client waiting for `slave` reads off a line until something is not its reply.
  function ReadReplies(framing: Framing, slave: byte, s: seq<byte>): seq<seq<byte>>
    decreases |s|
  {
    match framing
    case Rtu =>
      (match ParseReply(s)
       case Framed(from, pdu, used) =>
         if from == slave && 0 < used <= |s| then [pdu] + ReadReplies(framing, slave, s[used..]) else []
       case _ => [])
    case Ascii =>
      match AsciiFramer.ParseAsciiReply(s, slave)
      case Reply(_, pdu, used) => if 0 < used <= |s| then [pdu] + ReadReplies(framing, slave, s[used..]) else []
      case _ => []
  }

  // One encoded request reads back, in either framing, and reading goes on right after it.
  lemma ReadFirstRequest(framing: Framing, slave: byte, pdu: seq<byte>, rest: seq<byte>)
    requires FitsRequestTable(pdu) && |pdu| <= 253
    ensures Encode(framing, slave, pdu).Ok?
    ensures ReadRequests(framing, Encode(framing, slave, pdu).value + rest)
            == [(slave, pdu)] + ReadRequests(framing, rest)
  {
    match framing
    case Rtu => ReadBackRequest(slave, pdu, rest);
    case Ascii =>
      var adu := AsciiFramer.EncodeAsciiAdu(slave, pdu).value;
      AsciiFramer.ReadBackAtOnce(slave, pdu, rest);
      assert (adu + rest)[|adu|..] == rest;
  }

  // Any concatenation of encoded requests reads back as the same list.
  lemma {:induction false} ReadBackRequests(framing: Framing, sent: seq<(byte, seq<byte>)>)
    requires forall i :: 0 <= i < |sent| ==> FitsRequestTable(sent[i].1) && |sent[i].1| <= 253
    ensures ReadRequests(framing, Frames(framing, sent)) == sent
  {
    if sent == [] {
      match framing
      case Rtu =>
      case Ascii => assert AsciiFramer.Leading([]) == 0;
    } else {
      ReadBackRequests(framing, sent[1..]);
      ReadFirstRequest(framing, sent[0].0, sent[0].1, Frames(framing, sent[1..]));
    }
  }

  function Replies(slave: byte, pdus: seq<seq<byte>>): (r: seq<(byte, seq<byte>)>)
    ensures |r| == |pdus|
  {
    seq(|pdus|, i requires 0 <= i < |pdus| => (slave, pdus[i]))
  }

  lemma ReadFirstReply(framing: Framing, slave: byte, pdu: seq<byte>, rest: seq<byte>)
    requires FitsReplyTable(pdu) && |pdu| <= 253
    ensures Encode(framing, slave, pdu).Ok?
    ensures ReadReplies(framing, slave, Encode(framing, slave, pdu).value + rest)
            == [pdu] + ReadReplies(framing, slave, rest)
  {
    match framing
    case Rtu => ReadBackReply(slave, pdu, rest);
    case Ascii =>
      var adu := AsciiFramer.EncodeAsciiAdu(slave, pdu).value;
      AsciiFramer.ReadBackAtOnce(slave, pdu, rest);
      assert (adu + rest)[|adu|..] == rest;
  }

  // Any concatenation of the replies and exceptions one slave encodes reads back as the same list.
  lemma {:induction false} ReadBackReplies(framing: Framing, slave: byte, pdus: seq<seq<byte>>)
    requires forall i :: 0 <= i < |pdus| ==> FitsReplyTable(pdus[i]) && |pdus[i]| <= 253
    ensures ReadReplies(framing, slave, Frames(framing, Replies(slave, pdus))) == pdus
    decreases |pdus|
  {
    assert pdus != [] ==> pdus[0] != [];
    hide ReadReplies, Encode, FitsReplyTable;
    if pdus == [] {
      NothingToRead(framing, slave);
    } else {
      ReadBackReplies(framing, slave, pdus[1..]);
      assert Replies(slave, pdus)[1..] == Replies(slave, pdus[1..]);
      ReadFirstReply(framing, slave, pdus[0], Frames(framing, Replies(slave, pdus[1..])));
    }
  }

  lemma NothingToRead(framing: Framing, slave: byte)
    ensures ReadReplies(framing, slave, []) == []
  {
    assert AsciiFramer.Leading([]) == 0;
  }
}

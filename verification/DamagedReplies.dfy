// What a damaged reply is to the client (src/anymodbus/framer.py, src/anymodbus/crc.py): while the bytes that
// give its length arrive whole, the damage is noticed and the frame is consumed exactly, nothing of the next one.
module DamagedReplies {
  import opened Bits
  import opened Errors
  import opened Crc
  import opened DoubleErrors
  import opened Framing
  import opened RtuFramer
  import opened Timing
  import opened Replies

  // Damage the check notices: it lies within 16 bits, or its bits are odd in number, or they are two.
  ghost predicate Noticed(error: seq<byte>) {
    || OddCount(BitsOf(error))
    || (exists i, j :: TwoFlips(error, i, j))
    || (exists start: nat, i: nat :: IsBurst(error, start, i))
  }

  ghost predicate IsBurst(error: seq<byte>, start: nat, i: nat) {
    && i < 8 * |error| && BitsOf(error)[i]
    && forall k :: 0 <= k < 8 * |error| && BitsOf(error)[k] ==> start <= k < start + 16
  }

  lemma NoticedFails(frame: seq<byte>, error: seq<byte>)
    requires VerifyCrc(frame) && |error| == |frame| <= 4095 && Noticed(error)
    ensures !VerifyCrc(FlipBits(frame, error))
  {
    hide VerifyCrc, FlipBits, TwoFlips, OddCount;
    if OddCount(BitsOf(error)) {
      OddErrorDetected(frame, error);
    } else if i, j :| TwoFlips(error, i, j) {
      TwoFlipsDetected(frame, error, i, j);
    } else {
      var start: nat, i: nat :| IsBurst(error, start, i);
      BurstDetected(frame, error, start);
    }
  }

  lemma {:induction false} Unflipped(x: seq<byte>, error: seq<byte>, i: nat)
    requires |x| == |error| && i < |x| && error[i] == 0
    ensures FlipBits(x, error)[i] == x[i]
  {
    XorSelf(x[0]);
    if i > 0 {
      Unflipped(x[1..], error[1..], i - 1);
    }
  }

  // The function code, and the byte count where there is one, are whole: they give the frame its length.
  predicate LengthWhole(pdu: seq<byte>, damaged: seq<byte>)
    requires pdu != []
  {
    |damaged| == |pdu| + 3 && damaged[1] == pdu[0] && (HasByteCount(pdu[0]) && |pdu| > 1 ==> damaged[2] == pdu[1])
  }

  // A reply frame changed anywhere else is still cut out exactly, and judged by its CRC alone.
  lemma CutOutExactly(pdu: seq<byte>, damaged: seq<byte>, rest: seq<byte>)
    requires FitsReplyTable(pdu) && LengthWhole(pdu, damaged)
    ensures ParseReply(damaged + rest)
            == if VerifyCrc(damaged) then Framed(damaged[0], damaged[1..|damaged| - 2], |damaged|)
               else Rejected(CrcError, |damaged|)
  {
    var s := damaged + rest;
    assert s[1] == pdu[0] && (|pdu| > 1 ==> s[2] == damaged[2]);
    assert s[..|damaged|] == damaged;
    assert s[1..|damaged| - 2] == damaged[1..|damaged| - 2];
    hide VerifyCrc;
  }

  // So noticed damage that spares the length makes a CRC error of exactly the frame, whatever follows it.
  lemma DamageRefused(slave: byte, pdu: seq<byte>, error: seq<byte>, rest: seq<byte>)
    requires FitsReplyTable(pdu) && |pdu| <= 253 && |error| == |pdu| + 3 && Noticed(error)
    requires error[1] == 0 && (HasByteCount(pdu[0]) ==> error[2] == 0)
    ensures EncodeAdu(slave, pdu).Ok?
    ensures var damaged := FlipBits(EncodeAdu(slave, pdu).value, error);
            LengthWhole(pdu, damaged) && ParseReply(damaged + rest) == Rejected(CrcError, |damaged|)
    ensures error[0] == 0 ==> FlipBits(EncodeAdu(slave, pdu).value, error)[0] == slave
  {
    var frame := EncodeAdu(slave, pdu).value;
    AppendedCrcVerifies([slave] + pdu);
    NoticedFails(frame, error);
    Unflipped(frame, error, 1);
    if error[0] == 0 {
      Unflipped(frame, error, 0);
    }
    if HasByteCount(pdu[0]) {
      Unflipped(frame, error, 2);
    }
    CutOutExactly(pdu, FlipBits(frame, error), rest);
  }

  lemma DamagedReply(incoming: seq<byte>, from: nat, to: nat, slave: byte, frame: Result<(byte, seq<byte>)>,
                     damaged: seq<byte>, rest: seq<byte>)
    requires ReplyRead(Rtu, incoming, from, to, slave, frame) && !CutOff(frame)
    requires damaged != [] && damaged[0] == slave && incoming[from..] == damaged + rest
    requires ParseReply(damaged + rest) == Rejected(CrcError, |damaged|)
    ensures frame == Err(CrcError) && to == from + |damaged|
  {
    hide VerifyCrc;
    assert incoming[from] == incoming[from..][0] == damaged[0];
    var cuts :| RtuReplyRead(incoming, from, to, slave, frame, cuts);
    hide ParseReply;
  }

  lemma DamagedEnd(incoming: seq<byte>, from: nat, slave: byte, damaged: seq<byte>, rest: seq<byte>)
    requires from <= |incoming| && damaged != [] && damaged[0] == slave && incoming[from..] == damaged + rest
    requires ParseReply(damaged + rest) == Rejected(CrcError, |damaged|)
    ensures ReplyEnd(Rtu, incoming, from, slave) == Some(from + |damaged|)
  {
    assert incoming[from] == incoming[from..][0] == damaged[0];
    hide ParseReply;
  }

  // An attempt whose reply is on the line but damaged so ends with a CRC error, unless it was cut short or the
  // frame was not there in time, and the next frame is there to read.
  lemma DamageConcludes<T>(wire: Wire, reading: Reading, slave: byte, fc: byte, decode: seq<byte> -> Result<T>,
                           r: Result<T>, pdu: seq<byte>, error: seq<byte>)
    requires Concludes(wire, reading, slave, fc, decode, r) && wire.framing.Rtu?
    requires 0.0 < wire.timeout && |wire.arrivesAt| == |wire.incoming|
    requires FitsReplyTable(pdu) && |pdu| <= 253 && |error| == |pdu| + 3 && Noticed(error)
    requires error[0] == 0 && error[1] == 0 && (HasByteCount(pdu[0]) ==> error[2] == 0)
    requires EncodeAdu(slave, pdu).Ok?
             && Carries(wire.incoming, reading.from, FlipBits(EncodeAdu(slave, pdu).value, error))
    ensures var end := reading.from + |error|;
            || CutShort(r)
            || (r == Err(FrameTimeout) && GaveUp(wire, reading, end))
            || (r == Err(CrcError) && reading.to == end)
  {
    hide *;
    FrameLength(slave, pdu);
    var damaged := FlipBits(EncodeAdu(slave, pdu).value, error);
    Remaining(wire.incoming, reading.from, damaged);
    DamageRefused(slave, pdu, error, wire.incoming[reading.from + |damaged|..]);
    RefusedConcludes(wire, reading, slave, fc, decode, r, damaged, wire.incoming[reading.from + |damaged|..]);
  }

  lemma FrameLength(slave: byte, pdu: seq<byte>)
    requires FitsReplyTable(pdu)
    ensures EncodeAdu(slave, pdu).Ok? && |EncodeAdu(slave, pdu).value| == |pdu| + 3
  {}

  lemma Remaining(incoming: seq<byte>, from: nat, frame: seq<byte>)
    requires Carries(incoming, from, frame)
    ensures from + |frame| <= |incoming| && incoming[from..] == frame + incoming[from + |frame|..]
  {}

  lemma RefusedConcludes<T>(wire: Wire, reading: Reading, slave: byte, fc: byte, decode: seq<byte> -> Result<T>,
                            r: Result<T>, damaged: seq<byte>, rest: seq<byte>)
    requires Concludes(wire, reading, slave, fc, decode, r) && wire.framing.Rtu?
    requires 0.0 < wire.timeout && |wire.arrivesAt| == |wire.incoming|
    requires reading.from <= |wire.incoming| && wire.incoming[reading.from..] == damaged + rest
    requires damaged != [] && damaged[0] == slave && ParseReply(damaged + rest) == Rejected(CrcError, |damaged|)
    ensures var end := reading.from + |damaged|;
            || CutShort(r)
            || (r == Err(FrameTimeout) && GaveUp(wire, reading, end))
            || (r == Err(CrcError) && reading.to == end)
  {
    hide ParseReply, ReplyEnd;
    DamagedEnd(wire.incoming, reading.from, slave, damaged, rest);
    var frame :| FrameGives(wire, reading, slave, frame) && r == Reraised(Conclusion(frame, fc, decode));
    hide ReplyRead;
    if !CutOff(frame) {
      DamagedReply(wire.incoming, reading.from, reading.to, slave, frame, damaged, rest);
    }
  }
}

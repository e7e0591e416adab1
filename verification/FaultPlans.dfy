// Scripted faults of a mock slave (src/anymodbus/_mock/faults.py, src/anymodbus/_mock/slave.py): each names one
// response by its index among those the slave makes, and touches that one only.
module FaultPlans {
  import opened Bits
  import opened Errors
  import opened Crc
  import opened Lrc
  import opened Pdu
  import opened Framing
  import opened AsciiFramer
  import opened RegisterBanks

  // The frame of a response without drops or corruption.
  function Whole(device: Device, pdu: seq<byte>): seq<byte>
    requires pdu != []
  {
    Encode(device.framing, if device.faults.wrongAddress.Some? then device.faults.wrongAddress.value
           else device.address, pdu).value
  }

  // Its lowest bit flipped.
  predicate LowBitFlipped(x: nat, y: nat) { x / 2 == y / 2 && x % 2 != y % 2 }

  // Dropped exactly when its index says so; otherwise sent whole, or with one bit of its checksum flipped - of the
  // first of two bytes in RTU, of the last digit in ASCII - and nothing else.
  lemma FaultsHit(device: Device, index: nat, pdu: seq<byte>)
    requires pdu != []
    ensures var sent, whole := SentFrame(device, index, pdu), Whole(device, pdu);
            && (sent.None? <==> device.faults.dropAfter == Some(index))
            && (sent.Some? && device.faults.corruptAfter != Some(index) ==> sent.value == whole)
            && (sent.Some? && device.faults.corruptAfter == Some(index) ==>
                  var hit := |whole| - if device.framing.Rtu? then 2 else 3;
                  && |sent.value| == |whole| && 0 <= hit
                  && (forall i :: 0 <= i < |whole| && i != hit ==> sent.value[i] == whole[i])
                  && if device.framing.Rtu? then LowBitFlipped(sent.value[hit], whole[hit])
                     else IsHex(sent.value[hit]) && IsHex(whole[hit])
                          && LowBitFlipped(HexValue(sent.value[hit]), HexValue(whole[hit])))
  {
    var slave := if device.faults.wrongAddress.Some? then device.faults.wrongAddress.value else device.address;
    var body := [slave] + pdu;
    if device.framing.Rtu? {
      RtuHit(body);
    } else {
      AsciiHit(body);
    }
    hide CrcBytes, Lrc8, Wrap, Hex, IsHex, HexValue, FlipLowBit;
  }

  lemma RtuHit(body: seq<byte>)
    ensures var whole := body + CrcBytes(body);
            var sent := body + [FlipLowBit(CrcBytes(body)[0]), CrcBytes(body)[1]];
            && |sent| == |whole| && LowBitFlipped(sent[|body|], whole[|body|])
            && (forall i :: 0 <= i < |whole| && i != |body| ==> sent[i] == whole[i])
  {
    hide CrcBytes;
  }

  lemma AsciiHit(body: seq<byte>)
    ensures var lrc := Lrc8(body);
            var whole, sent := Wrap(body + [lrc]), Wrap(body + [FlipLowBit(lrc)]);
            var hit := |whole| - 3;
            && |sent| == |whole| && 0 <= hit
            && (forall i :: 0 <= i < |whole| && i != hit ==> sent[i] == whole[i])
            && IsHex(sent[hit]) && IsHex(whole[hit]) && LowBitFlipped(HexValue(sent[hit]), HexValue(whole[hit]))
  {
    var lrc := Lrc8(body);
    var other := FlipLowBit(lrc);
    assert other / 16 == lrc / 16 && LowBitFlipped(other % 16, lrc % 16);
    hide Lrc8, FlipLowBit;
    LastDigit(body, lrc, other);
    HexDigitValue(lrc % 16);
    HexDigitValue(other % 16);
  }

  lemma HexDigitValue(n: nat)
    requires n < 16
    ensures IsHex(HexDigit(n)) && HexValue(HexDigit(n)) == n
  {}

  lemma LastDigit(body: seq<byte>, x: byte, y: byte)
    requires x / 16 == y / 16
    ensures var whole, sent := Wrap(body + [x]), Wrap(body + [y]);
            var hit := |whole| - 3;
            && |sent| == |whole| && 0 <= hit && whole[hit] == HexDigit(x % 16) && sent[hit] == HexDigit(y % 16)
            && (forall i :: 0 <= i < |whole| && i != hit ==> sent[i] == whole[i])
  {
    HexConcat(body, [x]);
    HexConcat(body, [y]);
    assert [x][1..] == [] && [y][1..] == [];
    assert Hex([x]) == [HexDigit(x / 16), HexDigit(x % 16)] && Hex([y]) == [HexDigit(y / 16), HexDigit(y % 16)];
    hide Hex, HexDigit;
  }

  lemma {:induction false} HexConcat(x: seq<byte>, y: seq<byte>)
    ensures Hex(x + y) == Hex(x) + Hex(y)
  {
    if x == [] {
      assert x + y == y;
    } else {
      HexConcat(x[1..], y);
      assert (x + y)[1..] == x[1..] + y;
    }
  }

  // ----- Which response an index names -----

  // How many requests of a list a slave answers: those sent to it alone, but for function code 0.
  function AnsweredCount(requests: seq<(byte, seq<byte>)>, address: int): nat
    requires AllRequests(requests)
  {
    if requests == [] then 0
    else
      var (to, pdu) := requests[|requests| - 1];
      AnsweredCount(requests[..|requests| - 1], address)
      + if to as int == address && pdu[0] % 128 != 0 then 1 else 0
  }

  lemma AnsweredIff(device: Device, banks: Banks, pdu: seq<byte>)
    requires pdu != []
    ensures Respond(device, banks, pdu).0.None? <==> pdu[0] % 128 == 0
  {
    var fc := pdu[0];
    if fc % 128 == 0 {
      assert fc == 0 || fc == 128;
    }
    hide DecodeRequest, EncodeException;
  }

  lemma {:induction false} ResponsesCounted(line: Stations, requests: seq<(byte, seq<byte>)>, address: int)
    requires AllRequests(requests) && address in line && address != 0
    ensures Run(line, requests).0.Keys == line.Keys
    ensures var now := Run(line, requests).0[address];
            && now.emitted == line[address].emitted + AnsweredCount(requests, address)
            && now.device == line[address].device
    decreases |requests|
  {
    if requests != [] {
      var last := |requests| - 1;
      ResponsesCounted(line, requests[..last], address);
      var before := Run(line, requests[..last]).0;
      AnsweredIff(before[address].device, before[address].banks, requests[last].1);
      hide Respond, SentFrame;
    }
  }

  // In a run of requests a slave stays silent to those of other slaves, to broadcasts, to function code 0, and to the
  // one whose response its plan drops: the one that comes after so many it has answered before.
  lemma SilentExactly(line: Stations, requests: seq<(byte, seq<byte>)>, address: byte, pdu: seq<byte>)
    requires AllRequests(requests) && address as int in line && address != 0 && pdu != []
    ensures address as int in Run(line, requests).0
    ensures var now, slave := Run(line, requests).0, line[address as int];
            Step(now, address, pdu).1.None? <==>
              pdu[0] % 128 == 0
              || slave.device.faults.dropAfter == Some(slave.emitted + AnsweredCount(requests, address))
  {
    ResponsesCounted(line, requests, address);
    var now := Run(line, requests).0[address as int];
    AnsweredIff(now.device, now.banks, pdu);
    hide Respond, Run, AnsweredCount;
  }
}

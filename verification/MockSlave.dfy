// The mock slave (src/anymodbus/_mock/slave.py): coils packed into bytes and
// changed in place, proved against the plain arrays of `RegisterBanks`.
module MockSlaves {
  import opened Bits
  import opened Errors
  import opened Coils
  import opened Crc
  import opened Lrc
  import opened Line
  import opened Pdu
  import opened Framing
  import opened AsciiFramer
  import opened RegisterBanks

  // What one `send_response` added to what the stream was asked to send.
  ghost predicate Sent(before: seq<Sending>, after: seq<Sending>, frame: Option<seq<byte>>) {
    match frame
    case None => after == before
    case Some(data) => |after| == |before| + 1 && after[..|before|] == before && after[|before|].data == data
  }

  class MockSlave {
    const device: Device
    const coilCount: nat
    const discreteInputCount: nat
    const coils: array<byte>
    const discreteInputs: array<byte>
    var holdingRegisters: seq<word>
    var inputRegisters: seq<word>
    var responsesEmitted: nat

    ghost predicate Valid() {
      && 1 <= device.address <= 247 && device.limits.Valid()
      && coils != discreteInputs
      && coils.Length == BytesFor(coilCount) && discreteInputs.Length == BytesFor(discreteInputCount)
    }

    // The banks as plain arrays.
    ghost function Contents(): Banks
      requires Valid()
      reads `holdingRegisters, `inputRegisters, coils, discreteInputs
    {
      Banks(BitsOf(coils[..])[..coilCount], BitsOf(discreteInputs[..])[..discreteInputCount], holdingRegisters,
            inputRegisters)
    }

    // The unused bits of the last coil byte.
    ghost function Padding(): seq<bool>
      requires Valid()
      reads coils
    {
      BitsOf(coils[..])[coilCount..]
    }

    ghost function State(): Station
      requires Valid()
      reads this, coils, discreteInputs
    {
      Station(device, Contents(), responsesEmitted, Padding())
    }

    constructor (device: Device, registers: nat, coils: nat, discreteInputs: nat, inputs: nat)
      requires 1 <= device.address <= 247 && device.limits.Valid()
      ensures Valid() && fresh(this.coils) && fresh(this.discreteInputs)
      ensures this.device == device && responsesEmitted == 0
      ensures Contents() == Banks(Zeros(coils), Zeros(discreteInputs), seq(registers, _ => 0), seq(inputs, _ => 0))
      ensures Padding() == Zeros(|Padding()|)
    {
      this.device := device;
      coilCount, discreteInputCount := coils, discreteInputs;
      this.coils := new byte[(coils + 7) / 8](_ => 0);
      this.discreteInputs := new byte[(discreteInputs + 7) / 8](_ => 0);
      holdingRegisters, inputRegisters := seq(registers, _ => 0), seq(inputs, _ => 0);
      responsesEmitted := 0;
      new;
      BitsOfZeros(this.coils[..]);
      BitsOfZeros(this.discreteInputs[..]);
    }

    function ReadBits(request: Call, bank: array<byte>, size: nat): (r: Result<seq<bool>>)
      requires request.Read? && request.Legal() && bank.Length == BytesFor(size)
      reads bank
      ensures r.Ok? ==> request.count <= device.limits.readBits && request.address + request.count <= size
                        && r.value == BitsOf(bank[..])[request.address..request.address + request.count]
      ensures r.Err? ==>
                r.error == ServerException(if request.count > device.limits.readBits then ILLEGAL_DATA_VALUE
                                           else ILLEGAL_DATA_ADDRESS)
                         && (request.count > device.limits.readBits || request.address + request.count > size)
    {
      if request.count > device.limits.readBits then Err(ServerException(ILLEGAL_DATA_VALUE))
      else if request.address + request.count > size then Err(ServerException(ILLEGAL_DATA_ADDRESS))
      else
        BitsOfSlice(bank[..], request.address, request.count);
        Ok(BitsFrom(bank[..], request.address, request.count))
    }

    function ReadRegisters(request: Call, bank: seq<word>): (r: Result<seq<word>>)
      requires request.Read? && request.Legal()
      ensures r.Ok? ==> request.count <= device.limits.readRegisters && request.address + request.count <= |bank|
                        && r.value == bank[request.address..request.address + request.count]
      ensures r.Err? ==>
                r.error == ServerException(if request.count > device.limits.readRegisters then ILLEGAL_DATA_VALUE
                                           else ILLEGAL_DATA_ADDRESS)
                         && (request.count > device.limits.readRegisters || request.address + request.count > |bank|)
    {
      if request.count > device.limits.readRegisters then Err(ServerException(ILLEGAL_DATA_VALUE))
      else if request.address + request.count > |bank| then Err(ServerException(ILLEGAL_DATA_ADDRESS))
      else Ok(bank[request.address..request.address + request.count])
    }

    method SetCoilAt(address: nat, on: bool)
      requires Valid() && address < coilCount
      modifies coils
      ensures BitsOf(coils[..]) == old(BitsOf(coils[..]))[address := on]
    {
      BitsOfSetCoil(coils[..], address, on);
      ghost var before := coils[..];
      var at := address / 8;
      coils[at] := SetByteBit(coils[at], address % 8, on);
      assert coils[..] == SetCoil(before, address, on);
    }

    method HandleWriteSingleCoil(pdu: seq<byte>) returns (r: Result<seq<byte>>)
      requires Valid() && pdu != [] && pdu[0] == WRITE_SINGLE_COIL
      modifies coils
      ensures (r, Contents()) == Perform(device.limits, old(Contents()), DecodedRequest(pdu))
      ensures Padding() == old(Padding())
    {
      var request := DecodedRequest(pdu);
      if request.Err? {
        return Err(request.error);
      }
      if request.value.address >= coilCount {
        return Err(ServerException(ILLEGAL_DATA_ADDRESS));
      }
      OneOverwritten(BitsOf(coils[..]), coilCount, request.value.address, request.value.on);
      SetCoilAt(request.value.address, request.value.on);
      return EncodeReply(CoilWritten(request.value.address, request.value.on));
    }

    method HandleWriteSingleRegister(pdu: seq<byte>) returns (r: Result<seq<byte>>)
      requires Valid() && pdu != [] && pdu[0] == WRITE_SINGLE_REGISTER
      modifies this`holdingRegisters
      ensures Valid() && (r, Contents()) == Perform(device.limits, old(Contents()), DecodedRequest(pdu))
    {
      var request := DecodedRequest(pdu);
      if request.Err? {
        return Err(request.error);
      }
      if request.value.address >= |holdingRegisters| {
        return Err(ServerException(ILLEGAL_DATA_ADDRESS));
      }
      OneOverwritten<word>(holdingRegisters, |holdingRegisters|, request.value.address, request.value.value);
      assert holdingRegisters[..|holdingRegisters|] == holdingRegisters;
      holdingRegisters := holdingRegisters[request.value.address := request.value.value];
      assert holdingRegisters[..|holdingRegisters|] == holdingRegisters;
      return EncodeReply(RegisterWritten(request.value.address, request.value.value));
    }

    method HandleWriteMultipleCoils(pdu: seq<byte>) returns (r: Result<seq<byte>>)
      requires Valid() && pdu != [] && pdu[0] == WRITE_MULTIPLE_COILS
      modifies coils
      ensures (r, Contents()) == Perform(device.limits, old(Contents()), DecodedRequest(pdu))
      ensures Padding() == old(Padding())
    {
      var request := DecodedRequest(pdu);
      if request.Err? {
        return Err(request.error);
      }
      var address, values := request.value.address, request.value.coils;
      if |values| > device.limits.writeCoils {
        return Err(ServerException(ILLEGAL_DATA_VALUE));
      }
      if address + |values| > coilCount {
        return Err(ServerException(ILLEGAL_DATA_ADDRESS));
      }
      SetCoils(address, values);
      return EncodeReply(CoilsWritten(address, |values|));
    }

    // The loop of FC 0x0F: one coil after the other.
    method SetCoils(address: nat, values: seq<bool>)
      requires Valid() && address + |values| <= coilCount
      modifies coils
      ensures Contents() == old(Contents()).(coils := Overwrite(old(Contents().coils), address, values))
      ensures Padding() == old(Padding())
    {
      ghost var before := BitsOf(coils[..]);
      for i := 0 to |values|
        invariant BitsOf(coils[..]) == Overwrite(before, address, values[..i])
      {
        SetCoilAt(address + i, values[i]);
        assert BitsOf(coils[..]) == Overwrite(before, address, values[..i + 1]);
      }
      assert values[..|values|] == values;
    }

    method HandleWriteMultipleRegisters(pdu: seq<byte>) returns (r: Result<seq<byte>>)
      requires Valid() && pdu != [] && pdu[0] == WRITE_MULTIPLE_REGISTERS
      modifies this`holdingRegisters
      ensures Valid() && (r, Contents()) == Perform(device.limits, old(Contents()), DecodedRequest(pdu))
    {
      var request := DecodedRequest(pdu);
      if request.Err? {
        return Err(request.error);
      }
      var address, values := request.value.address, request.value.registers;
      if |values| > device.limits.writeRegisters {
        return Err(ServerException(ILLEGAL_DATA_VALUE));
      }
      if address + |values| > |holdingRegisters| {
        return Err(ServerException(ILLEGAL_DATA_ADDRESS));
      }
      holdingRegisters := holdingRegisters[..address] + values + holdingRegisters[address + |values|..];
      return EncodeReply(RegistersWritten(address, |values|));
    }

    // FC 0x01 to 0x04 and the loopback: nothing changes.
    method HandleRead(pdu: seq<byte>) returns (r: Result<seq<byte>>)
      requires Valid() && pdu != [] && (1 <= pdu[0] <= 4 || pdu[0] == DIAGNOSTICS)
      ensures (r, Contents()) == Perform(device.limits, Contents(), DecodedRequest(pdu))
    {
      var request := DecodedRequest(pdu);
      if request.Err? {
        return Err(request.error);
      }
      if request.value.Loopback? {
        return EncodeReply(LoopedBack(request.value.data));
      }
      var table := request.value.table;
      if table.OfBits() {
        var bits := if table.CoilTable? then ReadBits(request.value, coils, coilCount)
                    else ReadBits(request.value, discreteInputs, discreteInputCount);
        if bits.Err? {
          return Err(bits.error);
        }
        PrefixSlice(BitsOf(if table.CoilTable? then coils[..] else discreteInputs[..]), |Contents().BitsOfTable(table)|,
                    request.value.address, request.value.count);
        return EncodeReply(BitsRead(table, bits.value));
      }
      var bank := if table.HoldingTable? then holdingRegisters else inputRegisters;
      var words := ReadRegisters(request.value, bank);
      if words.Err? {
        return Err(words.error);
      }
      return EncodeReply(WordsRead(table, words.value));
    }

    // `handle`: every request does to the banks exactly what it does to plain arrays.
    method HandleRequest(pdu: seq<byte>) returns (r: Result<seq<byte>>)
      requires Valid() && pdu != []
      modifies coils, this`holdingRegisters
      ensures Valid() && (r, Contents()) == Handle(device, old(Contents()), pdu)
      ensures Padding() == old(Padding())
    {
      if pdu[0] in device.disabled || !Implemented(pdu[0]) || OtherDiagnostic(pdu) {
        return Err(ServerException(ILLEGAL_FUNCTION));
      }
      if pdu[0] == WRITE_SINGLE_COIL {
        r := HandleWriteSingleCoil(pdu);
      } else if pdu[0] == WRITE_SINGLE_REGISTER {
        r := HandleWriteSingleRegister(pdu);
      } else if pdu[0] == WRITE_MULTIPLE_COILS {
        r := HandleWriteMultipleCoils(pdu);
      } else if pdu[0] == WRITE_MULTIPLE_REGISTERS {
        r := HandleWriteMultipleRegisters(pdu);
      } else {
        r := HandleRead(pdu);
      }
    }

    // `send_response`: counted whether it goes out or not.
    method SendResponse(stream: ByteStream, pdu: seq<byte>) returns (r: Result<()>)
      requires Valid() && stream.Valid() && pdu != []
      modifies this`responsesEmitted, stream`now, stream`sends
      ensures Valid() && stream.Valid() && responsesEmitted == old(responsesEmitted) + 1
      ensures Sent(old(stream.sends), stream.sends, SentFrame(device, old(responsesEmitted), pdu))
              || (r == Err(Cancelled) && stream.sends == old(stream.sends))
      ensures |stream.sends| > |old(stream.sends)| ==>
                old(stream.now) + device.faults.delay <= stream.sends[|stream.sends| - 1].at
      ensures r.Err? ==> r.error.Stream? || r.error.Cancelled?
    {
      var index := responsesEmitted;
      responsesEmitted := responsesEmitted + 1;
      var frame := SentFrame(device, index, pdu);
      if frame.None? {
        return Ok(());
      }
      if device.faults.delay > 0.0 {
        r := stream.Sleep(device.faults.delay);
        if r.Err? {
          return;
        }
      }
      r := stream.Send(frame.value);
    }
  }

  function DecodedRequest(pdu: seq<byte>): (r: Result<Call>)
    requires pdu != []
    ensures r.Ok? ==> r.value.Legal() && r.value.Fc() == pdu[0]
  {
    DecodedIsLegal(pdu);
    DecodeRequest(pdu)
  }

  function BitsFrom(bank: seq<byte>, address: nat, count: nat): seq<bool>
    requires address + count <= 8 * |bank|
  {
    seq(count, i requires 0 <= i < count => BankBit(bank, address + i))
  }

  predicate BankBit(bank: seq<byte>, k: nat)
    requires k < 8 * |bank|
  {
    BitAt(bank[k / 8], k % 8)
  }

  lemma BankBitIsCoil(bank: seq<byte>, k: nat)
    requires k < 8 * |bank|
    ensures BitsOf(bank)[k] == BankBit(bank, k)
  {
    BitsOfAt(bank, k);
    LowBitsAt(bank[k / 8], 8, k % 8);
  }

  lemma SliceOfBank(bank: seq<byte>, all: seq<bool>, address: nat, count: nat)
    requires address + count <= |all| == 8 * |bank|
    requires forall k :: 0 <= k < |all| ==> all[k] == BankBit(bank, k)
    ensures BitsFrom(bank, address, count) == all[address..address + count]
  {}

  lemma BitsOfSlice(bank: seq<byte>, address: nat, count: nat)
    requires address + count <= 8 * |bank|
    ensures BitsFrom(bank, address, count) == BitsOf(bank)[address..address + count]
  {
    var all := BitsOf(bank);
    forall k | 0 <= k < |all|
      ensures all[k] == BankBit(bank, k)
    {
      BankBitIsCoil(bank, k);
    }
    SliceOfBank(bank, all, address, count);
  }

  lemma PrefixSlice<T>(all: seq<T>, size: nat, from: nat, count: nat)
    requires from + count <= size <= |all|
    ensures all[..size][from..from + count] == all[from..from + count]
  {}

  lemma OneOverwritten<T>(all: seq<T>, size: nat, at: nat, value: T)
    requires at < size <= |all|
    ensures all[at := value][..size] == Overwrite(all[..size], at, [value])
    ensures all[at := value][size..] == all[size..]
  {}

  // A response corrupted on purpose is refused by the client, in either framing.
  lemma CorruptedRefused(device: Device, index: nat, pdu: seq<byte>, rest: seq<byte>)
    requires FitsReplyTable(pdu) && |pdu| <= 253
    requires device.faults == FaultPlan(Some(index), device.faults.delay, None, None)
    ensures var frame := SentFrame(device, index, pdu);
            frame.Some? &&
            match device.framing
            case Rtu => RtuFramer.ParseReply(frame.value + rest) == RtuFramer.Rejected(CrcError, |frame.value|)
            case Ascii => ParseAsciiReply(frame.value + rest, device.address) == Refused(LrcError, |frame.value|)
  {
    match device.framing
    case Rtu => CorruptedCrc(device.address, pdu, rest);
    case Ascii => CorruptedLrc(device.address, pdu, rest);
  }

  lemma LastReplaced(body: seq<byte>, last: byte, changed: byte)
    ensures (body + [last])[|body| := changed] == body + [changed]
  {}

  lemma CorruptedLrc(slave: byte, pdu: seq<byte>, rest: seq<byte>)
    requires 1 <= |pdu| <= 253
    ensures var body := [slave] + pdu;
            var frame := Wrap(body + [FlipLowBit(Lrc8(body))]);
            ParseAsciiReply(frame + rest, slave) == Refused(LrcError, |frame|)
  {
    hide ParseAsciiReply, Wrap, Lrc8;
    var lrc := Lrc8([slave] + pdu);
    LastReplaced([slave] + pdu, lrc, FlipLowBit(lrc));
    ChangedByteRefused([], slave, pdu, |pdu| + 1, FlipLowBit(lrc), rest);
    NothingBefore(Wrap([slave] + pdu + [FlipLowBit(lrc)]), rest);
  }

  lemma CorruptedCrc(slave: byte, pdu: seq<byte>, rest: seq<byte>)
    requires FitsReplyTable(pdu)
    ensures var body := [slave] + pdu;
            var frame := body + [FlipLowBit(CrcBytes(body)[0]), CrcBytes(body)[1]];
            RtuFramer.ParseReply(frame + rest) == RtuFramer.Rejected(CrcError, |frame|)
  {
    var body := [slave] + pdu;
    var crc := CrcBytes(body);
    var frame := body + [FlipLowBit(crc[0]), crc[1]];
    ResidueIffCrcBytes(body, FlipLowBit(crc[0]), crc[1]);
    assert [FlipLowBit(crc[0]), crc[1]][0] != crc[0];
    var s := frame + rest;
    assert s[..|frame|] == frame;
    assert s[1] == pdu[0] && (|pdu| > 1 ==> s[2] == pdu[1]);
  }
}

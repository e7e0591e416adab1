// What a run of calls on plain arrays comes to (src/anymodbus/slave.py against src/anymodbus/_mock/slave.py): a read
// returns, cell by cell, what the last accepted write put there.
module LastWrites {
  import opened Bits
  import opened Errors
  import opened Pdu
  import opened Framing
  import opened RegisterBanks
  import opened WireFormat
  import opened ServedRequests
  import opened EndToEnd

  // ----- One call -----

  function CodeOf(call: Call): byte {
    match call
    case Read(table, _, _) => ReadCode(table)
    case WriteCoil(_, _) => 5
    case WriteRegister(_, _) => 6
    case WriteCoils(_, _) => 15
    case WriteRegisters(_, _) => 16
    case Loopback(_) => 8
  }

  // The exception code that answers a call, if one does.
  function Refused(station: Station, call: Call): Option<byte> {
    if CodeOf(call) in station.device.disabled then Some(1)
    else Refusing(station.device.limits, station.banks, call)
  }

  // The plain answer, bank by bank.
  lemma AnswerMeans(station: Station, call: Call)
    requires call.Legal() && station.device.limits.Valid()
    ensures var r, banks := PlainAnswer(station, call), station.banks;
            match Refused(station, call)
            case Some(code) => r == Err(ExceptionResponse(CodeOf(call), code))
            case None =>
              match call
              case Read(CoilTable, a, n) => a + n <= |banks.coils| && r == Ok(Bits(banks.coils[a..a + n]))
              case Read(DiscreteTable, a, n) => a + n <= |banks.discrete| && r == Ok(Bits(banks.discrete[a..a + n]))
              case Read(HoldingTable, a, n) => a + n <= |banks.holding| && r == Ok(Words(banks.holding[a..a + n]))
              case Read(InputTable, a, n) => a + n <= |banks.inputs| && r == Ok(Words(banks.inputs[a..a + n]))
              case Loopback(data) => r == Ok(Echo(data))
              case _ => r == Ok(Done)
  {
    RefusingIs(station.device.limits, station.banks, call);
  }

  // What a write puts into coil i, or into holding register i.
  function CoilPut(call: Call, i: nat): Option<bool> {
    match call
    case WriteCoil(a, on) => if i == a then Some(on) else None
    case WriteCoils(a, bits) => if a <= i < a + |bits| then Some(bits[i - a]) else None
    case _ => None
  }

  function RegisterPut(call: Call, i: nat): Option<int> {
    match call
    case WriteRegister(a, v) => if i == a then Some(v) else None
    case WriteRegisters(a, words) => if a <= i < a + |words| then Some(words[i - a]) else None
    case _ => None
  }

  // One cell after one call: what an accepted write puts there, or what was there.
  lemma OneStep(station: Station, call: Call, i: nat)
    requires call.Legal() && station.device.limits.Valid()
    ensures var after, done := PlainAfter(station, call).banks, PlainAnswer(station, call) == Ok(Done);
            && after.discrete == station.banks.discrete && after.inputs == station.banks.inputs
            && |after.coils| == |station.banks.coils| && |after.holding| == |station.banks.holding|
            && (i < |after.coils| ==>
                  after.coils[i]
                  == if done && CoilPut(call, i).Some? then CoilPut(call, i).value else station.banks.coils[i])
            && (i < |after.holding| ==>
                  after.holding[i] as int
                  == if done && RegisterPut(call, i).Some? then RegisterPut(call, i).value
                     else station.banks.holding[i])
  {
    AnswerMeans(station, call);
    RefusingIs(station.device.limits, station.banks, call);
    if Refusal(station, call).None? {
      WritesExactlyTheSlice(station.device.limits, station.banks, call);
    }
  }

  // ----- A run of calls -----

  // Of all the calls of a run, the last accepted one that put something into this cell.
  predicate LastPut<T(==)>(calls: seq<Request>, answers: seq<Result<Answer>>, slave: int, put: Call -> Option<T>,
                           before: T, after: T, j: int)
    requires |answers| == |calls|
  {
    && -1 <= j < |calls|
    && (if j < 0 then after == before
        else calls[j].0 as int == slave && answers[j] == Ok(Done) && put(calls[j].1) == Some(after))
    && forall k :: j < k < |calls| && calls[k].0 as int == slave && answers[k] == Ok(Done) ==> put(calls[k].1).None?
  }

  lemma PutNext<T>(calls: seq<Request>, answers: seq<Result<Answer>>, slave: int, put: Call -> Option<T>,
                   before: T, between: T, after: T, j: int)
    returns (k: int)
    requires calls != [] && |answers| == |calls|
    requires var last := |calls| - 1;
             && LastPut(calls[..last], answers[..last], slave, put, before, between, j)
             && after == if calls[last].0 as int == slave && answers[last] == Ok(Done) && put(calls[last].1).Some?
                         then put(calls[last].1).value else between
    ensures LastPut(calls, answers, slave, put, before, after, k)
  {
    var last := |calls| - 1;
    k := if calls[last].0 as int == slave && answers[last] == Ok(Done) && put(calls[last].1).Some? then last else j;
    assert forall i :: 0 <= i < last ==> calls[..last][i] == calls[i] && answers[..last][i] == answers[i];
  }

  function ToCoil(i: nat): Call -> Option<bool> { call => CoilPut(call, i) }

  function ToRegister(i: nat): Call -> Option<int> { call => RegisterPut(call, i) }

  predicate Serves(line: Stations, slave: int) { slave in line && line[slave].device.limits.Valid() }

  // Every coil and every holding register of a slave holds what the last accepted write of the run put there, and what
  // it held before where there was none. Nothing changes the discrete inputs and the input registers.
  lemma {:induction false} CellsHoldLastWrites(line: Stations, framing: Framing, calls: seq<Request>, slave: int,
                                               i: nat)
    returns (coil: int, register: int)
    requires AllAnswerable(line, framing, calls) && Serves(line, slave)
    ensures var (after, answers) := PlainRun(line, framing, calls);
            var was, now := line[slave].banks, after[slave].banks;
            && |now.coils| == |was.coils| && |now.holding| == |was.holding|
            && now.discrete == was.discrete && now.inputs == was.inputs
            && (i < |now.coils| ==> LastPut(calls, answers, slave, ToCoil(i), was.coils[i], now.coils[i], coil))
            && (i < |now.holding| ==>
                  LastPut(calls, answers, slave, ToRegister(i), was.holding[i] as int, now.holding[i] as int, register))
    decreases |calls|
  {
    coil, register := -1, -1;
    if calls != [] {
      var last := |calls| - 1;
      coil, register := CellsHoldLastWrites(line, framing, calls[..last], slave, i);
      coil, register := CellsNext(line, framing, calls, slave, i, coil, register);
    }
  }

  lemma CellsNext(line: Stations, framing: Framing, calls: seq<Request>, slave: int, i: nat, j: int, m: int)
    returns (coil: int, register: int)
    requires calls != [] && AllAnswerable(line, framing, calls) && Serves(line, slave)
    requires var last := |calls| - 1;
             var (before, answers) := PlainRun(line, framing, calls[..last]);
             var was, now := line[slave].banks, before[slave].banks;
             && |now.coils| == |was.coils| && |now.holding| == |was.holding|
             && now.discrete == was.discrete && now.inputs == was.inputs
             && (i < |now.coils| ==> LastPut(calls[..last], answers, slave, ToCoil(i), was.coils[i], now.coils[i], j))
             && (i < |now.holding| ==>
                   LastPut(calls[..last], answers, slave, ToRegister(i), was.holding[i] as int, now.holding[i] as int,
                           m))
    ensures var (after, answers) := PlainRun(line, framing, calls);
            var was, now := line[slave].banks, after[slave].banks;
            && |now.coils| == |was.coils| && |now.holding| == |was.holding|
            && now.discrete == was.discrete && now.inputs == was.inputs
            && (i < |now.coils| ==> LastPut(calls, answers, slave, ToCoil(i), was.coils[i], now.coils[i], coil))
            && (i < |now.holding| ==>
                  LastPut(calls, answers, slave, ToRegister(i), was.holding[i] as int, now.holding[i] as int, register))
  {
    var last := |calls| - 1;
    var (before, _) := PlainRun(line, framing, calls[..last]);
    var (after, answers) := PlainRun(line, framing, calls);
    var (to, call) := calls[last];
    assert Answerable(line, framing, calls[last]);
    RunStep(line, framing, calls);
    var was, between, now := line[slave].banks, before[slave].banks, after[slave].banks;
    DevicesKept(line, framing, calls[..last], slave);
    if to as int == slave {
      OneStep(before[slave], call, i);
    }
    hide PlainRun, PlainAnswer, PlainAfter, CoilPut, RegisterPut, LastPut, AllAnswerable, Answerable;
    coil, register := -1, -1;
    if i < |now.coils| {
      coil := PutNext(calls, answers, slave, ToCoil(i), was.coils[i], between.coils[i], now.coils[i], j);
    }
    if i < |now.holding| {
      register := PutNext(calls, answers, slave, ToRegister(i), was.holding[i] as int, between.holding[i] as int,
                          now.holding[i] as int, m);
    }
  }

  lemma RunStep(line: Stations, framing: Framing, calls: seq<Request>)
    requires calls != [] && AllAnswerable(line, framing, calls)
    ensures var last := |calls| - 1;
            var (before, earlier) := PlainRun(line, framing, calls[..last]);
            var (after, answers) := PlainRun(line, framing, calls);
            && answers[..last] == earlier && calls[last].0 as int in before && calls[last].1.Legal()
            && answers[last] == PlainAnswer(before[calls[last].0], calls[last].1)
            && after == before[calls[last].0 as int := PlainAfter(before[calls[last].0], calls[last].1)]
  {
    assert Answerable(line, framing, calls[|calls| - 1]);
    hide PlainAnswer, PlainAfter;
  }

  // So a read of coils or holding registers after it returns the last writes.
  lemma ReadAfterRun(line: Stations, framing: Framing, calls: seq<Request>, slave: byte, read: Call, k: nat)
    returns (j: int)
    requires AllAnswerable(line, framing, calls) && Serves(line, slave) && read.Legal()
    requires read.Read? && (read.table.CoilTable? || read.table.HoldingTable?) && k < read.count
    ensures var (after, answers) := PlainRun(line, framing, calls);
            var r, i := PlainAnswer(after[slave], read), read.address + k;
            r.Ok? ==>
              if read.table.CoilTable? then
                && i < |line[slave].banks.coils| && r.value.Bits? && |r.value.bits| == read.count
                && LastPut(calls, answers, slave, ToCoil(i), line[slave].banks.coils[i], r.value.bits[k], j)
              else
                && i < |line[slave].banks.holding| && r.value.Words? && |r.value.words| == read.count
                && LastPut(calls, answers, slave, ToRegister(i), line[slave].banks.holding[i] as int,
                           r.value.words[k] as int, j)
  {
    var after := PlainRun(line, framing, calls).0;
    var coil, register := CellsHoldLastWrites(line, framing, calls, slave, read.address + k);
    j := if read.table.CoilTable? then coil else register;
    DevicesKept(line, framing, calls, slave);
    hide PlainRun, LastPut, AllAnswerable, ToCoil, ToRegister;
    AnswerMeans(after[slave], read);
    hide PlainAnswer, Refusing;
  }

  lemma {:induction false} RunOfPrefix(line: Stations, framing: Framing, calls: seq<Request>, m: nat)
    requires AllAnswerable(line, framing, calls) && m < |calls|
    ensures AllAnswerable(line, framing, calls[..m])
    ensures var (before, earlier) := PlainRun(line, framing, calls[..m]);
            var answers, slave := PlainRun(line, framing, calls).1, calls[m].0 as int;
            && answers[..m] == earlier && calls[m].1.Legal() && slave in before
            && answers[m] == PlainAnswer(before[slave], calls[m].1)
    decreases |calls|
  {
    var last := |calls| - 1;
    RunStep(line, framing, calls);
    if m < last {
      RunOfPrefix(line, framing, calls[..last], m);
      assert calls[..last][..m] == calls[..m] && calls[..last][m] == calls[m];
      hide PlainRun, PlainAnswer, PlainAfter, Answerable;
      var answers, earlier := PlainRun(line, framing, calls).1, PlainRun(line, framing, calls[..last]).1;
      assert answers[..m] == answers[..last][..m] && answers[m] == answers[..last][m];
    }
  }

  // Every read of coils or holding registers in a run returns, cell by cell, what the last accepted write before it put
  // there, or what was there at first.
  lemma ReadsReturnLastWrites(line: Stations, framing: Framing, calls: seq<Request>, m: nat, k: nat)
    returns (j: int)
    requires AllAnswerable(line, framing, calls) && m < |calls| && Serves(line, calls[m].0)
    requires var read := calls[m].1; read.Read? && (read.table.CoilTable? || read.table.HoldingTable?) && k < read.count
    ensures var answers, (slave, read), was := PlainRun(line, framing, calls).1, calls[m], line[calls[m].0].banks;
            var r, i := answers[m], read.address + k;
            r.Ok? ==>
              if read.table.CoilTable? then
                && i < |was.coils| && r.value.Bits? && |r.value.bits| == read.count
                && LastPut(calls[..m], answers[..m], slave, ToCoil(i), was.coils[i], r.value.bits[k], j)
              else
                && i < |was.holding| && r.value.Words? && |r.value.words| == read.count
                && LastPut(calls[..m], answers[..m], slave, ToRegister(i), was.holding[i] as int,
                           r.value.words[k] as int, j)
  {
    RunOfPrefix(line, framing, calls, m);
    hide PlainRun, PlainAnswer, LastPut, AllAnswerable, ToCoil, ToRegister;
    j := ReadAfterRun(line, framing, calls[..m], calls[m].0, calls[m].1, k);
  }

  // ----- Written and read back -----

  // The read of what a write wrote, and what it returns.
  function ReadBack(write: Call): Call {
    match write
    case WriteCoil(a, _) => Read(CoilTable, a, 1)
    case WriteRegister(a, _) => Read(HoldingTable, a, 1)
    case WriteCoils(a, bits) => Read(CoilTable, a, |bits|)
    case WriteRegisters(a, words) => Read(HoldingTable, a, |words|)
    case _ => write
  }

  predicate IsWrite(call: Call) {
    call.WriteCoil? || call.WriteRegister? || call.WriteCoils? || call.WriteRegisters?
  }

  // After an accepted write a read of the same cells is answered with what was written, unless its function code is
  // disabled or its quantity above the limit.
  lemma WriteThenRead(station: Station, write: Call)
    requires write.Legal() && IsWrite(write) && station.device.limits.Valid() && PlainAnswer(station, write) == Ok(Done)
    ensures var read, after := ReadBack(write), PlainAfter(station, write);
            && read.Legal()
            && (PlainAnswer(after, read).Ok? <==>
                  && CodeOf(read) !in station.device.disabled
                  && read.count <= if read.table.CoilTable? then station.device.limits.readBits
                                   else station.device.limits.readRegisters)
            && (PlainAnswer(after, read).Ok? ==>
                  PlainAnswer(after, read).value
                  == match write
                     case WriteCoil(_, on) => Bits([on])
                     case WriteRegister(_, v) => Words([v as word])
                     case WriteCoils(_, bits) => Bits(bits)
                     case WriteRegisters(_, words) => Words(words)
                     case _ => Done)
  {
    var read, after := ReadBack(write), PlainAfter(station, write);
    AnswerMeans(station, write);
    AnswerMeans(after, read);
    RefusingIs(station.device.limits, station.banks, write);
    hide PlainAnswer, Refusing, OutOfRange;
    match write
    case WriteCoil(a, on) => assert after.banks.coils[a..a + 1] == [on];
    case WriteRegister(a, v) => assert after.banks.holding[a..a + 1] == [v];
    case WriteCoils(a, bits) => assert after.banks.coils[a..a + |bits|] == bits;
    case WriteRegisters(a, words) => assert after.banks.holding[a..a + |words|] == words;
  }
}

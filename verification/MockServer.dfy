// The mock server (src/anymodbus/_mock/server.py): one line, many slaves, each
// request routed by address.
module MockServers {
  import opened Bits
  import opened Errors
  import opened Line
  import opened Framing
  import opened RtuFramer
  import opened RtuRequests
  import opened AsciiFramer
  import opened RegisterBanks
  import opened MockSlaves

  // Two slaves that share no memory.
  predicate Apart(x: MockSlave, y: MockSlave) {
    && x != y && x.coils != y.coils && x.discreteInputs != y.discreteInputs
    && x.coils != y.discreteInputs && x.discreteInputs != y.coils
  }

  function Payloads(sends: seq<Sending>): (r: seq<seq<byte>>)
    ensures |r| == |sends|
  {
    seq(|sends|, i requires 0 <= i < |sends| => sends[i].data)
  }

  lemma PayloadsSent(before: seq<Sending>, after: seq<Sending>, frame: Option<seq<byte>>)
    requires Sent(before, after, frame)
    ensures Payloads(after) == if frame.Some? then Payloads(before) + [frame.value] else Payloads(before)
  {
    if frame.Some? {
      assert forall i :: 0 <= i < |before| ==> after[i] == after[..|before|][i];
    }
  }

  // Every request of a list has a length the server can frame by.
  predicate Framable(requests: seq<(byte, seq<byte>)>) {
    forall i :: 0 <= i < |requests| ==> FitsRequestTable(requests[i].1) && |requests[i].1| <= 253
  }

  // The rest of the line is exactly the frames of these requests.
  ghost predicate LineHolds(framing: Framing, rest: seq<byte>, sent: seq<(byte, seq<byte>)>) {
    Framable(sent) && rest == Frames(framing, sent)
  }

  predicate Dropped(error: Error) { error.CrcError? || error.LrcError? || error.FrameError? }

  // What one read must give when the line holds the frames of `sent`.
  ghost predicate ReadFirstOf(framing: Framing, sent: seq<(byte, seq<byte>)>, r: Result<(byte, seq<byte>)>,
                              rest: seq<byte>) {
    if sent == [] then r == Err(Stream(EndOfStream)) else r == Ok(sent[0]) && LineHolds(framing, rest, sent[1..])
  }

  lemma FirstOfLine(framing: Framing, s: seq<byte>, sent: seq<(byte, seq<byte>)>)
    requires LineHolds(framing, s, sent) && sent != []
    ensures var (slave, pdu) := sent[0];
            var used := |Encode(framing, slave, pdu).value|;
            && pdu != [] && Encode(framing, slave, pdu).Ok? && used <= |s| && LineHolds(framing, s[used..], sent[1..])
            && (framing.Rtu? ==> ParseRequest(s) == Framed(slave, pdu, used))
            && (framing.Ascii? ==> ParseAsciiRequest(s) == Reply(slave, pdu, used))
  {
    var (slave, pdu) := sent[0];
    hide ParseRequest, ParseAsciiRequest, FitsRequestTable;
    var rest := Frames(framing, sent[1..]);
    var adu := Encode(framing, slave, pdu).value;
    assert s == adu + rest && (adu + rest)[|adu|..] == rest;
    match framing
    case Rtu => ReadBackRequest(slave, pdu, rest);
    case Ascii => ReadBackAtOnce(slave, pdu, rest);
  }

  lemma NothingOnTheLine()
    ensures ParseRequest([]) == Partial(2) && ParseAsciiRequest([]) == NoReply(false)
  {
    assert Leading([]) == 0;
  }

  lemma AsciiReadsProgress(s: seq<byte>, r: Result<(byte, seq<byte>)>, consumed: nat)
    requires ReadsReply(ParseAsciiRequest(s), r, consumed, |s|)
    ensures r == Err(Stream(EndOfStream)) || 0 < consumed
    ensures r.Ok? ==> r.value.1 != []
  {}

  lemma SkipTwice(incoming: seq<byte>, start: nat, used: nat)
    requires start + used <= |incoming|
    ensures incoming[start..][used..] == incoming[start + used..]
  {}

  class MockServer {
    const framing: Framing
    const interCharIdle: real
    var slaves: map<int, MockSlave>

    ghost var Repr: set<object>

    ghost predicate Valid()
      reads this
    {
      && interCharIdle >= 0.0
      && BROADCAST !in slaves
      && this !in Repr
      && (forall a :: a in slaves ==> slaves[a] in Repr && slaves[a].coils in Repr && slaves[a].discreteInputs in Repr)
      && (forall a :: a in slaves ==>
          slaves[a].Valid() && slaves[a].device.address == a && slaves[a].device.framing == framing)
      && (forall a, b :: a in slaves && b in slaves && a != b ==> Apart(slaves[a], slaves[b]))
    }

    // Every served slave holds what `line` says.
    ghost predicate Holds(line: Stations)
      requires Valid()
      reads this, Repr
    {
      line.Keys == slaves.Keys && forall a :: a in slaves ==> slaves[a].State() == line[a]
    }

    constructor (framing: Framing, interCharIdle: real)
      requires interCharIdle >= 0.0
      ensures Valid() && this.framing == framing && this.interCharIdle == interCharIdle && Holds(map[]) && Repr == {}
    {
      this.framing, this.interCharIdle, slaves, Repr := framing, interCharIdle, map[], {};
    }

    method Add(slave: MockSlave, ghost line: Stations) returns (r: Result<()>)
      requires Valid() && Holds(line)
      requires slave.Valid() && forall a :: a in slaves ==> slaves[a] == slave || Apart(slaves[a], slave)
      modifies this
      ensures Valid()
      ensures r.Ok? <==> slave.device.address !in line && slave.device.framing == framing
      ensures r.Ok? ==>
                Holds(line[slave.device.address := slave.State()])
                  && slaves == old(slaves)[slave.device.address := slave]
                        && Repr == old(Repr) + {slave, slave.coils, slave.discreteInputs}
      ensures r.Err? ==> r.error.ConfigurationError? && unchanged(this)
    {
      hide MockSlave.State;
      if slave.device.address in slaves || slave.device.framing != framing {
        return Err(ConfigurationError);
      }
      slaves := slaves[slave.device.address := slave];
      Repr := Repr + {slave, slave.coils, slave.discreteInputs};
      return Ok(());
    }

    // One slave answers; the others keep what they hold.
    method HandleAt(a: int, pdu: seq<byte>, ghost line: Stations) returns (r: Option<seq<byte>>)
      requires Valid() && Holds(line) && a in slaves && pdu != []
      modifies Repr
      ensures Holds(line[a := Applied(line[a], pdu)])
      ensures r == Respond(line[a].device, line[a].banks, pdu).0
    {
      hide Respond, MockSlave.Contents, MockSlave.Padding;
      assert slaves[a].State() == line[a];
      r := ResponsePdu(slaves[a], pdu);
      forall b | b in slaves && b != a
        ensures slaves[b].State() == line[b]
      {
        assert Apart(slaves[a], slaves[b]);
      }
    }

    method SendFrom(stream: ByteStream, a: int, pdu: seq<byte>, ghost line: Stations) returns (r: Result<()>)
      requires Valid() && Holds(line) && stream.Valid() && stream !in Repr && a in slaves && pdu != []
      modifies Repr, stream`now, stream`sends
      ensures stream.Valid()
      ensures Holds(line[a := line[a].(emitted := line[a].emitted + 1)])
      ensures Sent(old(stream.sends), stream.sends, SentFrame(line[a].device, line[a].emitted, pdu))
              || (r == Err(Cancelled) && stream.sends == old(stream.sends))
      ensures r.Err? ==> r.error.Stream? || r.error.Cancelled?
    {
      hide SentFrame, MockSlave.Contents, MockSlave.Padding;
      assert slaves[a].State() == line[a];
      r := slaves[a].SendResponse(stream, pdu);
      forall b | b in slaves && b != a
        ensures slaves[b].State() == line[b]
      {
        assert slaves[a] != slaves[b];
      }
    }

    // Every slave applies a broadcast, in any order; none replies.
    method ApplyToAll(pdu: seq<byte>, ghost line: Stations)
      requires Valid() && Holds(line) && pdu != []
      modifies Repr
      ensures Holds(Step(line, BROADCAST, pdu).0)
    {
      hide Respond, MockSlave.Contents, MockSlave.Padding;
      ghost var now := line;
      var todo := slaves.Keys;
      while todo != {}
        invariant todo <= slaves.Keys && Holds(now) && now.Keys == line.Keys
        invariant forall a :: a in line ==> now[a] == if a in todo then line[a] else Applied(line[a], pdu)
        decreases |todo|
      {
        SomeMember(todo);
        var a :| a in todo;
        var _ := HandleAt(a, pdu, now);
        now := now[a := Applied(now[a], pdu)];
        todo := todo - {a};
      }
      assert now.Keys == Step(line, BROADCAST, pdu).0.Keys;
    }

    method Answer(stream: ByteStream, address: int, pdu: seq<byte>, ghost line: Stations) returns (r: Result<()>)
      requires Valid() && Holds(line) && stream.Valid() && stream !in Repr && pdu != []
      modifies Repr, stream`now, stream`sends
      ensures stream.Valid() && Holds(Step(line, address, pdu).0)
      ensures Sent(old(stream.sends), stream.sends, Step(line, address, pdu).1)
              || (r == Err(Cancelled) && stream.sends == old(stream.sends))
      ensures r.Err? ==> r.error.Stream? || r.error.Cancelled?
    {
      hide Respond, SentFrame;
      r := Ok(());
      if address == BROADCAST {
        ApplyToAll(pdu, line);
      } else if address in slaves {
        var response := HandleAt(address, pdu, line);
        if response.Some? {
          r := SendFrom(stream, address, response.value, line[address := Applied(line[address], pdu)]);
        }
      }
    }

    // One request frame in the server's framing: its reader's parse of what the line holds.
    method ReadFrame(stream: ByteStream) returns (r: Result<(byte, seq<byte>)>)
      requires interCharIdle >= 0.0 && stream.Valid()
      modifies stream`now, stream`taken, stream`reach
      ensures stream.Valid() && old(stream.taken) <= stream.taken
      ensures r.Ok? ==> r.value.1 != []
      ensures Interrupted(r) || r == Err(Stream(EndOfStream)) || old(stream.taken) < stream.taken
      ensures r.Err? ==> r.error in {CrcError, LrcError, FrameError, Cancelled} || r.error.Stream?
      ensures var s, used, n := stream.incoming[old(stream.taken)..], stream.taken - old(stream.taken),
                                |stream.incoming| - old(stream.taken);
              || Interrupted(r)
              || if framing.Rtu? then ReadsRequest(ParseRequest(s), r, used, n)
                 else ReadsReply(ParseAsciiRequest(s), r, used, n)
    {
      ghost var start := stream.taken;
      hide Frames, Encode, ParseRequest, ParseAsciiRequest, FitsRequestTable, Judge, MockSlave.Valid, OneBurst,
        BurstJudged;
      match framing {
        case Rtu => r := ReadRawRequestAdu(stream, interCharIdle, start);
        case Ascii =>
          r := ReadAsciiRequest(stream);
          if !Interrupted(r) {
            AsciiReadsProgress(stream.incoming[start..], r, stream.taken - start);
          }
      }
    }

    // And the first of the requests whose frames it holds.
    method ReadRequest(stream: ByteStream, ghost sent: seq<(byte, seq<byte>)>) returns (r: Result<(byte, seq<byte>)>)
      requires Valid() && stream.Valid()
      modifies stream`now, stream`taken, stream`reach
      ensures stream.Valid() && old(stream.taken) <= stream.taken
      ensures r.Ok? ==> r.value.1 != []
      ensures Interrupted(r) || r == Err(Stream(EndOfStream)) || old(stream.taken) < stream.taken
      ensures r.Err? ==> r.error in {CrcError, LrcError, FrameError, Cancelled} || r.error.Stream?
      ensures LineHolds(framing, old(stream.incoming[stream.taken..]), sent) && !Interrupted(r) ==>
                ReadFirstOf(framing, sent, r, stream.incoming[stream.taken..])
    {
      ghost var start := stream.taken;
      ghost var s := stream.incoming[start..];
      hide Frames, Encode, ParseRequest, ParseAsciiRequest, FitsRequestTable, MockSlave.Valid;
      r := ReadFrame(stream);
      if LineHolds(framing, s, sent) && !Interrupted(r) {
        SkipTwice(stream.incoming, start, stream.taken - start);
        if sent == [] {
          NothingOnTheLine();
        } else {
          FirstOfLine(framing, s, sent);
        }
      }
    }

    // What was served so far, out of a line that holds the frames of `sent`.
    ghost predicate Served(stream: ByteStream, line: Stations, served: seq<(byte, seq<byte>)>, start: seq<byte>,
                           sent: seq<(byte, seq<byte>)>)
      requires Valid() && stream.taken <= |stream.incoming|
      reads this, Repr, stream
    {
      && AllRequests(served) && Holds(Run(line, served).0)
      && (LineHolds(framing, start, sent) ==>
            served <= sent && LineHolds(framing, stream.incoming[stream.taken..], sent[|served|..]))
    }

    // Until the stream ends or fails: `served` is what was read, in order. It is a
    // prefix of what the input held, when the input held only framable requests.
    method Serve(stream: ByteStream, ghost line: Stations, ghost sent: seq<(byte, seq<byte>)>)
      returns (r: Result<()>, ghost served: seq<(byte, seq<byte>)>, ghost ended: bool)
      requires Valid() && Holds(line) && stream.Valid() && stream !in Repr
      modifies Repr, stream`now, stream`taken, stream`reach, stream`sends
      ensures stream.Valid() && AllRequests(served)
      ensures Holds(Run(line, served).0)
      ensures r.Ok? ==> Payloads(stream.sends) == Payloads(old(stream.sends)) + Run(line, served).1
      // A damaged request is dropped: no error of its reading ends the serving.
      ensures r.Err? ==> r.error == Cancelled
      ensures LineHolds(framing, old(stream.incoming[stream.taken..]), sent) ==>
                served <= sent && (ended ==> served == sent)
    {
      EmptyRun(line);
      served, ended := [], false;
      ghost var start, before := stream.incoming[stream.taken..], Payloads(stream.sends);
      assert sent[0..] == sent;
      assert Served(stream, line, served, start, sent);
      assert this !in Repr;
      hide Run, Served, LineHolds, Holds, Valid;
      var goOn := true;
      r := Ok(());
      while goOn
        invariant stream.Valid() && AllRequests(served) && Holds(Run(line, served).0)
        invariant r.Ok? ==> Payloads(stream.sends) == before + Run(line, served).1
        invariant r.Err? ==> r.error == Cancelled
        invariant goOn ==> r.Ok? && Served(stream, line, served, start, sent)
        invariant LineHolds(framing, start, sent) ==> served <= sent && (ended ==> served == sent)
        decreases |stream.incoming| - stream.taken, goOn
      {
        r, goOn, served, ended := ServeNext(stream, line, served, start, sent, before);
      }
    }

    // One turn of the loop: a request read and answered, dropped as damaged, or the end.
    method ServeNext(stream: ByteStream, ghost line: Stations, ghost served: seq<(byte, seq<byte>)>,
                     ghost start: seq<byte>, ghost sent: seq<(byte, seq<byte>)>, ghost before: seq<seq<byte>>)
      returns (r: Result<()>, goOn: bool, ghost now: seq<(byte, seq<byte>)>, ghost ended: bool)
      requires Valid() && stream.Valid() && stream !in Repr && Served(stream, line, served, start, sent)
      requires Payloads(stream.sends) == before + Run(line, served).1
      modifies Repr, stream`now, stream`taken, stream`reach, stream`sends
      ensures stream.Valid() && old(stream.taken) <= stream.taken && AllRequests(now) && Holds(Run(line, now).0)
      ensures r.Ok? ==> Payloads(stream.sends) == before + Run(line, now).1
      ensures r.Err? ==> r.error == Cancelled
      ensures goOn ==> r.Ok? && !ended && old(stream.taken) < stream.taken && Served(stream, line, now, start, sent)
      ensures LineHolds(framing, start, sent) ==> now <= sent && (ended ==> now == sent)
    {
      hide Run, Frames, Framable, FitsRequestTable;
      now, ended := served, false;
      var request := ReadRequest(stream, if |served| <= |sent| then sent[|served|..] else []);
      match request {
        case Err(error) =>
          goOn := Dropped(error);
          ended := error == Stream(EndOfStream);
          r := if goOn || error.Stream? then Ok(()) else Err(error);
        case Ok(asked) =>
          r := AnswerNext(stream, asked, line, served, before);
          now := served + [asked];
          goOn := r.Ok?;
          r := if r.Err? && r.error.Stream? then Ok(()) else r;
      }
    }

    // The step of the loop: one more request served.
    method AnswerNext(stream: ByteStream, request: (byte, seq<byte>), ghost line: Stations,
                      ghost served: seq<(byte, seq<byte>)>, ghost before: seq<seq<byte>>)
      returns (r: Result<()>)
      requires Valid() && AllRequests(served) && Holds(Run(line, served).0) && stream.Valid() && stream !in Repr
               && request.1 != []
      requires Payloads(stream.sends) == before + Run(line, served).1
      modifies Repr, stream`now, stream`sends
      ensures stream.Valid() && Holds(Run(line, served + [request]).0)
      ensures Payloads(stream.sends) == before + Run(line, served + [request]).1 || r == Err(Cancelled)
      ensures r.Err? ==> r.error.Stream? || r.error.Cancelled?
    {
      hide Step;
      ghost var now, sends := Run(line, served).0, stream.sends;
      r := Answer(stream, request.0, request.1, now);
      RunNext(line, served, request);
      if Sent(sends, stream.sends, Step(now, request.0, request.1).1) {
        PayloadsSent(sends, stream.sends, Step(now, request.0, request.1).1);
      }
    }
  }

  lemma SomeMember(s: set<int>)
    ensures s == {} || exists x :: x in s
  {
    if forall x :: x !in s {
      assert s == {};
    }
  }

  // `_response_pdu`: a refusal becomes an exception response.
  method ResponsePdu(slave: MockSlave, pdu: seq<byte>) returns (r: Option<seq<byte>>)
    requires slave.Valid() && pdu != []
    modifies slave.coils, slave`holdingRegisters
    ensures slave.Valid()
    ensures (r, slave.Contents()) == Respond(slave.device, old(slave.Contents()), pdu)
    ensures slave.Padding() == old(slave.Padding())
  {
    var result := slave.HandleRequest(pdu);
    match result {
      case Ok(response) => return Some(response);
      case Err(error) =>
        if pdu[0] % 0x80 == 0 {
          return None;
        }
        var code := if error.ServerException? then error.code else ILLEGAL_DATA_VALUE;
        return Some(Pdu.EncodeException(pdu[0] % 0x80, code).value);
    }
  }
}

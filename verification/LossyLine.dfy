// Client and server over a line that may lose frames and hold them up (src/anymodbus/bus.py,
// src/anymodbus/slave.py, src/anymodbus/_mock/server.py): an answer a call returns is still what reading or
// writing plain arrays gave when some send of that call was served.
module LossyLine {
  import opened Bits
  import opened Errors
  import opened Pdu
  import opened Framing
  import opened Replies
  import opened Timing
  import opened Buses
  import opened Client
  import opened RegisterBanks
  import opened EndToEnd
  import opened LateReplies

  // `sender` names, for every request the server read, the attempt that sent it. The n-th is the one attempt c sent,
  // and this is the frame it was answered with.
  ghost predicate Delivered(line: Stations, framing: Framing, requests: seq<(byte, seq<byte>)>, sender: seq<nat>,
                            x: Attempt, c: nat, n: nat, frame: seq<byte>)
    requires AllRequests(requests)
  {
    && n < |requests| == |sender| && sender[n] == c && requests[n].0 as int == x.slave
    && Encode(framing, requests[n].0, requests[n].1) == Ok(x.adu)
    && Step(Run(line, requests[..n]).0, requests[n].0, requests[n].1).1 == Some(frame)
  }

  // Whatever else became of it, a reply frame that an answered attempt brought about is one the server sent
  // for a delivered copy of that attempt's request.
  ghost predicate OnlyDelays(line: Stations, framing: Framing, requests: seq<(byte, seq<byte>)>, sender: seq<nat>,
                             xs: seq<Attempt>, incoming: seq<byte>, cause: seq<nat>)
    requires AllRequests(requests)
  {
    forall c, from, response ::
      0 <= c < |xs| && !xs[c].broadcast && xs[c].Certain()
      && OwnFrame(xs[c], c, framing, incoming, cause, from, response) ==>
        exists n ::
          Delivered(line, framing, requests, sender, xs[c], c, n, Encode(framing, xs[c].slave, response).value)
  }

  // The result is the plain answer of the server's arrays just before its n-th request, which was this one.
  ghost predicate ServedAs(line: Stations, requests: seq<(byte, seq<byte>)>, request: Request, n: nat,
                           r: Result<Answer>)
    requires AllRequests(requests)
  {
    && request.1.Legal() && n < |requests| && requests[n] == WireRequest(request)
    && request.0 in Run(line, requests[..n]).0
    && r == PlainAnswer(Run(line, requests[..n]).0[request.0], request.1)
  }

  // And the n-th request was sent by attempt j.
  ghost predicate ServedFor(line: Stations, requests: seq<(byte, seq<byte>)>, sender: seq<nat>, j: int,
                            request: Request, n: nat, r: Result<Answer>)
    requires AllRequests(requests)
  {
    n < |sender| && sender[n] == j && ServedAs(line, requests, request, n, r)
  }

  predicate Certain(r: Result<Answer>) { r.Ok? || r.error.ExceptionResponse? }

  // What a delivered request of this call was answered with means the plain answer at that moment.
  lemma DeliveredIsPlain(line: Stations, framing: Framing, requests: seq<(byte, seq<byte>)>, x: Attempt, n: nat,
                         sender: seq<nat>, c: nat, request: Request, response: seq<byte>)
    requires AllRequests(requests) && Answerable(line, framing, request) && response != []
    requires x.slave == request.0 as int && x.adu == RequestFrame(framing, request.0, request.1)
    requires Encode(framing, request.0, response).Ok?
    requires Delivered(line, framing, requests, sender, x, c, n, Encode(framing, request.0, response).value)
    ensures ServedFor(line, requests, sender, c, request, n, Judged(response, request.1.Fc(), Decoder(request.1)))
  {
    var (slave, call) := request;
    var before, wanted := Run(line, requests[..n]).0, WireRequest(request);
    PaddingKept(line, requests[..n], slave as int);
    hide Run, Step, Encode, Judged, PlainAnswer, Decoder, FitsReplyTable, PlainAfter, ReadRequests;
    EncodeInjective(framing, slave, requests[n].1, wanted.1);
    var answered := ServedPlainly(before, framing, slave, call);
    hide EncodeRequest;
    Nonempty(answered);
    EncodeInjective(framing, slave, response, answered);
  }

  lemma Nonempty(response: seq<byte>)
    requires FitsReplyTable(response)
    ensures response != []
  {}

  // A call's last attempt, once it returns an answer or a refusal, is answered.
  lemma LastIsCertain(call: Call, config: BusConfig, wire: Wire, mine: seq<Attempt>, id: nat, slave: byte,
                      r: Result<Answer>)
    requires RequestRan(call, config, wire, mine, id, slave, r) && Certain(r)
    ensures mine != []
    ensures var last := mine[|mine| - 1];
            && !last.broadcast && last.Certain() && last.slave == slave as int
            && last.adu == RequestFrame(wire.framing, slave, call)
            && Concludes(wire, last.record.Read(), slave, call.Fc(), Decoder(call), r)
  {
    hide Concludes, Paced, AnsweredBy, RequestFrame, Decoder;
  }

  // Losses and delays - of requests and of replies, no later than the configuration tolerates - never make a call
  // return an answer that is not the plain one at the moment when what its last attempt sent was served.
  lemma LossyCallIsPlain(bus: Bus, cause: seq<nat>, bound: real, line: Stations, requests: seq<(byte, seq<byte>)>,
                         sender: seq<nat>, request: Request, mine: seq<Attempt>, id: nat, r: Result<Answer>, j: nat)
    returns (n: nat)
    requires bus.Valid()
    requires Caused(bus.reports, bus.config, bus.takenBefore, bus.stream.arrivesAt, cause)
    requires WholeReplies(bus.reports, bus.framing, bus.stream.incoming, cause)
    requires Bounded(bus.reports, bus.stream.arrivesAt, cause, bound) && Tolerates(bus.config, bus.stream.lag, bound)
    requires AllRequests(requests)
             && OnlyDelays(line, bus.framing, requests, sender, bus.reports, bus.stream.incoming, cause)
    requires Answerable(line, bus.framing, request)
    requires RequestRan(request.1, bus.config, bus.OnWire(), mine, id, request.0, r) && Certain(r)
    requires j < |bus.reports| && mine != [] && bus.reports[j] == mine[|mine| - 1]
    ensures ServedFor(line, requests, sender, j, request, n, r)
  {
    var (slave, call) := request;
    LastIsCertain(call, bus.config, bus.OnWire(), mine, id, slave, r);
    AnswersAreGenuine(bus, cause, bound, j);
    hide *;
    var x := bus.reports[j];
    var response :| Genuine(x, j, bus.framing, bus.stream.incoming, cause, response);
    AnswerRead(bus.OnWire(), x, j, request, cause, response, r);
    n := DeliveredSomewhere(line, bus.framing, requests, sender, bus.reports, bus.stream.incoming, cause, j, response);
    DeliveredIsPlain(line, bus.framing, requests, x, n, sender, j, request, response);
  }

  lemma DeliveredSomewhere(line: Stations, framing: Framing, requests: seq<(byte, seq<byte>)>, sender: seq<nat>,
                           xs: seq<Attempt>, incoming: seq<byte>, cause: seq<nat>, j: nat, response: seq<byte>)
    returns (n: nat)
    requires AllRequests(requests) && OnlyDelays(line, framing, requests, sender, xs, incoming, cause)
    requires j < |xs| && !xs[j].broadcast && xs[j].Certain()
    requires Genuine(xs[j], j, framing, incoming, cause, response)
    ensures Encode(framing, xs[j].slave, response).Ok?
    ensures Delivered(line, framing, requests, sender, xs[j], j, n, Encode(framing, xs[j].slave, response).value)
  {
    assert OwnFrame(xs[j], j, framing, incoming, cause, xs[j].record.readFrom, response);
    n :| Delivered(line, framing, requests, sender, xs[j], j, n, Encode(framing, xs[j].slave, response).value);
  }

  // What such an attempt makes of its own frame.
  lemma AnswerRead(wire: Wire, x: Attempt, j: nat, request: Request, cause: seq<nat>, response: seq<byte>,
                   r: Result<Answer>)
    requires Genuine(x, j, wire.framing, wire.incoming, cause, response)
    requires x.slave == request.0 as int && Certain(r) && request.1.Legal()
    requires Concludes(wire, x.record.Read(), request.0, request.1.Fc(), Decoder(request.1), r)
    ensures response != [] && r == Judged(response, request.1.Fc(), Decoder(request.1))
    ensures Encode(wire.framing, request.0, response).Ok?
  {
    var (slave, call) := request;
    Nonempty(response);
    hide Encode, FitsReplyTable, Judged, Decoder;
    var pdu := CertainReadsFrame(wire, x.record.Read(), slave, call.Fc(), Decoder(call), r);
    CarriedReplyIsRead(wire.framing, wire.incoming, x.record.readFrom, x.record.readTo, slave, Ok((slave, pdu)),
                       response);
    assert pdu == response;
    JudgedFailures(call, pdu);
  }

  // ----- Any run of calls -----

  // Where in the history the last attempt of call i is.
  function LastOf(before: seq<Attempt>, made: seq<Made>, i: nat): int
    requires i < |made|
  {
    |before| + |Attempts(made[..i + 1])| - 1
  }

  lemma {:induction false} LastReported(before: seq<Attempt>, made: seq<Made>, i: nat)
    requires i < |made| && made[i].mine != []
    ensures 0 <= LastOf(before, made, i) < |before + Attempts(made)|
    ensures (before + Attempts(made))[LastOf(before, made, i)] == made[i].mine[|made[i].mine| - 1]
    decreases |made|
  {
    var last := |made| - 1;
    AttemptsNext(made[..last], made[last], before);
    assert made == made[..last] + [made[last]];
    if i == last {
      assert made[..i + 1] == made;
    } else {
      LastReported(before, made[..last], i);
      assert made[..last][..i + 1] == made[..i + 1];
    }
  }

  // Every answer and every refusal that a run of calls returns over such a line is the plain one at the moment when
  // what that call's last attempt sent was served.
  lemma LossyRunIsPlain(bus: Bus, cause: seq<nat>, bound: real, line: Stations, requests: seq<(byte, seq<byte>)>,
                        sender: seq<nat>, before: seq<Attempt>, calls: seq<Request>, made: seq<Made>,
                        results: seq<Result<Answer>>)
    requires bus.Valid()
    requires Caused(bus.reports, bus.config, bus.takenBefore, bus.stream.arrivesAt, cause)
    requires WholeReplies(bus.reports, bus.framing, bus.stream.incoming, cause)
    requires Bounded(bus.reports, bus.stream.arrivesAt, cause, bound) && Tolerates(bus.config, bus.stream.lag, bound)
    requires AllRequests(requests)
             && OnlyDelays(line, bus.framing, requests, sender, bus.reports, bus.stream.incoming, cause)
    requires AllAnswerable(line, bus.framing, calls) && AllRan(bus.config, bus.OnWire(), calls, made, results)
    requires bus.reports == before + Attempts(made)
    ensures forall i :: 0 <= i < |calls| && Certain(results[i]) ==>
              exists n :: ServedFor(line, requests, sender, LastOf(before, made, i), calls[i], n, results[i])
  {
    forall i | 0 <= i < |calls| && Certain(results[i])
      ensures exists n :: ServedFor(line, requests, sender, LastOf(before, made, i), calls[i], n, results[i])
    {
      assert Answerable(line, bus.framing, calls[i]);
      assert Ran(bus.config, bus.OnWire(), calls[i], made[i]) && results[i] == made[i].r;
      LastIsCertain(calls[i].1, bus.config, bus.OnWire(), made[i].mine, made[i].id, calls[i].0, results[i]);
      LastReported(before, made, i);
      hide LastOf, Attempts, OnlyDelays, ServedFor, Certain, RequestRan, Answerable, Bus.Valid, Bus.OnWire, Caused,
        WholeReplies, Bounded, Tolerates;
      var n := LossyCallIsPlain(bus, cause, bound, line, requests, sender, calls[i], made[i].mine, made[i].id,
                                results[i], LastOf(before, made, i));
    }
  }

  // If the server read what it read in the order it was sent, those moments are in the order of the calls.
  lemma MomentsInOrder(line: Stations, requests: seq<(byte, seq<byte>)>, sender: seq<nat>, before: seq<Attempt>,
                       calls: seq<Request>, made: seq<Made>, results: seq<Result<Answer>>, i: nat, j: nat, m: nat,
                       n: nat)
    requires AllRequests(requests) && i < j < |calls| == |made| == |results| && made[j].mine != []
    requires forall k, l :: 0 <= k <= l < |sender| ==> sender[k] <= sender[l]
    requires ServedFor(line, requests, sender, LastOf(before, made, i), calls[i], m, results[i])
    requires ServedFor(line, requests, sender, LastOf(before, made, j), calls[j], n, results[j])
    ensures m < n
  {
    AttemptsGrow(made, i, j);
    hide ServedAs;
  }

  lemma AttemptsGrow(made: seq<Made>, i: nat, j: nat)
    requires i < j < |made| && made[j].mine != []
    ensures |Attempts(made[..i + 1])| < |Attempts(made[..j + 1])|
  {
    AttemptsNext(made[..j], made[j], []);
    assert made[..j + 1] == made[..j] + [made[j]];
    NeverFewer(made, i + 1, j);
  }

  lemma {:induction false} NeverFewer(made: seq<Made>, i: nat, j: nat)
    requires i <= j <= |made|
    ensures |Attempts(made[..i])| <= |Attempts(made[..j])|
    decreases j
  {
    if i < j {
      NeverFewer(made, i, j - 1);
      AttemptsNext(made[..j - 1], made[j - 1], []);
      assert made[..j] == made[..j - 1] + [made[j - 1]];
    }
  }
}

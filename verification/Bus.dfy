// The bus (src/anymodbus/bus.py): one call at a time on a half-duplex line, with
// idle gaps, a late-reply window and retries.
module Buses {
  import opened Bits
  import opened Errors
  import opened Line
  import opened Pdu
  import opened Framing
  import opened RtuFramer
  import AsciiFramer
  import opened Timing
  import opened Replies

  const DISCARD_CHUNK_BYTES: nat := 256
  const BROADCAST_ADDRESS := 0

  predicate BroadcastEligible(fc: byte) {
    fc == WRITE_SINGLE_COIL || fc == WRITE_SINGLE_REGISTER || fc == WRITE_MULTIPLE_COILS
      || fc == WRITE_MULTIPLE_REGISTERS
  }

  predicate IsIdempotent(fc: byte) {
    1 <= fc <= 4 || fc == DIAGNOSTICS
  }

  datatype TransactionOutcome =
    | GotReply | BroadcastSent | WasCancelled | ExceptionReply | Timeout | ChecksumError
    | UnexpectedReply | BadFrame | ConnectionError | OtherError

  function Classify(error: Option<Error>, broadcast: bool): TransactionOutcome {
    match error
    case None => if broadcast then BroadcastSent else GotReply
    case Some(e) =>
      if e.Cancelled? then WasCancelled
      else if e.ExceptionResponse? then ExceptionReply
      else if e.FrameTimeout? then Timeout
      else if e.CrcError? || e.LrcError? then ChecksumError
      else if e.UnexpectedResponse? then UnexpectedReply
      else if e.IsProtocolError() then BadFrame
      else if e.ConnectionLost? || e.TransportError? || e.BusClosed? then ConnectionError
      else OtherError
  }

  function ShouldRetry(retries: RetryPolicy, error: Error, fc: byte, attempt: nat): bool {
    && attempt < retries.retries
    && (exists c :: c in retries.retryOn && c.Matches(error))
    && !(retries.idempotentOnly && !IsIdempotent(fc))
  }

  // How many attempts a call can make: one if its failures are never retried.
  function MostAttempts(retries: RetryPolicy, fc: byte): (most: nat)
    ensures most >= 1
  {
    if retries.retryOn == {} || (retries.idempotentOnly && !IsIdempotent(fc)) then 1 else retries.retries + 1
  }

  // The outcome an observer is told says whether a late-reply window was called for.
  lemma OutcomeTellsUncertain(x: Attempt)
    ensures x.Uncertain() <==>
              x.record.sendAt.Some? && !x.broadcast && Classify(x.error, x.broadcast) !in {GotReply, ExceptionReply}
    ensures Classify(x.error, x.broadcast) == BroadcastSent <==> x.broadcast && x.error.None?
    ensures Classify(x.error, x.broadcast) in {ChecksumError, UnexpectedReply, BadFrame}
            <==> x.error.Some? && x.error.value.IsProtocolError()
  {}

  // And which failure it was.
  lemma OutcomeTellsError(error: Error)
    ensures var outcome := Classify(Some(error), false);
            && (outcome == Timeout <==> error == FrameTimeout)
            && (outcome == ChecksumError <==> error in {CrcError, LrcError})
            && (outcome == UnexpectedReply <==> error == UnexpectedResponse)
            && (outcome == BadFrame <==> error in {ProtocolError, FrameError})
            && (outcome == ConnectionError <==> error in {ConnectionLost, TransportError, BusClosed})
            && (outcome == WasCancelled <==> error == Cancelled)
            && (outcome == ExceptionReply <==> error.ExceptionResponse?)
            && outcome !in {GotReply, BroadcastSent} && outcome == Classify(Some(error), true)
  {}

  // The classes a failure belongs to, up to the root of them all.
  function ClassesOf(error: Error): set<ErrorClass> {
    match error
    case ConfigurationError => {AnyConfigurationError, AnyModbusError}
    case ProtocolError => {AnyProtocolError, AnyModbusError}
    case CrcError => {OnlyCrcError, AnyChecksumError, AnyProtocolError, AnyModbusError}
    case LrcError => {OnlyLrcError, AnyChecksumError, AnyProtocolError, AnyModbusError}
    case FrameError => {AnyFrameError, AnyProtocolError, AnyModbusError}
    case UnexpectedResponse => {AnyUnexpectedResponse, AnyProtocolError, AnyModbusError}
    case ExceptionResponse(_, _) => {AnyExceptionResponse, AnyModbusError}
    case FrameTimeout => {AnyFrameTimeout, AnyModbusError}
    case ConnectionLost => {AnyConnectionLost, AnyModbusError}
    case TransportError => {OnlyTransportError, AnyConnectionLost, AnyModbusError}
    case BusClosed => {AnyBusClosed, AnyModbusError}
    case _ => {}
  }

  // An attempt that failed is retried when one of its classes is listed, attempts are left, and the function code
  // may be repeated: the four reads and the loopback, unless every one may.
  lemma RetriedExactly(retries: RetryPolicy, error: Error, fc: byte, attempt: nat)
    ensures ShouldRetry(retries, error, fc, attempt) <==>
              && attempt < retries.retries && (ClassesOf(error) * retries.retryOn != {})
              && (retries.idempotentOnly ==> fc in {1, 2, 3, 4, 8})
    ensures MostAttempts(retries, fc)
            == if retries.retryOn == {} || (retries.idempotentOnly && fc !in {1, 2, 3, 4, 8}) then 1
               else 1 + retries.retries
  {
    forall c: ErrorClass
      ensures c.Matches(error) <==> c in ClassesOf(error)
    {
    }
    if c :| c in retries.retryOn && c.Matches(error) {
      assert c in ClassesOf(error) * retries.retryOn;
    }
    if ClassesOf(error) * retries.retryOn != {} {
      var c :| c in ClassesOf(error) * retries.retryOn;
      assert c.Matches(error);
    }
  }

  // Damage, an answer to something else, or none in time.
  predicate Transient(error: Error) {
    error in {ProtocolError, CrcError, LrcError, FrameError, UnexpectedResponse, FrameTimeout}
  }

  predicate IsDefaultPolicy(retries: RetryPolicy) {
    retries.retryOn == {AnyProtocolError, AnyFrameTimeout} && retries.idempotentOnly
  }

  // The default policy retries a timed-out or damaged read or loopback, and nothing else.
  lemma DefaultPolicyRetries(retries: RetryPolicy, error: Error, fc: byte, attempt: nat)
    requires IsDefaultPolicy(retries)
    ensures ShouldRetry(retries, error, fc, attempt) <==>
              Transient(error) && fc in {1, 2, 3, 4, 8} && attempt < retries.retries
  {
    RetriedExactly(retries, error, fc, attempt);
    var listed := ClassesOf(error) * retries.retryOn;
    assert AnyProtocolError in ClassesOf(error) || AnyFrameTimeout in ClassesOf(error) <==> Transient(error);
    assert listed != {} <==> AnyProtocolError in listed || AnyFrameTimeout in listed;
  }

  // The sends a history amounts to.
  function Sendings(xs: seq<Attempt>): (r: seq<Sending>)
    ensures |r| <= |xs|
  {
    if xs == [] then [] else Sendings(xs[..|xs| - 1]) + OneSending(xs[|xs| - 1])
  }

  // The reports of one call: one id, numbered from 1, every one but the last retried for a retryable error.
  ghost predicate CallReports(retries: RetryPolicy, mine: seq<Attempt>, id: nat, slave: byte, fc: byte,
                              adu: seq<byte>) {
    && |mine| <= retries.retries + 1
    && (forall i :: 0 <= i < |mine| ==>
          mine[i] == Attempt(id, i + 1, retries.retries + 1, mine[i].willRetry, slave, fc, false, adu, mine[i].error,
                             mine[i].record))
    && (forall i :: 0 <= i < |mine| ==>
          mine[i].willRetry
            == (mine[i].error.Some? && mine[i].error.value.IsModbusError()
                && ShouldRetry(retries, mine[i].error.value, fc, i)))
    && (forall i :: 0 <= i < |mine| - 1 ==> mine[i].willRetry)
  }

  // Each retry waits for the idle gap and the backoff after the attempt before it.
  ghost predicate Paced(mine: seq<Attempt>, config: BusConfig) {
    forall i :: 0 <= i < |mine| - 1 ==>
      mine[i].record.endedAt + config.timing.interFrameIdle + config.retries.backoffBase <= mine[i + 1].record.startedAt
  }

  // And the next attempt may start at t.
  ghost predicate PacedUntil(mine: seq<Attempt>, config: BusConfig, t: real) {
    && Paced(mine, config)
    && (mine != [] ==> mine[|mine| - 1].record.endedAt + config.timing.interFrameIdle + config.retries.backoffBase <= t)
  }

  lemma PacedFirst(config: BusConfig, t: real)
    ensures PacedUntil([], config, t)
  {}

  lemma PacedNext(mine: seq<Attempt>, x: Attempt, config: BusConfig, t: real)
    requires PacedUntil(mine, config, x.record.startedAt)
    ensures Paced(mine + [x], config)
    ensures x.record.endedAt + config.timing.interFrameIdle + config.retries.backoffBase <= t ==>
              PacedUntil(mine + [x], config, t)
  {}

  lemma NoReports(retries: RetryPolicy, id: nat, slave: byte, fc: byte, adu: seq<byte>)
    ensures CallReports(retries, [], id, slave, fc, adu)
  {}

  lemma NextReport(retries: RetryPolicy, mine: seq<Attempt>, x: Attempt, id: nat, slave: byte, fc: byte, adu: seq<byte>)
    requires CallReports(retries, mine, id, slave, fc, adu)
    requires |mine| <= retries.retries && (mine != [] ==> mine[|mine| - 1].willRetry)
    requires x == Attempt(id, |mine| + 1, retries.retries + 1, x.willRetry, slave, fc, false, adu, x.error, x.record)
    requires x.willRetry
             == (x.error.Some? && x.error.value.IsModbusError() && ShouldRetry(retries, x.error.value, fc, |mine|))
    ensures CallReports(retries, mine + [x], id, slave, fc, adu)
    ensures x.willRetry ==> |mine| < retries.retries
  {}

  // Nor does it make more.
  lemma MostMade(retries: RetryPolicy, mine: seq<Attempt>, id: nat, slave: byte, fc: byte, adu: seq<byte>)
    requires CallReports(retries, mine, id, slave, fc, adu)
    ensures |mine| <= MostAttempts(retries, fc)
    ensures forall i :: 0 <= i < |mine| && mine[i].willRetry ==> i + 1 < MostAttempts(retries, fc)
  {
    if |mine| > 1 {
      assert mine[0].willRetry;
    }
  }

  lemma AddressByte(framing: Framing, slave: int, pdu: seq<byte>)
    ensures Encode(framing, slave, pdu).Ok? <==> 0 <= slave < 256 && pdu != []
    ensures Encode(framing, slave, pdu).Err? ==> Encode(framing, slave, pdu).error == ConfigurationError
  {}

  // How a call comes to its end: with what its last attempt gave, or cancelled in the pause before a retry.
  predicate CallEnds<T>(last: Attempt, r: Result<T>) {
    if last.willRetry then r.Err? && r.error == Cancelled
    else last.error == if r.Ok? then None else Some(r.error)
  }

  // A call that held the lock: its reports, its pauses, and what its last attempt made of what it read.
  ghost predicate CallRan<T>(config: BusConfig, wire: Wire, mine: seq<Attempt>, id: nat, slave: byte, fc: byte,
                             adu: seq<byte>, decode: seq<byte> -> Result<T>, r: Result<T>) {
    && mine != [] && CallReports(config.retries, mine, id, slave, fc, adu) && Paced(mine, config)
    && var last := mine[|mine| - 1];
       CallEnds(last, r) && (last.willRetry || Concludes(wire, last.record.Read(), slave, fc, decode, r))
  }

  // Under the default policy a call goes on for as long as its attempts fail that way, to the last it may make: only a
  // cancelled pause ends it before. A call of any other function code makes one attempt.
  lemma DefaultPolicyAttempts<T>(config: BusConfig, wire: Wire, mine: seq<Attempt>, id: nat, slave: byte, fc: byte,
                                 adu: seq<byte>, decode: seq<byte> -> Result<T>, r: Result<T>)
    requires IsDefaultPolicy(config.retries) && CallRan(config, wire, mine, id, slave, fc, adu, decode, r)
    ensures fc !in {1, 2, 3, 4, 8} ==> |mine| == 1
    ensures forall i :: 0 <= i < |mine| - 1 ==> mine[i].error.Some? && Transient(mine[i].error.value)
    ensures var last := mine[|mine| - 1].error;
            fc in {1, 2, 3, 4, 8} && last.Some? && Transient(last.value) ==>
              |mine| == config.retries.retries + 1 || r == Err(Cancelled)
  {
    hide Concludes, ShouldRetry;
    forall i | 0 <= i < |mine| && mine[i].error.Some?
      ensures ShouldRetry(config.retries, mine[i].error.value, fc, i) <==>
                Transient(mine[i].error.value) && fc in {1, 2, 3, 4, 8} && i < config.retries.retries
    {
      DefaultPolicyRetries(config.retries, mine[i].error.value, fc, i);
    }
    if |mine| > 1 {
      assert mine[0].willRetry;
    }
  }

  function OneSending(x: Attempt): (r: seq<Sending>)
    ensures |r| <= 1
  {
    if x.record.sendAt.Some? then [Sending(x.record.sendAt.value, x.adu)] else []
  }

  lemma Regrouped<T>(a: seq<T>, b: seq<T>, c: seq<T>)
    ensures a + (b + c) == (a + b) + c
  {}

  lemma SendingsNext(xs: seq<Attempt>, x: Attempt)
    ensures Sendings(xs + [x]) == Sendings(xs) + OneSending(x)
  {
    assert (xs + [x])[..|xs|] == xs;
  }

  // Ids never decrease, and within one id the attempts are numbered upwards.
  predicate Before(x: Attempt, y: Attempt) {
    x.requestId < y.requestId || (x.requestId == y.requestId && x.number < y.number)
  }

  ghost predicate Numbered(xs: seq<Attempt>, count: nat) {
    && (forall i :: 0 <= i < |xs| ==> xs[i].requestId <= count)
    && (forall i, j :: 0 <= i < j < |xs| ==> Before(xs[i], xs[j]))
  }

  // The newest call has made no more than n attempts.
  ghost predicate UpTo(xs: seq<Attempt>, count: nat, n: nat) {
    forall i :: 0 <= i < |xs| && xs[i].requestId == count ==> xs[i].number <= n
  }

  lemma NumberedNext(xs: seq<Attempt>, x: Attempt, count: nat, n: nat)
    requires Numbered(xs, count) && UpTo(xs, count, n) && x.requestId == count && x.number == n + 1
    ensures Numbered(xs + [x], count) && UpTo(xs + [x], count, n + 1)
  {}

  lemma NumberedFirst(xs: seq<Attempt>, count: nat)
    requires Numbered(xs, count)
    ensures Numbered(xs, count + 1) && UpTo(xs, count + 1, 0)
  {}

  // An answered attempt has read one whole frame of its slave.
  ghost predicate ReadAnswer(x: Attempt, framing: Framing, incoming: seq<byte>) {
    !x.broadcast && x.Certain() ==>
      0 <= x.slave < 256 && exists pdu :: FrameRead(framing, incoming, x.record.readFrom, x.record.readTo, x.slave, pdu)
  }

  ghost predicate AnswersRead(xs: seq<Attempt>, framing: Framing, incoming: seq<byte>) {
    forall i :: 0 <= i < |xs| ==> ReadAnswer(xs[i], framing, incoming)
  }

  lemma AnswersReadNext(xs: seq<Attempt>, x: Attempt, framing: Framing, incoming: seq<byte>)
    requires AnswersRead(xs, framing, incoming) && ReadAnswer(x, framing, incoming)
    ensures AnswersRead(xs + [x], framing, incoming)
  {}

  class Bus {
    const stream: ByteStream
    const config: BusConfig
    const framing: Framing
    var lastIo: real
    var startupSettled: bool
    var closed: bool
    var quietUntil: Option<real>
    var requestCount: nat
    // What an observer registered from the start has been told.
    var reports: seq<Attempt>

    ghost function Now(): Clock
      reads this, stream
    {
      Clock(stream.now, stream.taken, lastIo, quietUntil)
    }

    // What earlier owners of the stream sent and took.
    ghost const sentBefore: seq<Sending>
    ghost const takenBefore: nat

    // What there is to read.
    ghost function OnWire(): Wire {
      Wire(framing, stream.incoming, stream.arrivesAt, stream.lag, config.timing.interCharIdle, config.requestTimeout)
    }

    constructor (stream: ByteStream, config: BusConfig, framing: Framing)
      requires config.Valid() && stream.Valid()
      ensures Valid() && this.stream == stream && this.config == config && this.framing == framing
      ensures reports == [] && !closed && requestCount == 0
    {
      this.stream, this.config, this.framing := stream, config, framing;
      lastIo, startupSettled, closed, quietUntil, requestCount, reports := 0.0, false, false, None, 0, [];
      sentBefore, takenBefore := stream.sends, stream.taken;
    }

    // Between calls: the history is orderly, and it is all the bus has sent.
    ghost predicate Valid()
      reads this, stream
    {
      && Running()
      && Orderly(reports, config, stream.arrivesAt, stream.lag)
      && BeginsAt(reports, takenBefore) && takenBefore <= stream.taken
      && (lastIo == 0.0 ==> !startupSettled)
      && Numbered(reports, requestCount)
      && AnswersRead(reports, framing, stream.incoming)
      && stream.sends == sentBefore + Sendings(reports)
    }

    // Between the steps of an attempt.
    ghost predicate Running()
      reads this, stream
    {
      && config.Valid() && stream.Valid() && 0.0 <= lastIo <= stream.now
      && AllSettled(reports, Now(), config, stream.arrivesAt, stream.lag)
    }

    // `aclose`: idempotent, and without the lock.
    method Close()
      requires Valid()
      modifies this`closed
      ensures Valid() && closed
    {
      hide Orderly, AllSettled, Numbered, AnswersRead, Sendings;
      closed := true;
    }

    // Discards until `quietUntil` has passed and the line has been silent for the inter-frame gap, of 1.75 ms at
    // least, or the cap is reached; `warned` is the "still busy" warning.
    method DiscardLateBytes(quietUntil: real) returns (r: Result<nat>, warned: bool, ghost quietSince: real)
      requires config.Valid() && stream.Valid()
      modifies this`lastIo, stream`now, stream`taken, stream`reach
      ensures stream.Valid() && old(stream.now) <= stream.now && old(stream.taken) <= stream.taken
      ensures old(stream.now) <= quietSince <= stream.now
      ensures stream.taken > old(stream.taken) ==>
                quietSince <= Later(old(stream.now), stream.arrivesAt[stream.taken - 1] + stream.lag)
      ensures if stream.taken == old(stream.taken) then lastIo == old(lastIo) && quietSince == old(stream.now)
              else lastIo == quietSince && stream.arrivesAt[stream.taken - 1] <= quietSince
      ensures r.Ok? ==> r.value == stream.taken - old(stream.taken)
      // Never later than the cap, apart from the lag of the wait itself.
      ensures r.Ok? ==>
                quietUntil <= stream.now <= Later(quietUntil, old(stream.now)) + config.requestTimeout + stream.lag
      ensures r.Ok? ==>
                (warned <==>
                 quietSince + Later(config.timing.interFrameIdle, 0.00175)
                 > Later(quietUntil, old(stream.now)) + config.requestTimeout)
      ensures r.Ok? && warned ==> Later(quietUntil, old(stream.now)) + config.requestTimeout <= stream.now
      // And then what is still to come was not there well before the cap.
      ensures r.Ok? && warned && stream.taken < |stream.incoming| ==>
                Later(quietUntil, old(stream.now)) + config.requestTimeout - stream.lag
                <= stream.arrivesAt[stream.taken]
      // Otherwise it ends with the silence or with the window, and no later.
      ensures r.Ok? && !warned ==>
                var until := Later(quietUntil, quietSince + Later(config.timing.interFrameIdle, 0.00175));
                until <= stream.now <= until + stream.lag && Beyond(stream.arrivesAt, stream.taken, until)
      ensures r.Err? ==> r.error.Stream? || r.error.Cancelled?
    {
      var idle := config.DiscardIdle();
      config.SilenceIsGap();
      hide BusConfig.DiscardIdle, TimingConfig.Valid;
      var since := stream.now;
      var limit := Later(quietUntil, since) + config.requestTimeout;
      var discarded: nat := 0;
      warned := false;
      while true
        invariant stream.Valid() && old(stream.now) <= since <= stream.now
        invariant stream.taken == old(stream.taken) + discarded
        invariant if discarded == 0 then lastIo == old(lastIo) && since == old(stream.now)
                  else lastIo == since && stream.arrivesAt[stream.taken - 1] <= since
        invariant discarded > 0 ==> since <= Later(old(stream.now), stream.arrivesAt[stream.taken - 1] + stream.lag)
        invariant stream.now <= limit + stream.lag
        invariant var until := Earlier(Later(quietUntil, since + idle), limit);
                  stream.now == since
                  || (until <= stream.now <= until + stream.lag && Beyond(stream.arrivesAt, stream.taken, until))
        decreases |stream.incoming| - stream.taken, if stream.now == since then 1 else 0
      {
        var until := Earlier(Later(quietUntil, since + idle), limit);
        if until <= stream.now {
          break;
        }
        var received := stream.Receive(DISCARD_CHUNK_BYTES, Some(until));
        match received {
          case Chunk(bytes) =>
            discarded := discarded + |bytes|;
            since := stream.now;
            lastIo := since;
          case Expired =>
          case Raised(error) => return Err(error), false, since;
        }
      }
      warned := since + idle > limit;
      return Ok(discarded), warned, since;
    }

    // At least `inter_frame_idle` since the last I/O; the first frame waits for the one startup settle.
    method AwaitInterFrameGap() returns (r: Result<()>)
      requires config.Valid() && stream.Valid()
      modifies this`startupSettled, stream`now
      ensures stream.Valid() && old(stream.now) <= stream.now
      ensures r.Ok? && lastIo != 0.0 ==> lastIo + config.timing.interFrameIdle <= stream.now
      ensures r.Ok? && lastIo == 0.0 && !old(startupSettled) ==>
                old(stream.now) + config.timing.startupSettle <= stream.now
      ensures startupSettled == (old(startupSettled) || lastIo == 0.0)
      ensures r.Err? ==> r.error.Cancelled?
    {
      if lastIo == 0.0 {
        if !startupSettled {
          startupSettled := true;
          if config.timing.startupSettle > 0.0 {
            r := stream.Sleep(config.timing.startupSettle);
            return;
          }
        }
        return Ok(());
      }
      var elapsed := stream.now - lastIo;
      if elapsed < config.timing.interFrameIdle {
        r := stream.Sleep(config.timing.interFrameIdle - elapsed);
        return;
      }
      return Ok(());
    }

    // A discard that fails leaves the pending window in force; one that returns closes it.
    method WaitOutWindow() returns (r: Result<nat>, warned: bool)
      requires Running()
      modifies this`lastIo, this`quietUntil, stream`now, stream`taken, stream`reach
      ensures Running() && old(stream.now) <= stream.now && old(stream.taken) <= stream.taken && old(lastIo) <= lastIo
      ensures r.Ok? ==> r.value == stream.taken - old(stream.taken)
      ensures r.Ok? ==> quietUntil.None? && (old(quietUntil).Some? ==> old(quietUntil).value <= stream.now)
      ensures r.Err? ==> quietUntil == old(quietUntil)
      ensures stream.taken > old(stream.taken) ==> stream.arrivesAt[stream.taken - 1] <= lastIo
      // Only bytes that come after the window, nearly a timeout later, keep it busy up to the cap.
      ensures warned && config.Roomy(stream.lag) ==>
                old(stream.taken) < stream.taken && old(quietUntil).Some?
                && Later(old(quietUntil).value, old(stream.now))
                   + (config.requestTimeout - stream.lag - config.DiscardIdle())
                   < stream.arrivesAt[stream.taken - 1]
      ensures r.Err? ==> r.error.Stream? || r.error.Cancelled?
    {
      hide AllSettled;
      if quietUntil.None? {
        return Ok(0), false;
      }
      ghost var before := Now();
      ghost var since;
      r, warned, since := DiscardLateBytes(quietUntil.value);
      if r.Err? {
        SettledLater(reports, before, Now(), config, stream.arrivesAt, stream.lag);
        return Err(r.error), false;
      }
      quietUntil := None;
      SettledCleared(reports, before, Now(), config, stream.arrivesAt, stream.lag);
    }

    // Waits out the late-reply window, then the idle gap.
    method AwaitLineIdle() returns (r: Result<nat>, warned: bool)
      requires Running()
      modifies this`lastIo, this`quietUntil, this`startupSettled, stream`now, stream`taken, stream`reach
      ensures Running() && old(stream.now) <= stream.now && old(stream.taken) <= stream.taken && old(lastIo) <= lastIo
      ensures r.Ok? ==> quietUntil.None? && (lastIo > 0.0 ==> lastIo + config.timing.interFrameIdle <= stream.now)
      ensures r.Ok? ==> r.value == stream.taken - old(stream.taken)
      ensures quietUntil == old(quietUntil) || (quietUntil.None? && old(quietUntil.value) <= stream.now)
      ensures r.Ok? && lastIo == 0.0 && !old(startupSettled) ==>
                old(stream.now) + config.timing.startupSettle <= stream.now
      ensures stream.taken > old(stream.taken) ==> stream.arrivesAt[stream.taken - 1] <= lastIo
      // Only bytes that come after the window, nearly a timeout later, keep it busy up to the cap.
      ensures warned && config.Roomy(stream.lag) ==>
                old(stream.taken) < stream.taken && old(quietUntil).Some?
                && Later(old(quietUntil).value, old(stream.now))
                   + (config.requestTimeout - stream.lag - config.DiscardIdle())
                   < stream.arrivesAt[stream.taken - 1]
      ensures r.Err? ==> r.error.Stream? || r.error.Cancelled?
    {
      hide AllSettled;
      r, warned := WaitOutWindow();
      if r.Err? {
        return;
      }
      ghost var cleared := Now();
      var gap := AwaitInterFrameGap();
      SettledLater(reports, cleared, Now(), config, stream.arrivesAt, stream.lag);
      if gap.Err? {
        r := Err(gap.error);
      }
    }

    // What a send of this record's attempt adds to what the stream was asked to send.
    ghost predicate Sent(before: seq<Sending>, record: Record, adu: seq<byte>)
      reads stream
    {
      stream.sends == before + if record.sendAt.Some? then [Sending(record.sendAt.value, adu)] else []
    }

    // The record of a running attempt: orderly so far.
    ghost predicate Recorded(record: Record)
      reads this, stream
    {
      && RecordHolds(record, config, stream.arrivesAt, stream.lag)
      && AllBefore(reports, record, config, stream.arrivesAt, stream.lag)
      && record.endedAt <= stream.now && record.readTo <= stream.taken
    }

    // Drops what has arrived before the request, where the configuration asks for it.
    method MaybeResetInput(reset: bool) returns (r: Result<()>)
      requires stream.Valid()
      modifies stream`now, stream`taken, stream`reach
      ensures stream.Valid() && old(stream.now) <= stream.now && old(stream.taken) <= stream.taken
      ensures !reset ==> r.Ok? && stream.taken == old(stream.taken) && stream.now == old(stream.now)
      ensures reset && r.Ok? ==> Beyond(stream.arrivesAt, stream.taken, old(stream.now))
      ensures r.Err? ==> r.error.Stream? || r.error.Cancelled?
    {
      r := Ok(());
      if reset {
        r := stream.ResetInput();
      }
    }

    // The record of the attempt once it sends now.
    function Sends(record: Record, reset: bool): Record
      reads stream
    {
      record.(sendAt := Some(stream.now), reset := reset)
    }

    // From the start of an attempt until its frame may go out.
    method PrepareLine(reset: bool) returns (r: Result<()>, record: Record)
      requires Running() && (lastIo == 0.0 ==> !startupSettled)
      modifies this`lastIo, this`quietUntil, this`startupSettled, stream`now, stream`taken, stream`reach
      ensures Running() && old(lastIo) <= lastIo && old(stream.now) == record.startedAt <= stream.now
      ensures record.discardFrom == old(stream.taken) <= stream.taken
      ensures Recorded(record) && record.sendAt.None? && record.sentAt.None? && record.readAt.None?
      ensures record.endedAt == stream.now && record.readFrom == record.readTo == stream.taken
      ensures r.Ok? ==> Recorded(Sends(record, reset))
      ensures r.Ok? && reset ==> Beyond(stream.arrivesAt, record.readFrom, record.startedAt)
      ensures r.Err? ==> r.error.Stream? || r.error.Cancelled?
    {
      hide AllSettled, AllBefore, RecordHolds;
      var startedAt, from := stream.now, stream.taken;
      ghost var before := Now();
      var late, warned := AwaitLineIdle();
      record := Record(startedAt, from, if late.Ok? then late.value else 0, lastIo, None, None, None,
                       stream.now, stream.taken, stream.taken, stream.taken, warned, false);
      RecordWaits(record, config, stream.arrivesAt, stream.lag);
      SettledFollows(reports, before, record, config, stream.arrivesAt, stream.lag);
      if late.Err? {
        return Err(late.error), record;
      }
      r, record := ResetBefore(reset, record);
    }

    // The input reset, once the line has been idle long enough.
    method ResetBefore(reset: bool, waited: Record) returns (r: Result<()>, record: Record)
      requires Running() && Recorded(waited)
      requires waited.sendAt.None? && waited.sentAt.None? && waited.readAt.None?
      requires waited.endedAt == stream.now && waited.readFrom == waited.readTo == stream.taken && quietUntil.None?
      requires waited.lastIoBefore == lastIo && (lastIo > 0.0 ==> lastIo + config.timing.interFrameIdle <= stream.now)
      requires waited.startedAt <= stream.now
               && (lastIo == 0.0 ==> waited.startedAt + config.timing.startupSettle <= stream.now)
      modifies stream`now, stream`taken, stream`reach
      ensures Running() && old(stream.now) <= stream.now && old(stream.taken) <= stream.taken && Recorded(record)
      ensures record == waited.(endedAt := stream.now, readFrom := stream.taken, readTo := stream.taken)
      ensures r.Ok? ==> Recorded(Sends(record, reset))
      ensures r.Ok? && reset ==> Beyond(stream.arrivesAt, record.readFrom, record.startedAt)
      ensures r.Err? ==> r.error.Stream? || r.error.Cancelled?
    {
      hide AllSettled, AllBefore, RecordHolds;
      ghost var idle := Now();
      r := MaybeResetInput(reset);
      record := waited.(endedAt := stream.now, readFrom := stream.taken, readTo := stream.taken);
      SettledLater(reports, idle, Now(), config, stream.arrivesAt, stream.lag);
      RecordResets(waited, stream.taken, stream.now, config, stream.arrivesAt, stream.lag);
      ResetFollows(reports, waited, record, config, stream.arrivesAt, stream.lag);
      if r.Ok? {
        RecordSends(record, reset, config, stream.arrivesAt, stream.lag);
        ClearedFollows(reports, idle, record, Sends(record, reset), config, stream.arrivesAt, stream.lag);
      }
    }

    // The frame goes out: the record's send is now.
    method SendFrame(adu: seq<byte>, ready: Record) returns (r: Result<()>, record: Record)
      requires Running() && Recorded(ready) && ready.sendAt == Some(stream.now) && ready.readFrom == stream.taken
      requires ready.sentAt.None? && ready.readAt.None?
      modifies stream`now, stream`sends
      ensures Running() && Recorded(record)
      ensures record == ready.(sentAt := record.sentAt, endedAt := stream.now)
      ensures r.Ok? ==> record.sentAt == Some(stream.now)
      ensures r.Err? ==> record.sentAt.None? && (r.error.Stream? || r.error.Cancelled?)
      ensures stream.sends == old(stream.sends) + [Sending(ready.sendAt.value, adu)]
    {
      hide AllSettled, AllBefore, RecordHolds;
      ghost var before := Now();
      r := stream.Send(adu);
      if r.Ok? && config.drains {
        r := stream.Pause();
      }
      SettledLater(reports, before, Now(), config, stream.arrivesAt, stream.lag);
      record := ready.(endedAt := stream.now);
      RecordStamped(ready, stream.now, config, stream.arrivesAt, stream.lag);
      if r.Ok? {
        RecordSent(record, stream.now, config, stream.arrivesAt, stream.lag);
        record := record.(sentAt := Some(stream.now));
      }
      SentFollows(reports, ready, record, config, stream.arrivesAt, stream.lag);
    }

    // One raw frame read as the reply, in the bus's framing.
    method ReadAdu(slave: byte, deadline: Deadline) returns (r: Result<(byte, seq<byte>)>)
      requires config.Valid() && stream.Valid()
      modifies stream`now, stream`taken, stream`reach
      ensures stream.Valid() && old(stream.now) <= stream.now && old(stream.taken) <= stream.taken
      ensures ReplyRead(framing, stream.incoming, old(stream.taken), stream.taken, slave, r)
      ensures Waited(r.TimedOut(), old(stream.now), stream.now, deadline, stream.lag)
      ensures NoReplyThere(framing, stream.incoming, old(stream.taken), slave, r.TimedOut(), old(stream.now), deadline,
                           stream.arrivesAt, stream.lag)
      ensures OnWire().Telling() ==>
                NotThere(r.TimedOut(), old(stream.now), deadline, stream.arrivesAt, stream.lag, stream.taken + 1)
      ensures framing.Rtu? ==> exists cuts ::
                RtuStopped(stream.incoming, stream.arrivesAt, stream.lag, config.timing.interCharIdle, old(stream.now),
                           old(stream.taken), stream.taken, slave, r, cuts)
    {
      match framing {
        case Rtu => r := ReadRtu(slave, deadline);
        case Ascii => r := ReadAscii(slave, deadline);
      }
    }

    method ReadRtu(slave: byte, deadline: Deadline) returns (r: Result<(byte, seq<byte>)>)
      requires config.Valid() && stream.Valid()
      modifies stream`now, stream`taken, stream`reach
      ensures stream.Valid() && old(stream.now) <= stream.now && old(stream.taken) <= stream.taken
      ensures ReplyRead(Rtu, stream.incoming, old(stream.taken), stream.taken, slave, r)
      ensures Waited(r.TimedOut(), old(stream.now), stream.now, deadline, stream.lag)
      ensures NoReplyThere(Rtu, stream.incoming, old(stream.taken), slave, r.TimedOut(), old(stream.now), deadline,
                           stream.arrivesAt, stream.lag)
      ensures NextMissing(r.TimedOut(), old(stream.now), deadline, stream.arrivesAt, stream.lag,
                          config.timing.interCharIdle, stream.taken)
      ensures exists cuts ::
                RtuStopped(stream.incoming, stream.arrivesAt, stream.lag, config.timing.interCharIdle, old(stream.now),
                           old(stream.taken), stream.taken, slave, r, cuts)
    {
      ghost var from, began, gap := stream.taken, stream.now, config.timing.interCharIdle;
      hide ReplyRead, RtuReplyRead, NotThere, NextMissing, NoReplyThere, Waited, Strays, TakesStrays, StoppedAt;
      hide RtuStopped, ParseReply, AgreesWith, AcceptedFrame, JudgeBurst;
      ghost var cuts;
      r, cuts := ReadRawAdu(stream, slave, config.timing.interCharIdle, deadline);
      RtuResult(stream.incoming, from, stream.taken, slave, r, cuts);
      RtuInTime(stream.incoming, stream.arrivesAt, stream.lag, gap, began, from, stream.taken, slave, r, deadline,
                cuts);
    }

    method ReadAscii(slave: byte, deadline: Deadline) returns (r: Result<(byte, seq<byte>)>)
      requires stream.Valid()
      modifies stream`now, stream`taken, stream`reach
      ensures stream.Valid() && old(stream.now) <= stream.now && old(stream.taken) <= stream.taken
      ensures ReplyRead(Ascii, stream.incoming, old(stream.taken), stream.taken, slave, r)
      ensures Waited(r.TimedOut(), old(stream.now), stream.now, deadline, stream.lag)
      ensures NoReplyThere(Ascii, stream.incoming, old(stream.taken), slave, r.TimedOut(), old(stream.now), deadline,
                           stream.arrivesAt, stream.lag)
      ensures NotThere(r.TimedOut(), old(stream.now), deadline, stream.arrivesAt, stream.lag, stream.taken + 1)
    {
      ghost var from, began := stream.taken, stream.now;
      hide ReplyRead, AsciiFramer.ReplyFrom, AsciiFramer.ReadsReplyUnless, NotThere, NoReplyThere, Waited, Timed;
      r := AsciiFramer.ReadAsciiAdu(stream, slave, deadline);
      AsciiResult(stream.incoming, from, stream.taken, slave, r);
      AsciiInTime(stream.incoming, from, stream.taken, slave, r, began, stream.now, deadline, stream.arrivesAt,
                  stream.lag);
    }

    // The reply, once the settling delay after `sentAt` is over.
    method ReadReply<T>(slave: byte, fc: byte, decode: seq<byte> -> Result<T>, ghost sentAt: real)
      returns (r: Result<T>)
      requires config.Valid() && stream.Valid() && sentAt + config.timing.postTxSettle <= stream.now
      modifies stream`now, stream`taken, stream`reach
      ensures stream.Valid() && old(stream.taken) <= stream.taken
      ensures old(stream.now) <= stream.now <= old(stream.now) + config.requestTimeout + stream.lag
      ensures Reads(OnWire(), Reading(old(stream.taken), stream.taken, Some(old(stream.now)), stream.now), slave, fc,
                    decode, r)
    {
      hide ReplyRead, Interpret, NoReplyThere, RtuStopped;
      ghost var from, began := stream.taken, stream.now;
      var frame := ReadAdu(slave, Some(stream.now + config.requestTimeout));
      ReadOfFrame(framing, stream.incoming, from, stream.taken, slave, frame);
      GivesFrame(OnWire(), Reading(from, stream.taken, Some(began), stream.now), slave, frame);
      r := Conclusion(frame, fc, decode);
    }

    // The body of one attempt, before its failure is translated and its end stamped.
    method Exchange<T>(adu: seq<byte>, slave: byte, fc: byte, decode: seq<byte> -> Result<T>)
      returns (r: Result<T>, record: Record)
      requires Running() && (lastIo == 0.0 ==> !startupSettled)
      modifies this`lastIo, this`quietUntil, this`startupSettled, stream
      ensures Running() && old(lastIo) <= lastIo && Recorded(record) && record.endedAt == stream.now
      ensures record.startedAt == old(stream.now) && record.discardFrom == old(stream.taken) <= stream.taken
      ensures Sent(old(stream.sends), record, adu)
      ensures config.resetsInput && record.sendAt.Some? ==>
                record.reset && Beyond(stream.arrivesAt, record.readFrom, record.startedAt)
      ensures Reads(OnWire(), record.Read(), slave, fc, decode, r)
    {
      hide AllSettled, AllBefore, Reads, RecordHolds;
      var step;
      step, record := PrepareLine(config.resetsInput);
      if step.Err? {
        NothingRead(OnWire(), record.Read(), slave, fc, decode, step.error);
        return Err(step.error), record;
      }
      step, record := SendFrame(adu, Sends(record, config.resetsInput));
      if step.Err? {
        NothingRead(OnWire(), record.Read(), slave, fc, decode, step.error);
        return Err(step.error), record;
      }
      r, record := AwaitReply(slave, fc, decode, record);
    }

    // The settling delay after a send, and the reply.
    method AwaitReply<T>(slave: byte, fc: byte, decode: seq<byte> -> Result<T>, sent: Record)
      returns (r: Result<T>, record: Record)
      requires Running() && Recorded(sent) && sent.sendAt.Some? && sent.sentAt == Some(stream.now) && sent.readAt.None?
      requires sent.endedAt == stream.now && sent.readFrom == sent.readTo == stream.taken
      modifies stream`now, stream`taken, stream`reach
      ensures Running() && Recorded(record)
      ensures record == sent.(readAt := record.readAt, readTo := stream.taken, endedAt := stream.now)
      ensures old(stream.taken) <= stream.taken
      // Nothing is read before the settling delay is over, nor for longer than the request timeout.
      ensures if record.readAt.Some? then
                && sent.sentAt.value + config.timing.postTxSettle <= record.readAt.value <= stream.now
                && stream.now <= record.readAt.value + config.requestTimeout + stream.lag
              else r == Err(Cancelled) && record.readTo == sent.readTo
      ensures Reads(OnWire(), record.Read(), slave, fc, decode, r)
    {
      hide AllSettled, AllBefore, Reads, RecordHolds;
      ghost var before := Now();
      var settled: Result<()> := Ok(());
      if config.timing.postTxSettle > 0.0 {
        settled := stream.Sleep(config.timing.postTxSettle);
      }
      if settled.Err? {
        r := Err(settled.error);
        record := sent.(endedAt := stream.now);
        NothingRead(OnWire(), record.Read(), slave, fc, decode, settled.error);
        RecordStamped(sent, stream.now, config, stream.arrivesAt, stream.lag);
      } else {
        var readAt := stream.now;
        r := ReadReply(slave, fc, decode, sent.sentAt.value);
        record := sent.(readAt := Some(readAt), readTo := stream.taken, endedAt := stream.now);
        RecordEnds(sent, readAt, stream.taken, stream.now, config, stream.arrivesAt, stream.lag);
      }
      SettledLater(reports, before, Now(), config, stream.arrivesAt, stream.lag);
      SentFollows(reports, sent, record, config, stream.arrivesAt, stream.lag);
    }

    // The next frame's idle gap runs from here, however the attempt ended.
    method StampEnd(record: Record) returns (stamped: Record)
      requires Running() && Recorded(record) && (record.readAt.Some? ==> record.endedAt == stream.now)
      modifies this`lastIo
      ensures Running() && lastIo == stream.now
      ensures stamped == record.(endedAt := stream.now) && Recorded(stamped)
    {
      hide AllSettled, AllBefore, RecordHolds;
      ghost var before := Now();
      lastIo := stream.now;
      SettledLater(reports, before, Now(), config, stream.arrivesAt, stream.lag);
      stamped := record.(endedAt := stream.now);
      RecordStamped(record, stream.now, config, stream.arrivesAt, stream.lag);
      SentFollows(reports, record, stamped, config, stream.arrivesAt, stream.lag);
    }

    method Translate(error: Error) returns (t: Error)
      modifies this`closed
      ensures t == Translated(error) && closed == (old(closed) || error == Stream(Closed))
    {
      closed := closed || error == Stream(Closed);
      t := Translated(error);
    }

    method OneTxn<T>(adu: seq<byte>, slave: byte, fc: byte, decode: seq<byte> -> Result<T>)
      returns (r: Result<T>, record: Record)
      requires Running() && (lastIo == 0.0 ==> !startupSettled)
      modifies this`lastIo, this`quietUntil, this`startupSettled, this`closed, stream
      ensures old(closed) ==> closed
      ensures Running() && Recorded(record) && record.endedAt == lastIo == stream.now
      ensures record.startedAt == old(stream.now) && record.discardFrom == old(stream.taken) <= stream.taken
      ensures Sent(old(stream.sends), record, adu)
      ensures config.resetsInput && record.sendAt.Some? ==>
                record.reset && Beyond(stream.arrivesAt, record.readFrom, record.startedAt)
      ensures r.Err? ==> !r.error.Stream?
      ensures Concludes(OnWire(), record.Read(), slave, fc, decode, r)
    {
      hide AllSettled, AllBefore, RecordHolds, Reads, Concludes;
      r, record := Exchange(adu, slave, fc, decode);
      ReadsConcludes(OnWire(), record.Read(), slave, fc, decode, r);
      if r.Err? {
        var error := Translate(r.error);
        r := Err(error);
      }
      record := StampEnd(record);
    }

    method SendBroadcast(adu: seq<byte>) returns (r: Result<()>, record: Record)
      requires Running() && (lastIo == 0.0 ==> !startupSettled)
      modifies this`lastIo, this`quietUntil, this`startupSettled, this`closed, stream
      ensures old(closed) ==> closed
      ensures Running() && Recorded(record) && record.endedAt == lastIo == stream.now
      ensures record.startedAt == old(stream.now) && record.discardFrom == old(stream.taken) <= stream.taken
      ensures Sent(old(stream.sends), record, adu)
      ensures record.readFrom == record.readTo
      ensures r.Err? ==> !r.error.Stream?
      // The turnaround is held inside the attempt.
      ensures r.Ok? ==> record.sentAt.Some? && record.sentAt.value + config.timing.broadcastTurnaround <= record.endedAt
    {
      hide AllSettled, AllBefore, RecordHolds;
      r, record := PrepareLine(false);
      if r.Ok? {
        r, record := SendFrame(adu, Sends(record, false));
        if r.Ok? {
          ghost var sent := Now();
          r := stream.Sleep(config.timing.broadcastTurnaround);
          SettledLater(reports, sent, Now(), config, stream.arrivesAt, stream.lag);
        }
      }
      if r.Err? {
        var error := Translate(r.error);
        r := Err(error);
      }
      record := StampEnd(record);
    }

    // Everything is kept but the report of `x`, which has just ended.
    ghost predicate Ending(x: Attempt)
      reads this, stream
    {
      && Running()
      && Orderly(reports, config, stream.arrivesAt, stream.lag)
      && BeginsAt(reports, takenBefore) && takenBefore <= x.record.discardFrom <= stream.taken
      && Numbered(reports, requestCount) && x.requestId == requestCount
      && x.number > 0 && UpTo(reports, requestCount, x.number - 1)
      && AnswersRead(reports, framing, stream.incoming) && ReadAnswer(x, framing, stream.incoming)
      && stream.sends == sentBefore + Sendings(reports) + OneSending(x)
      && Recorded(x.record) && AttemptHolds(x, config, stream.arrivesAt, stream.lag)
      && x.record.endedAt == lastIo == stream.now
    }

    // Opens a late-reply window after an attempt whose reply may still come, then reports it.
    method FinishAttempt(x: Attempt)
      requires Ending(x)
      modifies this`quietUntil, this`reports
      ensures Valid() && reports == old(reports) + [x] && UpTo(reports, requestCount, x.number)
      ensures var until := x.record.endedAt + config.timing.lateReplyWindow;
              quietUntil == if config.timing.lateReplyWindow > 0.0 && x.Uncertain()
                            then Some(if old(quietUntil).Some? then Later(old(quietUntil).value, until) else until)
                            else old(quietUntil)
    {
      hide Orderly, AllBefore, AllSettled, AttemptHolds, Sendings, OneSending;
      hide Numbered, UpTo, AnswersRead, ReadAnswer;
      var window := config.timing.lateReplyWindow;
      ghost var before := Now();
      if window > 0.0 && x.Uncertain() {
        var until := x.record.endedAt + window;
        if quietUntil.None? || until > quietUntil.value {
          quietUntil := Some(until);
        }
      }
      SettledNext(reports, x, before, Now(), config, stream.arrivesAt, stream.lag);
      OrderlyNext(reports, x, config, stream.arrivesAt, stream.lag);
      NumberedNext(reports, x, requestCount, x.number - 1);
      AnswersReadNext(reports, x, framing, stream.incoming);
      SendingsNext(reports, x);
      reports := reports + [x];
    }

    // One attempt of a call, reported.
    method Attempted<T>(adu: seq<byte>, slave: byte, fc: byte, decode: seq<byte> -> Result<T>, attempt: nat)
      returns (r: Result<T>, x: Attempt)
      requires Valid() && UpTo(reports, requestCount, attempt)
      modifies this`lastIo, this`quietUntil, this`startupSettled, this`closed, this`reports, stream
      ensures old(closed) ==> closed
      ensures Valid() && reports == old(reports) + [x] && UpTo(reports, requestCount, attempt + 1)
      ensures x == Attempt(requestCount, attempt + 1, config.retries.retries + 1, x.willRetry, slave, fc, false, adu,
                           if r.Ok? then None else Some(r.error), x.record)
      ensures x.record.startedAt == old(stream.now) && x.record.endedAt == stream.now
      ensures x.record.discardFrom == old(stream.taken) <= stream.taken
      ensures x.willRetry <==> r.Err? && r.error.IsModbusError() && ShouldRetry(config.retries, r.error, fc, attempt)
      ensures Concludes(OnWire(), x.record.Read(), slave, fc, decode, r)
    {
      hide Orderly, AllBefore, AllSettled, Concludes, FrameRead, RecordHolds, Sendings;
      hide Numbered, UpTo, AnswersRead, ShouldRetry;
      var record;
      r, record := OneTxn(adu, slave, fc, decode);
      var willRetry := r.Err? && r.error.IsModbusError() && ShouldRetry(config.retries, r.error, fc, attempt);
      x := Attempt(requestCount, attempt + 1, config.retries.retries + 1, willRetry, slave, fc, false, adu,
                   if r.Ok? then None else Some(r.error), record);
      if x.Certain() {
        ghost var _ :=
          CertainReadsFrame(OnWire(), record.Read(), slave, fc, decode, r);
      }
      FinishAttempt(x);
    }

    // The loop of `_txn`, after its request id is drawn.
    method RetryLoop<T>(adu: seq<byte>, slave: byte, fc: byte, decode: seq<byte> -> Result<T>)
      returns (r: Result<T>, ghost mine: seq<Attempt>)
      requires Valid() && UpTo(reports, requestCount, 0)
      modifies this`lastIo, this`quietUntil, this`startupSettled, this`closed, this`reports, stream
      ensures old(closed) ==> closed
      ensures Valid() && reports == old(reports) + mine && mine != []
      ensures old(stream.taken) <= mine[|mine| - 1].record.discardFrom
      ensures CallRan(config, OnWire(), mine, requestCount, slave, fc, adu, decode, r)
    {
      hide Orderly, AllSettled, Concludes, CallReports, Paced, PacedUntil, Sendings;
      hide ShouldRetry, Numbered, UpTo, AnswersRead;
      mine := [];
      PacedFirst(config, stream.now);
      var attempt: nat := 0;
      NoReports(config.retries, requestCount, slave, fc, adu);
      while true
        invariant Valid() && attempt <= config.retries.retries && UpTo(reports, requestCount, attempt)
        invariant old(closed) ==> closed
        invariant |mine| == attempt && reports == old(reports) + mine && old(stream.taken) <= stream.taken
        invariant CallReports(config.retries, mine, requestCount, slave, fc, adu)
        invariant mine != [] ==> mine[|mine| - 1].willRetry
        invariant PacedUntil(mine, config, stream.now)
        decreases config.retries.retries - attempt
      {
        var x;
        r, x := Attempted(adu, slave, fc, decode, attempt);
        NextReport(config.retries, mine, x, requestCount, slave, fc, adu);
        ghost var before := mine;
        PacedNext(before, x, config, stream.now);
        mine := mine + [x];
        if !x.willRetry {
          return;
        }
        ghost var ended := Now();
        var pause := stream.Sleep(config.timing.interFrameIdle + config.retries.backoffBase);
        SettledLater(reports, ended, Now(), config, stream.arrivesAt, stream.lag);
        PacedNext(before, x, config, stream.now);
        if pause.Err? {
          return Err(pause.error), mine;
        }
        attempt := attempt + 1;
      }
    }

    // What is checked before the lock is taken: the frame to send, or why there is none.
    method Admit(slave: int, pdu: seq<byte>) returns (r: Result<seq<byte>>)
      ensures r.Ok? <==> !closed && slave != 0 && 0 <= slave < 256 && pdu != []
      ensures r.Ok? ==> r == Encode(framing, slave, pdu)
      ensures r.Err? ==> r.error == if closed then BusClosed else ConfigurationError
    {
      if closed {
        return Err(BusClosed);
      }
      if slave == BROADCAST_ADDRESS {
        return Err(ConfigurationError);
      }
      AddressByte(framing, slave, pdu);
      return Encode(framing, slave, pdu);
    }

    // A call that holds the lock makes an attempt, even if the bus was closed while it waited.
    method RunAdmitted<T>(adu: seq<byte>, slave: byte, fc: byte, decode: seq<byte> -> Result<T>)
      returns (r: Result<T>, ghost mine: seq<Attempt>)
      requires Valid()
      modifies this`lastIo, this`quietUntil, this`startupSettled, this`closed, this`reports,
               this`requestCount, stream
      ensures old(closed) ==> closed
      ensures Valid() && reports == old(reports) + mine && mine != [] && requestCount == old(requestCount) + 1
      ensures old(stream.taken) <= mine[|mine| - 1].record.discardFrom
      ensures CallRan(config, OnWire(), mine, requestCount, slave, fc, adu, decode, r)
    {
      hide Orderly, AllSettled, Sendings, CallRan, Numbered, UpTo, AnswersRead;
      NumberedFirst(reports, requestCount);
      requestCount := requestCount + 1;
      r, mine := RetryLoop(adu, slave, fc, decode);
    }

    // One call when no other call is waiting: the request is sent until it is answered, refused or given up.
    method Txn<T>(slave: int, pdu: seq<byte>, fc: byte, decode: seq<byte> -> Result<T>)
      returns (r: Result<T>, ghost mine: seq<Attempt>)
      requires Valid()
      modifies this`lastIo, this`quietUntil, this`startupSettled, this`closed, this`reports,
               this`requestCount, stream
      ensures Valid() && reports == old(reports) + mine
      ensures mine == [] <==> old(closed) || slave == 0 || !(0 <= slave < 256) || pdu == []
      ensures mine == [] ==> requestCount == old(requestCount) && stream.sends == old(stream.sends)
                             && r == Err(if old(closed) then BusClosed else ConfigurationError)
      ensures mine != [] ==>
                requestCount == old(requestCount) + 1 && old(stream.taken) <= mine[|mine| - 1].record.discardFrom
      ensures mine != [] ==> Encode(framing, slave, pdu).Ok?
                             && CallRan(config, OnWire(), mine, requestCount, slave, fc,
                                        Encode(framing, slave, pdu).value, decode, r)
    {
      hide Valid, CallRan;
      var adu := Admit(slave, pdu);
      if adu.Err? {
        return Err(adu.error), [];
      }
      r, mine := RunAdmitted(adu.value, slave, fc, decode);
    }

    // `_broadcast` before the lock.
    method AdmitBroadcast(pdu: seq<byte>) returns (r: Result<seq<byte>>)
      ensures r.Ok? <==> !closed && pdu != [] && pdu[0] in {5, 6, 15, 16}
      ensures r.Ok? ==> r == Encode(framing, 0, pdu)
      ensures r.Err? ==> r.error == if closed then BusClosed else ConfigurationError
    {
      if closed {
        return Err(BusClosed);
      }
      if pdu == [] || !BroadcastEligible(pdu[0]) {
        return Err(ConfigurationError);
      }
      return Encode(framing, BROADCAST_ADDRESS, pdu);
    }

    // A broadcast that holds the lock.
    method RunBroadcast(adu: seq<byte>, fc: byte) returns (r: Result<()>, x: Attempt)
      requires Valid()
      modifies this`lastIo, this`quietUntil, this`startupSettled, this`closed, this`reports,
               this`requestCount, stream
      ensures old(closed) ==> closed
      ensures Valid() && reports == old(reports) + [x] && requestCount == old(requestCount) + 1
      ensures x == Attempt(requestCount, 1, 1, false, 0, fc, true, adu,
                           if r.Ok? then None else Some(r.error), x.record)
    {
      hide Orderly, AllSettled, AllBefore, RecordHolds, Sendings, Numbered, UpTo, AnswersRead;
      NumberedFirst(reports, requestCount);
      requestCount := requestCount + 1;
      var record;
      r, record := SendBroadcast(adu);
      x := Attempt(requestCount, 1, 1, false, BROADCAST_ADDRESS, fc, true, adu,
                   if r.Ok? then None else Some(r.error), record);
      FinishAttempt(x);
    }

    method Broadcast(pdu: seq<byte>) returns (r: Result<()>, ghost mine: seq<Attempt>)
      requires Valid()
      modifies this`lastIo, this`quietUntil, this`startupSettled, this`closed, this`reports,
               this`requestCount, stream
      ensures Valid() && reports == old(reports) + mine
      ensures mine == [] <==> old(closed) || pdu == [] || pdu[0] !in {5, 6, 15, 16}
      ensures mine == [] ==> requestCount == old(requestCount) && stream.sends == old(stream.sends)
                             && r == Err(if old(closed) then BusClosed else ConfigurationError)
      ensures mine != [] ==> requestCount == old(requestCount) + 1 && |mine| == 1 && pdu != []
                             && Encode(framing, 0, pdu) == Ok(mine[0].adu)
                             && mine[0] == Attempt(requestCount, 1, 1, false, 0, pdu[0], true,
                                                   mine[0].adu, if r.Ok? then None else Some(r.error), mine[0].record)
    {
      hide Valid;
      var adu := AdmitBroadcast(pdu);
      if adu.Err? {
        return Err(adu.error), [];
      }
      var x;
      r, x := RunBroadcast(adu.value, pdu[0]);
      mine := [x];
    }
  }
}

// Bus configuration (src/anymodbus/config.py) and what can be known about one
// attempt, as values: the clock of a bus, and the facts every attempt keeps.
module Timing {
  import opened Bits
  import opened Errors
  import opened Line

  const T35_FLOOR := 0.00175
  const BITS_PER_CHARACTER := 11

  datatype TimingConfig = TimingConfig(interFrameIdle: real, interCharIdle: real, postTxSettle: real,
                                       broadcastTurnaround: real, startupSettle: real, lateReplyWindow: real)
  {
    predicate Valid() {
      && interFrameIdle >= 0.0 && interCharIdle >= 0.0 && postTxSettle >= 0.0
      && broadcastTurnaround >= 0.0 && startupSettle >= 0.0 && lateReplyWindow >= 0.0
    }
  }

  // The exception classes a retry policy can name; matching is by subclass.
  datatype ErrorClass =
    | AnyModbusError | AnyConfigurationError | AnyProtocolError | AnyChecksumError | OnlyCrcError | OnlyLrcError
    | AnyFrameError | AnyFrameTimeout | AnyUnexpectedResponse | AnyConnectionLost | OnlyTransportError
    | AnyBusClosed | AnyExceptionResponse
  {
    predicate Matches(error: Error) {
      match this
      case AnyModbusError => error.IsModbusError()
      case AnyConfigurationError => error.ConfigurationError?
      case AnyProtocolError => error.IsProtocolError()
      case AnyChecksumError => error.CrcError? || error.LrcError?
      case OnlyCrcError => error.CrcError?
      case OnlyLrcError => error.LrcError?
      case AnyFrameError => error.FrameError?
      case AnyFrameTimeout => error.FrameTimeout?
      case AnyUnexpectedResponse => error.UnexpectedResponse?
      case AnyConnectionLost => error.ConnectionLost? || error.TransportError?
      case OnlyTransportError => error.TransportError?
      case AnyBusClosed => error.BusClosed?
      case AnyExceptionResponse => error.ExceptionResponse?
    }
  }

  datatype RetryPolicy = RetryPolicy(retries: nat, retryOn: set<ErrorClass>, idempotentOnly: bool, backoffBase: real)

  // `resetsInput` and `drains`: the switch is on and the stream can do it.
  datatype BusConfig = BusConfig(requestTimeout: real, timing: TimingConfig, retries: RetryPolicy, resetsInput: bool,
                                 drains: bool)
  {
    predicate Valid() { 0.0 < requestTimeout <= 60.0 && timing.Valid() && retries.backoffBase >= 0.0 }

    // How long the line must stay silent during a discard.
    function DiscardIdle(): real { Later(timing.interFrameIdle, T35_FLOOR) }

    // The gap of the line, but no less than the specification's 1.75 ms (section 2.5.1.1 of MODBUS over Serial Line).
    lemma SilenceIsGap()
      ensures DiscardIdle() == if timing.interFrameIdle >= 0.00175 then timing.interFrameIdle else 0.00175
    {}

    // How long after the end of an uncertain attempt the next send waits for what is late: the window and a
    // silence, or the cap.
    function WaitsFor(): real {
      if HasWindow() then Earlier(Later(timing.lateReplyWindow, DiscardIdle()), timing.lateReplyWindow + requestTimeout)
      else 0.0
    }

    // How late a byte may be and still be gone when the input is reset before the next request.
    function ResetReach(): real { Later(timing.interFrameIdle, WaitsFor()) }

    // How late a byte may be and still be read and dropped by the discard before the next request: it comes
    // before the silence is over, and well before the cap.
    predicate Discards(lag: real, late: real) {
      && HasWindow() && late <= Later(timing.lateReplyWindow, DiscardIdle())
      && late < timing.lateReplyWindow + requestTimeout - lag
    }

    // No byte as late as this at most keeps a discard busy up to its cap.
    function UncappedReach(lag: real): real {
      Later(timing.lateReplyWindow, Earlier(DiscardIdle(), requestTimeout - lag - DiscardIdle()))
    }

    // The silence is so long that a discard reaches its cap on an empty line.
    predicate NeverSilent() { HasWindow() && timing.lateReplyWindow + requestTimeout < DiscardIdle() }

    predicate HasWindow() { timing.lateReplyWindow > 0.0 }

    // One silence fits before the cap.
    predicate Roomy(lag: real) { lag + DiscardIdle() <= requestTimeout }
  }

  // ----- One attempt -----

  // What one attempt did to the line, filled in as it progresses.
  datatype Record = Record(
    startedAt: real,
    // Bytes [discardFrom, discardFrom + discarded) were dropped before the send.
    discardFrom: nat, discarded: nat,
    // The bus's last I/O before this attempt's frame could go out.
    lastIoBefore: real,
    // When the send began, once it has; when the request was fully out; and when
    // reading the reply began.
    sendAt: Option<real>, sentAt: Option<real>, readAt: Option<real>, endedAt: real,
    // How far the line was emptied while waiting for it.
    emptiedTo: nat,
    // Bytes [readFrom, readTo) were read as the reply.
    readFrom: nat, readTo: nat,
    // Its own discard ran into its cap; the input buffer was reset before the send.
    capped: bool, reset: bool)
  {
    function Read(): Reading { Reading(readFrom, readTo, readAt, endedAt) }
  }

  // The part of it that was reading a reply: which bytes, from when, until when.
  datatype Reading = Reading(from: nat, to: nat, began: Option<real>, ended: real)

  datatype Attempt = Attempt(
    requestId: nat, number: nat, maxAttempts: nat, willRetry: bool,
    slave: int, functionCode: byte, broadcast: bool, adu: seq<byte>,
    error: Option<Error>, record: Record)
  {
    // The line is in a known state afterwards: a reply or an exception response.
    predicate Certain() { error.None? || error.value.ExceptionResponse? }

    // A reply may still be on its way.
    predicate Uncertain() { !broadcast && !Certain() && record.sendAt.Some? }
  }

  // The moments that matter to the next attempt.
  datatype Clock = Clock(now: real, taken: nat, lastIo: real, quiet: Option<real>)

  // The next byte, if any, arrives only after t.
  predicate Beyond(arrivesAt: seq<real>, k: nat, t: real) {
    k < |arrivesAt| ==> t < arrivesAt[k]
  }

  // Once a discard has returned, the next byte was not there in the silence it waited for, nor well before its cap.
  predicate Left(arrivesAt: seq<real>, k: nat, endedAt: real, config: BusConfig, lag: real) {
    k < |arrivesAt| ==> !config.Discards(lag, arrivesAt[k] - endedAt)
  }

  // What an attempt that ended at `endedAt` left is waited for, or has been waited for.
  predicate Covered(endedAt: real, c: Clock, config: BusConfig, arrivesAt: seq<real>, lag: real) {
    || (c.quiet.Some? && endedAt + config.timing.lateReplyWindow <= c.quiet.value)
    || (Left(arrivesAt, c.taken, endedAt, config, lag) && endedAt + config.WaitsFor() <= c.now)
  }

  predicate Settled(x: Attempt, c: Clock, config: BusConfig, arrivesAt: seq<real>, lag: real) {
    && 0.0 < x.record.endedAt <= c.lastIo <= c.now && x.record.readTo <= c.taken
    && (x.Uncertain() && config.HasWindow() ==> Covered(x.record.endedAt, c, config, arrivesAt, lag))
  }

  ghost predicate AllSettled(xs: seq<Attempt>, c: Clock, config: BusConfig, arrivesAt: seq<real>, lag: real) {
    forall i :: 0 <= i < |xs| ==> Settled(xs[i], c, config, arrivesAt, lag)
  }

  // Time passes and bytes are taken; the pending window stays.
  predicate LaterClock(c: Clock, d: Clock) {
    && c.now <= d.now && c.taken <= d.taken && c.lastIo <= d.lastIo <= d.now && c.quiet == d.quiet
  }

  lemma SettledLater(xs: seq<Attempt>, c: Clock, d: Clock, config: BusConfig, arrivesAt: seq<real>, lag: real)
    requires AllSettled(xs, c, config, arrivesAt, lag) && LaterClock(c, d) && InOrder(arrivesAt)
    ensures AllSettled(xs, d, config, arrivesAt, lag)
  {}

  // What a discard that returned has done: waited out the window and a silence, or reached its cap.
  predicate WaitedOut(quiet: real, c: Clock, d: Clock, config: BusConfig, arrivesAt: seq<real>, lag: real) {
    var quietAfter, limit := Later(quiet, c.now + config.DiscardIdle()), Later(quiet, c.now) + config.requestTimeout;
    || (Beyond(arrivesAt, d.taken, quietAfter) && quietAfter <= d.now)
    || ((d.taken < |arrivesAt| ==> limit - lag <= arrivesAt[d.taken]) && limit <= d.now)
  }

  // The window has been waited out.
  lemma SettledCleared(xs: seq<Attempt>, c: Clock, d: Clock, config: BusConfig, arrivesAt: seq<real>, lag: real)
    requires AllSettled(xs, c, config, arrivesAt, lag) && c.quiet.Some? && LaterClock(c, d.(quiet := c.quiet))
    requires config.Valid() && InOrder(arrivesAt) && WaitedOut(c.quiet.value, c, d, config, arrivesAt, lag)
    ensures AllSettled(xs, d, config, arrivesAt, lag)
  {}

  // ----- What holds between attempts -----

  // One attempt on its own: its moments in order, its gap, its turnaround.
  predicate RecordHolds(r: Record, config: BusConfig, arrivesAt: seq<real>, lag: real) {
    && 0.0 < r.startedAt <= r.endedAt && 0.0 <= r.lastIoBefore <= r.endedAt
    && r.discardFrom + r.discarded <= r.emptiedTo <= r.readFrom <= r.readTo <= |arrivesAt|
    && (r.discardFrom < r.emptiedTo ==> arrivesAt[r.emptiedTo - 1] <= r.lastIoBefore)
    && (r.discarded > 0 ==> r.discarded == r.emptiedTo - r.discardFrom)
    // Only arriving bytes keep a discard busy, unless the timeout is too short for any silence.
    && (r.capped && config.Roomy(lag) ==>
          r.discardFrom < r.emptiedTo && r.startedAt < arrivesAt[r.emptiedTo - 1])
    && (r.sendAt.Some? ==> r.startedAt <= r.sendAt.value <= r.endedAt)
    && (r.sendAt.Some? && r.lastIoBefore > 0.0 ==> r.lastIoBefore + config.timing.interFrameIdle <= r.sendAt.value)
    // The very first frame waits for the startup settle.
    && (r.sendAt.Some? && r.lastIoBefore == 0.0 ==> r.startedAt + config.timing.startupSettle <= r.sendAt.value)
    // Whatever was taken before the send had arrived by then.
    && (r.sendAt.Some? && r.readFrom > 0 ==> arrivesAt[r.readFrom - 1] <= r.sendAt.value)
    && (r.sentAt.Some? ==> r.sendAt.Some? && r.sendAt.value <= r.sentAt.value <= r.endedAt)
    // Nothing is read before the settling delay is over.
    && (r.readAt.Some? ==> r.sentAt.Some? && r.sentAt.value + config.timing.postTxSettle <= r.readAt.value <= r.endedAt)
    && (r.readFrom < r.readTo ==> r.readAt.Some? && arrivesAt[r.readTo - 1] <= r.endedAt)
    // Nor for longer than the request timeout, apart from the lag.
    && (r.readAt.Some? ==> r.endedAt <= r.readAt.value + config.requestTimeout + lag)
  }

  predicate AttemptHolds(x: Attempt, config: BusConfig, arrivesAt: seq<real>, lag: real) {
    && RecordHolds(x.record, config, arrivesAt, lag)
    && (x.broadcast ==> x.record.readFrom == x.record.readTo)
    && (x.broadcast && x.error.None? ==>
          x.record.sentAt.Some? && x.record.sentAt.value + config.timing.broadcastTurnaround <= x.record.endedAt)
    && (!x.broadcast && x.Certain() ==> x.record.readAt.Some?)
    // Where the input is reset before a request, nothing that had come before the attempt is left.
    && (x.record.sendAt.Some? && config.resetsInput && !x.broadcast ==>
          x.record.reset && Beyond(arrivesAt, x.record.readFrom, x.record.startedAt))
  }

  // An attempt comes after x: it starts when x has ended, and once it sends, of what x may have left behind nothing
  // is there to read that came before the end of the discard, or of the reset.
  predicate Follows(x: Attempt, r: Record, config: BusConfig, arrivesAt: seq<real>, lag: real) {
    && x.record.endedAt <= r.startedAt
    && x.record.endedAt <= r.lastIoBefore
    && x.record.readTo <= r.discardFrom
    && (r.sendAt.Some? && x.Uncertain() && config.HasWindow() ==>
          Left(arrivesAt, r.readFrom, x.record.endedAt, config, lag))
    && (r.sendAt.Some? && r.reset && x.Uncertain() ==>
          Beyond(arrivesAt, r.readFrom, x.record.endedAt + config.ResetReach()))
    // Nothing is sent before the window is over.
    && (r.sendAt.Some? && x.Uncertain() && config.HasWindow() ==>
          x.record.endedAt + config.timing.lateReplyWindow <= r.sendAt.value)
    // A discard is capped only by bytes that come after every earlier window.
    && (r.capped && config.Roomy(lag) && x.Uncertain() && config.HasWindow() ==>
          0 < r.emptiedTo <= |arrivesAt| && x.record.endedAt + config.UncappedReach(lag) < arrivesAt[r.emptiedTo - 1])
  }

  ghost predicate AllBefore(xs: seq<Attempt>, r: Record, config: BusConfig, arrivesAt: seq<real>, lag: real) {
    forall i :: 0 <= i < |xs| ==> Follows(xs[i], r, config, arrivesAt, lag)
  }

  ghost predicate Orderly(xs: seq<Attempt>, config: BusConfig, arrivesAt: seq<real>, lag: real) {
    && (forall i :: 0 <= i < |xs| ==> AttemptHolds(xs[i], config, arrivesAt, lag))
    && (forall i, j :: 0 <= i < j < |xs| ==> Follows(xs[i], xs[j].record, config, arrivesAt, lag))
  }

  // The first attempt discards from byte `start` of the line on.
  predicate BeginsAt(xs: seq<Attempt>, start: nat) {
    xs != [] ==> start <= xs[0].record.discardFrom
  }

  lemma OrderlyNext(xs: seq<Attempt>, x: Attempt, config: BusConfig, arrivesAt: seq<real>, lag: real)
    requires Orderly(xs, config, arrivesAt, lag) && AttemptHolds(x, config, arrivesAt, lag)
             && AllBefore(xs, x.record, config, arrivesAt, lag)
    ensures Orderly(xs + [x], config, arrivesAt, lag)
  {}

  // A record that is stamped later still holds.
  lemma RecordStamped(r: Record, endedAt: real, config: BusConfig, arrivesAt: seq<real>, lag: real)
    requires RecordHolds(r, config, arrivesAt, lag) && r.endedAt <= endedAt && (r.readAt.Some? ==> r.endedAt == endedAt)
    ensures RecordHolds(r.(endedAt := endedAt), config, arrivesAt, lag)
  {}

  // A record that begins to read, and one that has read on, still holds.
  lemma RecordEnds(r: Record, readAt: real, readTo: nat, endedAt: real, config: BusConfig, arrivesAt: seq<real>,
                   lag: real)
    requires RecordHolds(r, config, arrivesAt, lag) && r.sentAt.Some? && r.readTo <= readTo <= |arrivesAt|
             && r.endedAt <= endedAt
    requires r.sentAt.value + config.timing.postTxSettle <= readAt <= endedAt <= readAt + config.requestTimeout + lag
    requires readTo > 0 ==> arrivesAt[readTo - 1] <= endedAt
    ensures RecordHolds(r.(readAt := Some(readAt), readTo := readTo, endedAt := endedAt), config, arrivesAt, lag)
  {}

  lemma RecordResets(r: Record, taken: nat, endedAt: real, config: BusConfig, arrivesAt: seq<real>, lag: real)
    requires RecordHolds(r, config, arrivesAt, lag) && r.sendAt.None? && r.readFrom == r.readTo <= taken <= |arrivesAt|
             && r.endedAt <= endedAt
    ensures RecordHolds(r.(endedAt := endedAt, readFrom := taken, readTo := taken), config, arrivesAt, lag)
  {}

  // The wait for the line is over and the gap held: the frame may go out.
  lemma RecordSends(r: Record, reset: bool, config: BusConfig, arrivesAt: seq<real>, lag: real)
    requires RecordHolds(r, config, arrivesAt, lag) && r.sentAt.None? && r.readAt.None?
    requires r.readFrom > 0 ==> arrivesAt[r.readFrom - 1] <= r.endedAt
    requires r.lastIoBefore > 0.0 ==> r.lastIoBefore + config.timing.interFrameIdle <= r.endedAt
    requires r.lastIoBefore == 0.0 ==> r.startedAt + config.timing.startupSettle <= r.endedAt
    ensures RecordHolds(r.(sendAt := Some(r.endedAt), reset := reset), config, arrivesAt, lag)
  {}

  lemma RecordSent(r: Record, endedAt: real, config: BusConfig, arrivesAt: seq<real>, lag: real)
    requires RecordHolds(r, config, arrivesAt, lag) && r.sendAt.Some? && r.readAt.None?
    requires r.endedAt <= endedAt && r.sendAt.value <= endedAt
    ensures RecordHolds(r.(sentAt := Some(endedAt), endedAt := endedAt), config, arrivesAt, lag)
  {}

  lemma RecordWaits(r: Record, config: BusConfig, arrivesAt: seq<real>, lag: real)
    requires r.sendAt.None? && r.sentAt.None? && r.readAt.None? && 0.0 < r.startedAt <= r.endedAt
             && 0.0 <= r.lastIoBefore <= r.endedAt
    requires r.discardFrom <= r.emptiedTo <= r.readFrom == r.readTo <= |arrivesAt|
    requires r.discarded == 0 || r.discarded == r.emptiedTo - r.discardFrom
    requires r.discardFrom < r.emptiedTo ==> arrivesAt[r.emptiedTo - 1] <= r.lastIoBefore
    requires r.capped && config.Roomy(lag) ==>
               r.discardFrom < r.emptiedTo && r.startedAt < arrivesAt[r.emptiedTo - 1]
    ensures RecordHolds(r, config, arrivesAt, lag)
  {}

  // Before it sends, whatever a discard was capped by came after every earlier window.
  predicate CappedLate(r: Record, c: Clock, config: BusConfig, arrivesAt: seq<real>, lag: real) {
    r.capped && config.Roomy(lag) ==>
      && r.discardFrom < r.emptiedTo <= |arrivesAt| && c.quiet.Some?
      && Later(c.quiet.value, c.now) + (config.requestTimeout - lag - config.DiscardIdle()) < arrivesAt[r.emptiedTo - 1]
  }

  lemma SettledFollows(xs: seq<Attempt>, c: Clock, r: Record, config: BusConfig, arrivesAt: seq<real>, lag: real)
    requires AllSettled(xs, c, config, arrivesAt, lag) && InOrder(arrivesAt) && 0.0 <= lag
    requires c.lastIo <= r.startedAt && c.lastIo <= r.lastIoBefore && c.taken <= r.discardFrom
    requires r.sendAt.None? && CappedLate(r, c, config, arrivesAt, lag)
    ensures AllBefore(xs, r, config, arrivesAt, lag)
  {}

  lemma ResetFollows(xs: seq<Attempt>, r: Record, s: Record, config: BusConfig, arrivesAt: seq<real>, lag: real)
    requires AllBefore(xs, r, config, arrivesAt, lag) && r.sendAt.None?
    requires s == r.(endedAt := s.endedAt, readFrom := s.readFrom, readTo := s.readTo)
    ensures AllBefore(xs, s, config, arrivesAt, lag)
  {}

  lemma ClearedFollows(xs: seq<Attempt>, c: Clock, r: Record, s: Record, config: BusConfig, arrivesAt: seq<real>,
                       lag: real)
    requires AllBefore(xs, r, config, arrivesAt, lag) && AllSettled(xs, c, config, arrivesAt, lag)
    requires c.quiet.None? && InOrder(arrivesAt) && config.Valid()
    requires s == r.(sendAt := s.sendAt, reset := s.reset) && c.taken <= r.readFrom
    requires s.sendAt.Some? && c.now <= s.sendAt.value
    requires c.lastIo > 0.0 ==> c.lastIo + config.timing.interFrameIdle <= c.now
    requires s.reset ==> Beyond(arrivesAt, r.readFrom, c.now)
    ensures AllBefore(xs, s, config, arrivesAt, lag)
  {}

  lemma SentFollows(xs: seq<Attempt>, r: Record, s: Record, config: BusConfig, arrivesAt: seq<real>, lag: real)
    requires AllBefore(xs, r, config, arrivesAt, lag)
    requires s == r.(sentAt := s.sentAt, readAt := s.readAt, endedAt := s.endedAt, readTo := s.readTo)
    ensures AllBefore(xs, s, config, arrivesAt, lag)
  {}

  // The bus after an attempt has ended and its window, if any, has been opened.
  lemma SettledNext(xs: seq<Attempt>, x: Attempt, c: Clock, d: Clock, config: BusConfig, arrivesAt: seq<real>,
                    lag: real)
    requires AllSettled(xs, c, config, arrivesAt, lag) && RecordHolds(x.record, config, arrivesAt, lag)
    requires x.record.endedAt == c.lastIo <= c.now && x.record.readTo <= c.taken && d == c.(quiet := d.quiet)
    requires c.quiet.Some? ==> d.quiet.Some? && c.quiet.value <= d.quiet.value
    requires config.HasWindow() && x.Uncertain() ==>
               d.quiet.Some? && x.record.endedAt + config.timing.lateReplyWindow <= d.quiet.value
    ensures AllSettled(xs + [x], d, config, arrivesAt, lag)
  {}
}

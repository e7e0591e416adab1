// Safety over whole runs of the bus: what it reads as a reply was caused by the
// request it belongs to (src/anymodbus/bus.py, src/anymodbus/config.py), and
// exactly when a configuration gives that.
module LateReplies {
  import opened Bits
  import opened Errors
  import opened Line
  import opened Pdu
  import opened Framing
  import opened RtuFramer
  import AsciiFramer
  import opened Replies
  import opened Timing
  import opened Buses

  // ----- What is assumed of the slaves -----

  // A byte no attempt can read: taken before the bus began at byte `start` of the line, or, where the input is
  // reset before every request, there by the time of the first attempt.
  predicate Foreign(xs: seq<Attempt>, config: BusConfig, start: nat, k: nat, at: real) {
    k < start || (config.resetsInput && xs != [] && at <= xs[0].record.startedAt)
  }

  // `cause` names, for every other byte that reaches the bus, the attempt whose request brought it about:
  // past the end of the history for a request not sent yet. No byte comes before its request. Foreign bytes have
  // no cause in the history.
  predicate CausedBy(xs: seq<Attempt>, at: real, c: nat) {
    if c < |xs| then xs[c].record.sendAt.Some? && !xs[c].broadcast && xs[c].record.sendAt.value < at
    else forall i :: 0 <= i < |xs| ==> xs[i].record.endedAt < at
  }

  ghost predicate Caused(xs: seq<Attempt>, config: BusConfig, start: nat, arrivesAt: seq<real>, cause: seq<nat>) {
    && |cause| == |arrivesAt| && InOrder(arrivesAt)
    && forall k {:trigger cause[k]} :: 0 <= k < |cause| ==>
         if Foreign(xs, config, start, k, arrivesAt[k]) then |xs| <= cause[k] else CausedBy(xs, arrivesAt[k], cause[k])
  }

  // Nothing is later than `bound` after the end of an uncertain attempt.
  ghost predicate Bounded(xs: seq<Attempt>, arrivesAt: seq<real>, cause: seq<nat>, bound: real) {
    |cause| == |arrivesAt| &&
    forall k {:trigger cause[k]} :: 0 <= k < |cause| && cause[k] < |xs| && xs[cause[k]].Uncertain() ==>
      arrivesAt[k] <= xs[cause[k]].record.endedAt + bound
  }

  ghost predicate ReadsOnlyItsOwn(x: Attempt, j: nat, cause: seq<nat>) {
    forall k :: x.record.readFrom <= k < x.record.readTo ==> k < |cause| && cause[k] == j
  }

  // An answer made of an attempt's own bytes leaves none of them: a request causes one reply at most.
  ghost predicate AnsweredWhole(xs: seq<Attempt>, cause: seq<nat>) {
    forall k {:trigger cause[k]} :: 0 <= k < |cause| && cause[k] < |xs| ==>
      xs[cause[k]].Certain() && ReadsOnlyItsOwn(xs[cause[k]], cause[k], cause) ==> k < xs[cause[k]].record.readTo
  }

  ghost predicate TimelyReplies(xs: seq<Attempt>, config: BusConfig, start: nat, arrivesAt: seq<real>, cause: seq<nat>,
                                bound: real) {
    && Caused(xs, config, start, arrivesAt, cause) && AnsweredWhole(xs, cause)
    && Bounded(xs, arrivesAt, cause, bound)
  }

  // A history a bus of this configuration can have, from byte `start` of its line on.
  ghost predicate History(xs: seq<Attempt>, config: BusConfig, start: nat, arrivesAt: seq<real>, lag: real) {
    Orderly(xs, config, arrivesAt, lag) && BeginsAt(xs, start)
  }

  // ----- Safety -----

  ghost predicate OwnBefore(xs: seq<Attempt>, j: nat, cause: seq<nat>) {
    j <= |xs| && forall i :: 0 <= i < j ==> ReadsOnlyItsOwn(xs[i], i, cause)
  }

  ghost predicate AllOwn(xs: seq<Attempt>, cause: seq<nat>) { OwnBefore(xs, |xs|, cause) }

  // How late a reply may be: where the input is reset before every request, no later than the reset; otherwise
  // so that the discard of the window reads it.
  predicate Tolerates(config: BusConfig, lag: real, bound: real) {
    if config.resetsInput then bound <= config.ResetReach() else config.Discards(lag, bound)
  }

  // In numbers: the silence is the inter-frame gap, of 1.75 ms at least.
  lemma ToleratesInNumbers(config: BusConfig, lag: real, bound: real)
    requires config.Valid()
    ensures var t := config.timing;
            var window, silence := t.lateReplyWindow, Later(t.interFrameIdle, 0.00175);
            Tolerates(config, lag, bound) <==>
              if config.resetsInput then
                || bound <= t.interFrameIdle
                || (window > 0.0 && bound <= window + config.requestTimeout && (bound <= window || bound <= silence))
              else window > 0.0 && (bound <= window || bound <= silence) && bound + lag < window + config.requestTimeout
  {
    config.SilenceIsGap();
  }

  lemma StartInOrder(xs: seq<Attempt>, config: BusConfig, start: nat, arrivesAt: seq<real>, lag: real, j: nat)
    requires History(xs, config, start, arrivesAt, lag) && j < |xs|
    ensures start <= xs[j].record.discardFrom && xs[0].record.startedAt <= xs[j].record.startedAt
  {
    assert AttemptHolds(xs[0], config, arrivesAt, lag);
    if j > 0 {
      assert Follows(xs[0], xs[j].record, config, arrivesAt, lag);
    }
    hide BusConfig.ResetReach;
  }

  // Whatever an attempt takes off the line was brought about by some attempt.
  lemma TakenIsCaused(xs: seq<Attempt>, config: BusConfig, start: nat, arrivesAt: seq<real>, lag: real,
                      cause: seq<nat>, j: nat, k: nat)
    requires History(xs, config, start, arrivesAt, lag) && Caused(xs, config, start, arrivesAt, cause)
    requires j < |xs| && xs[j].record.discardFrom <= k < |arrivesAt|
    requires k < xs[j].record.readTo
    requires config.resetsInput ==> xs[j].record.readFrom <= k && xs[j].record.sendAt.Some? && !xs[j].broadcast
    ensures k < |cause| && CausedBy(xs, arrivesAt[k], cause[k])
  {
    assert AttemptHolds(xs[j], config, arrivesAt, lag);
    StartInOrder(xs, config, start, arrivesAt, lag, j);
    hide CausedBy, BusConfig.ResetReach;
  }

  // If every earlier attempt read its own bytes, and replies are no later than tolerated, so does the next.
  lemma NextReadsItsOwn(xs: seq<Attempt>, config: BusConfig, start: nat, arrivesAt: seq<real>, lag: real,
                        cause: seq<nat>, bound: real, j: nat)
    requires History(xs, config, start, arrivesAt, lag) && TimelyReplies(xs, config, start, arrivesAt, cause, bound)
    requires Tolerates(config, lag, bound) && j < |xs| && OwnBefore(xs, j, cause)
    ensures ReadsOnlyItsOwn(xs[j], j, cause)
  {
    hide BusConfig.ResetReach;
    assert AttemptHolds(xs[j], config, arrivesAt, lag);
    forall k | xs[j].record.readFrom <= k < xs[j].record.readTo
      ensures k < |cause| && cause[k] == j
    {
      TakenIsCaused(xs, config, start, arrivesAt, lag, cause, j, k);
    }
  }

  // Whatever is dropped while waiting for the line is the late reply of an earlier, uncertain attempt, unless it
  // had been there before all of them.
  lemma DroppedAreLate(xs: seq<Attempt>, config: BusConfig, start: nat, arrivesAt: seq<real>, lag: real,
                       cause: seq<nat>, j: nat, k: nat)
    requires History(xs, config, start, arrivesAt, lag) && Caused(xs, config, start, arrivesAt, cause)
             && AnsweredWhole(xs, cause) && config.Valid()
    requires j < |xs| && OwnBefore(xs, j, cause) && xs[j].record.discardFrom <= k < xs[j].record.emptiedTo
    ensures k < |cause|
    ensures (config.resetsInput && arrivesAt[k] <= xs[0].record.startedAt)
            || (cause[k] < j && xs[cause[k]].Uncertain())
  {
    hide BusConfig.ResetReach, BusConfig.UncappedReach, BusConfig.Discards;
    assert AttemptHolds(xs[j], config, arrivesAt, lag);
    StartInOrder(xs, config, start, arrivesAt, lag, j);
  }

  // With timely replies and a timeout that leaves room for the silence, no discard reaches its cap.
  lemma NeverCapped(xs: seq<Attempt>, config: BusConfig, start: nat, arrivesAt: seq<real>, lag: real, cause: seq<nat>,
                    bound: real, j: nat)
    requires History(xs, config, start, arrivesAt, lag) && TimelyReplies(xs, config, start, arrivesAt, cause, bound)
             && config.Valid()
    requires config.HasWindow() && config.Roomy(lag) && bound <= config.UncappedReach(lag)
    requires j < |xs| && OwnBefore(xs, j, cause)
    ensures !xs[j].record.capped
  {
    hide BusConfig.ResetReach, BusConfig.UncappedReach, BusConfig.HasWindow, BusConfig.Roomy, BusConfig.Discards;
    assert AttemptHolds(xs[j], config, arrivesAt, lag);
    StartInOrder(xs, config, start, arrivesAt, lag, j);
    if xs[j].record.capped {
      DroppedAreLate(xs, config, start, arrivesAt, lag, cause, j, xs[j].record.emptiedTo - 1);
    }
  }

  // Attempt by attempt: whoever reads its own leaves nothing but what the next one waits for.
  lemma {:induction false} OwnSoFar(xs: seq<Attempt>, config: BusConfig, start: nat, arrivesAt: seq<real>, lag: real,
                                    cause: seq<nat>, bound: real, j: nat)
    requires History(xs, config, start, arrivesAt, lag) && TimelyReplies(xs, config, start, arrivesAt, cause, bound)
    requires Tolerates(config, lag, bound) && j <= |xs|
    ensures OwnBefore(xs, j, cause)
    decreases j
  {
    if j > 0 {
      OwnSoFar(xs, config, start, arrivesAt, lag, cause, bound, j - 1);
      hide History, TimelyReplies, Tolerates, ReadsOnlyItsOwn;
      NextReadsItsOwn(xs, config, start, arrivesAt, lag, cause, bound, j - 1);
    }
  }

  // The history of a bus, however its calls ended: if replies are timely, every
  // byte read as a reply was caused by that very attempt.
  lemma LateReplySafety(bus: Bus, cause: seq<nat>, bound: real)
    requires bus.Valid()
    requires TimelyReplies(bus.reports, bus.config, bus.takenBefore, bus.stream.arrivesAt, cause, bound)
    requires Tolerates(bus.config, bus.stream.lag, bound)
    ensures AllOwn(bus.reports, cause)
  {
    hide Orderly, BeginsAt, TimelyReplies, OwnBefore, Tolerates, AllSettled, Sendings, Numbered, AnswersRead;
    OwnSoFar(bus.reports, bus.config, bus.takenBefore, bus.stream.arrivesAt, bus.stream.lag, cause, bound,
             |bus.reports|);
  }

  // ----- Whole frames leave nothing behind -----

  // All that attempt c causes is one frame of its slave that fits the reply tables.
  ghost predicate OwnFrame(x: Attempt, c: nat, framing: Framing, incoming: seq<byte>, cause: seq<nat>, from: nat,
                           response: seq<byte>) {
    && 0 <= x.slave < 256 && FitsReplyTable(response) && |response| <= 253 && Encode(framing, x.slave, response).Ok?
    && var frame := Encode(framing, x.slave, response).value;
       && Carries(incoming, from, frame) && |cause| == |incoming|
       && forall k :: 0 <= k < |cause| ==> (cause[k] == c <==> from <= k < from + |frame|)
  }

  // Every answered attempt causes one such frame, or nothing at all.
  ghost predicate WholeReplies(xs: seq<Attempt>, framing: Framing, incoming: seq<byte>, cause: seq<nat>) {
    forall c :: 0 <= c < |xs| && !xs[c].broadcast && xs[c].Certain() ==>
      || (forall k :: 0 <= k < |cause| ==> cause[k] != c)
      || exists from, response :: OwnFrame(xs[c], c, framing, incoming, cause, from, response)
  }

  lemma FramesAreLong(framing: Framing, incoming: seq<byte>, from: nat, to: nat, slave: byte, pdu: seq<byte>)
    requires FrameRead(framing, incoming, from, to, slave, pdu)
    ensures from < to
  {
    match framing
    case Rtu =>
      var cuts :| RtuReplyRead(incoming, from, to, slave, Ok((slave, pdu)), cuts);
      CutsRise(incoming, slave, cuts);
    case Ascii => AsciiReplyIsLong(incoming, from, slave);
  }

  lemma {:induction false} CutsRise(incoming: seq<byte>, expected: byte, cuts: seq<nat>)
    requires Strays(incoming, expected, cuts)
    ensures cuts[0] <= cuts[|cuts| - 1]
    decreases |cuts|
  {
    if |cuts| > 1 {
      CutsRise(incoming, expected, cuts[..|cuts| - 1]);
    }
  }

  lemma AsciiReplyIsLong(incoming: seq<byte>, from: nat, slave: byte)
    requires from <= |incoming|
    ensures var parsed := AsciiFramer.ReplyFrom(incoming, from, slave);
            parsed.Reply? ==> parsed.used > 0
  {
    var parsed := AsciiFramer.ReplyFrom(incoming, from, slave);
    if parsed.Reply? {
      var at := AsciiFramer.AcceptedReplyIsFrame(incoming[from..], slave);
      var last := AsciiFramer.ParseAscii(incoming[from..][at..]);
      assert last.used > 0;
    }
  }

  // What an answered attempt read of its own bytes is its one frame, all of it.
  lemma ReadsItsFrame(x: Attempt, c: nat, config: BusConfig, framing: Framing, incoming: seq<byte>,
                      arrivesAt: seq<real>, lag: real, cause: seq<nat>, from: nat, response: seq<byte>, pdu: seq<byte>)
    requires OwnFrame(x, c, framing, incoming, cause, from, response) && ReadsOnlyItsOwn(x, c, cause)
    requires FrameRead(framing, incoming, x.record.readFrom, x.record.readTo, x.slave, pdu)
    requires RecordHolds(x.record, config, arrivesAt, lag) && |arrivesAt| == |incoming| && InOrder(arrivesAt)
    requires x.record.sendAt.Some? && x.record.sendAt.value < arrivesAt[from]
    ensures pdu == response && x.record.readFrom == from
    ensures x.record.readTo == from + |Encode(framing, x.slave, response).value|
  {
    FramesAreLong(framing, incoming, x.record.readFrom, x.record.readTo, x.slave, pdu);
    assert cause[x.record.readFrom] == c;
    assert x.record.readFrom <= from by {
      hide FrameRead, FitsReplyTable, Encode;
      SentBefore(x.record, arrivesAt, from);
    }
    CarriedReplyIsRead(framing, incoming, from, x.record.readTo, x.slave, Ok((x.slave as byte, pdu)), response);
  }

  lemma SentBefore(r: Record, arrivesAt: seq<real>, from: nat)
    requires r.sendAt.Some? && r.readFrom <= |arrivesAt| && from < |arrivesAt| && InOrder(arrivesAt)
    requires r.readFrom > 0 ==> arrivesAt[r.readFrom - 1] <= r.sendAt.value
    requires r.sendAt.value < arrivesAt[from]
    ensures r.readFrom <= from
  {}

  // Framing supplies the assumption: if every answered attempt causes one whole reply frame,
  // whatever it accepts of its own bytes is that frame, and leaves nothing behind.
  lemma AnsweredWholeByFraming(bus: Bus, cause: seq<nat>)
    requires bus.Valid() && Caused(bus.reports, bus.config, bus.takenBefore, bus.stream.arrivesAt, cause)
    requires WholeReplies(bus.reports, bus.framing, bus.stream.incoming, cause)
    ensures AnsweredWhole(bus.reports, cause)
  {
    var xs, arrivesAt := bus.reports, bus.stream.arrivesAt;
    hide OwnFrame, FrameRead, AllSettled, BeginsAt, Sendings, Numbered, ReadsOnlyItsOwn, RecordHolds;
    forall k {:trigger cause[k]} | 0 <= k < |cause| && cause[k] < |xs| && xs[cause[k]].Certain()
                                   && ReadsOnlyItsOwn(xs[cause[k]], cause[k], cause)
      ensures k < xs[cause[k]].record.readTo
    {
      var c := cause[k];
      assert CausedBy(xs, arrivesAt[k], c) && AttemptHolds(xs[c], bus.config, arrivesAt, bus.stream.lag);
      assert ReadAnswer(xs[c], bus.framing, bus.stream.incoming);
      var from, response :| OwnFrame(xs[c], c, bus.framing, bus.stream.incoming, cause, from, response);
      OwnFrameRead(xs[c], c, bus.config, bus.framing, bus.stream.incoming, arrivesAt, bus.stream.lag, cause, xs,
                   bus.takenBefore, from, response, k);
    }
  }

  lemma OwnFrameRead(x: Attempt, c: nat, config: BusConfig, framing: Framing, incoming: seq<byte>, arrivesAt: seq<real>,
                     lag: real, cause: seq<nat>, xs: seq<Attempt>, start: nat, from: nat, response: seq<byte>, k: nat)
    requires OwnFrame(x, c, framing, incoming, cause, from, response) && ReadsOnlyItsOwn(x, c, cause)
    requires c < |xs| && x == xs[c] && Caused(xs, config, start, arrivesAt, cause)
    requires exists pdu :: FrameRead(framing, incoming, x.record.readFrom, x.record.readTo, x.slave, pdu)
    requires RecordHolds(x.record, config, arrivesAt, lag) && |arrivesAt| == |incoming|
    requires k < |cause| && cause[k] == c
    ensures k < x.record.readTo
    ensures FrameRead(framing, incoming, x.record.readFrom, x.record.readTo, x.slave, response)
    ensures x.record.readFrom == from && x.record.readTo == from + |Encode(framing, x.slave, response).value|
  {
    hide FrameRead, RecordHolds, FitsReplyTable, Encode, ReadsOnlyItsOwn;
    var pdu :| FrameRead(framing, incoming, x.record.readFrom, x.record.readTo, x.slave, pdu);
    assert cause[from] == c && CausedBy(xs, arrivesAt[from], c);
    ReadsItsFrame(x, c, config, framing, incoming, arrivesAt, lag, cause, from, response, pdu);
  }

  // Attempt c has read the one frame it brought about, all of it and nothing else.
  ghost predicate Genuine(x: Attempt, c: nat, framing: Framing, incoming: seq<byte>, cause: seq<nat>,
                          response: seq<byte>) {
    && OwnFrame(x, c, framing, incoming, cause, x.record.readFrom, response)
    && x.record.readTo == x.record.readFrom + |Encode(framing, x.slave, response).value|
    && FrameRead(framing, incoming, x.record.readFrom, x.record.readTo, x.slave, response)
  }

  // So on a line whose slaves answer each request with at most one whole frame, no later than the
  // configuration tolerates, every answer a bus accepts is the reply frame its own request caused.
  lemma AnswersAreGenuine(bus: Bus, cause: seq<nat>, bound: real, j: nat)
    requires bus.Valid() && Caused(bus.reports, bus.config, bus.takenBefore, bus.stream.arrivesAt, cause)
    requires WholeReplies(bus.reports, bus.framing, bus.stream.incoming, cause)
    requires Bounded(bus.reports, bus.stream.arrivesAt, cause, bound) && Tolerates(bus.config, bus.stream.lag, bound)
    requires j < |bus.reports| && !bus.reports[j].broadcast && bus.reports[j].Certain()
    ensures exists response :: Genuine(bus.reports[j], j, bus.framing, bus.stream.incoming, cause, response)
  {
    AnsweredWholeByFraming(bus, cause);
    LateReplySafety(bus, cause, bound);
    var xs, arrivesAt, x := bus.reports, bus.stream.arrivesAt, bus.reports[j];
    assert AttemptHolds(x, bus.config, arrivesAt, bus.stream.lag) && ReadAnswer(x, bus.framing, bus.stream.incoming);
    assert ReadsOnlyItsOwn(x, j, cause);
    hide OwnFrame, FrameRead, AllSettled, BeginsAt, Sendings, Numbered, RecordHolds;
    var pdu :| FrameRead(bus.framing, bus.stream.incoming, x.record.readFrom, x.record.readTo, x.slave, pdu);
    FramesAreLong(bus.framing, bus.stream.incoming, x.record.readFrom, x.record.readTo, x.slave, pdu);
    FirstByteOwn(x, j, cause);
    var from, response :| OwnFrame(x, j, bus.framing, bus.stream.incoming, cause, from, response);
    hide Genuine, Caused;
    GenuineRead(x, j, bus.config, bus.framing, bus.stream.incoming, arrivesAt, bus.stream.lag, cause, xs,
                bus.takenBefore, from, response);
  }

  lemma GenuineRead(x: Attempt, c: nat, config: BusConfig, framing: Framing, incoming: seq<byte>, arrivesAt: seq<real>,
                    lag: real, cause: seq<nat>, xs: seq<Attempt>, start: nat, from: nat, response: seq<byte>)
    requires OwnFrame(x, c, framing, incoming, cause, from, response) && ReadsOnlyItsOwn(x, c, cause)
    requires c < |xs| && x == xs[c] && Caused(xs, config, start, arrivesAt, cause)
    requires exists pdu :: FrameRead(framing, incoming, x.record.readFrom, x.record.readTo, x.slave, pdu)
    requires RecordHolds(x.record, config, arrivesAt, lag) && |arrivesAt| == |incoming|
    requires x.record.readFrom < |cause| && cause[x.record.readFrom] == c
    ensures Genuine(x, c, framing, incoming, cause, response)
  {
    hide Caused, RecordHolds, FrameRead;
    OwnFrameRead(x, c, config, framing, incoming, arrivesAt, lag, cause, xs, start, from, response, x.record.readFrom);
  }

  lemma FirstByteOwn(x: Attempt, j: nat, cause: seq<nat>)
    requires ReadsOnlyItsOwn(x, j, cause) && x.record.readFrom < x.record.readTo
    ensures x.record.readFrom < |cause| && cause[x.record.readFrom] == j
  {}

  // ----- Exactly when a configuration is safe -----

  // Every history a bus of this configuration can show reads only its own, if replies are late by `bound` at most.
  ghost predicate Safe(config: BusConfig, lag: real, bound: real) {
    forall xs, start, arrivesAt, cause ::
      History(xs, config, start, arrivesAt, lag) && TimelyReplies(xs, config, start, arrivesAt, cause, bound) ==>
        AllOwn(xs, cause)
  }

  // A reply to one call, accepted as the answer to the next one.
  const LATE_REPLY: seq<byte> := [0x03, 0x02, 0x00, 0x07]
  const REPLY_BYTES := 7

  function ReadOne(address: word): seq<byte> { ThreeFields(READ_HOLDING_REGISTERS, address, 1) }

  function ReadAttempt(id: nat, address: word, error: Option<Error>, record: Record): Attempt {
    Attempt(id, 1, 1, false, 1, READ_HOLDING_REGISTERS, false, EncodeAdu(1, ReadOne(address)).value, error, record)
  }

  // Begun at 1.0 as the first of its bus, and timed out: its reply may still come.
  function TimedOut(config: BusConfig): Attempt {
    var sendAt := 1.0 + config.timing.startupSettle;
    var readAt := sendAt + config.timing.postTxSettle;
    ReadAttempt(1, 0, Some(FrameTimeout), Record(1.0, 0, 0, 0.0, Some(sendAt), Some(sendAt), Some(readAt),
                                                 readAt + config.requestTimeout, 0, 0, 0, false, config.resetsInput))
  }

  // The next call: it starts at `after`, drops bytes until `idleSince`, sends at `sendAt`, and reads the seven bytes
  // behind those it dropped, there at `at`.
  function Misled(config: BusConfig, after: real, dropped: nat, idleSince: real, sendAt: real, at: real): Attempt {
    var readAt := sendAt + config.timing.postTxSettle;
    ReadAttempt(2, 100, None, Record(after, 0, dropped, idleSince, Some(sendAt), Some(sendAt), Some(readAt),
                                     Later(at, readAt), dropped, dropped, dropped + REPLY_BYTES,
                                     dropped > 0 || config.NeverSilent(), config.resetsInput))
  }

  // Can what comes before the window and the silence are over, late by `bound` at most, keep a discard busy up to
  // its cap?
  predicate Overruns(config: BusConfig, lag: real, bound: real) {
    && !config.resetsInput && config.HasWindow()
    && config.timing.lateReplyWindow + config.requestTimeout - lag <= bound
    && bound <= Later(config.timing.lateReplyWindow, config.DiscardIdle())
  }

  // Two calls: the first times out; the second waits for as long as the configuration makes it wait - or, where a
  // discard can run into its cap, is kept busy until then by the first byte of a reply - and reads what is left.
  function Mistaken(config: BusConfig, lag: real, bound: real): (seq<Attempt>, seq<real>) {
    var first := TimedOut(config);
    var ended := first.record.endedAt;
    if Overruns(config, lag, bound) then
      var cap := ended + config.timing.lateReplyWindow + config.requestTimeout;
      var at := ended + Earlier(bound, config.timing.lateReplyWindow + config.requestTimeout);
      ([first, Misled(config, ended, 1, cap, cap + config.timing.interFrameIdle, at)], seq(1 + REPLY_BYTES, _ => at))
    else
      var wait := config.ResetReach();
      var at := ended + Earlier(bound, wait + config.requestTimeout);
      ([first, Misled(config, ended, 0, ended, ended + wait, at)], seq(REPLY_BYTES, _ => at))
  }

  // Beyond what it tolerates there is a history in which a call returns what another call asked for.
  lemma UnsafeBeyondReach(config: BusConfig, lag: real, bound: real)
    requires config.Valid() && 0.0 <= lag && 0.0 < bound && !Tolerates(config, lag, bound)
    ensures var (xs, arrivesAt) := Mistaken(config, lag, bound);
            var cause := seq(|arrivesAt|, _ => 0);
            && History(xs, config, 0, arrivesAt, lag) && TimelyReplies(xs, config, 0, arrivesAt, cause, bound)
            && |xs| == 2 && xs[1].error.None? && xs[1].record.readTo == xs[1].record.readFrom + REPLY_BYTES
            && !AllOwn(xs, cause)
  {
    hide EncodeAdu, BusConfig.NeverSilent, History;
    var (xs, arrivesAt) := Mistaken(config, lag, bound);
    var cause := seq(|arrivesAt|, _ => 0);
    MistakenOrderly(config, lag, bound);
    assert Bounded(xs, arrivesAt, cause, bound);
    assert !ReadsOnlyItsOwn(xs[1], 1, cause) by {
      assert cause[xs[1].record.readFrom] == 0;
    }
  }

  lemma MistakenOrderly(config: BusConfig, lag: real, bound: real)
    requires config.Valid() && 0.0 <= lag && 0.0 < bound && !Tolerates(config, lag, bound)
    ensures var (xs, arrivesAt) := Mistaken(config, lag, bound);
            History(xs, config, 0, arrivesAt, lag)
  {
    hide EncodeAdu, AttemptHolds, Follows, TimedOut, Misled;
    var first := TimedOut(config);
    var (xs, arrivesAt) := Mistaken(config, lag, bound);
    FirstHolds(config, lag, arrivesAt);
    if Overruns(config, lag, bound) {
      OverrunFollows(config, lag, first, arrivesAt[0]);
    } else {
      SilenceFollows(config, lag, first, arrivesAt[0]);
    }
    assert xs == [first, xs[1]];
    hide *;
    TwoOrderly(first, xs[1], config, arrivesAt, lag);
  }

  lemma TwoOrderly(x: Attempt, y: Attempt, config: BusConfig, arrivesAt: seq<real>, lag: real)
    requires AttemptHolds(x, config, arrivesAt, lag) && AttemptHolds(y, config, arrivesAt, lag)
             && Follows(x, y.record, config, arrivesAt, lag)
    ensures History([x, y], config, 0, arrivesAt, lag)
  {}

  lemma FirstHolds(config: BusConfig, lag: real, arrivesAt: seq<real>)
    requires config.Valid() && 0.0 <= lag && Beyond(arrivesAt, 0, TimedOut(config).record.endedAt)
    ensures var first := TimedOut(config);
            && AttemptHolds(first, config, arrivesAt, lag) && first.Uncertain() && first.record.readTo == 0
            && 0.0 < first.record.endedAt
  {
    hide EncodeAdu, BusConfig.ResetReach, BusConfig.NeverSilent;
  }

  // The second attempt's discard is kept busy up to its cap.
  lemma OverrunFollows(config: BusConfig, lag: real, first: Attempt, at: real)
    requires config.Valid() && 0.0 <= lag && !config.resetsInput && config.HasWindow()
    requires var limit, ended := config.timing.lateReplyWindow + config.requestTimeout, first.record.endedAt;
             0.0 < ended < at <= ended + limit <= at + lag
    requires first.record.readTo == 0
    ensures var cap := first.record.endedAt + config.timing.lateReplyWindow + config.requestTimeout;
            var x := Misled(config, first.record.endedAt, 1, cap, cap + config.timing.interFrameIdle, at);
            && AttemptHolds(x, config, seq(8, _ => at), lag)
            && Follows(first, x.record, config, seq(8, _ => at), lag)
  {
    hide EncodeAdu;
  }

  // It waits out the silence, or what there is of it before the cap, or only the gap, and the reply comes after.
  lemma SilenceFollows(config: BusConfig, lag: real, first: Attempt, at: real)
    requires config.Valid() && 0.0 <= lag && 0.0 < first.record.endedAt < at
    requires var late := at - first.record.endedAt;
             && !config.Discards(lag, late) && late <= config.ResetReach() + config.requestTimeout
             && (config.resetsInput ==> config.ResetReach() < late)
    requires first.record.readTo == 0
    ensures var ended := first.record.endedAt;
            var x := Misled(config, ended, 0, ended, ended + config.ResetReach(), at);
            && AttemptHolds(x, config, seq(7, _ => at), lag)
            && Follows(first, x.record, config, seq(7, _ => at), lag)
  {
    hide EncodeAdu;
  }

  // The seven bytes are a reply frame the second call accepts: it asked for register 100 and gets register 0.
  lemma LateReplyAccepted()
    ensures var incoming := EncodeAdu(1, LATE_REPLY).value;
            && |incoming| == 7
            && FrameRead(Rtu, incoming, 0, 7, 1, LATE_REPLY)
            && Judged(LATE_REPLY, READ_HOLDING_REGISTERS, pdu => DecodeAnswer(Read(HoldingTable, 100, 1), pdu))
               == Ok(Words([7]))
            && EncodeRequest(Read(HoldingTable, 0, 1)) == Ok(ReadOne(0))
            && EncodeRequest(Read(HoldingTable, 100, 1)) == Ok(ReadOne(100))
  {
    LateReplyDecodes();
    EncodedAdu(1, LATE_REPLY, []);
    ReadBackReply(1, LATE_REPLY, []);
    hide EncodeAdu, DecodeAnswer, FrameRead;
    var incoming := EncodeAdu(1, LATE_REPLY).value;
    assert incoming + [] == incoming;
    LateFrame(incoming);
  }

  lemma LateFrame(incoming: seq<byte>)
    requires |incoming| == 7 && Complete(incoming, 7) == Framed(1, LATE_REPLY, 7) && incoming[1] == 3
    requires ParseReply(incoming) == Framed(1, LATE_REPLY, 7)
    ensures FrameRead(Rtu, incoming, 0, 7, 1, LATE_REPLY)
  {
    assert incoming[0..7] == incoming[..7] && incoming[0..] == incoming;
    assert incoming[0..7][1..5] == incoming[1..5];
    var frame: Result<(byte, seq<byte>)> := Ok((1, LATE_REPLY));
    assert RtuReplyRead(incoming, 0, 7, 1, frame, [0]);
  }

  lemma LateReplyDecodes()
    ensures DecodeAnswer(Read(HoldingTable, 100, 1), LATE_REPLY) == Ok(Words([7]))
  {
    var data := LATE_REPLY[2..];
    assert data == [0x00, 0x07] && data[2..] == [];
    assert BytesWords(data) == [WordAt(data, 0)] + BytesWords(data[2..]);
    assert BytesWords(data) == [7];
    assert DecodeReadRegisters(LATE_REPLY, READ_HOLDING_REGISTERS, Some(1)) == Ok(BytesWords(data));
  }

  // A configuration is safe exactly when a reply is never later than what the next attempt waits for in any case:
  // with a reset before every request the wait for the window and the silence, or the cap, and otherwise what the
  // discard of a window reads before its cap.
  lemma SafeExactly(config: BusConfig, lag: real, bound: real)
    requires config.Valid() && 0.0 <= lag && 0.0 < bound
    ensures Safe(config, lag, bound) <==> Tolerates(config, lag, bound)
  {
    hide History, TimelyReplies, OwnBefore, Tolerates;
    if Tolerates(config, lag, bound) {
      forall xs, start, arrivesAt, cause | History(xs, config, start, arrivesAt, lag)
                                           && TimelyReplies(xs, config, start, arrivesAt, cause, bound)
        ensures AllOwn(xs, cause)
      {
        OwnSoFar(xs, config, start, arrivesAt, lag, cause, bound, |xs|);
      }
    } else {
      UnsafeBeyondReach(config, lag, bound);
    }
  }

  // The assumptions can be met: a first request times out at 4.0, its reply comes at 5.5 and is
  // dropped within the window of two seconds, the second request goes out at 6.1 and reads its own reply; three
  // bytes on the line before the bus began are nobody's.
  lemma LateReplyDropped()
    ensures var config := Windowed(3.0, 2.0);
            var first := TimedOut(config).(record := TimedOut(config).record.(discardFrom := 3, emptiedTo := 3,
                                                                               readFrom := 3, readTo := 3));
            var second := Misled(config, 4.5, 7, 5.5, 6.1, 7.0).(record :=
              Record(4.5, 3, 7, 5.5, Some(6.1), Some(6.1), Some(6.1), 7.0, 10, 10, 17, false, true));
            var xs := [first, second];
            var arrivesAt := seq(17, k => if k < 3 then 0.5 else if k < 10 then 5.5 else 6.5);
            var cause := seq(17, k => if k < 3 then 2 else if k < 10 then 0 else 1);
            && config.Valid() && Tolerates(config, 0.1, 2.0)
            && History(xs, config, 3, arrivesAt, 0.1) && TimelyReplies(xs, config, 3, arrivesAt, cause, 2.0)
            && AllOwn(xs, cause) && second.record.readFrom < second.record.readTo
  {
    hide EncodeAdu;
  }

  function Windowed(timeout: real, window: real): BusConfig {
    BusConfig(timeout, TimingConfig(0.00175, 0.00075, 0.0, 0.1, 0.0, window), RetryPolicy(0, {}, true, 0.0), true, true)
  }

  // ----- What else the order of the history gives -----

  // Idle gaps and windows: a frame goes out only the inter-frame idle after the end of every earlier attempt
  // and after the last discarded byte, and not before the window of any uncertain one is over.
  lemma GapsHold(bus: Bus, i: nat, j: nat)
    requires bus.Valid() && i < j < |bus.reports| && bus.reports[j].record.sendAt.Some?
    ensures var x, y, idle := bus.reports[i].record, bus.reports[j].record, bus.config.timing.interFrameIdle;
            && x.endedAt + idle <= y.sendAt.value
            && (x.sendAt.Some? ==> x.sendAt.value <= x.endedAt)
            && (y.discardFrom < y.emptiedTo ==> bus.stream.arrivesAt[y.emptiedTo - 1] + idle <= y.sendAt.value)
            && x.readTo <= y.discardFrom
    ensures var x, y, timing := bus.reports[i], bus.reports[j].record, bus.config.timing;
            && (x.Uncertain() && timing.lateReplyWindow > 0.0 ==>
                  x.record.endedAt + timing.lateReplyWindow <= y.sendAt.value)
            && (x.broadcast && x.error.None? ==>
                  && x.record.sentAt.Some?
                  && x.record.sentAt.value + timing.broadcastTurnaround + timing.interFrameIdle <= y.sendAt.value)
  {
    hide AllSettled, BeginsAt, Sendings, Numbered, AnswersRead, AllBefore;
    assert AttemptHolds(bus.reports[i], bus.config, bus.stream.arrivesAt, bus.stream.lag);
    assert AttemptHolds(bus.reports[j], bus.config, bus.stream.arrivesAt, bus.stream.lag);
    assert Follows(bus.reports[i], bus.reports[j].record, bus.config, bus.stream.arrivesAt, bus.stream.lag);
  }

  // ----- Sizing the window -----

  // `estimate_late_reply_window`.
  function EstimateLateReplyWindow(baudrate: int, maxTurnaround: real, maxReplyBytes: int,
                                   latency: real): Result<real> {
    if baudrate <= 0 || maxTurnaround < 0.0 || maxReplyBytes < 1 || latency < 0.0 then Err(ConfigurationError)
    else Ok(maxTurnaround + maxReplyBytes as real * BITS_PER_CHARACTER as real / baudrate as real + latency)
  }

  // Eleven bits to a character: the turnaround, the characters at the line speed, and the latency.
  lemma EstimateInBits(baudrate: int, maxTurnaround: real, maxReplyBytes: int, latency: real, window: real)
    ensures EstimateLateReplyWindow(baudrate, maxTurnaround, maxReplyBytes, latency) == Ok(window) <==>
              && baudrate > 0 && maxTurnaround >= 0.0 && maxReplyBytes >= 1 && latency >= 0.0
              && (window - maxTurnaround - latency) * baudrate as real == 11.0 * maxReplyBytes as real
    ensures baudrate > 0 && maxReplyBytes >= 1 ==> Characters(maxReplyBytes, baudrate) * baudrate as real
                                                   == 11.0 * maxReplyBytes as real
  {
    if baudrate > 0 {
      var bits, speed, rest := maxReplyBytes as real * 11.0, baudrate as real, window - maxTurnaround - latency;
      assert bits / speed * speed == bits;
      assert rest * speed == bits ==> rest == bits / speed;
    }
  }

  // What is known of a slave: byte `position` (from 1) of the reply to a request that
  // was fully out at `out` arrives within the slave's turnaround, the line's speed and the adapter's delay.
  predicate WithinLimits(at: real, out: real, position: nat, baudrate: int, maxTurnaround: real, maxReplyBytes: int,
                         latency: real)
    requires baudrate > 0
  {
    1 <= position <= maxReplyBytes
    && at <= out + maxTurnaround + position as real * BITS_PER_CHARACTER as real / baudrate as real + latency
  }

  // Every reply byte is within the limits, counted from when its request was fully out.
  ghost predicate AllWithinLimits(xs: seq<Attempt>, arrivesAt: seq<real>, cause: seq<nat>, out: seq<real>,
                                  position: seq<nat>, baudrate: int, maxTurnaround: real, maxReplyBytes: int,
                                  latency: real)
    requires baudrate > 0
  {
    && |out| == |xs| && |cause| == |position| == |arrivesAt|
    && forall k {:trigger cause[k]} :: 0 <= k < |cause| && cause[k] < |xs| ==>
         WithinLimits(arrivesAt[k], out[cause[k]], position[k], baudrate, maxTurnaround, maxReplyBytes, latency)
  }

  // A request takes up to `draining` to leave the adapter: it is out when the output has been drained, or that
  // long after it was handed over, or after the end of an attempt that was cut off while it sent.
  ghost predicate OutBy(xs: seq<Attempt>, config: BusConfig, out: seq<real>, draining: real) {
    && |out| == |xs|
    && forall c :: 0 <= c < |xs| && xs[c].Uncertain() ==>
         var r := xs[c].record;
         out[c] <= if r.sentAt.None? then r.endedAt + draining
                   else if config.drains then r.sentAt.value else r.sentAt.value + draining
  }

  // Every uncertain attempt lasted until its request was out: it was recorded as sent, and either the output had
  // been drained by then or there was time enough for that before the attempt ended.
  ghost predicate EveryRequestOut(xs: seq<Attempt>, config: BusConfig, draining: real) {
    forall c :: 0 <= c < |xs| && xs[c].Uncertain() ==>
      && xs[c].record.sentAt.Some?
      && (config.drains || xs[c].record.sentAt.value + draining <= xs[c].record.endedAt)
  }

  ghost predicate EveryRequestSent(xs: seq<Attempt>) {
    forall c :: 0 <= c < |xs| && xs[c].Uncertain() ==> xs[c].record.sentAt.Some?
  }

  // The estimate bounds how late a reply is, plus what a request may still drain after its attempt.
  lemma EstimateBounds(xs: seq<Attempt>, config: BusConfig, arrivesAt: seq<real>, lag: real, cause: seq<nat>,
                       out: seq<real>, position: seq<nat>, draining: real, baudrate: int, maxTurnaround: real,
                       maxReplyBytes: int,
                       latency: real, estimate: real)
    requires EstimateLateReplyWindow(baudrate, maxTurnaround, maxReplyBytes, latency) == Ok(estimate) && 0.0 <= draining
    requires Orderly(xs, config, arrivesAt, lag) && OutBy(xs, config, out, draining)
    requires AllWithinLimits(xs, arrivesAt, cause, out, position, baudrate, maxTurnaround, maxReplyBytes, latency)
    ensures estimate > 0.0 && Bounded(xs, arrivesAt, cause, estimate + draining)
    ensures EveryRequestOut(xs, config, draining) ==> Bounded(xs, arrivesAt, cause, estimate)
  {
    forall k {:trigger cause[k]} | 0 <= k < |cause| && cause[k] < |xs| && xs[cause[k]].Uncertain()
      ensures arrivesAt[k] <= xs[cause[k]].record.endedAt + estimate + draining
      ensures EveryRequestOut(xs, config, draining) ==> arrivesAt[k] <= xs[cause[k]].record.endedAt + estimate
    {
      var c := cause[k];
      assert AttemptHolds(xs[c], config, arrivesAt, lag);
      assert WithinLimits(arrivesAt[k], out[c], position[k], baudrate, maxTurnaround, maxReplyBytes, latency);
      CharactersTake(position[k], maxReplyBytes, baudrate);
    }
    CharactersTake(1, maxReplyBytes, baudrate);
  }

  lemma CharactersTake(position: nat, most: int, baudrate: int)
    requires 1 <= position <= most && baudrate > 0
    ensures 0.0 < position as real * BITS_PER_CHARACTER as real / baudrate as real
            <= most as real * BITS_PER_CHARACTER as real / baudrate as real
  {
    DivideOrder(position as real * 11.0, most as real * 11.0, baudrate as real);
    DivideOrder(0.0, position as real * 11.0, baudrate as real);
  }

  lemma DivideOrder(x: real, y: real, d: real)
    requires x <= y && d > 0.0
    ensures x / d <= y / d && (x < y ==> x / d < y / d)
  {
    assert y / d - x / d == (y - x) / d;
  }

  // A window of at least the estimate is safe for a slave within its limits, provided every uncertain
  // attempt lasted until its request was out.
  lemma EstimateIsSafe(bus: Bus, cause: seq<nat>, out: seq<real>, position: seq<nat>, draining: real, baudrate: int,
                       maxTurnaround: real, maxReplyBytes: int, latency: real, estimate: real)
    requires bus.Valid() && Caused(bus.reports, bus.config, bus.takenBefore, bus.stream.arrivesAt, cause)
             && AnsweredWhole(bus.reports, cause)
    requires EstimateLateReplyWindow(baudrate, maxTurnaround, maxReplyBytes, latency) == Ok(estimate)
    requires estimate <= bus.config.timing.lateReplyWindow && 0.0 <= draining
    requires EveryRequestOut(bus.reports, bus.config, draining) && OutBy(bus.reports, bus.config, out, draining)
    requires AllWithinLimits(bus.reports, bus.stream.arrivesAt, cause, out, position, baudrate, maxTurnaround,
                             maxReplyBytes, latency)
    requires bus.config.resetsInput || bus.stream.lag < bus.config.requestTimeout
    ensures AllOwn(bus.reports, cause)
  {
    hide AllSettled, BeginsAt, Sendings, Numbered, AnswersRead, Orderly, AllWithinLimits, EveryRequestOut;
    hide OutBy, Caused, AnsweredWhole, Bounded, AllOwn;
    EstimateBounds(bus.reports, bus.config, bus.stream.arrivesAt, bus.stream.lag, cause, out, position, draining,
                   baudrate, maxTurnaround, maxReplyBytes, latency, estimate);
    LateReplySafety(bus, cause, estimate);
  }

  // Without that, the window has to cover what a request still drains after its attempt.
  lemma DrainingIsSafe(bus: Bus, cause: seq<nat>, out: seq<real>, position: seq<nat>, draining: real, baudrate: int,
                       maxTurnaround: real, maxReplyBytes: int, latency: real, estimate: real)
    requires bus.Valid() && Caused(bus.reports, bus.config, bus.takenBefore, bus.stream.arrivesAt, cause)
             && AnsweredWhole(bus.reports, cause)
    requires EstimateLateReplyWindow(baudrate, maxTurnaround, maxReplyBytes, latency) == Ok(estimate) && 0.0 <= draining
    requires estimate + draining <= bus.config.timing.lateReplyWindow
    requires OutBy(bus.reports, bus.config, out, draining)
    requires AllWithinLimits(bus.reports, bus.stream.arrivesAt, cause, out, position, baudrate, maxTurnaround,
                             maxReplyBytes, latency)
    requires bus.config.resetsInput || bus.stream.lag < bus.config.requestTimeout
    ensures AllOwn(bus.reports, cause)
  {
    hide AllSettled, BeginsAt, Sendings, Numbered, AnswersRead, Orderly, AllWithinLimits, EveryRequestOut;
    hide OutBy, Caused, AnsweredWhole, Bounded, AllOwn;
    EstimateBounds(bus.reports, bus.config, bus.stream.arrivesAt, bus.stream.lag, cause, out, position, draining,
                   baudrate, maxTurnaround, maxReplyBytes, latency, estimate);
    LateReplySafety(bus, cause, estimate + draining);
  }

  const REQUEST_BYTES: nat := 8

  function Characters(n: nat, baudrate: int): real
    requires baudrate > 0
  {
    n as real * BITS_PER_CHARACTER as real / baudrate as real
  }

  // Cancelled as soon as its request, the first of its bus, was handed to the port: within the send, or, when that
  // has `returned` without draining the output, while it waits for the reply.
  function CutOffSend(config: BusConfig, returned: bool): Attempt {
    var sendAt := 1.0 + config.timing.startupSettle;
    var sentAt := if returned then Some(sendAt) else None;
    var readAt := if returned && config.timing.postTxSettle == 0.0 then Some(sendAt) else None;
    ReadAttempt(1, 0, Some(Cancelled), Record(1.0, 0, 0, 0.0, Some(sendAt), sentAt, readAt, sendAt, 0, 0, 0, false,
                                              config.resetsInput))
  }

  // The eight characters of a request handed over at `ended` still leave the adapter; the reply comes at the
  // slave's limits after that.
  function SlowReply(ended: real, baudrate: int, maxTurnaround: real, latency: real): (r: seq<real>)
    requires baudrate > 0
    ensures |r| == REPLY_BYTES
  {
    seq(REPLY_BYTES, k requires 0 <= k => ended + Characters(REQUEST_BYTES, baudrate) + maxTurnaround
                                          + Characters(k + 1, baudrate) + latency)
  }

  lemma CharactersOrder(m: nat, n: nat, baudrate: int)
    requires m < n && baudrate > 0
    ensures 0.0 <= Characters(m, baudrate) < Characters(n, baudrate)
    ensures Characters(n, baudrate) == Characters(m, baudrate) + Characters(n - m, baudrate)
  {
    DivideOrder(m as real * 11.0, n as real * 11.0, baudrate as real);
    DivideOrder(0.0, m as real * 11.0, baudrate as real);
    assert m as real * 11.0 / baudrate as real + (n - m) as real * 11.0 / baudrate as real
        == (m as real * 11.0 + (n - m) as real * 11.0) / baudrate as real;
  }

  lemma SlowReplyTimes(ended: real, baudrate: int, maxTurnaround: real, latency: real)
    requires baudrate > 0 && maxTurnaround >= 0.0 && latency >= 0.0
    ensures var arrivesAt := SlowReply(ended, baudrate, maxTurnaround, latency);
            var estimate := EstimateLateReplyWindow(baudrate, maxTurnaround, REPLY_BYTES, latency).value;
            && InOrder(arrivesAt) && ended + estimate < arrivesAt[0]
            && arrivesAt[6] == ended + Characters(REQUEST_BYTES, baudrate) + estimate
            && forall k :: 0 <= k < REPLY_BYTES ==>
                 WithinLimits(arrivesAt[k], ended + Characters(REQUEST_BYTES, baudrate), k + 1, baudrate,
                              maxTurnaround, REPLY_BYTES, latency)
  {
    CharactersOrder(REPLY_BYTES, REQUEST_BYTES + 1, baudrate);
    CharactersOrder(1, REQUEST_BYTES + 1, baudrate);
    forall i, j | 0 <= i < j < REPLY_BYTES
      ensures SlowReply(ended, baudrate, maxTurnaround, latency)[i]
              < SlowReply(ended, baudrate, maxTurnaround, latency)[j]
    {
      CharactersOrder(i + 1, j + 1, baudrate);
    }
  }

  const LATE_CAUSE: seq<nat> := [0, 0, 0, 0, 0, 0, 0]
  const LATE_POSITION: seq<nat> := [1, 2, 3, 4, 5, 6, 7]

  function CutOffRun(config: BusConfig, returned: bool, at: real): seq<Attempt> {
    var ended := CutOffSend(config, returned).record.endedAt;
    [CutOffSend(config, returned), Misled(config, ended, 0, ended, ended + config.timing.lateReplyWindow, at)]
  }

  lemma CutOffOrderly(config: BusConfig, returned: bool, lag: real, arrivesAt: seq<real>)
    requires config.Valid() && 0.0 <= lag && config.DiscardIdle() <= config.timing.lateReplyWindow
    requires |arrivesAt| == REPLY_BYTES && InOrder(arrivesAt)
    requires var until := CutOffSend(config, returned).record.endedAt + config.timing.lateReplyWindow;
             until < arrivesAt[0] && arrivesAt[6] <= until + config.requestTimeout
    ensures History(CutOffRun(config, returned, arrivesAt[6]), config, 0, arrivesAt, lag)
  {
    hide EncodeAdu;
    var first, second := CutOffRun(config, returned, arrivesAt[6])[0], CutOffRun(config, returned, arrivesAt[6])[1];
    assert AttemptHolds(first, config, arrivesAt, lag);
    assert AttemptHolds(second, config, arrivesAt, lag);
    assert Follows(first, second.record, config, arrivesAt, lag);
  }

  lemma CutOffMisleads(config: BusConfig, returned: bool, draining: real, arrivesAt: seq<real>)
    requires config.Valid() && |arrivesAt| == REPLY_BYTES && InOrder(arrivesAt) && 0.0 < draining
             && (returned ==> !config.drains) && CutOffSend(config, returned).record.endedAt < arrivesAt[0]
    ensures var xs := CutOffRun(config, returned, arrivesAt[6]);
            && Caused(xs, config, 0, arrivesAt, LATE_CAUSE) && AnsweredWhole(xs, LATE_CAUSE)
            && !EveryRequestOut(xs, config, draining) && (returned ==> EveryRequestSent(xs))
            && !AllOwn(xs, LATE_CAUSE)
  {
    hide EncodeAdu;
    var second := CutOffRun(config, returned, arrivesAt[6])[1];
    assert second.record.readFrom <= 0 < second.record.readTo && LATE_CAUSE[0] == 0;
    assert !ReadsOnlyItsOwn(second, 1, LATE_CAUSE);
  }

  // The documented reason the estimate suffices - an attempt never ends before its request was sent - fails for
  // a send cancelled midway, and for a call cancelled after a send that returned without draining the output,
  // although its request is recorded as sent: with a window of exactly the estimate, whatever the limits, the
  // next call can read the cancelled call's reply, every byte of it within the slave's limits, before its own
  // time is up.
  lemma CutOffSendOutlivesEstimate(config: BusConfig, returned: bool, lag: real, baudrate: int, maxTurnaround: real,
                                   latency: real)
    requires baudrate > 0 && maxTurnaround >= 0.0 && latency >= 0.0 && config.Valid() && 0.0 <= lag
    requires EstimateLateReplyWindow(baudrate, maxTurnaround, REPLY_BYTES, latency) == Ok(config.timing.lateReplyWindow)
    requires config.DiscardIdle() <= config.timing.lateReplyWindow
    requires Characters(REQUEST_BYTES, baudrate) <= config.requestTimeout && (returned ==> !config.drains)
    ensures var ended := CutOffSend(config, returned).record.endedAt;
            var arrivesAt := SlowReply(ended, baudrate, maxTurnaround, latency);
            var xs := CutOffRun(config, returned, arrivesAt[6]);
            var draining := Characters(REQUEST_BYTES, baudrate);
            && History(xs, config, 0, arrivesAt, lag)
            && Caused(xs, config, 0, arrivesAt, LATE_CAUSE) && AnsweredWhole(xs, LATE_CAUSE)
            && AllWithinLimits(xs, arrivesAt, LATE_CAUSE, [ended + draining, ended], LATE_POSITION, baudrate,
                               maxTurnaround, REPLY_BYTES, latency)
            && OutBy(xs, config, [ended + draining, ended], draining)
            && !EveryRequestOut(xs, config, draining) && (returned ==> EveryRequestSent(xs))
            && !AllOwn(xs, LATE_CAUSE)
  {
    hide *;
    var ended := CutOffSend(config, returned).record.endedAt;
    SlowReplyTimes(ended, baudrate, maxTurnaround, latency);
    var arrivesAt := SlowReply(ended, baudrate, maxTurnaround, latency);
    CutOffOrderly(config, returned, lag, arrivesAt);
    PositiveEstimate(config);
    RequestTakes(baudrate);
    CutOffMisleads(config, returned, Characters(REQUEST_BYTES, baudrate), arrivesAt);
    CutOffLimits(config, returned, baudrate, maxTurnaround, latency);
  }

  lemma RequestTakes(baudrate: int)
    requires baudrate > 0
    ensures 0.0 < Characters(REQUEST_BYTES, baudrate)
  {
    CharactersOrder(0, REQUEST_BYTES, baudrate);
  }

  lemma PositiveEstimate(config: BusConfig)
    requires config.DiscardIdle() <= config.timing.lateReplyWindow
    ensures 0.0 < config.timing.lateReplyWindow
  {}

  lemma CutOffLimits(config: BusConfig, returned: bool, baudrate: int, maxTurnaround: real, latency: real)
    requires baudrate > 0 && maxTurnaround >= 0.0 && latency >= 0.0 && (returned ==> !config.drains)
    ensures var ended := CutOffSend(config, returned).record.endedAt;
            var arrivesAt := SlowReply(ended, baudrate, maxTurnaround, latency);
            var xs := CutOffRun(config, returned, arrivesAt[6]);
            var draining := Characters(REQUEST_BYTES, baudrate);
            && AllWithinLimits(xs, arrivesAt, LATE_CAUSE, [ended + draining, ended], LATE_POSITION, baudrate,
                               maxTurnaround, REPLY_BYTES, latency)
            && OutBy(xs, config, [ended + draining, ended], draining)
  {
    var ended := CutOffSend(config, returned).record.endedAt;
    var arrivesAt := SlowReply(ended, baudrate, maxTurnaround, latency);
    SlowReplyTimes(ended, baudrate, maxTurnaround, latency);
    CutOffOutBy(config, returned, arrivesAt[6], Characters(REQUEST_BYTES, baudrate));
    hide EncodeAdu, Characters, WithinLimits, SlowReply, OutBy, CutOffSend, Misled;
    forall k | 0 <= k < REPLY_BYTES
      ensures WithinLimits(arrivesAt[k], ended + Characters(REQUEST_BYTES, baudrate), LATE_POSITION[k], baudrate,
                           maxTurnaround, REPLY_BYTES, latency)
    {
      assert LATE_POSITION[k] == k + 1;
    }
  }

  lemma CutOffOutBy(config: BusConfig, returned: bool, at: real, draining: real)
    requires returned ==> !config.drains
    ensures var ended := CutOffSend(config, returned).record.endedAt;
            OutBy(CutOffRun(config, returned, at), config, [ended + draining, ended], draining)
  {
    hide EncodeAdu;
  }
}

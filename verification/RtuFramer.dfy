// RTU framing (src/anymodbus/framer.py): one pure parse of a byte string, and
// readers that agree with it however the bytes are split into receives.
module RtuFramer {
  import opened Bits
  import opened Errors
  import opened Crc
  import opened Pdu
  import opened Line

  const MAX_BYTE_COUNT := 250
  const CRC_LEN := 2
  const MAX_TAIL_BYTES: nat := 254

  function EncodeAdu(slave: int, pdu: seq<byte>): Result<seq<byte>> {
    if !(0 <= slave <= 0xFF) then Err(ConfigurationError)
    else if |pdu| == 0 then Err(ConfigurationError)
    else Ok([slave] + pdu + CrcBytes([slave] + pdu))
  }

  // ----- The length tables -----

  // Bytes after the two-byte head of a reply, CRC included.
  function FixedTail(fc: byte): Option<nat> {
    if fc == WRITE_SINGLE_COIL || fc == WRITE_SINGLE_REGISTER || fc == WRITE_MULTIPLE_COILS
       || fc == WRITE_MULTIPLE_REGISTERS || fc == DIAGNOSTICS
    then Some(6)
    else if fc == MASK_WRITE_REGISTER then Some(8)
    else None
  }

  // Replies with a byte count right after the function code.
  predicate HasByteCount(fc: byte) {
    fc == READ_COILS || fc == READ_DISCRETE_INPUTS || fc == READ_HOLDING_REGISTERS
    || fc == READ_INPUT_REGISTERS || fc == READ_WRITE_MULTIPLE_REGISTERS
  }

  function RequestFixedTail(fc: byte): Option<nat> {
    if fc == READ_COILS || fc == READ_DISCRETE_INPUTS || fc == READ_HOLDING_REGISTERS || fc == READ_INPUT_REGISTERS
       || fc == WRITE_SINGLE_COIL || fc == WRITE_SINGLE_REGISTER || fc == DIAGNOSTICS
    then Some(6)
    else if fc == MASK_WRITE_REGISTER then Some(8)
    else None
  }

  // Bytes between the function code and the byte count of a request.
  function RequestPrefix(fc: byte): Option<nat> {
    if fc == WRITE_MULTIPLE_COILS || fc == WRITE_MULTIPLE_REGISTERS then Some(4)
    else if fc == READ_WRITE_MULTIPLE_REGISTERS then Some(8)
    else None
  }

  // ----- The pure parse -----

  datatype Parsed =
    // More bytes are needed to go on: this many in all.
    | Partial(needed: nat)
    | Rejected(error: Error, used: nat)
    | Framed(slave: byte, pdu: seq<byte>, used: nat)
    // The length is not in the bytes: only silence ends the frame.
    | Unframed
  {
    // How far into the input a reader may look.
    function Extent(): nat {
      match this
      case Partial(needed) => needed
      case Rejected(_, used) => used
      case Framed(_, _, used) => used
      case Unframed => 2
    }
  }

  function Complete(s: seq<byte>, total: nat): Parsed
    requires total >= 4
  {
    if |s| < total then Partial(total)
    else if !VerifyCrc(s[..total]) then Rejected(CrcError, total)
    else Framed(s[0], s[1..total - CRC_LEN], total)
  }

  function ParseReply(s: seq<byte>): Parsed {
    if |s| < 2 then Partial(2)
    else if s[1] == 0 then Rejected(ProtocolError, 2)
    else if s[1] >= 0x80 then Complete(s, 5)
    else if HasByteCount(s[1]) then
      if |s| < 3 then Partial(3)
      else if s[2] > MAX_BYTE_COUNT then Rejected(FrameError, 3)
      else Complete(s, 5 + s[2] as int)
    else if FixedTail(s[1]).Some? then Complete(s, 2 + FixedTail(s[1]).value)
    else Unframed
  }

  function ParseRequest(s: seq<byte>): Parsed {
    if |s| < 2 then Partial(2)
    else if RequestFixedTail(s[1]).Some? then Complete(s, 2 + RequestFixedTail(s[1]).value)
    else if RequestPrefix(s[1]).Some? then
      var prefix := RequestPrefix(s[1]).value;
      if |s| < prefix + 3 then Partial(prefix + 3)
      else if s[prefix + 2] > MAX_BYTE_COUNT then Rejected(FrameError, prefix + 3)
      else Complete(s, prefix + 5 + s[prefix + 2] as int)
    else Unframed
  }

  // ----- Stream helpers -----

  method ReadExact(stream: ByteStream, n: nat, deadline: Deadline) returns (r: Result<seq<byte>>)
    requires stream.Valid()
    modifies stream`now, stream`taken, stream`reach
    ensures Waited(r.TimedOut(), old(stream.now), stream.now, deadline, stream.lag)
    ensures NotThere(r.TimedOut(), old(stream.now), deadline, stream.arrivesAt, stream.lag, stream.taken + 1)
    ensures stream.Valid() && old(stream.now) <= stream.now
            && old(stream.taken) <= stream.taken <= old(stream.taken) + n
    ensures stream.reach <= old(stream.reach) || stream.reach <= old(stream.taken) + n
    ensures r.Ok? ==>
              stream.taken == old(stream.taken) + n && r.value == stream.incoming[old(stream.taken)..stream.taken]
    ensures r.Ok? && n > 0 ==> stream.now <= Later(old(stream.now), stream.arrivesAt[stream.taken - 1] + stream.lag)
    ensures r.Err? ==> stream.taken < old(stream.taken) + n && (r.error.FrameError? || r.error.IsInterruption())
    ensures r.Err? && r.error.FrameError? ==> stream.taken == |stream.incoming|
  {
    var buf: seq<byte> := [];
    while |buf| < n
      invariant stream.Valid() && old(stream.now) <= stream.now
      invariant Waited(false, old(stream.now), stream.now, deadline, stream.lag)
      invariant |buf| <= n && stream.taken == old(stream.taken) + |buf|
      invariant buf == stream.incoming[old(stream.taken)..stream.taken]
      invariant if buf == [] then stream.now == old(stream.now)
                else stream.now <= Later(old(stream.now), stream.arrivesAt[stream.taken - 1] + stream.lag)
      invariant stream.reach <= old(stream.reach) || stream.reach <= old(stream.taken) + n
      decreases n - |buf|
    {
      var received := stream.Receive(n - |buf|, deadline);
      match received {
        case Chunk(bytes) => buf := buf + bytes;
        case Expired => return Err(DeadlinePassed);
        case Raised(error) =>
          return Err(if error == Stream(EndOfStream) then FrameError else error);
      }
    }
    return Ok(buf);
  }

  // The bytes from `start` up to `end` form one burst for a reader that began at
  // `from`: no gap inside, and more than a gap (and the reader's lag) before the next byte.
  ghost predicate OneBurst(arrivesAt: seq<real>, lag: real, gap: real, from: real, start: nat, end: nat) {
    && start < end <= |arrivesAt|
    && (forall k :: start < k < end ==> arrivesAt[k] <= arrivesAt[k - 1] + gap)
    && (end < |arrivesAt| ==> Later(from, arrivesAt[end - 1] + lag) + gap + lag < arrivesAt[end])
  }

  // A reader that has taken `at` bytes by the time `from` is inside the burst that ends at `end`.
  ghost predicate InBurst(arrivesAt: seq<real>, lag: real, gap: real, from: real, at: nat, end: nat) {
    0 < at < end && OneBurst(arrivesAt, lag, gap, from, at - 1, end)
  }

  ghost predicate StaysInBurst(arrivesAt: seq<real>, lag: real, gap: real, from: real, at: nat, taken: nat, now: real) {
    gap > 0.0 ==> forall end: nat :: InBurst(arrivesAt, lag, gap, from, at, end) ==>
      taken <= end && now <= Later(from, arrivesAt[end - 1] + lag)
  }

  // However it ends, it has not left that burst.
  ghost predicate StaysWithin(arrivesAt: seq<real>, lag: real, gap: real, from: real, at: nat, taken: nat) {
    gap > 0.0 ==> forall end: nat :: InBurst(arrivesAt, lag, gap, from, at, end) ==> taken <= end
  }

  lemma BurstNotLeft(arrivesAt: seq<real>, lag: real, gap: real, from: real, at: nat, taken: nat, now: real)
    requires StaysInBurst(arrivesAt, lag, gap, from, at, taken, now)
    ensures StaysWithin(arrivesAt, lag, gap, from, at, taken)
  {}

  // A reader that goes on at `taken` has lost no time beyond the arrival of the next byte there.
  predicate OnTime(arrivesAt: seq<real>, lag: real, gap: real, from: real, taken: nat, now: real) {
    gap > 0.0 && taken < |arrivesAt| ==> now <= Later(from, arrivesAt[taken] + lag)
  }

  lemma OnTimeThen(arrivesAt: seq<real>, lag: real, gap: real, from: real, taken: nat, since: real, later: nat,
                   now: real)
    requires InOrder(arrivesAt) && taken <= later
    requires OnTime(arrivesAt, lag, gap, from, taken, since) && OnTime(arrivesAt, lag, gap, since, later, now)
    ensures OnTime(arrivesAt, lag, gap, from, later, now)
  {}

  // A timeout of a read with gaps: the next byte was missing.
  predicate NextMissing(expired: bool, began: real, deadline: Deadline, arrivesAt: seq<real>, lag: real, gap: real,
                        taken: nat) {
    gap > 0.0 ==> NotThere(expired, began, deadline, arrivesAt, lag, taken + 1)
  }

  lemma NoTimeout(began: real, deadline: Deadline, arrivesAt: seq<real>, lag: real, gap: real, taken: nat)
    ensures NextMissing(false, began, deadline, arrivesAt, lag, gap, taken)
  {}

  lemma NextMissingSince(expired: bool, began: real, since: real, deadline: Deadline, arrivesAt: seq<real>, lag: real,
                         gap: real, taken: nat)
    requires OnTime(arrivesAt, lag, gap, began, taken, since)
    requires NextMissing(expired, since, deadline, arrivesAt, lag, gap, taken)
    ensures NextMissing(expired, began, deadline, arrivesAt, lag, gap, taken)
  {}

  // And has taken all of a burst that fits, noticing at most one gap after its end, and at once where it is full.
  ghost predicate TakesBurst(arrivesAt: seq<real>, lag: real, gap: real, from: real, at: nat, taken: nat, now: real) {
    gap > 0.0 ==>
      forall end: nat :: InBurst(arrivesAt, lag, gap, from, at, end) && end <= at + MAX_TAIL_BYTES ==>
        taken == end
        && (end < |arrivesAt| ==>
              now <= Later(from, arrivesAt[end - 1] + lag) + if end == at + MAX_TAIL_BYTES then 0.0 else gap + lag)
  }

  lemma BurstBegins(arrivesAt: seq<real>, lag: real, gap: real, from: real, at: nat)
    ensures StaysInBurst(arrivesAt, lag, gap, from, at, at, from)
  {}

  lemma BurstGoesOn(arrivesAt: seq<real>, lag: real, gap: real, from: real, at: nat, before: nat, taken: nat,
                    since: real, now: real)
    requires StaysInBurst(arrivesAt, lag, gap, from, at, before, since) && InOrder(arrivesAt) && lag >= 0.0
    requires at <= before < taken <= |arrivesAt| && arrivesAt[taken - 1] <= now <= Later(since, arrivesAt[before] + lag)
    requires at < before ==> now <= since + gap + lag
    ensures StaysInBurst(arrivesAt, lag, gap, from, at, taken, now)
  {}

  lemma BurstOver(arrivesAt: seq<real>, lag: real, gap: real, from: real, at: nat, taken: nat, since: real, now: real)
    requires StaysInBurst(arrivesAt, lag, gap, from, at, taken, since) && at <= taken <= |arrivesAt|
    requires taken < |arrivesAt| ==> now <= since + if taken == at + MAX_TAIL_BYTES then 0.0 else gap + lag
    ensures gap <= 0.0 || taken == |arrivesAt| || taken == at + MAX_TAIL_BYTES
            || (at < taken && arrivesAt[taken - 1] + gap < arrivesAt[taken]) ==>
              TakesBurst(arrivesAt, lag, gap, from, at, taken, now)
  {}

  // The bytes that come within `gap` seconds: none when the line falls silent or the stream ends.
  method ReadUnlessIdle(stream: ByteStream, max: nat, gap: real, deadline: Deadline, ghost from: real, ghost at: nat)
    returns (r: Result<seq<byte>>)
    requires stream.Valid() && gap >= 0.0 && max >= 1 && at < stream.taken && stream.taken + max <= at + MAX_TAIL_BYTES
    requires StaysInBurst(stream.arrivesAt, stream.lag, gap, from, at, stream.taken, stream.now)
    modifies stream`now, stream`taken, stream`reach
    ensures Waited(r.TimedOut(), old(stream.now), stream.now, deadline, stream.lag)
    ensures stream.Valid() && old(stream.now) <= stream.now
            && old(stream.taken) <= stream.taken <= old(stream.taken) + max
    ensures r.Ok? ==> stream.taken == old(stream.taken) + |r.value|
                      && r.value == stream.incoming[old(stream.taken)..stream.taken]
    ensures r.Ok? && r.value != [] ==>
              StaysInBurst(stream.arrivesAt, stream.lag, gap, from, at, stream.taken, stream.now)
    ensures r == Ok([]) ==> TakesBurst(stream.arrivesAt, stream.lag, gap, from, at, stream.taken, stream.now)
                            && (stream.taken < |stream.incoming| && gap > 0.0 ==>
                                  stream.arrivesAt[stream.taken - 1] + gap <= stream.now
                                  && stream.arrivesAt[stream.taken - 1] + gap < stream.arrivesAt[stream.taken])
    ensures r.Err? ==> r.error.IsInterruption() && stream.taken == old(stream.taken)
    ensures NextMissing(r.TimedOut(), old(stream.now), deadline, stream.arrivesAt, stream.lag, gap, stream.taken)
    ensures r.Ok? ==> OnTime(stream.arrivesAt, stream.lag, gap, old(stream.now), stream.taken, stream.now)
  {
    hide StaysInBurst, TakesBurst;
    ghost var before, since := stream.taken, stream.now;
    var idleAt := stream.now + gap;
    var received := stream.Receive(max, EarlierDeadline(deadline, Some(idleAt)));
    match received {
      case Chunk(bytes) =>
        BurstGoesOn(stream.arrivesAt, stream.lag, gap, from, at, before, stream.taken, since, stream.now);
        return Ok(bytes);
      case Expired =>
        BurstOver(stream.arrivesAt, stream.lag, gap, from, at, stream.taken, since, stream.now);
        // Woken late, both scopes may have expired; the outer one may then win.
        var outerWins := *;
        var outer := deadline.Some? && deadline.value <= stream.now && (deadline.value < idleAt || outerWins);
        return if outer then Err(DeadlinePassed) else Ok([]);
      case Raised(error) =>
        if error == Stream(EndOfStream) {
          BurstOver(stream.arrivesAt, stream.lag, gap, from, at, stream.taken, since, stream.now);
          return Ok([]);
        }
        return Err(error);
    }
  }

  // A reader that began a frame at `start` by the time `from` took its whole burst and no more.
  ghost predicate TakesFrameBurst(arrivesAt: seq<real>, lag: real, gap: real, from: real, start: nat, taken: nat) {
    gap > 0.0 ==>
      forall end: nat :: OneBurst(arrivesAt, lag, gap, from, start, end) && start + 2 < end <= start + 256 ==>
        taken == end
  }

  // However it ends, it has not left that burst.
  ghost predicate WithinFrameBurst(arrivesAt: seq<real>, lag: real, gap: real, from: real, start: nat, taken: nat) {
    gap > 0.0 ==> forall end: nat :: OneBurst(arrivesAt, lag, gap, from, start, end) && start + 2 < end ==> taken <= end
  }

  lemma BurstAfterHead(arrivesAt: seq<real>, lag: real, gap: real, from: real, start: nat, headAt: real, taken: nat,
                       now: real)
    requires start + 2 <= |arrivesAt| && InOrder(arrivesAt)
    requires gap > 0.0 ==> headAt <= Later(from, arrivesAt[start + 1] + lag)
    ensures TakesBurst(arrivesAt, lag, gap, headAt, start + 2, taken, now) ==>
              TakesFrameBurst(arrivesAt, lag, gap, from, start, taken)
    ensures StaysWithin(arrivesAt, lag, gap, headAt, start + 2, taken) ==>
              WithinFrameBurst(arrivesAt, lag, gap, from, start, taken)
  {
    forall end: nat | gap > 0.0 && OneBurst(arrivesAt, lag, gap, from, start, end) && start + 2 < end
      ensures InBurst(arrivesAt, lag, gap, headAt, start + 2, end)
    {
    }
  }

  // From the first bytes on, until `gap` seconds pass with no new data.
  method ReadOn(stream: ByteStream, first: seq<byte>, gap: real, deadline: Deadline, ghost from: real, ghost at: nat)
    returns (r: Result<seq<byte>>)
    requires stream.Valid() && gap >= 0.0 && from <= stream.now
    requires 0 < |first| <= MAX_TAIL_BYTES && stream.taken == at + |first| && first == stream.incoming[at..stream.taken]
    requires Waited(false, from, stream.now, deadline, stream.lag)
    requires StaysInBurst(stream.arrivesAt, stream.lag, gap, from, at, stream.taken, stream.now)
    requires OnTime(stream.arrivesAt, stream.lag, gap, from, stream.taken, stream.now)
    modifies stream`now, stream`taken, stream`reach
    ensures stream.Valid() && old(stream.now) <= stream.now && at < stream.taken <= at + MAX_TAIL_BYTES
    ensures Waited(r.TimedOut(), from, stream.now, deadline, stream.lag)
    ensures NextMissing(r.TimedOut(), from, deadline, stream.arrivesAt, stream.lag, gap, stream.taken)
    ensures if r.Ok? then
              && r.value == stream.incoming[at..stream.taken]
              && OnTime(stream.arrivesAt, stream.lag, gap, from, stream.taken, stream.now)
              && TakesBurst(stream.arrivesAt, stream.lag, gap, from, at, stream.taken, stream.now)
            else
              r.error.IsInterruption() && StaysWithin(stream.arrivesAt, stream.lag, gap, from, at, stream.taken)
    ensures r.Ok? && |r.value| < MAX_TAIL_BYTES && stream.taken < |stream.incoming| && gap > 0.0 ==>
              stream.arrivesAt[stream.taken - 1] + gap < stream.arrivesAt[stream.taken]
              && stream.arrivesAt[stream.taken - 1] + gap <= stream.now
  {
    var buf := first;
    hide StaysInBurst, TakesBurst, StaysWithin, Waited, OnTime, NextMissing;
    NoTimeout(from, deadline, stream.arrivesAt, stream.lag, gap, stream.taken);
    while |buf| < MAX_TAIL_BYTES
      invariant stream.Valid() && old(stream.now) <= stream.now
      invariant Waited(false, from, stream.now, deadline, stream.lag)
      invariant 0 < |buf| <= MAX_TAIL_BYTES && stream.taken == at + |buf|
      invariant buf == stream.incoming[at..stream.taken]
      invariant StaysInBurst(stream.arrivesAt, stream.lag, gap, from, at, stream.taken, stream.now)
      invariant OnTime(stream.arrivesAt, stream.lag, gap, from, stream.taken, stream.now)
      invariant NextMissing(false, from, deadline, stream.arrivesAt, stream.lag, gap, stream.taken)
      decreases MAX_TAIL_BYTES - |buf|
    {
      ghost var before, taken := stream.now, stream.taken;
      BurstNotLeft(stream.arrivesAt, stream.lag, gap, from, at, taken, before);
      var more := ReadUnlessIdle(stream, MAX_TAIL_BYTES - |buf|, gap, deadline, from, at);
      WaitedThen(more.TimedOut(), from, before, stream.now, deadline, stream.lag);
      if more.Err? {
        NextMissingSince(more.TimedOut(), from, before, deadline, stream.arrivesAt, stream.lag, gap, taken);
        return Err(more.error);
      }
      OnTimeThen(stream.arrivesAt, stream.lag, gap, from, taken, before, stream.taken, stream.now);
      NoTimeout(from, deadline, stream.arrivesAt, stream.lag, gap, stream.taken);
      if more.value == [] {
        return Ok(buf);
      }
      Adjacent(stream.incoming, at, taken, stream.taken);
      buf := buf + more.value;
    }
    BurstOver(stream.arrivesAt, stream.lag, gap, from, at, stream.taken, stream.now, stream.now);
    return Ok(buf);
  }

  // Reads until `gap` seconds pass with no new data; the first read waits for the deadline alone.
  method ReadUntilIdle(stream: ByteStream, gap: real, deadline: Deadline) returns (r: Result<seq<byte>>)
    requires stream.Valid() && gap >= 0.0
    modifies stream`now, stream`taken, stream`reach
    ensures Waited(r.TimedOut(), old(stream.now), stream.now, deadline, stream.lag)
    ensures stream.Valid() && old(stream.now) <= stream.now
    ensures old(stream.taken) <= stream.taken <= old(stream.taken) + MAX_TAIL_BYTES
    ensures r.Ok? ==> r.value == stream.incoming[old(stream.taken)..stream.taken]
    ensures r.Err? ==> r.error.IsInterruption()
    // What ended it: the cap, the end of the stream, or a silence after the last byte.
    ensures r.Ok? && |r.value| < MAX_TAIL_BYTES && stream.taken < |stream.incoming| && gap > 0.0 ==>
              old(stream.taken) < stream.taken
                && stream.arrivesAt[stream.taken - 1] + gap < stream.arrivesAt[stream.taken]
              && stream.arrivesAt[stream.taken - 1] + gap <= stream.now
    // In the middle of a burst that fits, it is read to its end and no further.
    ensures r.Ok? ==>
              TakesBurst(stream.arrivesAt, stream.lag, gap, old(stream.now), old(stream.taken), stream.taken,
                         stream.now)
    // Broken off, it has not left the burst; it times out for want of the next byte, and is done on time.
    ensures r.Err? ==>
              StaysWithin(stream.arrivesAt, stream.lag, gap, old(stream.now), old(stream.taken), stream.taken)
    ensures NextMissing(r.TimedOut(), old(stream.now), deadline, stream.arrivesAt, stream.lag, gap, stream.taken)
    ensures r.Ok? ==> OnTime(stream.arrivesAt, stream.lag, gap, old(stream.now), stream.taken, stream.now)
  {
    ghost var from, at := stream.now, stream.taken;
    BurstBegins(stream.arrivesAt, stream.lag, gap, from, at);
    BurstNotLeft(stream.arrivesAt, stream.lag, gap, from, at, at, from);
    hide StaysInBurst, TakesBurst, StaysWithin;
    var received := stream.Receive(MAX_TAIL_BYTES, deadline);
    match received {
      case Chunk(bytes) =>
        BurstGoesOn(stream.arrivesAt, stream.lag, gap, from, at, at, stream.taken, from, stream.now);
        r := ReadOn(stream, bytes, gap, deadline, from, at);
      case Expired => r := Err(DeadlinePassed);
      case Raised(error) =>
        if error == Stream(EndOfStream) {
          BurstOver(stream.arrivesAt, stream.lag, gap, from, at, stream.taken, from, stream.now);
          r := Ok([]);
        } else {
          r := Err(error);
        }
    }
  }

  // ----- The client's reader -----

  // The stray frames skipped before the frame at the last cut: each starts with another slave's address.
  ghost predicate Strays(incoming: seq<byte>, expected: byte, cuts: seq<nat>)
    ensures Strays(incoming, expected, cuts) ==> |cuts| >= 1
  {
    && |cuts| >= 1
    && (forall i :: 0 <= i < |cuts| ==> cuts[i] <= |incoming|)
    && (forall i :: 0 <= i < |cuts| - 1 ==> cuts[i] + 2 <= cuts[i + 1] && incoming[cuts[i]] != expected)
  }

  // Each stray segment ran up to a silence, the read cap or the end of the stream.
  ghost predicate Silences(arrivesAt: seq<real>, gap: real, cuts: seq<nat>) {
    gap > 0.0 ==>
      forall i :: 0 < i < |cuts| ==>
        || cuts[i] - cuts[i - 1] >= 2 + MAX_TAIL_BYTES
        || cuts[i] >= |arrivesAt|
        || (0 < cuts[i] && arrivesAt[cuts[i] - 1] + gap < arrivesAt[cuts[i]])
  }

  lemma OneMoreSilence(arrivesAt: seq<real>, gap: real, cuts: seq<nat>, next: nat)
    requires Silences(arrivesAt, gap, cuts) && cuts != []
    requires gap > 0.0 && next < |arrivesAt| && next - cuts[|cuts| - 1] < 2 + MAX_TAIL_BYTES ==>
               0 < next && arrivesAt[next - 1] + gap < arrivesAt[next]
    ensures Silences(arrivesAt, gap, cuts + [next])
  {}

  // And took its burst whole, where it was one that fits.
  ghost predicate TakesStrays(arrivesAt: seq<real>, lag: real, gap: real, from: real, cuts: seq<nat>) {
    forall i :: 0 < i < |cuts| ==> TakesFrameBurst(arrivesAt, lag, gap, from, cuts[i - 1], cuts[i])
  }

  lemma OneMoreBurst(arrivesAt: seq<real>, lag: real, gap: real, from: real, cuts: seq<nat>, next: nat)
    requires TakesStrays(arrivesAt, lag, gap, from, cuts) && cuts != []
    requires TakesFrameBurst(arrivesAt, lag, gap, from, cuts[|cuts| - 1], next)
    ensures TakesStrays(arrivesAt, lag, gap, from, cuts + [next])
  {}

  // The frame at `start` is addressed to us.
  predicate Ours(incoming: seq<byte>, start: nat, expected: byte) {
    start < |incoming| && incoming[start] == expected
  }

  lemma NoStrays(incoming: seq<byte>, expected: byte, start: nat)
    requires start <= |incoming|
    ensures Strays(incoming, expected, [start])
  {}

  lemma OneMoreStray(incoming: seq<byte>, expected: byte, cuts: seq<nat>, next: nat)
    requires Strays(incoming, expected, cuts) && cuts[|cuts| - 1] + 2 <= next <= |incoming|
             && incoming[cuts[|cuts| - 1]] != expected
    ensures Strays(incoming, expected, cuts + [next])
  {}

  // Reading gave what one parse of `rest` gives, and consumed exactly what it used.
  predicate AgreesWith(parsed: Parsed, r: Result<(byte, seq<byte>)>, consumed: nat, available: nat) {
    match parsed
    case Partial(needed) => r == Err(FrameError) && consumed == available
    case Rejected(error, used) => r == Err(error) && consumed == used
    case Framed(slave, pdu, used) => r == Ok((slave, pdu)) && consumed == used
    case Unframed => true
  }

  // A frame the reader may accept: addressed to `expected`, its CRC correct, the PDU what is left of it.
  predicate AcceptedFrame(frame: seq<byte>, expected: byte, value: (byte, seq<byte>)) {
    && 4 <= |frame| <= 256
    && VerifyCrc(frame)
    && frame[0] == expected && frame[1] != 0
    && value == (expected, frame[1..|frame| - CRC_LEN])
  }

  function Judge(frame: seq<byte>): Result<(byte, seq<byte>)>
    requires |frame| >= 4
  {
    if !VerifyCrc(frame) then Err(CrcError) else Ok((frame[0], frame[1..|frame| - CRC_LEN]))
  }

  // The two-byte head at `start` has been read from the stream.
  ghost predicate HeadRead(stream: ByteStream, start: nat, head: seq<byte>)
    reads stream
  {
    stream.Valid() && |head| == 2 && start + 2 == stream.taken && head == stream.incoming[start..start + 2]
  }

  // The outcome `r` of reading the frame at `start` to its known total length.
  ghost predicate ReadWhole(incoming: seq<byte>, start: nat, total: nat, taken: nat, r: Result<seq<byte>>) {
    match r
    case Ok(frame) => start <= taken <= |incoming| && frame == incoming[start..taken] && |frame| == total
    case Err(error) => error.IsInterruption() || (error == FrameError && taken == |incoming| < start + total)
  }

  method ReadFixed(stream: ByteStream, ghost start: nat, head: seq<byte>, n: nat, deadline: Deadline)
    returns (r: Result<seq<byte>>)
    requires HeadRead(stream, start, head) && n >= 2
    modifies stream`now, stream`taken, stream`reach
    ensures Waited(r.TimedOut(), old(stream.now), stream.now, deadline, stream.lag)
    ensures NotThere(r.TimedOut(), old(stream.now), deadline, stream.arrivesAt, stream.lag, stream.taken + 1)
    ensures r.Err? ==> stream.taken < start + 2 + n
    ensures stream.Valid() && old(stream.now) <= stream.now && old(stream.taken) <= stream.taken
    ensures ReadWhole(stream.incoming, start, 2 + n, stream.taken, r)
    ensures r.Ok? ==> stream.now <= Later(old(stream.now), stream.arrivesAt[stream.taken - 1] + stream.lag)
    ensures stream.reach <= old(stream.reach) || stream.reach <= start + 2 + n
  {
    var tail := ReadExact(stream, n, deadline);
    return if tail.Err? then Err(tail.error) else Ok(head + tail.value);
  }

  // The length of a frame from its byte count; what is read of it when the count is above the cap.
  function CountedLength(prefix: nat, count: byte): nat {
    if count > MAX_BYTE_COUNT then prefix + 3 else prefix + 5 + count as int
  }

  // A frame with a byte count after `prefix` bytes of its tail; None for a count above the cap.
  method ReadCounted(stream: ByteStream, ghost start: nat, head: seq<byte>, prefix: nat, deadline: Deadline)
    returns (r: Result<Option<seq<byte>>>)
    requires HeadRead(stream, start, head)
    modifies stream`now, stream`taken, stream`reach
    ensures Waited(r.TimedOut(), old(stream.now), stream.now, deadline, stream.lag)
    ensures NotThere(r.TimedOut(), old(stream.now), deadline, stream.arrivesAt, stream.lag, stream.taken + 1)
    ensures r.Err? && start + prefix + 2 < |stream.incoming| ==>
              stream.taken < start + CountedLength(prefix, stream.incoming[start + prefix + 2])
    ensures stream.Valid() && old(stream.now) <= stream.now && old(stream.taken) <= stream.taken
    ensures r.Ok? ==> stream.now <= Later(old(stream.now), stream.arrivesAt[stream.taken - 1] + stream.lag)
    ensures r == Ok(None) ==> stream.taken == start + prefix + 3 && stream.incoming[start + prefix + 2] > MAX_BYTE_COUNT
    ensures r.Ok? && r.value.Some? ==>
              start + prefix + 2 < |stream.incoming| && stream.incoming[start + prefix + 2] <= MAX_BYTE_COUNT
              && ReadWhole(stream.incoming, start, prefix + 5 + stream.incoming[start + prefix + 2] as int,
                           stream.taken, Ok(r.value.value))
    ensures r.Err? && !r.error.IsInterruption() ==>
              r.error == FrameError && stream.taken == |stream.incoming|
              && (|stream.incoming| < start + prefix + 3
                  || (stream.incoming[start + prefix + 2] <= MAX_BYTE_COUNT
                      && |stream.incoming| < start + prefix + 5 + stream.incoming[start + prefix + 2] as int))
    ensures stream.reach <= old(stream.reach) || stream.reach <= start + prefix + 3
            || (start + prefix + 2 < |stream.incoming| && stream.incoming[start + prefix + 2] <= MAX_BYTE_COUNT
                && stream.reach <= start + prefix + 5 + stream.incoming[start + prefix + 2] as int)
  {
    var counted := ReadExact(stream, prefix + 1, deadline);
    if counted.Err? {
      return Err(counted.error);
    }
    var count := counted.value[prefix];
    assert count == stream.incoming[start + prefix + 2];
    if count > MAX_BYTE_COUNT {
      return Ok(None);
    }
    var data := ReadExact(stream, count + CRC_LEN, deadline);
    if data.Err? {
      return Err(data.error);
    }
    assert stream.arrivesAt[start + prefix + 2] <= stream.arrivesAt[stream.taken - 1];
    Adjacent(stream.incoming, start, start + 2, start + prefix + 3);
    Adjacent(stream.incoming, start, start + prefix + 3, stream.taken);
    return Ok(Some(head + counted.value + data.value));
  }

  lemma Adjacent(s: seq<byte>, from: nat, middle: nat, to: nat)
    requires from <= middle <= to <= |s|
    ensures s[from..middle] + s[middle..to] == s[from..to]
  {}

  lemma JudgedComplete(rest: seq<byte>, frame: seq<byte>)
    requires 4 <= |frame| <= |rest| && frame == rest[..|frame|]
    ensures AgreesWith(Complete(rest, |frame|), Judge(frame), |frame|, |rest|)
  {
    var end := |frame| - CRC_LEN;
    assert frame[0] == rest[0] && frame[1..end] == rest[1..end];
  }

  // A frame read to its known total length, judged, is what the parse says.
  lemma JudgedWhole(incoming: seq<byte>, start: nat, total: nat, taken: nat, read: Result<seq<byte>>)
    requires start <= taken <= |incoming| && total >= 4 && ReadWhole(incoming, start, total, taken, read)
    requires read.Err? ==> !read.error.IsInterruption()
    ensures AgreesWith(Complete(incoming[start..], total), if read.Ok? then Judge(read.value) else Err(read.error),
                       taken - start, |incoming| - start)
  {
    if read.Ok? {
      JudgedComplete(incoming[start..], read.value);
    }
  }

  predicate KnownReply(fc: byte) {
    fc >= 0x80 || HasByteCount(fc) || FixedTail(fc).Some?
  }

  lemma ParsesTo(incoming: seq<byte>, start: nat)
    requires start + 2 <= |incoming|
    ensures var fc := incoming[start + 1];
            var rest := incoming[start..];
            && (fc == 0 ==> ParseReply(rest) == Rejected(ProtocolError, 2))
            && (fc >= 0x80 ==> ParseReply(rest) == Complete(rest, 5))
            && (HasByteCount(fc) && |incoming| < start + 3 ==> ParseReply(rest) == Partial(3))
            && (HasByteCount(fc) && |incoming| >= start + 3 && incoming[start + 2] > MAX_BYTE_COUNT ==>
                ParseReply(rest) == Rejected(FrameError, 3))
            && (HasByteCount(fc) && |incoming| >= start + 3 && incoming[start + 2] <= MAX_BYTE_COUNT ==>
                  ParseReply(rest) == Complete(rest, 5 + incoming[start + 2] as int))
            && (FixedTail(fc).Some? ==> ParseReply(rest) == Complete(rest, 2 + FixedTail(fc).value))
            && (fc != 0 && !KnownReply(fc) ==> ParseReply(rest) == Unframed)
  {
    var rest := incoming[start..];
    assert rest[1] == incoming[start + 1];
    assert |rest| > 2 ==> rest[2] == incoming[start + 2];
  }

  // The length of a known reply is in its first bytes.
  method ReadKnownTail(stream: ByteStream, ghost start: nat, head: seq<byte>, deadline: Deadline)
    returns (r: Result<seq<byte>>)
    requires HeadRead(stream, start, head) && head[1] != 0 && KnownReply(head[1])
    modifies stream`now, stream`taken, stream`reach
    ensures Waited(r.TimedOut(), old(stream.now), stream.now, deadline, stream.lag)
    ensures NotThere(r.TimedOut(), old(stream.now), deadline, stream.arrivesAt, stream.lag, stream.taken + 1)
    ensures r.Err? && r.error.IsInterruption() ==>
              stream.taken < start + ParseReply(stream.incoming[start..]).Extent()
    ensures stream.Valid() && old(stream.now) <= stream.now && start + 2 <= stream.taken
    ensures r.Ok? ==> |r.value| >= 4 && r.value == stream.incoming[start..stream.taken]
    ensures !(r.Err? && r.error.IsInterruption()) ==>
              AgreesWith(ParseReply(stream.incoming[start..]), if r.Ok? then Judge(r.value) else Err(r.error),
                         stream.taken - start, |stream.incoming| - start)
    ensures stream.reach <= old(stream.reach) || stream.reach <= start + ParseReply(stream.incoming[start..]).Extent()
  {
    var fc := head[1];
    ParsesTo(stream.incoming, start);
    if HasByteCount(fc) {
      var counted := ReadCounted(stream, start, head, 0, deadline);
      if counted == Ok(None) {
        return Err(FrameError);
      }
      r := if counted.Ok? then Ok(counted.value.value) else Err(counted.error);
      if counted.Ok? {
        JudgedWhole(stream.incoming, start, |r.value|, stream.taken, r);
      }
    } else {
      var n := if fc >= 0x80 then 3 else FixedTail(fc).value;
      r := ReadFixed(stream, start, head, n, deadline);
      if r.Ok? || !r.error.IsInterruption() {
        JudgedWhole(stream.incoming, start, 2 + n, stream.taken, r);
      }
    }
  }

  // Any other function code: read to the idle gap.
  method ReadUnknownTail(stream: ByteStream, ghost start: nat, head: seq<byte>, gap: real, deadline: Deadline)
    returns (r: Result<seq<byte>>)
    requires HeadRead(stream, start, head) && gap >= 0.0
    modifies stream`now, stream`taken, stream`reach
    ensures Waited(r.TimedOut(), old(stream.now), stream.now, deadline, stream.lag)
    ensures NextMissing(r.TimedOut(), old(stream.now), deadline, stream.arrivesAt, stream.lag, gap, stream.taken)
    ensures stream.Valid() && old(stream.now) <= stream.now && start + 2 <= stream.taken
    ensures r.Ok? ==> 4 <= |r.value| <= 256 && r.value == stream.incoming[start..stream.taken]
    ensures r.Err? ==> (r.error.FrameError? && stream.taken - start < 4) || r.error.IsInterruption()
    ensures r.Ok? || r.error.FrameError? ==>
              TakesBurst(stream.arrivesAt, stream.lag, gap, old(stream.now), start + 2, stream.taken, stream.now)
    // Ended by silence: it was noticed no sooner than a gap after the last byte.
    ensures r.Ok? && |r.value| < 256 && stream.taken < |stream.incoming| && gap > 0.0 ==>
              stream.arrivesAt[stream.taken - 1] + gap <= stream.now
  {
    hide TakesBurst, StaysWithin, NextMissing, OnTime;
    ghost var began := stream.now;
    var tail := ReadUntilIdle(stream, gap, deadline);
    if tail.Err? {
      return Err(tail.error);
    }
    NoTimeout(began, deadline, stream.arrivesAt, stream.lag, gap, stream.taken);
    if |tail.value| < CRC_LEN {
      return Err(FrameError);
    }
    return Ok(head + tail.value);
  }

  // What a frame of unknown length is once silence has ended it.
  function JudgeBurst(frame: seq<byte>): Result<(byte, seq<byte>)> {
    if |frame| < 4 then Err(FrameError) else Judge(frame)
  }

  // The rest of a frame whose two-byte head has just been read.
  method ReadTail(stream: ByteStream, ghost start: nat, head: seq<byte>, gap: real, deadline: Deadline)
    returns (r: Result<(byte, seq<byte>)>)
    requires HeadRead(stream, start, head) && gap >= 0.0
    modifies stream`now, stream`taken, stream`reach
    ensures Waited(r.TimedOut(), old(stream.now), stream.now, deadline, stream.lag)
    ensures NextMissing(r.TimedOut(), old(stream.now), deadline, stream.arrivesAt, stream.lag, gap, stream.taken)
    ensures ParseReply(stream.incoming[start..]) != Unframed ==>
              && NotThere(r.TimedOut(), old(stream.now), deadline, stream.arrivesAt, stream.lag, stream.taken + 1)
              && (r.Err? && r.error.IsInterruption() ==>
                    stream.taken < start + ParseReply(stream.incoming[start..]).Extent())
    ensures stream.Valid() && old(stream.now) <= stream.now && start + 2 <= stream.taken
    ensures r.Ok? ==> AcceptedFrame(stream.incoming[start..stream.taken], head[0], r.value)
    ensures r.Err? ==> r.error.IsProtocolError() || r.error.IsInterruption()
    ensures !(r.Err? && r.error.IsInterruption()) ==>
              AgreesWith(ParseReply(stream.incoming[start..]), r, stream.taken - start, |stream.incoming| - start)
    ensures ParseReply(stream.incoming[start..]) != Unframed ==>
              stream.reach <= old(stream.reach) || stream.reach <= start + ParseReply(stream.incoming[start..]).Extent()
    ensures ParseReply(stream.incoming[start..]) == Unframed && !(r.Err? && r.error.IsInterruption()) ==>
              r == JudgeBurst(stream.incoming[start..stream.taken])
              && TakesBurst(stream.arrivesAt, stream.lag, gap, old(stream.now), start + 2, stream.taken, stream.now)
  {
    hide TakesBurst;
    ParsesTo(stream.incoming, start);
    if head[1] == 0 {
      return Err(ProtocolError);
    }
    var frame: Result<seq<byte>>;
    if KnownReply(head[1]) {
      frame := ReadKnownTail(stream, start, head, deadline);
      KnownFrameSize(stream.incoming, start, stream.taken);
    } else {
      frame := ReadUnknownTail(stream, start, head, gap, deadline);
    }
    r := if frame.Ok? then Judge(frame.value) else Err(frame.error);
  }

  lemma KnownFrameSize(incoming: seq<byte>, start: nat, taken: nat)
    requires start + 2 <= taken <= |incoming|
    ensures ParseReply(incoming[start..]).Framed? ==> 4 <= ParseReply(incoming[start..]).used <= 256
  {}

  // The head at `start` was read, or not, by a reader that began at `began` and was on time there.
  lemma HeadTried(arrivesAt: seq<real>, lag: real, gap: real, began: real, start: nat, before: real, expired: bool,
                  deadline: Deadline, taken: nat)
    requires InOrder(arrivesAt) && OnTime(arrivesAt, lag, gap, began, start, before) && start <= taken <= start + 2
    requires NotThere(expired, before, deadline, arrivesAt, lag, taken + 1)
    ensures NextMissing(expired, began, deadline, arrivesAt, lag, gap, taken)
    ensures WithinFrameBurst(arrivesAt, lag, gap, began, start, taken)
  {}

  // The stray frame at `start` was drained, or not.
  lemma StrayDrained(arrivesAt: seq<real>, lag: real, gap: real, began: real, start: nat, before: real, headAt: real,
                     taken: nat, now: real, expired: bool, deadline: Deadline)
    requires InOrder(arrivesAt) && OnTime(arrivesAt, lag, gap, began, start, before)
    requires start + 2 <= taken <= |arrivesAt| && headAt <= Later(before, arrivesAt[start + 1] + lag)
    requires NextMissing(expired, headAt, deadline, arrivesAt, lag, gap, taken)
    ensures NextMissing(expired, began, deadline, arrivesAt, lag, gap, taken)
    ensures OnTime(arrivesAt, lag, gap, headAt, taken, now) ==> OnTime(arrivesAt, lag, gap, began, taken, now)
    ensures TakesBurst(arrivesAt, lag, gap, headAt, start + 2, taken, now) ==>
              TakesFrameBurst(arrivesAt, lag, gap, began, start, taken)
    ensures StaysWithin(arrivesAt, lag, gap, headAt, start + 2, taken) ==>
              WithinFrameBurst(arrivesAt, lag, gap, began, start, taken)
  {
    BurstAfterHead(arrivesAt, lag, gap, began, start, headAt, taken, now);
    hide TakesBurst, StaysWithin, TakesFrameBurst, WithinFrameBurst;
  }

  // One head: ours, or the stray frame behind it is drained.
  method TryHead(stream: ByteStream, expected: byte, gap: real, deadline: Deadline, ghost began: real)
    returns (r: Result<seq<byte>>, ours: bool)
    requires stream.Valid() && gap >= 0.0 && began <= stream.now
    requires Waited(false, began, stream.now, deadline, stream.lag)
    requires OnTime(stream.arrivesAt, stream.lag, gap, began, stream.taken, stream.now)
    modifies stream`now, stream`taken, stream`reach
    ensures Waited(r.TimedOut(), began, stream.now, deadline, stream.lag)
    ensures NextMissing(r.TimedOut(), began, deadline, stream.arrivesAt, stream.lag, gap, stream.taken)
    ensures stream.Valid() && old(stream.now) <= stream.now && old(stream.taken) <= stream.taken
    ensures r.Ok? && ours ==>
              && HeadRead(stream, old(stream.taken), r.value) && r.value[0] == expected
              && stream.now <= Later(old(stream.now), stream.arrivesAt[old(stream.taken) + 1] + stream.lag)
    ensures r.Ok? && !ours ==>
              && old(stream.taken) + 2 <= stream.taken && !Ours(stream.incoming, old(stream.taken), expected)
              && OnTime(stream.arrivesAt, stream.lag, gap, began, stream.taken, stream.now)
              && TakesFrameBurst(stream.arrivesAt, stream.lag, gap, began, old(stream.taken), stream.taken)
              && (gap > 0.0 && stream.taken < |stream.incoming|
                  && stream.taken - old(stream.taken) < 2 + MAX_TAIL_BYTES ==>
                    stream.arrivesAt[stream.taken - 1] + gap < stream.arrivesAt[stream.taken])
    ensures r.Err? ==>
              && (r.error.IsInterruption()
                  || (r.error == FrameError && stream.taken == |stream.incoming| < old(stream.taken) + 2))
              && WithinFrameBurst(stream.arrivesAt, stream.lag, gap, began, old(stream.taken), stream.taken)
    ensures Ours(stream.incoming, old(stream.taken), expected) ==>
              && (r.Err? ==> stream.taken < old(stream.taken) + 2)
              && (stream.reach <= old(stream.reach) || stream.reach <= old(stream.taken) + 2)
              && NotThere(r.TimedOut(), old(stream.now), deadline, stream.arrivesAt, stream.lag, stream.taken + 1)
  {
    hide TakesBurst, StaysWithin, WithinFrameBurst, TakesFrameBurst, Waited, OnTime, NextMissing, NotThere;
    ghost var start, before := stream.taken, stream.now;
    r := ReadExact(stream, 2, deadline);
    WaitedThen(r.TimedOut(), began, before, stream.now, deadline, stream.lag);
    HeadTried(stream.arrivesAt, stream.lag, gap, began, start, before, r.TimedOut(), deadline, stream.taken);
    ours := r.Ok? && r.value[0] == expected;
    if r.Ok? && !ours {
      ghost var headAt := stream.now;
      var drained := ReadUntilIdle(stream, gap, deadline);
      WaitedThen(drained.TimedOut(), began, headAt, stream.now, deadline, stream.lag);
      StrayDrained(stream.arrivesAt, stream.lag, gap, began, start, before, headAt, stream.taken, stream.now,
                   drained.TimedOut(), deadline);
      r := if drained.Err? then Err(drained.error) else r;
    }
  }

  // Reads heads until one is addressed to `expected`, draining the stray frame behind each other one.
  method FindHead(stream: ByteStream, expected: byte, gap: real, deadline: Deadline)
    returns (r: Result<seq<byte>>, ghost cuts: seq<nat>)
    requires stream.Valid() && gap >= 0.0
    modifies stream`now, stream`taken, stream`reach
    ensures Waited(r.TimedOut(), old(stream.now), stream.now, deadline, stream.lag)
    ensures NextMissing(r.TimedOut(), old(stream.now), deadline, stream.arrivesAt, stream.lag, gap, stream.taken)
    ensures stream.Valid() && old(stream.now) <= stream.now && old(stream.taken) <= stream.taken
    ensures Strays(stream.incoming, expected, cuts) && cuts[0] == old(stream.taken) && cuts[|cuts| - 1] <= stream.taken
    ensures r.Ok? ==> HeadRead(stream, cuts[|cuts| - 1], r.value) && r.value[0] == expected
    ensures Silences(stream.arrivesAt, gap, cuts)
    ensures TakesStrays(stream.arrivesAt, stream.lag, gap, old(stream.now), cuts)
    ensures r.Err? ==> r.error.IsInterruption()
                       || (r.error == FrameError && stream.taken == |stream.incoming| < cuts[|cuts| - 1] + 2)
    // Broken off, it is in front of our head, or inside a stray's burst.
    ensures r.Err? && Ours(stream.incoming, cuts[|cuts| - 1], expected) ==> stream.taken < cuts[|cuts| - 1] + 2
    ensures r.Err? ==>
              WithinFrameBurst(stream.arrivesAt, stream.lag, gap, old(stream.now), cuts[|cuts| - 1], stream.taken)
    ensures Ours(stream.incoming, old(stream.taken), expected) ==>
              && |cuts| == 1 && (stream.reach <= old(stream.reach) || stream.reach <= old(stream.taken) + 2)
              && NotThere(r.TimedOut(), old(stream.now), deadline, stream.arrivesAt, stream.lag, stream.taken + 1)
    ensures r.Ok? && (|cuts| == 1 || gap > 0.0) ==>
              stream.now <= Later(old(stream.now), stream.arrivesAt[cuts[|cuts| - 1] + 1] + stream.lag)
  {
    ghost var began := stream.now;
    cuts := [stream.taken];
    assert Silences(stream.arrivesAt, gap, cuts) && TakesStrays(stream.arrivesAt, stream.lag, gap, began, cuts);
    assert OnTime(stream.arrivesAt, stream.lag, gap, began, stream.taken, stream.now);
    NoStrays(stream.incoming, expected, stream.taken);
    hide Strays, Silences, TakesStrays, WithinFrameBurst, TakesFrameBurst, Waited, NextMissing, NotThere;
    while true
      invariant stream.Valid() && old(stream.now) <= stream.now && old(stream.taken) <= stream.taken
      invariant Waited(false, old(stream.now), stream.now, deadline, stream.lag)
      invariant OnTime(stream.arrivesAt, stream.lag, gap, began, stream.taken, stream.now)
      invariant Strays(stream.incoming, expected, cuts) && cuts[0] == old(stream.taken)
                && cuts[|cuts| - 1] == stream.taken
      invariant Silences(stream.arrivesAt, gap, cuts)
      invariant TakesStrays(stream.arrivesAt, stream.lag, gap, began, cuts)
      invariant |cuts| == 1 ==> stream.reach == old(stream.reach) && stream.now == old(stream.now)
      invariant |cuts| > 1 ==> !Ours(stream.incoming, old(stream.taken), expected)
      decreases |stream.incoming| - stream.taken
    {
      var ours;
      r, ours := TryHead(stream, expected, gap, deadline, began);
      if r.Err? || ours {
        break;
      }
      OneMoreStray(stream.incoming, expected, cuts, stream.taken);
      OneMoreSilence(stream.arrivesAt, gap, cuts, stream.taken);
      OneMoreBurst(stream.arrivesAt, stream.lag, gap, began, cuts, stream.taken);
      cuts := cuts + [stream.taken];
    }
  }

  method ReadRawAdu(stream: ByteStream, expected: byte, gap: real, deadline: Deadline)
    returns (r: Result<(byte, seq<byte>)>, ghost cuts: seq<nat>)
    requires stream.Valid() && gap >= 0.0
    modifies stream`now, stream`taken, stream`reach
    ensures Waited(r.TimedOut(), old(stream.now), stream.now, deadline, stream.lag)
    // It times out for want of the next byte: always so for a frame of known length that is ours from the first
    // byte, and behind stray frames too where there are gaps to tell them apart.
    ensures NextMissing(r.TimedOut(), old(stream.now), deadline, stream.arrivesAt, stream.lag, gap, stream.taken)
    ensures Ours(stream.incoming, old(stream.taken), expected)
            && ParseReply(stream.incoming[old(stream.taken)..]) != Unframed ==>
              NotThere(r.TimedOut(), old(stream.now), deadline, stream.arrivesAt, stream.lag, stream.taken + 1)
    ensures stream.Valid() && old(stream.now) <= stream.now && old(stream.taken) <= stream.taken
    ensures Strays(stream.incoming, expected, cuts) && cuts[0] == old(stream.taken) && cuts[|cuts| - 1] <= stream.taken
    ensures TakesStrays(stream.arrivesAt, stream.lag, gap, old(stream.now), cuts)
    ensures r.Ok? ==> AcceptedFrame(stream.incoming[cuts[|cuts| - 1]..stream.taken], expected, r.value)
    ensures r.Err? ==> r.error.IsProtocolError() || r.error.IsInterruption()
    ensures !(r.Err? && r.error.IsInterruption()) ==>
              AgreesWith(ParseReply(stream.incoming[cuts[|cuts| - 1]..]), r, stream.taken - cuts[|cuts| - 1],
                         |stream.incoming| - cuts[|cuts| - 1])
    // Where it stopped: in our frame, or at the end of the stream; broken off, perhaps in a stray frame's burst.
    ensures StoppedAt(stream.incoming, stream.arrivesAt, stream.lag, gap, old(stream.now), expected,
                      cuts[|cuts| - 1], stream.taken, r.Err? && r.error.IsInterruption())
    // Addressed to us from the first byte: nothing is skipped and nothing past the frame is asked for.
    ensures Ours(stream.incoming, old(stream.taken), expected) ==>
              |cuts| == 1
              && (ParseReply(stream.incoming[old(stream.taken)..]) != Unframed ==>
                    stream.reach <= old(stream.reach)
                    || stream.reach <= old(stream.taken) + ParseReply(stream.incoming[old(stream.taken)..]).Extent())
    // A function code without a length, through damage or not: what was read to silence is judged.
    ensures ParseReply(stream.incoming[cuts[|cuts| - 1]..]) == Unframed && !(r.Err? && r.error.IsInterruption()) ==>
              r == JudgeBurst(stream.incoming[cuts[|cuts| - 1]..stream.taken])
    // Addressed to us from the first byte, that is the whole burst.
    ensures Ours(stream.incoming, old(stream.taken), expected)
            && ParseReply(stream.incoming[old(stream.taken)..]) == Unframed && !(r.Err? && r.error.IsInterruption()) ==>
              TakesFrameBurst(stream.arrivesAt, stream.lag, gap, old(stream.now), old(stream.taken), stream.taken)
  {
    hide TakesBurst, TakesFrameBurst, WithinFrameBurst, TakesStrays, JudgeBurst, Waited, NotThere, NextMissing;
    ghost var began, start := stream.now, stream.taken;
    AtLeastTheHead(stream.incoming[start..]);
    var head;
    head, cuts := FindHead(stream, expected, gap, deadline);
    ghost var at := cuts[|cuts| - 1];
    AtLeastTheHead(stream.incoming[at..]);
    hide ParseReply, AcceptedFrame;
    if head.Err? {
      r := Err(head.error);
    } else {
      ghost var headAt := stream.now;
      r := ReadTail(stream, at, head.value, gap, deadline);
      WaitedThen(r.TimedOut(), began, headAt, stream.now, deadline, stream.lag);
      TailSince(stream.arrivesAt, stream.lag, gap, began, at, headAt, |cuts| == 1, r.TimedOut(), deadline, stream.taken,
                stream.now);
    }
  }

  // Where a read of a reply has stopped.
  ghost predicate StoppedAt(incoming: seq<byte>, arrivesAt: seq<real>, lag: real, gap: real, from: real,
                            expected: byte, start: nat, taken: nat, brokenOff: bool)
    requires start <= |incoming|
  {
    if Ours(incoming, start, expected) then
      brokenOff && ParseReply(incoming[start..]) != Unframed ==> taken < start + ParseReply(incoming[start..]).Extent()
    else if brokenOff then WithinFrameBurst(arrivesAt, lag, gap, from, start, taken)
    else |incoming| < start + 2
  }

  // The tail of the frame at `at` was read, or not.
  lemma TailSince(arrivesAt: seq<real>, lag: real, gap: real, began: real, at: nat, headAt: real, first: bool,
                  expired: bool, deadline: Deadline, taken: nat, now: real)
    requires InOrder(arrivesAt) && at + 2 <= taken <= |arrivesAt|
    requires first || gap > 0.0 ==> headAt <= Later(began, arrivesAt[at + 1] + lag)
    ensures NextMissing(expired, headAt, deadline, arrivesAt, lag, gap, taken) ==>
              NextMissing(expired, began, deadline, arrivesAt, lag, gap, taken)
    ensures first && NotThere(expired, headAt, deadline, arrivesAt, lag, taken + 1) ==>
              NotThere(expired, began, deadline, arrivesAt, lag, taken + 1)
    ensures first && TakesBurst(arrivesAt, lag, gap, headAt, at + 2, taken, now) ==>
              TakesFrameBurst(arrivesAt, lag, gap, began, at, taken)
  {
    if first {
      BurstAfterHead(arrivesAt, lag, gap, began, at, headAt, taken, now);
    }
    hide TakesBurst, TakesFrameBurst;
  }

  lemma AtLeastTheHead(rest: seq<byte>)
    ensures ParseReply(rest).Extent() >= 2 && (|rest| < 2 ==> ParseReply(rest) == Partial(2))
  {}
}

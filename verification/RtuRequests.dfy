// The server's RTU reader (src/anymodbus/framer.py `_read_raw_request_adu`,
// `_drain_until_idle`): it frames by request length, and after damage it drops
// the rest of the burst. Whether the next read then starts at the next frame
// depends on how long the line stays silent.
module RtuRequests {
  import opened Bits
  import opened Errors
  import opened Crc
  import opened Line
  import opened RtuFramer

  method DrainUntilIdle(stream: ByteStream, gap: real, ghost from: real, ghost start: nat, ghost end: nat)
    returns (r: Result<()>)
    requires stream.Valid() && gap >= 0.0 && start < stream.taken
    requires stream.now <= Later(from, stream.arrivesAt[stream.taken - 1] + stream.lag)
    modifies stream`now, stream`taken, stream`reach
    ensures stream.Valid() && old(stream.now) <= stream.now && old(stream.taken) <= stream.taken
    ensures r.Err? ==> r.error.IsInterruption() && !r.TimedOut()
    ensures r.Ok? && gap > 0.0 && old(stream.taken) <= end
            && OneBurst(stream.arrivesAt, stream.lag, gap, from, start, end) ==>
              stream.taken == end
    // What it leaves comes more than a gap after what it took, and after it began.
    ensures r.Ok? && gap > 0.0 && stream.taken < |stream.incoming| ==>
              Later(old(stream.now), stream.arrivesAt[stream.taken - 1]) + gap < stream.arrivesAt[stream.taken]
  {
    ghost var burst := gap > 0.0 && OneBurst(stream.arrivesAt, stream.lag, gap, from, start, end)
      && stream.taken <= end;
    while true
      invariant stream.Valid() && old(stream.now) <= stream.now && old(stream.taken) <= stream.taken
      invariant stream.now <= Later(from, stream.arrivesAt[stream.taken - 1] + stream.lag)
      invariant burst ==> stream.taken <= end
      decreases |stream.incoming| - stream.taken
    {
      ghost var before := stream.taken;
      var received := stream.Receive(MAX_TAIL_BYTES, Some(stream.now + gap));
      match received {
        case Chunk(_) =>
          assert stream.arrivesAt[before - 1] <= stream.arrivesAt[stream.taken - 1];
          assert burst ==> stream.arrivesAt[before - 1] <= stream.arrivesAt[end - 1];
          assert burst && end < |stream.incoming| ==> stream.now < stream.arrivesAt[end];
        case Expired => return Ok(());
        case Raised(error) =>
          return if error == Stream(EndOfStream) then Ok(()) else Err(error);
      }
    }
  }

  predicate Interrupted<T>(r: Result<T>) {
    r.Err? && r.error.IsInterruption()
  }

  // What reading a request gives, in terms of one parse of everything from its start.
  predicate ReadsRequest(parsed: Parsed, r: Result<(byte, seq<byte>)>, consumed: nat, available: nat) {
    match parsed
    case Partial(_) => r == Err(if available == 0 then Stream(EndOfStream) else FrameError) && consumed == available
    case Rejected(error, used) => r == Err(error) && used <= consumed
    case Framed(slave, pdu, used) => r == Ok((slave, pdu)) && consumed == used
    case Unframed => true
  }

  predicate KnownRequest(fc: byte) {
    RequestFixedTail(fc).Some? || RequestPrefix(fc).Some?
  }

  lemma RequestParsesTo(incoming: seq<byte>, start: nat)
    requires start + 2 <= |incoming|
    ensures var fc := incoming[start + 1];
            var rest := incoming[start..];
            && (RequestFixedTail(fc).Some? ==> ParseRequest(rest) == Complete(rest, 2 + RequestFixedTail(fc).value))
            && (RequestPrefix(fc).Some? ==>
                  var at := start + RequestPrefix(fc).value + 2;
                  && (|incoming| <= at ==> ParseRequest(rest) == Partial(at + 1 - start))
                  && (|incoming| > at && incoming[at] > MAX_BYTE_COUNT ==>
                      ParseRequest(rest) == Rejected(FrameError, at + 1 - start))
                  && (|incoming| > at && incoming[at] <= MAX_BYTE_COUNT ==>
                        ParseRequest(rest) == Complete(rest, at + 3 - start + incoming[at] as int)))
            && (!KnownRequest(fc) ==> ParseRequest(rest) == Unframed)
  {
    var rest := incoming[start..];
    assert rest[1] == incoming[start + 1];
    if RequestPrefix(rest[1]).Some? && RequestPrefix(rest[1]).value + 2 < |rest| {
      assert rest[RequestPrefix(rest[1]).value + 2] == incoming[start + RequestPrefix(rest[1]).value + 2];
    }
  }

  method ReadRequestHead(stream: ByteStream) returns (r: Result<seq<byte>>)
    requires stream.Valid()
    modifies stream`now, stream`taken, stream`reach
    ensures stream.Valid() && old(stream.now) <= stream.now && old(stream.taken) <= stream.taken
    ensures r.Ok? ==> HeadRead(stream, old(stream.taken), r.value)
    ensures r.Ok? ==> stream.now <= Later(old(stream.now), stream.arrivesAt[stream.taken - 1] + stream.lag)
    ensures r.Err? ==> r.error.IsInterruption()
                       || (stream.taken == |stream.incoming| < old(stream.taken) + 2
                           && r.error == (if old(stream.taken) == |stream.incoming| then Stream(EndOfStream)
                                          else FrameError))
    ensures !r.TimedOut()
  {
    // A close before the first byte is a clean end between frames.
    var received := stream.Receive(2, None);
    match received {
      case Chunk(bytes) =>
        if |bytes| == 2 {
          return Ok(bytes);
        }
        var rest := ReadExact(stream, 1, None);
        if rest.Err? {
          return Err(rest.error);
        }
        assert stream.arrivesAt[stream.taken - 2] <= stream.arrivesAt[stream.taken - 1];
        Adjacent(stream.incoming, stream.taken - 2, stream.taken - 1, stream.taken);
        return Ok(bytes + rest.value);
      case Expired => return Err(DeadlinePassed);
      case Raised(error) => return Err(error);
    }
  }

  // A request whose length is in its first bytes; an impossible byte count drains the line.
  method ReadKnownRequest(stream: ByteStream, ghost start: nat, ghost from: real, head: seq<byte>, gap: real,
                          ghost end: nat)
    returns (r: Result<seq<byte>>)
    requires HeadRead(stream, start, head) && KnownRequest(head[1]) && gap >= 0.0
    requires stream.now <= Later(from, stream.arrivesAt[stream.taken - 1] + stream.lag)
    modifies stream`now, stream`taken, stream`reach
    ensures stream.Valid() && old(stream.now) <= stream.now && start + 2 <= stream.taken
    ensures r.Ok? ==> |r.value| >= 4 && r.value == stream.incoming[start..stream.taken]
                      && stream.now <= Later(from, stream.arrivesAt[stream.taken - 1] + stream.lag)
    ensures r.Err? ==> r.error.FrameError? || (Interrupted(r) && !r.TimedOut())
    ensures var parsed := ParseRequest(stream.incoming[start..]);
            !Interrupted(r) ==>
              if parsed.Rejected? && parsed.error == FrameError then
                r == Err(FrameError) && start + parsed.used <= stream.taken
                && (gap > 0.0 && OneBurst(stream.arrivesAt, stream.lag, gap, from, start, end)
                    && start + parsed.used <= end ==>
                      stream.taken == end)
              else
                AgreesWith(parsed, if r.Ok? then Judge(r.value) else Err(r.error), stream.taken - start,
                           |stream.incoming| - start)
  {
    var fc := head[1];
    RequestParsesTo(stream.incoming, start);
    assert stream.arrivesAt[start + 1] <= stream.arrivesAt[|stream.incoming| - 1];
    if RequestFixedTail(fc).Some? {
      var n := RequestFixedTail(fc).value;
      r := ReadFixed(stream, start, head, n, None);
      if !Interrupted(r) {
        JudgedWhole(stream.incoming, start, 2 + n, stream.taken, r);
      }
      if r.Ok? {
        assert stream.arrivesAt[start + 1] <= stream.arrivesAt[stream.taken - 1];
      }
    } else {
      var counted := ReadCounted(stream, start, head, RequestPrefix(fc).value, None);
      if counted.Err? {
        return Err(counted.error);
      }
      assert stream.arrivesAt[start + 1] <= stream.arrivesAt[stream.taken - 1];
      if counted.value.None? {
        var drained := DrainUntilIdle(stream, gap, from, start, end);
        return Err(if drained.Err? then drained.error else FrameError);
      }
      r := Ok(counted.value.value);
      JudgedWhole(stream.incoming, start, |r.value|, stream.taken, r);
    }
  }

  // After a burst whose length only silence tells, more than two gaps (and lags) of silence.
  ghost predicate TwoGapsAfter(arrivesAt: seq<real>, lag: real, gap: real, from: real, end: nat)
    requires 0 < end <= |arrivesAt|
  {
    end < |arrivesAt| ==> Later(from, arrivesAt[end - 1] + lag) + 2.0 * (gap + lag) < arrivesAt[end]
  }

  // What becomes of a burst [start, end) that begins like a request of unknown length:
  // it is judged whole; on a wrong CRC the line is drained once more, which takes nothing
  // else after two silent gaps, and takes the next frame too when it begins within them. A
  // burst that fills the reader is judged at once, so that one gap suffices.
  ghost predicate BurstJudged(incoming: seq<byte>, arrivesAt: seq<real>, lag: real, gap: real, from: real,
                              start: nat, end: nat, taken: nat, r: Result<(byte, seq<byte>)>) {
    gap > 0.0 && |incoming| == |arrivesAt| && start + 2 < end <= start + 256
    && OneBurst(arrivesAt, lag, gap, from, start, end) ==>
      && r == JudgeBurst(incoming[start..end])
      && end <= taken
      && (r != Err(CrcError) || end == start + 256 || TwoGapsAfter(arrivesAt, lag, gap, from, end) ==> taken == end)
      && (r == Err(CrcError) && end < start + 256 && end < |arrivesAt|
          && arrivesAt[end] <= arrivesAt[end - 1] + 2.0 * gap ==>
            end < taken)
  }

  // A burst of unknown length has been read whole; the drain that may follow ends with it unless the line goes on.
  lemma BurstRead(arrivesAt: seq<real>, lag: real, gap: real, from: real, start: nat, end: nat, headAt: real,
                  taken: nat, now: real)
    requires start + 2 < end <= start + 256 && OneBurst(arrivesAt, lag, gap, from, start, end)
    requires InOrder(arrivesAt) && gap > 0.0 && lag >= 0.0 && headAt <= Later(from, arrivesAt[start + 1] + lag)
    requires TakesBurst(arrivesAt, lag, gap, headAt, start + 2, taken, now)
    ensures taken == end && now <= Later(JudgedFrom(arrivesAt, from, start, end, now), arrivesAt[end - 1] + lag)
    ensures end == start + 256 || TwoGapsAfter(arrivesAt, lag, gap, from, end) ==>
              end == |arrivesAt|
              || OneBurst(arrivesAt, lag, gap, JudgedFrom(arrivesAt, from, start, end, now), start, end)
  {
    assert InBurst(arrivesAt, lag, gap, headAt, start + 2, end);
  }

  // From when the silence after a burst counts, once it has been judged at `now`.
  ghost function JudgedFrom(arrivesAt: seq<real>, from: real, start: nat, end: nat, now: real): real {
    if end == start + 256 && end < |arrivesAt| then from else now
  }

  // A request of unknown function code: read to the gap, judged, and drained again on a wrong CRC.
  method ReadUnknownRequest(stream: ByteStream, ghost start: nat, ghost from: real, head: seq<byte>, gap: real,
                            ghost end: nat)
    returns (r: Result<(byte, seq<byte>)>)
    requires HeadRead(stream, start, head) && gap >= 0.0
    requires stream.now <= Later(from, stream.arrivesAt[start + 1] + stream.lag)
    modifies stream`now, stream`taken, stream`reach
    ensures stream.Valid() && old(stream.now) <= stream.now && start + 2 <= stream.taken
    ensures r.Ok? ==> 4 <= stream.taken - start && Judge(stream.incoming[start..stream.taken]) == r
    ensures r.Err? ==> r.error.FrameError? || r.error.CrcError? || (Interrupted(r) && !r.TimedOut())
    ensures Interrupted(r)
            || BurstJudged(stream.incoming, stream.arrivesAt, stream.lag, gap, from, start, end, stream.taken, r)
  {
    ghost var headAt := stream.now;
    ghost var ours := gap > 0.0 && start + 2 < end <= start + 256
      && OneBurst(stream.arrivesAt, stream.lag, gap, from, start, end);
    hide TakesBurst, OneBurst, TwoGapsAfter, JudgedFrom, InOrder;
    var frame := ReadUnknownTail(stream, start, head, gap, None);
    ghost var judgedAt := stream.now;
    if ours && !Interrupted(frame) {
      BurstRead(stream.arrivesAt, stream.lag, gap, from, start, end, headAt, stream.taken, stream.now);
      judgedAt := JudgedFrom(stream.arrivesAt, from, start, end, stream.now);
    }
    if frame.Err? {
      return Err(frame.error);
    }
    r := Judge(frame.value);
    if r.Err? {
      ghost var before := stream.taken;
      var drained := DrainUntilIdle(stream, gap, judgedAt, start, end);
      if drained.Err? {
        return Err(drained.error);
      }
    }
  }

  method ReadRawRequestAdu(stream: ByteStream, gap: real, ghost end: nat) returns (r: Result<(byte, seq<byte>)>)
    requires stream.Valid() && gap >= 0.0
    modifies stream`now, stream`taken, stream`reach
    ensures stream.Valid() && old(stream.now) <= stream.now && old(stream.taken) <= stream.taken
    ensures Interrupted(r) || ReadsRequest(ParseRequest(stream.incoming[old(stream.taken)..]), r,
                                           stream.taken - old(stream.taken), |stream.incoming| - old(stream.taken))
    ensures Interrupted(r) || r == Err(Stream(EndOfStream)) || old(stream.taken) < stream.taken
    ensures r.Err? ==> r.error.CrcError? || r.error.FrameError? || r.error.Stream? || r.error.Cancelled?
    ensures r.Ok? ==> 4 <= stream.taken - old(stream.taken)
                      && Judge(stream.incoming[old(stream.taken)..stream.taken]) == r
    // A rejected frame takes its whole burst with it, and nothing of the next frame.
    ensures var parsed := ParseRequest(stream.incoming[old(stream.taken)..]);
            !Interrupted(r) && parsed.Rejected? && gap > 0.0 && old(stream.taken) + parsed.used <= end
            && OneBurst(stream.arrivesAt, stream.lag, gap, old(stream.now), old(stream.taken), end) ==>
              stream.taken == end
    // A function code without a length: the burst is judged whole, and what follows it may be lost.
    ensures !Interrupted(r) && ParseRequest(stream.incoming[old(stream.taken)..]) == Unframed ==>
              BurstJudged(stream.incoming, stream.arrivesAt, stream.lag, gap, old(stream.now), old(stream.taken), end,
                          stream.taken, r)
  {
    ghost var start, from := stream.taken, stream.now;
    var head := ReadRequestHead(stream);
    if head.Err? {
      return Err(head.error);
    }
    RequestParsesTo(stream.incoming, start);
    if !KnownRequest(head.value[1]) {
      r := ReadUnknownRequest(stream, start, from, head.value, gap, end);
      return;
    }
    var frame := ReadKnownRequest(stream, start, from, head.value, gap, end);
    if frame.Err? {
      return Err(frame.error);
    }
    r := Judge(frame.value);
    if r.Err? {
      var drained := DrainUntilIdle(stream, gap, from, start, end);
      if drained.Err? {
        return Err(drained.error);
      }
    }
  }

  // On a line without lag the next frame survives a burst of unknown length exactly when that burst is too short
  // to be judged, or its CRC is right, or it fills the reader, or more than two gaps follow it; one gap is enough
  // to tell the two apart.
  lemma ResynchronisesIffTwoGaps(incoming: seq<byte>, arrivesAt: seq<real>, gap: real, from: real, start: nat,
                                 end: nat, taken: nat, r: Result<(byte, seq<byte>)>)
    requires BurstJudged(incoming, arrivesAt, 0.0, gap, from, start, end, taken, r)
    requires gap > 0.0 && |incoming| == |arrivesAt| && start + 2 < end <= start + 256
             && OneBurst(arrivesAt, 0.0, gap, from, start, end)
    requires end < |arrivesAt| && from <= arrivesAt[end - 1]
    ensures taken == end <==>
              || end - start < 4 || VerifyCrc(incoming[start..end]) || end == start + 256
              || arrivesAt[end - 1] + 2.0 * gap < arrivesAt[end]
  {
    var frame := incoming[start..end];
    assert JudgeBurst(frame) == Err(CrcError) <==> end - start >= 4 && !VerifyCrc(frame);
  }

  // A write to register 1 whose function code 06 arrived as 07, and the same write again, undamaged.
  const WRITE: seq<byte> := [0x06, 0x00, 0x01, 0x00, 0x03]
  const CHARACTER_AT_19200 := 11.0 / 19200.0
  const MOCK_GAP := 0.002

  function DamagedThenSound(): seq<byte> {
    EncodeAdu(1, WRITE).value[1 := 0x07] + EncodeAdu(1, WRITE).value
  }

  // Back to back at 19200 baud, with the silence of 3.5 characters that separates frames.
  function FramesAt19200(): seq<real> {
    seq(16, k => 1.0 + CHARACTER_AT_19200 * (if k < 8 then k as real else k as real + 3.5))
  }

  lemma ShortSilence(from: real)
    requires from <= 1.0
    ensures OneBurst(FramesAt19200(), 0.0, MOCK_GAP, from, 0, 8)
    ensures FramesAt19200()[8] - FramesAt19200()[7] == 4.5 * CHARACTER_AT_19200
    ensures FramesAt19200()[7] + MOCK_GAP < FramesAt19200()[8] <= FramesAt19200()[7] + 2.0 * MOCK_GAP
  {}

  lemma DamagedWrite()
    ensures |DamagedThenSound()| == 16 && ParseRequest(DamagedThenSound()) == Unframed
    ensures JudgeBurst(DamagedThenSound()[0..8]) == Err(CrcError)
  {
    var sound := EncodeAdu(1, WRITE).value;
    AppendedCrcVerifies([1] + WRITE);
    ByteChangeDetected(sound, 1, 0x07);
    assert DamagedThenSound()[0..8] == sound[1 := 0x07];
  }

  // So with the mock server's default gap a sound frame is lost behind a damaged one, however it is read.
  method SoundFrameLost(stream: ByteStream) returns (r: Result<(byte, seq<byte>)>)
    requires stream.Valid() && stream.taken == 0 && stream.lag == 0.0 && stream.now <= 1.0
    requires stream.incoming == DamagedThenSound() && stream.arrivesAt == FramesAt19200()
    modifies stream`now, stream`taken, stream`reach
    ensures Interrupted(r) || (r == Err(CrcError) && 8 < stream.taken)
  {
    hide DamagedThenSound, FramesAt19200, ParseRequest, JudgeBurst, OneBurst;
    DamagedWrite();
    ShortSilence(stream.now);
    assert stream.incoming[0..] == stream.incoming;
    r := ReadRawRequestAdu(stream, MOCK_GAP, 8);
  }
}

// ASCII framing (src/anymodbus/framer_ascii.py): ':' hex digits CR LF, read one byte at a time.
module AsciiFramer {
  import opened Bits
  import opened Errors
  import opened Lrc
  import opened Line

  const COLON: byte := 0x3A
  const CR: byte := 0x0D
  const LF: byte := 0x0A
  const MAX_ASCII_HEX_CHARS: nat := 510
  const MIN_RAW_FRAME_LEN := 3

  // ----- Hexadecimal -----

  function HexDigit(n: nat): byte
    requires n < 16
  {
    if n < 10 then 0x30 + n else 0x37 + n
  }

  predicate IsHex(c: byte) {
    0x30 <= c <= 0x39 || 0x41 <= c <= 0x46 || 0x61 <= c <= 0x66
  }

  function HexValue(c: byte): (r: nat)
    requires IsHex(c)
    ensures r < 16
  {
    if c <= 0x39 then c - 0x30 else if c <= 0x46 then c - 0x37 else c - 0x57
  }

  function Hex(data: seq<byte>): (r: seq<byte>)
    ensures |r| == 2 * |data|
  {
    if data == [] then [] else [HexDigit(data[0] / 16), HexDigit(data[0] % 16)] + Hex(data[1..])
  }

  predicate AllHex(chars: seq<byte>) {
    forall i :: 0 <= i < |chars| ==> IsHex(chars[i])
  }

  function DeHex(chars: seq<byte>): (r: seq<byte>)
    requires AllHex(chars) && |chars| % 2 == 0
    ensures |r| == |chars| / 2
  {
    if chars == [] then [] else [16 * HexValue(chars[0]) + HexValue(chars[1])] + DeHex(chars[2..])
  }

  lemma {:induction false} HexRoundTrip(data: seq<byte>)
    ensures AllHex(Hex(data)) && DeHex(Hex(data)) == data
  {
    if data != [] {
      HexRoundTrip(data[1..]);
      var chars := Hex(data);
      assert chars[2..] == Hex(data[1..]);
      assert forall i :: 2 <= i < |chars| ==> chars[i] == chars[2..][i - 2];
    }
  }

  // ----- Encoding -----

  function Wrap(raw: seq<byte>): (r: seq<byte>)
    ensures |r| == 2 * |raw| + 3
  {
    [COLON] + Hex(raw) + [CR, LF]
  }

  function EncodeAsciiAdu(slave: int, pdu: seq<byte>): Result<seq<byte>> {
    if !(0 <= slave <= 0xFF) then Err(ConfigurationError)
    else if |pdu| == 0 then Err(ConfigurationError)
    else Ok(Wrap([slave] + pdu + [Lrc8([slave] + pdu)]))
  }

  // ----- The pure parse -----

  // How many bytes come before the first colon.
  function Leading(s: seq<byte>): (n: nat)
    ensures n <= |s|
    ensures forall i :: 0 <= i < n ==> s[i] != COLON
    ensures n < |s| ==> s[n] == COLON
  {
    if s == [] || s[0] == COLON then 0 else 1 + Leading(s[1..])
  }

  // The body after the colon, up to the end of line: unfinished, malformed, or `digits` digits long.
  datatype Body = Unfinished | Malformed(used: nat) | Whole(digits: nat)
  {
    // How many bytes decide it; none do while it is unfinished.
    function Extent(): nat {
      match this
      case Unfinished => 0
      case Malformed(used) => used
      case Whole(digits) => digits + 2
    }
  }

  function ScanBody(s: seq<byte>, digits: nat): Body
    requires digits <= |s|
    decreases |s| - digits
  {
    if digits == |s| then Unfinished
    else if s[digits] == CR then
      if digits + 1 == |s| then Unfinished
      else if s[digits + 1] != LF then Malformed(digits + 2)
      else Whole(digits)
    else if !IsHex(s[digits]) || digits == MAX_ASCII_HEX_CHARS then Malformed(digits + 1)
    else ScanBody(s, digits + 1)
  }

  lemma {:induction false} ScanBodyClosed(s: seq<byte>, digits: nat)
    requires digits <= |s| && digits <= MAX_ASCII_HEX_CHARS && AllHex(s[..digits])
    ensures ScanBody(s, digits).Whole? ==>
              var n := ScanBody(s, digits).digits;
              digits <= n && n + 2 <= |s| && AllHex(s[..n]) && s[n] == CR && s[n + 1] == LF
    ensures ScanBody(s, digits).Malformed? ==> digits < ScanBody(s, digits).used <= |s|
    decreases |s| - digits
  {
    if digits < |s| && s[digits] != CR && IsHex(s[digits]) && digits < MAX_ASCII_HEX_CHARS {
      assert s[..digits + 1] == s[..digits] + [s[digits]];
      ScanBodyClosed(s, digits + 1);
    }
  }

  // One frame from the start of `s`.
  datatype AsciiParsed =
    // The input ended: before any colon, or inside a frame.
    | Ended(midFrame: bool)
    | Unusable(used: nat)
    | RawFrame(raw: seq<byte>, used: nat)
  {
    function Extent(): nat {
      match this
      case Ended(_) => 0
      case Unusable(used) => used
      case RawFrame(_, used) => used
    }
  }

  // The digits of a whole body as a raw frame.
  function Unhexed(digits: seq<byte>): (r: Result<seq<byte>>)
    requires AllHex(digits)
    ensures if r.Ok? then |r.value| >= MIN_RAW_FRAME_LEN else r.error == FrameError
  {
    if |digits| % 2 != 0 then Err(FrameError)
    else
      var raw := DeHex(digits);
      if |raw| < MIN_RAW_FRAME_LEN then Err(FrameError) else Ok(raw)
  }

  // What the body behind a colon at `start` makes of the frame.
  function Unframe(rest: seq<byte>, start: nat, body: Body): (r: AsciiParsed)
    requires body.Whole? ==> body.digits <= |rest| && AllHex(rest[..body.digits])
    ensures r.Ended? <==> body.Unfinished?
    ensures !r.Ended? ==> r.Extent() == start + 1 + body.Extent()
    ensures r.RawFrame? ==> MIN_RAW_FRAME_LEN <= |r.raw|
  {
    match body
    case Unfinished => Ended(true)
    case Malformed(used) => Unusable(start + 1 + used)
    case Whole(digits) =>
      match Unhexed(rest[..digits])
      case Err(_) => Unusable(start + digits + 3)
      case Ok(raw) => RawFrame(raw, start + digits + 3)
  }

  function ParseAscii(s: seq<byte>): (r: AsciiParsed)
    ensures r.Ended? || 0 < r.Extent() <= |s|
    ensures r.RawFrame? ==> MIN_RAW_FRAME_LEN <= |r.raw|
  {
    var start := Leading(s);
    if start == |s| then Ended(false)
    else
      var rest := s[start + 1..];
      ScanBodyClosed(rest, 0);
      Unframe(rest, start, ScanBody(rest, 0))
  }

  // ----- Readers -----

  // Reading gave what the parse of the remaining input gives, and consumed exactly that.
  predicate ReadsAscii(parsed: AsciiParsed, r: Result<seq<byte>>, consumed: nat, available: nat) {
    match parsed
    case Ended(midFrame) => r == Err(if midFrame then FrameError else Stream(EndOfStream)) && consumed == available
    case Unusable(used) => r == Err(FrameError) && consumed == used
    case RawFrame(raw, used) => r == Ok(raw) && consumed == used
  }

  // Reading a frame gave what the parse says, or was broken off inside the frame, if there is a whole one.
  predicate ReadsFrameUnless(parsed: AsciiParsed, r: Result<seq<byte>>, consumed: nat, available: nat) {
    if r.Err? && r.error.IsInterruption() then parsed.Ended? || consumed < parsed.Extent()
    else ReadsAscii(parsed, r, consumed, available)
  }

  method ReceiveOne(stream: ByteStream, deadline: Deadline) returns (r: Result<byte>)
    requires stream.Valid()
    modifies stream`now, stream`taken, stream`reach
    ensures Timed(r.Ok?, r.TimedOut(), old(stream.now), stream.now, deadline, stream.arrivesAt, stream.lag,
                  old(stream.taken), stream.taken)
    ensures stream.Valid() && old(stream.now) <= stream.now
    ensures stream.reach <= old(stream.reach) || stream.reach <= old(stream.taken) + 1
    ensures r.Ok? ==> stream.taken == old(stream.taken) + 1 && r.value == stream.incoming[old(stream.taken)]
    ensures r.Err? ==> stream.taken == old(stream.taken)
                       && (r.error.IsInterruption()
                           || (r.error == Stream(EndOfStream) && stream.taken == |stream.incoming|))
  {
    var received := stream.Receive(1, deadline);
    match received {
      case Chunk(bytes) => return Ok(bytes[0]);
      case Expired => return Err(DeadlinePassed);
      case Raised(error) => return Err(error);
    }
  }

  // Discards everything up to and including the first colon.
  method SkipToColon(stream: ByteStream, deadline: Deadline) returns (r: Result<()>)
    requires stream.Valid()
    modifies stream`now, stream`taken, stream`reach
    ensures Timed(r.Ok?, r.TimedOut(), old(stream.now), stream.now, deadline, stream.arrivesAt, stream.lag,
                  old(stream.taken), stream.taken)
    ensures stream.Valid() && old(stream.now) <= stream.now && old(stream.taken) <= stream.taken
    ensures var start := old(stream.taken) + Leading(stream.incoming[old(stream.taken)..]);
            && (r.Ok? ==> start < |stream.incoming| && stream.taken == start + 1)
            && (r.Err? ==>
                stream.taken <= start
                && (r.error.IsInterruption()
                    || (r.error == Stream(EndOfStream) && stream.taken == |stream.incoming| == start)))
            && (stream.reach <= old(stream.reach) || stream.reach <= start + 1)
  {
    ghost var from, began := stream.taken, stream.now;
    ghost var start := from + Leading(stream.incoming[from..]);
    Begins(began, deadline, stream.arrivesAt, stream.lag, from);
    hide Timed, InOrder;
    while true
      invariant stream.Valid() && old(stream.now) <= stream.now && from <= stream.taken <= start
      invariant Timed(true, false, began, stream.now, deadline, stream.arrivesAt, stream.lag, from, stream.taken)
      invariant stream.reach <= old(stream.reach) || stream.reach <= start + 1
      decreases |stream.incoming| - stream.taken
    {
      ghost var at, before := stream.taken, stream.now;
      var one := ReceiveOne(stream, deadline);
      GoesOn(one.Ok?, one.TimedOut(), began, before, stream.now, deadline, stream.arrivesAt, stream.lag, from, at,
             stream.taken);
      if one.Err? {
        return Err(one.error);
      }
      assert stream.incoming[at] == stream.incoming[from..][at - from];
      if one.value == COLON {
        return Ok(());
      }
    }
  }

  // What must follow the carriage return behind these digits.
  method ReadLineFeed(stream: ByteStream, digits: seq<byte>, deadline: Deadline) returns (r: Result<seq<byte>>)
    requires stream.Valid()
    modifies stream`now, stream`taken, stream`reach
    ensures Timed(r.Ok?, r.TimedOut(), old(stream.now), stream.now, deadline, stream.arrivesAt, stream.lag,
                  old(stream.taken), stream.taken)
    ensures stream.Valid() && old(stream.now) <= stream.now
    ensures stream.reach <= old(stream.reach) || stream.reach <= old(stream.taken) + 1
    ensures r.Err? && r.error.IsInterruption() ==> stream.taken == old(stream.taken)
    ensures (r.Err? && r.error.IsInterruption())
            || if old(stream.taken) == |stream.incoming| then r == Err(FrameError) && stream.taken == old(stream.taken)
               else stream.taken == old(stream.taken) + 1
                    && r == if stream.incoming[old(stream.taken)] == LF then Ok(digits) else Err(FrameError)
  {
    ghost var began := stream.now;
    hide Timed, InOrder;
    var next := ReceiveOne(stream, deadline);
    if next.Err? {
      return Err(if next.error == Stream(EndOfStream) then FrameError else next.error);
    }
    IsOver(false, began, stream.now, deadline, stream.arrivesAt, stream.lag, stream.taken - 1, stream.taken);
    return if next.value == LF then Ok(digits) else Err(FrameError);
  }

  // One more byte of the body: it decides, or it is a digit.
  lemma ScansOn(s: seq<byte>, digits: nat)
    requires digits <= |s| && digits <= MAX_ASCII_HEX_CHARS && AllHex(s[..digits])
    ensures var body := ScanBody(s, digits);
            && (body == Unfinished || digits < body.Extent())
            && if digits == |s| then body == Unfinished
               else if s[digits] == CR then
                 if digits + 1 == |s| then body == Unfinished
                 else body == if s[digits + 1] == LF then Whole(digits) else Malformed(digits + 2)
               else if !IsHex(s[digits]) || digits == MAX_ASCII_HEX_CHARS then body == Malformed(digits + 1)
               else body == ScanBody(s, digits + 1) && s[..digits + 1] == s[..digits] + [s[digits]]
                    && AllHex(s[..digits + 1])
  {
    ScanBodyClosed(s, digits);
  }

  // What reading a body gives, and how much of the input is consumed.
  function BodyGives(rest: seq<byte>, body: Body): (Result<seq<byte>>, nat)
    requires body.Whole? ==> body.digits <= |rest|
  {
    match body
    case Unfinished => (Err(FrameError), |rest|)
    case Malformed(used) => (Err(FrameError), used)
    case Whole(digits) => (Ok(rest[..digits]), digits + 2)
  }

  // Reading gave that, or was broken off before the body was decided.
  predicate ReadsBodyUnless(rest: seq<byte>, body: Body, r: Result<seq<byte>>, consumed: nat) {
    if r.Err? && r.error.IsInterruption() then body == Unfinished || consumed < body.Extent()
    else (body.Whole? ==> body.digits <= |rest|) && (r, consumed) == BodyGives(rest, body)
  }

  // The body so far: digits, no more than fit.
  ghost predicate Digits(rest: seq<byte>, digits: seq<byte>) {
    |digits| <= MAX_ASCII_HEX_CHARS && digits <= rest && AllHex(digits)
  }

  // Behind these digits: one more digit, or what decides the body.
  method ReadDigit(stream: ByteStream, ghost rest: seq<byte>, digits: seq<byte>, deadline: Deadline)
    returns (r: Result<seq<byte>>, more: bool)
    requires stream.Valid() && |digits| <= stream.taken && rest == stream.incoming[stream.taken - |digits|..]
    requires Digits(rest, digits)
    modifies stream`now, stream`taken, stream`reach
    ensures Timed(r.Ok?, r.TimedOut(), old(stream.now), stream.now, deadline, stream.arrivesAt, stream.lag,
                  old(stream.taken), stream.taken)
    ensures stream.Valid() && old(stream.now) <= stream.now && old(stream.taken) <= stream.taken
    ensures stream.reach <= old(stream.reach) || stream.reach <= stream.taken + 1
    ensures r.Ok? ==> stream.reach <= old(stream.reach) || stream.reach <= stream.taken
    ensures if more then
              && r.Ok? && |r.value| == |digits| + 1 && Digits(rest, r.value) && stream.taken == old(stream.taken) + 1
              && ScanBody(rest, |digits|) == ScanBody(rest, |r.value|)
            else
              ReadsBodyUnless(rest, ScanBody(rest, |digits|), r, stream.taken - old(stream.taken) + |digits|)
  {
    ghost var at, began := stream.taken, stream.now;
    assert digits == rest[..|digits|];
    hide Timed, InOrder, ScanBody, AllHex;
    ScansOn(rest, |digits|);
    var one := ReceiveOne(stream, deadline);
    more := false;
    if one.Err? {
      r := Err(if one.error == Stream(EndOfStream) then FrameError else one.error);
    } else if one.value == CR {
      ghost var before := stream.now;
      r := ReadLineFeed(stream, digits, deadline);
      GoesOn(r.Ok?, r.TimedOut(), began, before, stream.now, deadline, stream.arrivesAt, stream.lag, at, at + 1,
             stream.taken);
    } else {
      more := IsHex(one.value) && |digits| < MAX_ASCII_HEX_CHARS;
      r := if more then Ok(digits + [one.value]) else Err(FrameError);
      IsOver(r.Ok?, began, stream.now, deadline, stream.arrivesAt, stream.lag, at, stream.taken);
    }
  }

  // Accumulates hex digits up to the end of line.
  method ReadBody(stream: ByteStream, deadline: Deadline) returns (r: Result<seq<byte>>)
    requires stream.Valid()
    modifies stream`now, stream`taken, stream`reach
    ensures Timed(r.Ok?, r.TimedOut(), old(stream.now), stream.now, deadline, stream.arrivesAt, stream.lag,
                  old(stream.taken), stream.taken)
    ensures stream.Valid() && old(stream.now) <= stream.now && old(stream.taken) <= stream.taken
    ensures var rest := stream.incoming[old(stream.taken)..];
            ReadsBodyUnless(rest, ScanBody(rest, 0), r, stream.taken - old(stream.taken))
    ensures stream.reach <= old(stream.reach) || stream.reach <= stream.taken + 1
    ensures r.Ok? ==> stream.reach <= old(stream.reach) || stream.reach <= stream.taken
  {
    ghost var from, began := stream.taken, stream.now;
    ghost var rest := stream.incoming[from..];
    Begins(began, deadline, stream.arrivesAt, stream.lag, from);
    var buf: seq<byte> := [];
    assert Digits(rest, buf);
    hide Timed, InOrder, ScanBody, Digits, ReadsBodyUnless;
    while true
      invariant stream.Valid() && old(stream.now) <= stream.now
      invariant Timed(true, false, began, stream.now, deadline, stream.arrivesAt, stream.lag, from, stream.taken)
      invariant stream.taken == from + |buf| && Digits(rest, buf)
      invariant ScanBody(rest, 0) == ScanBody(rest, |buf|)
      invariant stream.reach <= old(stream.reach) || stream.reach <= stream.taken
      decreases |stream.incoming| - stream.taken
    {
      ghost var at, before := stream.taken, stream.now;
      var more;
      r, more := ReadDigit(stream, rest, buf, deadline);
      GoesOn(r.Ok?, r.TimedOut(), began, before, stream.now, deadline, stream.arrivesAt, stream.lag, from, at,
             stream.taken);
      if !more {
        break;
      }
      buf := r.value;
    }
  }

  // A colon was found: the body behind it makes the frame.
  lemma FrameByBody(s: seq<byte>, rest: seq<byte>, body: Result<seq<byte>>, consumed: nat)
    requires Leading(s) < |s| && rest == s[Leading(s) + 1..] && consumed <= |rest|
    requires ReadsBodyUnless(rest, ScanBody(rest, 0), body, consumed)
    ensures body.Ok? ==> AllHex(body.value)
    ensures ReadsFrameUnless(ParseAscii(s), if body.Ok? then Unhexed(body.value) else Err(body.error),
                             Leading(s) + 1 + consumed, |s|)
  {
    ScanBodyClosed(rest, 0);
    hide ScanBody, Leading, AllHex, Unhexed, Unframe, ReadsBodyUnless, ReadsFrameUnless;
    UnframedRead(rest, Leading(s), ScanBody(rest, 0), body, consumed, |s|);
  }

  lemma UnframedRead(rest: seq<byte>, start: nat, scanned: Body, body: Result<seq<byte>>, consumed: nat, available: nat)
    requires available == start + 1 + |rest| && ReadsBodyUnless(rest, scanned, body, consumed)
    requires scanned.Whole? ==> scanned.digits <= |rest| && AllHex(rest[..scanned.digits])
    ensures body.Ok? ==> AllHex(body.value)
    ensures ReadsFrameUnless(Unframe(rest, start, scanned), if body.Ok? then Unhexed(body.value) else Err(body.error),
                             start + 1 + consumed, available)
  {
    hide AllHex;
  }

  method ReadAsciiFrame(stream: ByteStream, deadline: Deadline) returns (r: Result<seq<byte>>)
    requires stream.Valid()
    modifies stream`now, stream`taken, stream`reach
    ensures Timed(r.Ok?, r.TimedOut(), old(stream.now), stream.now, deadline, stream.arrivesAt, stream.lag,
                  old(stream.taken), stream.taken)
    ensures stream.Valid() && old(stream.now) <= stream.now && old(stream.taken) <= stream.taken
    ensures ReadsFrameUnless(ParseAscii(stream.incoming[old(stream.taken)..]), r, stream.taken - old(stream.taken),
                             |stream.incoming| - old(stream.taken))
    ensures r.Ok? ==> stream.reach <= old(stream.reach) || stream.reach <= stream.taken
  {
    ghost var from, began := stream.taken, stream.now;
    ghost var rest := stream.incoming[from..];
    hide Timed, InOrder, ScanBody, Leading, ReadsBodyUnless, AllHex, Unhexed;
    var colon := SkipToColon(stream, deadline);
    if colon.Err? {
      return Err(colon.error);
    }
    ghost var at, middle := stream.taken, stream.now;
    ghost var tail := stream.incoming[at..];
    assert tail == rest[Leading(rest) + 1..];
    var body := ReadBody(stream, deadline);
    GoesOn(body.Ok?, body.TimedOut(), began, middle, stream.now, deadline, stream.arrivesAt, stream.lag, from, at,
           stream.taken);
    FrameByBody(rest, tail, body, stream.taken - at);
    hide ReadsFrameUnless, ParseAscii;
    if body.Err? {
      r := Err(body.error);
    } else {
      IsOver(false, began, stream.now, deadline, stream.arrivesAt, stream.lag, from, stream.taken);
      r := Unhexed(body.value);
    }
  }

  // The client's parse: frames for other slaves are skipped before their LRC is judged.
  datatype AsciiReply =
    | NoReply(midFrame: bool)
    | Refused(error: Error, used: nat)
    | Reply(slave: byte, pdu: seq<byte>, used: nat)
  {
    // How many bytes decide it; none do when the input ends first.
    function Extent(): nat {
      match this
      case NoReply(_) => 0
      case Refused(_, used) => used
      case Reply(_, _, used) => used
    }

    // The same outcome with `skipped` bytes read before.
    function After(skipped: nat): AsciiReply {
      match this
      case NoReply(midFrame) => this
      case Refused(error, used) => Refused(error, skipped + used)
      case Reply(slave, pdu, used) => Reply(slave, pdu, skipped + used)
    }
  }

  function Unwrap(raw: seq<byte>, used: nat): AsciiReply
    requires |raw| >= MIN_RAW_FRAME_LEN
  {
    if !VerifyLrc(raw) then Refused(LrcError, used) else Reply(raw[0], raw[1..|raw| - 1], used)
  }

  function ParseAsciiReply(s: seq<byte>, expected: byte): AsciiReply
    decreases |s|
  {
    match ParseAscii(s)
    case Ended(midFrame) => NoReply(midFrame)
    case Unusable(used) => Refused(FrameError, used)
    case RawFrame(raw, used) =>
      if raw[0] == expected then Unwrap(raw, used)
      else ParseAsciiReply(s[used..], expected).After(used)
  }

  predicate ReadsReply(parsed: AsciiReply, r: Result<(byte, seq<byte>)>, consumed: nat, available: nat) {
    match parsed
    case NoReply(midFrame) => r == Err(if midFrame then FrameError else Stream(EndOfStream)) && consumed == available
    case Refused(error, used) => r == Err(error) && consumed == used
    case Reply(slave, pdu, used) => r == Ok((slave, pdu)) && consumed == used
  }

  // Broken off, a read was broken off before the parse was decided.
  predicate ReadsReplyUnless(parsed: AsciiReply, r: Result<(byte, seq<byte>)>, consumed: nat, available: nat) {
    if r.Err? && r.error.IsInterruption() then parsed.NoReply? || consumed < parsed.Extent()
    else ReadsReply(parsed, r, consumed, available)
  }

  lemma ReadAfterSkip(parsed: AsciiReply, r: Result<(byte, seq<byte>)>, consumed: nat, available: nat, skipped: nat)
    requires ReadsReplyUnless(parsed, r, consumed, available)
    ensures ReadsReplyUnless(parsed.After(skipped), r, skipped + consumed, skipped + available)
  {}

  function ReplyFrom(incoming: seq<byte>, start: nat, expected: byte): AsciiReply
    requires start <= |incoming|
  {
    ParseAsciiReply(incoming[start..], expected)
  }

  // An accepted reply is the last frame read: wrapped, addressed to `expected`, its LRC correct.
  ghost predicate AcceptedAscii(s: seq<byte>, start: nat, expected: byte, parsed: AsciiReply) {
    parsed.Reply? && start <= |s|
    && match ParseAscii(s[start..])
       case RawFrame(raw, used) =>
         start + used == parsed.used && raw[0] == expected == parsed.slave && VerifyLrc(raw)
           && parsed.pdu == raw[1..|raw| - 1]
       case _ => false
  }

  lemma {:induction false} AcceptedReplyIsFrame(s: seq<byte>, expected: byte) returns (start: nat)
    requires ParseAsciiReply(s, expected).Reply?
    ensures AcceptedAscii(s, start, expected, ParseAsciiReply(s, expected))
    decreases |s|
  {
    var parsed := ParseAscii(s);
    if parsed.raw[0] == expected {
      start := 0;
      assert s[0..] == s;
    } else {
      var later := AcceptedReplyIsFrame(s[parsed.used..], expected);
      start := parsed.used + later;
      assert s[start..] == s[parsed.used..][later..];
    }
  }

  // What the next frame makes of the reply.
  lemma ReplyByFrame(incoming: seq<byte>, start: nat, expected: byte)
    requires start <= |incoming|
    ensures var reply := ReplyFrom(incoming, start, expected);
            match ParseAscii(incoming[start..])
            case Ended(midFrame) => reply == NoReply(midFrame)
            case Unusable(used) => reply == Refused(FrameError, used)
            case RawFrame(raw, used) =>
              reply == if raw[0] == expected then Unwrap(raw, used)
                       else ReplyFrom(incoming, start + used, expected).After(used)
  {
    var parsed := ParseAscii(incoming[start..]);
    if parsed.RawFrame? {
      assert incoming[start..][parsed.used..] == incoming[start + parsed.used..];
    }
  }

  // What reading a frame is to the reader that waits for `expected`: None when it is for another slave.
  function Addressed(raw: Result<seq<byte>>, expected: byte): Result<Option<(byte, seq<byte>)>>
    requires raw.Ok? ==> |raw.value| >= MIN_RAW_FRAME_LEN
  {
    if raw.Err? then Err(raw.error)
    else if raw.value[0] != expected then Ok(None)
    else if VerifyLrc(raw.value) then Ok(Some((raw.value[0], raw.value[1..|raw.value| - 1])))
    else Err(LrcError)
  }

  lemma AddressedReads(incoming: seq<byte>, start: nat, taken: nat, expected: byte, raw: Result<seq<byte>>)
    requires start <= taken <= |incoming|
    requires ReadsFrameUnless(ParseAscii(incoming[start..]), raw, taken - start, |incoming| - start)
    ensures raw.Ok? ==> |raw.value| >= MIN_RAW_FRAME_LEN
    ensures var r := Addressed(raw, expected);
            if r == Ok(None) then
              start < taken
              && ReplyFrom(incoming, start, expected) == ReplyFrom(incoming, taken, expected).After(taken - start)
            else
              ReadsReplyUnless(ReplyFrom(incoming, start, expected),
                               if r.Ok? then Ok(r.value.value) else Err(r.error), taken - start, |incoming| - start)
  {
    hide ParseAscii, ReplyFrom, VerifyLrc;
    ReplyByFrame(incoming, start, expected);
  }

  // One frame: None when it is for another slave.
  method ReadOneAscii(stream: ByteStream, expected: byte, deadline: Deadline)
    returns (r: Result<Option<(byte, seq<byte>)>>)
    requires stream.Valid()
    modifies stream`now, stream`taken, stream`reach
    ensures Timed(r.Ok?, r.TimedOut(), old(stream.now), stream.now, deadline, stream.arrivesAt, stream.lag,
                  old(stream.taken), stream.taken)
    ensures stream.Valid() && old(stream.now) <= stream.now && old(stream.taken) <= stream.taken
    ensures r == Ok(None) ==>
              old(stream.taken) < stream.taken
              && ReplyFrom(stream.incoming, old(stream.taken), expected)
                 == ReplyFrom(stream.incoming, stream.taken, expected).After(stream.taken - old(stream.taken))
    ensures r == Ok(None)
            || ReadsReplyUnless(ReplyFrom(stream.incoming, old(stream.taken), expected),
                                if r.Ok? then Ok(r.value.value) else Err(r.error),
                                stream.taken - old(stream.taken), |stream.incoming| - old(stream.taken))
  {
    ghost var start, began := stream.taken, stream.now;
    hide Timed, InOrder, ParseAscii, ReplyFrom, ReadsReplyUnless, ReadsFrameUnless;
    var raw := ReadAsciiFrame(stream, deadline);
    AddressedReads(stream.incoming, start, stream.taken, expected, raw);
    if raw.Ok? {
      IsOver(false, began, stream.now, deadline, stream.arrivesAt, stream.lag, start, stream.taken);
    }
    r := Addressed(raw, expected);
  }

  method ReadAsciiAdu(stream: ByteStream, expected: byte, deadline: Deadline) returns (r: Result<(byte, seq<byte>)>)
    requires stream.Valid()
    modifies stream`now, stream`taken, stream`reach
    ensures Timed(r.Ok?, r.TimedOut(), old(stream.now), stream.now, deadline, stream.arrivesAt, stream.lag,
                  old(stream.taken), stream.taken)
    ensures stream.Valid() && old(stream.now) <= stream.now && old(stream.taken) <= stream.taken
    ensures ReadsReplyUnless(ReplyFrom(stream.incoming, old(stream.taken), expected), r,
                             stream.taken - old(stream.taken), |stream.incoming| - old(stream.taken))
  {
    ghost var from, began := stream.taken, stream.now;
    hide ReplyFrom, ReadsReplyUnless, Timed, InOrder;
    Begins(began, deadline, stream.arrivesAt, stream.lag, from);
    while true
      invariant stream.Valid() && old(stream.now) <= stream.now && from <= stream.taken
      invariant Timed(true, false, began, stream.now, deadline, stream.arrivesAt, stream.lag, from, stream.taken)
      invariant ReplyFrom(stream.incoming, from, expected)
                == ReplyFrom(stream.incoming, stream.taken, expected).After(stream.taken - from)
      decreases |stream.incoming| - stream.taken
    {
      ghost var start, before := stream.taken, stream.now;
      var one := ReadOneAscii(stream, expected, deadline);
      GoesOn(one.Ok?, one.TimedOut(), began, before, stream.now, deadline, stream.arrivesAt, stream.lag, from, start,
             stream.taken);
      if one != Ok(None) {
        r := if one.Ok? then Ok(one.value.value) else Err(one.error);
        ReadAfterSkip(ReplyFrom(stream.incoming, start, expected), r, stream.taken - start,
                      |stream.incoming| - start, start - from);
        break;
      }
    }
  }

  // The server's reader: any address, one frame.
  method ReadAsciiRequest(stream: ByteStream) returns (r: Result<(byte, seq<byte>)>)
    requires stream.Valid()
    modifies stream`now, stream`taken, stream`reach
    ensures stream.Valid() && old(stream.now) <= stream.now && old(stream.taken) <= stream.taken
    ensures (r.Err? && r.error.IsInterruption())
            || ReadsReply(ParseAsciiRequest(stream.incoming[old(stream.taken)..]), r, stream.taken - old(stream.taken),
                          |stream.incoming| - old(stream.taken))
    ensures r.Err? ==> r.error.LrcError? || r.error.FrameError? || r.error.Stream? || r.error.Cancelled?
  {
    var raw := ReadAsciiFrame(stream, None);
    if raw.Err? {
      return Err(raw.error);
    }
    return if VerifyLrc(raw.value) then Ok((raw.value[0], raw.value[1..|raw.value| - 1])) else Err(LrcError);
  }

  function ParseAsciiRequest(s: seq<byte>): AsciiReply {
    match ParseAscii(s)
    case Ended(midFrame) => NoReply(midFrame)
    case Unusable(used) => Refused(FrameError, used)
    case RawFrame(raw, used) => Unwrap(raw, used)
  }

  // ----- Print and parse -----

  lemma {:induction false} ScanHex(s: seq<byte>, digits: nat, total: nat)
    requires digits <= total <= MAX_ASCII_HEX_CHARS && total + 2 <= |s|
    requires AllHex(s[..total]) && s[total] == CR && s[total + 1] == LF
    ensures ScanBody(s, digits) == Whole(total)
    decreases total - digits
  {
    if digits < total {
      assert IsHex(s[..total][digits]) && s[..total][digits] == s[digits];
      ScanHex(s, digits + 1, total);
    }
  }

  lemma {:induction false} LeadingPrefix(prefix: seq<byte>, rest: seq<byte>)
    requires COLON !in prefix && rest != [] && rest[0] == COLON
    ensures Leading(prefix + rest) == |prefix|
  {
    if prefix == [] {
      assert prefix + rest == rest;
    } else {
      assert COLON !in prefix[1..];
      LeadingPrefix(prefix[1..], rest);
      assert (prefix + rest)[1..] == prefix[1..] + rest;
    }
  }

  // Whatever comes before the colon and after the line end, a wrapped frame reads back as itself.
  lemma ParseWrapped(prefix: seq<byte>, raw: seq<byte>, rest: seq<byte>)
    requires COLON !in prefix && 3 <= |raw| <= 255
    ensures ParseAscii(prefix + Wrap(raw) + rest) == RawFrame(raw, |prefix| + |Wrap(raw)|)
  {
    var s := prefix + Wrap(raw) + rest;
    var body := Hex(raw) + [CR, LF] + rest;
    assert s == prefix + ([COLON] + body);
    LeadingPrefix(prefix, [COLON] + body);
    assert s[|prefix| + 1..] == body;
    HexRoundTrip(raw);
    assert body[..2 * |raw|] == Hex(raw);
    ScanHex(body, 0, 2 * |raw|);
  }

  lemma EncodedRaw(slave: byte, pdu: seq<byte>)
    requires pdu != []
    ensures VerifyLrc([slave] + pdu + [Lrc8([slave] + pdu)])
  {
    ZeroSumIffLrc([slave] + pdu, Lrc8([slave] + pdu));
  }

  // What is sent is what is read, at either end, with the rest of the line untouched.
  lemma ReadBackAscii(prefix: seq<byte>, slave: byte, pdu: seq<byte>, rest: seq<byte>)
    requires COLON !in prefix && 1 <= |pdu| <= 253
    ensures var sent := EncodeAsciiAdu(slave, pdu).value;
            ParseAsciiRequest(prefix + sent + rest) == Reply(slave, pdu, |prefix| + |sent|)
            && ParseAsciiReply(prefix + sent + rest, slave) == Reply(slave, pdu, |prefix| + |sent|)
  {
    var raw := [slave] + pdu + [Lrc8([slave] + pdu)];
    ParseWrapped(prefix, raw, rest);
    EncodedRaw(slave, pdu);
    assert raw[1..|raw| - 1] == pdu;
  }

  // The same with nothing in front.
  lemma ReadBackAtOnce(slave: byte, pdu: seq<byte>, rest: seq<byte>)
    requires 1 <= |pdu| <= 253
    ensures var sent := EncodeAsciiAdu(slave, pdu).value;
            ParseAsciiRequest(sent + rest) == Reply(slave, pdu, |sent|)
              && ParseAsciiReply(sent + rest, slave) == Reply(slave, pdu, |sent|)
  {
    ReadBackAscii([], slave, pdu, rest);
    hide EncodeAsciiAdu, ParseAsciiRequest, ParseAsciiReply;
    NothingBefore(EncodeAsciiAdu(slave, pdu).value, rest);
  }

  // A well-formed frame for another slave is skipped, whether or not its LRC is right.
  lemma StraySkipped(prefix: seq<byte>, raw: seq<byte>, rest: seq<byte>, expected: byte)
    requires COLON !in prefix && 3 <= |raw| <= 255 && raw[0] != expected
    ensures ParseAsciiReply(prefix + Wrap(raw) + rest, expected)
            == ParseAsciiReply(rest, expected).After(|prefix| + |Wrap(raw)|)
  {
    ParseWrapped(prefix, raw, rest);
    hide ParseAscii, Wrap;
    assert (prefix + Wrap(raw) + rest)[|prefix| + |Wrap(raw)|..] == rest;
  }

  // Well-formed frames for other slaves, each behind noise without a colon.
  function StrayFrames(strays: seq<(seq<byte>, seq<byte>)>): seq<byte> {
    if strays == [] then [] else strays[0].0 + Wrap(strays[0].1) + StrayFrames(strays[1..])
  }

  lemma Regroup(a: seq<byte>, b: seq<byte>, c: seq<byte>, d: seq<byte>, e: seq<byte>)
    ensures (a + b) + c + d + e == a + (b + c + d + e)
  {}

  lemma NothingBefore(frame: seq<byte>, rest: seq<byte>)
    ensures [] + frame + rest == frame + rest
  {}

  lemma AfterStray(strays: seq<(seq<byte>, seq<byte>)>)
    requires strays != []
    ensures StrayFrames(strays) == strays[0].0 + Wrap(strays[0].1) + StrayFrames(strays[1..])
  {}

  // However many come before it, and whether or not their LRCs are right, our frame is what is read.
  lemma {:induction false} StraysSkipped(strays: seq<(seq<byte>, seq<byte>)>, prefix: seq<byte>, slave: byte,
                                         pdu: seq<byte>, rest: seq<byte>)
    requires COLON !in prefix && 1 <= |pdu| <= 253
    requires forall i :: 0 <= i < |strays| ==>
               COLON !in strays[i].0 && 3 <= |strays[i].1| <= 255 && strays[i].1[0] != slave
    ensures var sent := EncodeAsciiAdu(slave, pdu).value;
            ParseAsciiReply(StrayFrames(strays) + prefix + sent + rest, slave)
            == Reply(slave, pdu, |StrayFrames(strays)| + |prefix| + |sent|)
    decreases |strays|
  {
    var sent := EncodeAsciiAdu(slave, pdu).value;
    if strays == [] {
      ReadBackAscii(prefix, slave, pdu, rest);
      assert StrayFrames(strays) == [];
      hide *;
      assert [] + prefix == prefix;
    } else {
      var noise, stray, others := strays[0].0, strays[0].1, StrayFrames(strays[1..]);
      StraysSkipped(strays[1..], prefix, slave, pdu, rest);
      AfterStray(strays);
      hide *;
      StraySkipped(noise, stray, others + prefix + sent + rest, slave);
      Regroup(noise + Wrap(stray), others, prefix, sent, rest);
    }
  }

  // One raw byte of our frame changed on the way, the address excepted: refused, never accepted.
  lemma ChangedByteRefused(prefix: seq<byte>, slave: byte, pdu: seq<byte>, i: nat, changed: byte, rest: seq<byte>)
    requires COLON !in prefix && 1 <= |pdu| <= 253
    requires 1 <= i <= |pdu| + 1
    requires changed != ([slave] + pdu + [Lrc8([slave] + pdu)])[i]
    ensures var damaged := ([slave] + pdu + [Lrc8([slave] + pdu)])[i := changed];
            ParseAsciiReply(prefix + Wrap(damaged) + rest, slave) == Refused(LrcError, |prefix| + |Wrap(damaged)|)
  {
    var raw := [slave] + pdu + [Lrc8([slave] + pdu)];
    EncodedRaw(slave, pdu);
    OneByteChangeDetected(raw, i, changed);
    ParseWrapped(prefix, raw[i := changed], rest);
  }
}

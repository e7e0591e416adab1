// What damage to one ASCII frame costs (src/anymodbus/framer_ascii.py): exactly when the frame behind it is
// still read, and that one wrong character never loses it.
module AsciiRecovery {
  import opened Bits
  import opened Errors
  import opened Lrc
  import opened AsciiFramer

  // A body in which nothing stops a reader before the next colon: digits to the end, or up to a final carriage
  // return, and no more of them than fit.
  predicate RunsOn(body: seq<byte>) {
    || (AllHex(body) && |body| <= MAX_ASCII_HEX_CHARS)
    || (body != [] && body[|body| - 1] == CR && AllHex(body[..|body| - 1]) && |body| - 1 <= MAX_ASCII_HEX_CHARS)
  }

  // Reading a body that is followed by a colon stops within it, unless it runs on; then it takes that colon too.
  lemma {:induction false} ScanStops(body: seq<byte>, rest: seq<byte>, digits: nat)
    requires COLON !in body && rest != [] && rest[0] == COLON
    requires digits <= |body| && digits <= MAX_ASCII_HEX_CHARS && AllHex(body[..digits])
    ensures var scanned := ScanBody(body + rest, digits);
            && scanned != Unfinished && digits < scanned.Extent()
            && if RunsOn(body) then scanned == Malformed(|body| + 1) else scanned.Extent() <= |body|
    decreases |body| - digits
  {
    var s := body + rest;
    if digits == |body| {
      assert body[..digits] == body && s[digits] == COLON;
    } else {
      assert s[digits] == body[digits];
      if body[digits] == CR {
        StopsAtReturn(body, digits);
        assert s[digits + 1] == if digits + 1 < |body| then body[digits + 1] else COLON;
      } else if !IsHex(body[digits]) || digits == MAX_ASCII_HEX_CHARS {
        StopsAtDigit(body, digits);
      } else {
        assert body[..digits + 1] == body[..digits] + [body[digits]];
        ScanStops(body, rest, digits + 1);
      }
    }
  }

  lemma StopsAtReturn(body: seq<byte>, digits: nat)
    requires digits < |body| && digits <= MAX_ASCII_HEX_CHARS && AllHex(body[..digits]) && body[digits] == CR
    ensures RunsOn(body) <==> digits + 1 == |body|
  {
    assert !IsHex(body[digits]);
    if digits + 1 < |body| {
      assert body[..|body| - 1][digits] == CR;
    }
  }

  lemma StopsAtDigit(body: seq<byte>, digits: nat)
    requires digits < |body| && digits <= MAX_ASCII_HEX_CHARS && AllHex(body[..digits]) && body[digits] != CR
    requires !IsHex(body[digits]) || digits == MAX_ASCII_HEX_CHARS
    ensures !RunsOn(body)
  {
    if digits < |body| - 1 {
      assert body[..|body| - 1][digits] == body[digits];
    }
  }

  // Whatever stands between a colon and the next frame - a frame damaged in any way, or cut short - that frame is
  // read next if and only if it does not run on; otherwise its colon is gone.
  lemma NextFrameSurvivesIff(body: seq<byte>, next: seq<byte>, rest: seq<byte>)
    requires COLON !in body && 3 <= |next| <= 255
    ensures var line := [COLON] + body + (Wrap(next) + rest);
            var first := ParseAscii(line);
            && !first.Ended? && 0 < first.Extent() <= |line|
            && if RunsOn(body) then first == Unusable(|body| + 2)
               else first.Extent() <= |body| + 1
                    && ParseAscii(line[first.Extent()..])
                       == RawFrame(next, |body| + 1 - first.Extent() + |Wrap(next)|)
  {
    var tail := Wrap(next) + rest;
    var line := [COLON] + body + tail;
    assert line[1..] == body + tail && Leading(line) == 0;
    ScanStops(body, tail, 0);
    var used := ScanBody(body + tail, 0).Extent();
    hide AllHex, Unhexed, ScanBody, Leading, Wrap, RunsOn;
    assert ParseAscii(line).Extent() == 1 + used;
    if !RunsOn(body) {
      hide ParseAscii;
      Remainder(body, used, next, rest);
    }
  }

  lemma Remainder(body: seq<byte>, used: nat, next: seq<byte>, rest: seq<byte>)
    requires COLON !in body && 3 <= |next| <= 255 && used <= |body|
    ensures ParseAscii(([COLON] + body + (Wrap(next) + rest))[1 + used..])
            == RawFrame(next, |body| - used + |Wrap(next)|)
  {
    assert ([COLON] + body + (Wrap(next) + rest))[1 + used..] == body[used..] + Wrap(next) + rest;
    ParseWrapped(body[used..], next, rest);
  }

  // ----- One wrong character -----

  // A digit string and its line end with one character changed does not run on.
  lemma OneChangeStops(digits: seq<byte>, i: nat, c: byte)
    requires i < |digits| + 2
    ensures !RunsOn((digits + [CR, LF])[i := c])
  {
    var n := |digits|;
    var body := (digits + [CR, LF])[i := c];
    if i == n + 1 {
      assert body[n] == CR && !IsHex(body[n]);
      assert body[..|body| - 1][n] == body[n];
    } else {
      assert body[n + 1] == LF && !IsHex(body[n + 1]) && body[|body| - 1] != CR;
    }
  }

  // Up to a changed character, the body runs on.
  lemma BeforeRunsOn(digits: seq<byte>, i: nat)
    requires AllHex(digits) && |digits| <= MAX_ASCII_HEX_CHARS && i < |digits| + 2
    ensures RunsOn((digits + [CR, LF])[..i])
  {
    var body := (digits + [CR, LF])[..i];
    if i == |digits| + 1 {
      assert body == digits + [CR];
      assert body[..|body| - 1] == digits;
    } else {
      assert body == digits[..i];
    }
  }

  lemma NoColon(digits: seq<byte>)
    requires AllHex(digits)
    ensures COLON !in digits + [CR, LF]
  {}

  // One wrong character of a frame never costs the next one: either the damaged frame is not noticed at all, or
  // reading it stops within it, and then the next frame is read.
  lemma NextFrameSurvives(raw: seq<byte>, i: nat, c: byte, next: seq<byte>, rest: seq<byte>)
    requires 3 <= |raw| <= 255 && 3 <= |next| <= 255 && i < |Wrap(raw)| && c != Wrap(raw)[i]
    ensures var line := Wrap(raw)[i := c] + (Wrap(next) + rest);
            var first := ParseAscii(line);
            if i == 0 then first == RawFrame(next, |Wrap(raw)| + |Wrap(next)|)
            else
              && !first.Ended? && 0 < first.Extent() <= |Wrap(raw)| && first.Extent() <= |line|
              && ParseAscii(line[first.Extent()..])
                 == RawFrame(next, |Wrap(raw)| - first.Extent() + |Wrap(next)|)
  {
    HexRoundTrip(raw);
    var body := Hex(raw) + [CR, LF];
    assert Wrap(raw) == [COLON] + body;
    hide ParseAscii, Hex, Wrap, AllHex, DeHex;
    if i > 0 {
      ChangedBehind(body, i - 1, c);
      BodyChanged(Hex(raw), i - 1, c, next, rest);
    } else {
      NoColon(Hex(raw));
      ColonChanged(body, c, next, rest);
    }
  }

  lemma ChangedBehind(body: seq<byte>, i: nat, c: byte)
    requires i < |body|
    ensures ([COLON] + body)[i + 1 := c] == [COLON] + body[i := c]
  {}

  lemma BodyChanged(digits: seq<byte>, i: nat, c: byte, next: seq<byte>, rest: seq<byte>)
    requires AllHex(digits) && |digits| <= MAX_ASCII_HEX_CHARS && 3 <= |next| <= 255 && i < |digits| + 2
    ensures var body := digits + [CR, LF];
            var line := [COLON] + body[i := c] + (Wrap(next) + rest);
            var first := ParseAscii(line);
            && !first.Ended? && 0 < first.Extent() <= |body| + 1 && first.Extent() <= |line|
            && ParseAscii(line[first.Extent()..]) == RawFrame(next, |body| + 1 - first.Extent() + |Wrap(next)|)
  {
    var body := digits + [CR, LF];
    NoColon(digits);
    if c == COLON {
      BeforeRunsOn(digits, i);
      hide ParseAscii, RunsOn, Wrap, AllHex, IsHex;
      ColonInside(body, i, next, rest);
    } else {
      OneChangeStops(digits, i, c);
      StillNoColon(body, i, c);
      hide ParseAscii, RunsOn, Wrap, AllHex, IsHex;
      NextFrameSurvivesIff(body[i := c], next, rest);
    }
  }

  lemma StillNoColon(body: seq<byte>, i: nat, c: byte)
    requires COLON !in body && i < |body| && c != COLON
    ensures COLON !in body[i := c]
  {}

  lemma ColonChanged(body: seq<byte>, c: byte, next: seq<byte>, rest: seq<byte>)
    requires COLON !in body && c != COLON && 3 <= |next| <= 255
    ensures ParseAscii(([COLON] + body)[0 := c] + (Wrap(next) + rest)) == RawFrame(next, 1 + |body| + |Wrap(next)|)
  {
    hide Wrap;
    assert ([COLON] + body)[0 := c] + (Wrap(next) + rest) == ([c] + body) + Wrap(next) + rest;
    ParseWrapped([c] + body, next, rest);
  }

  // A colon inside is taken as the wrong character it is.
  lemma ColonInside(body: seq<byte>, i: nat, next: seq<byte>, rest: seq<byte>)
    requires COLON !in body && i < |body| && RunsOn(body[..i]) && 3 <= |next| <= 255
    ensures var line := [COLON] + body[i := COLON] + (Wrap(next) + rest);
            && ParseAscii(line) == Unusable(i + 2)
            && ParseAscii(line[i + 2..]) == RawFrame(next, |body| - i - 1 + |Wrap(next)|)
  {
    var before, behind := body[..i], body[i + 1..];
    var tail := [COLON] + behind + (Wrap(next) + rest);
    var line := [COLON] + body[i := COLON] + (Wrap(next) + rest);
    assert line == [COLON] + (before + tail);
    assert line[1..] == before + tail && Leading(line) == 0;
    ScanStops(before, tail, 0);
    assert ParseAscii(line) == Unusable(i + 2);
    hide ParseAscii, ScanBody, Leading, RunsOn, Wrap;
    assert line[i + 2..] == behind + Wrap(next) + rest;
    ParseWrapped(behind, next, rest);
  }

  // ----- What the damaged frame itself is taken for -----

  lemma {:induction false} DigitsChanged(chars: seq<byte>, k: nat, c: byte)
    requires AllHex(chars) && |chars| % 2 == 0 && k < |chars| && IsHex(c)
    ensures AllHex(chars[k := c]) && |DeHex(chars[k := c])| == |DeHex(chars)|
    ensures forall j :: 0 <= j < |DeHex(chars)| && j != k / 2 ==> DeHex(chars[k := c])[j] == DeHex(chars)[j]
  {
    if k >= 2 {
      DigitsChanged(chars[2..], k - 2, c);
      assert chars[k := c][2..] == chars[2..][k - 2 := c];
    } else {
      assert chars[k := c][2..] == chars[2..];
    }
  }

  // A whole body is read to its line end only if the wrong character is still a digit.
  lemma WholeBody(digits: seq<byte>, i: nat, c: byte, rest: seq<byte>)
    requires AllHex(digits) && |digits| <= MAX_ASCII_HEX_CHARS && i < |digits| + 2 && c != (digits + [CR, LF])[i]
    requires ScanBody((digits + [CR, LF])[i := c] + rest, 0).Whole?
    requires ScanBody((digits + [CR, LF])[i := c] + rest, 0).Extent() <= |digits| + 2
    ensures i < |digits| && IsHex(c)
    ensures ScanBody((digits + [CR, LF])[i := c] + rest, 0) == Whole(|digits|)
  {
    var n, s := |digits|, (digits + [CR, LF])[i := c] + rest;
    ScanBodyClosed(s, 0);
    var d := ScanBody(s, 0).digits;
    assert s[d] == CR && s[d + 1] == LF && AllHex(s[..d]);
    assert i < d ==> s[..d][i] == c;
    assert forall k :: 0 <= k < n && k != i ==> s[k] == digits[k];
    assert n != i ==> s[n] == CR;
    assert n + 1 != i ==> s[n + 1] == LF;
  }

  // One wrong character is noticed, unless it is the same digit in the other case: a frame that is still whole has
  // a wrong LRC or its old content.
  lemma WrongCharacterNoticed(raw: seq<byte>, i: nat, c: byte, next: seq<byte>, rest: seq<byte>)
    requires 3 <= |raw| <= 255 && 3 <= |next| <= 255 && VerifyLrc(raw)
    requires 0 < i < |Wrap(raw)| && c != Wrap(raw)[i]
    ensures var first := ParseAscii(Wrap(raw)[i := c] + (Wrap(next) + rest));
            first.RawFrame? ==> first.used == |Wrap(raw)| && (first.raw == raw || !VerifyLrc(first.raw))
  {
    HexRoundTrip(raw);
    NextFrameSurvives(raw, i, c, next, rest);
    var digits, tail := Hex(raw), Wrap(next) + rest;
    var body := digits + [CR, LF];
    assert Wrap(raw) == [COLON] + body;
    hide ParseAscii, Wrap, Hex, AllHex, DeHex, VerifyLrc;
    assert ([COLON] + body)[i := c] == [COLON] + body[i - 1 := c];
    if ParseAscii([COLON] + body[i - 1 := c] + tail).RawFrame? {
      TakenForWhole(digits, i - 1, c, tail);
      OtherDigit(raw, digits, i - 1, c);
    }
  }

  // A frame with a wrong character that is still whole has that digit instead.
  lemma TakenForWhole(digits: seq<byte>, i: nat, c: byte, rest: seq<byte>)
    requires AllHex(digits) && |digits| <= MAX_ASCII_HEX_CHARS && i < |digits| + 2 && c != (digits + [CR, LF])[i]
    requires ParseAscii([COLON] + (digits + [CR, LF])[i := c] + rest).RawFrame?
    requires ParseAscii([COLON] + (digits + [CR, LF])[i := c] + rest).used <= |digits| + 3
    ensures i < |digits| && IsHex(c) && |digits| % 2 == 0 && AllHex(digits[i := c])
    ensures ParseAscii([COLON] + (digits + [CR, LF])[i := c] + rest)
            == RawFrame(DeHex(digits[i := c]), |digits| + 3)
  {
    var body := (digits + [CR, LF])[i := c];
    var line := [COLON] + body + rest;
    assert line[1..] == body + rest && Leading(line) == 0;
    hide DeHex;
    WholeBody(digits, i, c, rest);
    ScanBodyClosed(body + rest, 0);
    assert (body + rest)[..|digits|] == digits[i := c];
  }

  // Another digit makes another byte, which the LRC notices, unless it is the same digit in the other case.
  lemma OtherDigit(raw: seq<byte>, digits: seq<byte>, i: nat, c: byte)
    requires AllHex(digits) && |digits| % 2 == 0 && i < |digits| && IsHex(c) && AllHex(digits[i := c])
    requires raw == DeHex(digits) && VerifyLrc(raw)
    ensures var changed := DeHex(digits[i := c]); changed == raw || !VerifyLrc(changed)
  {
    DigitsChanged(digits, i, c);
    var changed, j := DeHex(digits[i := c]), i / 2;
    hide DeHex, VerifyLrc;
    if changed != raw {
      assert changed == raw[j := changed[j]];
      OneByteChangeDetected(raw, j, changed[j]);
    }
  }

  // ----- For the two readers -----

  function Raw(slave: byte, pdu: seq<byte>): seq<byte> { [slave] + pdu + [Lrc8([slave] + pdu)] }

  lemma FramedRaw(slave: byte, pdu: seq<byte>)
    requires pdu != []
    ensures EncodeAsciiAdu(slave, pdu) == Ok(Wrap(Raw(slave, pdu))) && VerifyLrc(Raw(slave, pdu))
    ensures |Raw(slave, pdu)| == |pdu| + 2 && Raw(slave, pdu)[0] == slave
    ensures forall used: nat :: Unwrap(Raw(slave, pdu), used) == Reply(slave, pdu, used)
  {
    EncodedRaw(slave, pdu);
    assert Raw(slave, pdu)[1..|Raw(slave, pdu)| - 1] == pdu;
  }

  // What either reader makes of the first two frames of a line, the first with one character wrong.
  lemma WrongThenRight(slave: byte, pdu: seq<byte>, i: nat, c: byte, from: byte, next: seq<byte>, rest: seq<byte>)
    requires 1 <= |pdu| <= 253 && 1 <= |next| <= 253
    requires var frame := Wrap(Raw(slave, pdu)); i < |frame| && c != frame[i]
    ensures var frame, behind := Wrap(Raw(slave, pdu)), Wrap(Raw(from, next));
            var line := frame[i := c] + (behind + rest);
            var first := ParseAscii(line);
            if i == 0 then first == RawFrame(Raw(from, next), |frame| + |behind|)
            else
              && !first.Ended? && 0 < first.Extent() <= |frame| && first.Extent() <= |line|
              && (first.RawFrame? ==>
                    first.used == |frame| && (first.raw == Raw(slave, pdu) || !VerifyLrc(first.raw)))
              && ParseAscii(line[first.Extent()..])
                 == RawFrame(Raw(from, next), |frame| - first.Extent() + |behind|)
  {
    FramedRaw(slave, pdu);
    hide VerifyLrc, ParseAscii, Lrc8;
    NextFrameSurvives(Raw(slave, pdu), i, c, Raw(from, next), rest);
    if i > 0 {
      WrongCharacterNoticed(Raw(slave, pdu), i, c, Raw(from, next), rest);
    }
  }

  // The server: one wrong character is a refusal, or nothing at all, and the next request is served.
  lemma WrongRequestCharacter(slave: byte, pdu: seq<byte>, i: nat, c: byte, from: byte, next: seq<byte>,
                              rest: seq<byte>)
    requires 1 <= |pdu| <= 253 && 1 <= |next| <= 253
    requires var frame := Wrap(Raw(slave, pdu)); i < |frame| && c != frame[i]
    ensures var frame, behind := Wrap(Raw(slave, pdu)), Wrap(Raw(from, next));
            var line := frame[i := c] + (behind + rest);
            var first := ParseAsciiRequest(line);
            if i == 0 then first == Reply(from, next, |frame| + |behind|)
            else
              && (first.Refused? || first == Reply(slave, pdu, |frame|)) && 0 < first.used <= |frame|
              && ParseAsciiRequest(line[first.used..]) == Reply(from, next, |frame| - first.used + |behind|)
  {
    WrongThenRight(slave, pdu, i, c, from, next, rest);
    FramedRaw(slave, pdu);
    FramedRaw(from, next);
    hide VerifyLrc, ParseAscii, Raw, Wrap, EncodeAsciiAdu;
  }

  // The client: a refusal, or - with the colon or the address wrong - nothing at all, and the next reply is read.
  lemma WrongReplyCharacter(slave: byte, pdu: seq<byte>, i: nat, c: byte, next: seq<byte>, rest: seq<byte>)
    requires 1 <= |pdu| <= 253 && 1 <= |next| <= 253
    requires var frame := Wrap(Raw(slave, pdu)); i < |frame| && c != frame[i]
    ensures var frame, behind := Wrap(Raw(slave, pdu)), Wrap(Raw(slave, next));
            var line := frame[i := c] + (behind + rest);
            var first := ParseAsciiReply(line, slave);
            || first == Reply(slave, next, |frame| + |behind|)
            || ((first.Refused? || first == Reply(slave, pdu, |frame|)) && 0 < first.used <= |frame|
                && ParseAsciiReply(line[first.used..], slave)
                   == Reply(slave, next, |frame| - first.used + |behind|))
  {
    WrongThenRight(slave, pdu, i, c, slave, next, rest);
    FramedRaw(slave, pdu);
    FramedRaw(slave, next);
    var line := Wrap(Raw(slave, pdu))[i := c] + (Wrap(Raw(slave, next)) + rest);
    var first := ParseAscii(line);
    ReplyByParse(line, slave);
    hide VerifyLrc, ParseAscii, ParseAsciiReply, Wrap, EncodeAsciiAdu, Raw;
    if i > 0 {
      ReplyByParse(line[first.Extent()..], slave);
    }
  }

  lemma ReplyByParse(s: seq<byte>, expected: byte)
    ensures var parsed := ParseAscii(s);
            && (parsed.Unusable? ==> ParseAsciiReply(s, expected) == Refused(FrameError, parsed.used))
            && (parsed.RawFrame? ==>
                  ParseAsciiReply(s, expected)
                  == if parsed.raw[0] == expected then Unwrap(parsed.raw, parsed.used)
                     else ParseAsciiReply(s[parsed.used..], expected).After(parsed.used))
  {}

  // ----- Where a refused frame ends -----

  // A frame that is refused before its LRC is judged has been consumed up to a line end exactly when its body was
  // whole: of an odd length or too short.
  lemma RefusedAtLineEndIff(s: seq<byte>)
    requires ParseAscii(s).Unusable?
    ensures Leading(s) < |s| && 2 <= ParseAscii(s).used <= |s|
    ensures var used := ParseAscii(s).used;
            s[used - 2] == CR && s[used - 1] == LF <==> ScanBody(s[Leading(s) + 1..], 0).Whole?
  {
    hide *;
    UnusableBody(s);
    EndsAtLineEndIff(s[Leading(s) + 1..]);
    BehindColon(s, Leading(s), ParseAscii(s).used);
  }

  lemma UnusableBody(s: seq<byte>)
    requires ParseAscii(s).Unusable?
    ensures Leading(s) < |s| && s[Leading(s)] == COLON
    ensures var scanned := ScanBody(s[Leading(s) + 1..], 0);
            scanned != Unfinished && ParseAscii(s).used == Leading(s) + 1 + scanned.Extent() <= |s|
  {
    hide Leading, ScanBody, AllHex, Unhexed;
  }

  lemma BehindColon(s: seq<byte>, start: nat, used: nat)
    requires start < |s| && s[start] == COLON && start + 1 < used <= |s|
    ensures var rest, taken := s[start + 1..], used - start - 1;
            s[used - 2] == CR && s[used - 1] == LF
            <==> taken >= 2 && rest[taken - 2] == CR && rest[taken - 1] == LF
  {}

  lemma EndsAtLineEndIff(s: seq<byte>)
    ensures var scanned := ScanBody(s, 0);
            var used := scanned.Extent();
            && used <= |s| && (scanned != Unfinished ==> used > 0)
            && (scanned != Unfinished ==>
                  (used >= 2 && s[used - 2] == CR && s[used - 1] == LF <==> scanned.Whole?))
  {
    ScanBodyClosed(s, 0);
    StoppedAt(s, 0);
    hide ScanBody, AllHex;
  }

  lemma {:induction false} StoppedAt(s: seq<byte>, digits: nat)
    requires digits <= |s| && digits <= MAX_ASCII_HEX_CHARS && AllHex(s[..digits])
    ensures var scanned := ScanBody(s, digits);
            scanned.Malformed? ==>
              && digits < scanned.used <= |s|
              && (s[scanned.used - 1] == LF ==> scanned.used == 1 || s[scanned.used - 2] != CR)
    decreases |s| - digits
  {
    if digits < |s| && s[digits] != CR && IsHex(s[digits]) && digits < MAX_ASCII_HEX_CHARS {
      assert s[..digits + 1] == s[..digits] + [s[digits]];
      StoppedAt(s, digits + 1);
    } else if 0 < digits {
      assert IsHex(s[..digits][digits - 1]);
    }
  }

  // The frame ":0G..." of any length stops at its third character.
  lemma RefusedEarly(behind: seq<byte>)
    ensures ParseAscii([COLON, 0x30, 0x47] + behind) == Unusable(3)
    ensures ParseAsciiRequest([COLON, 0x30, 0x47] + behind) == Refused(FrameError, 3)
  {
    var line := [COLON, 0x30, 0x47] + behind;
    assert line[1..] == [0x30, 0x47] + behind;
    assert ScanBody(line[1..], 1) == Malformed(2);
  }
}

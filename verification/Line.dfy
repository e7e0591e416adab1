// The byte stream under a bus or a server, as one end sees it: when each byte
// reaches this end is fixed but unknown, and every wait may take any time,
// deliver any non-empty part of what has arrived, or be broken off.
module Line {
  import opened Bits
  import opened Errors

  // When an enclosing scope cuts a wait off.
  type Deadline = Option<real>

  datatype Received = Chunk(bytes: seq<byte>) | Expired | Raised(error: Error)

  datatype Sending = Sending(at: real, data: seq<byte>)

  function Later(x: real, y: real): real { if x < y then y else x }

  function Earlier(x: real, y: real): real { if x < y then x else y }

  function EarlierDeadline(x: Deadline, y: Deadline): Deadline {
    if x.None? then y else if y.None? then x else Some(Earlier(x.value, y.value))
  }

  ghost predicate InOrder(times: seq<real>) {
    forall i, j :: 0 <= i <= j < |times| ==> times[i] <= times[j]
  }

  // A scope that expires at `deadline` is over by then, apart from the lag, and never expires early.
  predicate Waited(expired: bool, began: real, now: real, deadline: Deadline, lag: real) {
    && began <= now
    && (deadline.Some? ==> now <= Later(began, deadline.value + lag))
    && (expired ==> deadline.Some? && deadline.value <= now)
  }

  // Nor does it expire while the bytes up to `end`, which is all that is waited for, are there in time.
  predicate NotThere(expired: bool, began: real, deadline: Deadline, arrivesAt: seq<real>, lag: real, end: int) {
    expired && deadline.Some? && 0 < end <= |arrivesAt| ==> deadline.value <= Later(began, arrivesAt[end - 1] + lag)
  }

  // Taking bytes [before, taken) lost no time beyond the arrival of the last.
  predicate Prompt(began: real, now: real, arrivesAt: seq<real>, lag: real, before: nat, taken: nat) {
    && before <= taken <= |arrivesAt|
    && if before == taken then now == began else now <= Later(began, arrivesAt[taken - 1] + lag)
  }

  lemma WaitedThen(expired: bool, began: real, middle: real, now: real, deadline: Deadline, lag: real)
    requires Waited(false, began, middle, deadline, lag) && Waited(expired, middle, now, deadline, lag)
    ensures Waited(expired, began, now, deadline, lag)
  {}

  lemma PromptThen(began: real, middle: real, now: real, arrivesAt: seq<real>, lag: real, before: nat, taken: nat,
                   later: nat)
    requires InOrder(arrivesAt) && Prompt(began, middle, arrivesAt, lag, before, taken)
    requires Prompt(middle, now, arrivesAt, lag, taken, later)
    ensures Prompt(began, now, arrivesAt, lag, before, later)
  {}

  lemma NotThereLonger(expired: bool, began: real, deadline: Deadline, arrivesAt: seq<real>, lag: real, end: int,
                       later: int)
    requires InOrder(arrivesAt) && 0 < end <= later && NotThere(expired, began, deadline, arrivesAt, lag, end)
    ensures NotThere(expired, began, deadline, arrivesAt, lag, later)
  {}

  // A wait that began after some of the bytes were taken counts from the beginning.
  lemma NotThereSince(expired: bool, began: real, middle: real, deadline: Deadline, arrivesAt: seq<real>, lag: real,
                      before: nat, taken: nat, end: int)
    requires InOrder(arrivesAt) && Prompt(began, middle, arrivesAt, lag, before, taken) && taken <= end
    requires NotThere(expired, middle, deadline, arrivesAt, lag, end)
    ensures NotThere(expired, began, deadline, arrivesAt, lag, end)
  {}

  // What can be wrong with when a read was over.
  datatype Punctuality = Punctual | Early | Late | Slow | Hasty

  // The verdict on a read from `from` that got as far as `taken`: when it gives up, the next byte was missing.
  function Verdict(ok: bool, expired: bool, began: real, now: real, deadline: Deadline, arrivesAt: seq<real>, lag: real,
                   from: nat, taken: nat): Punctuality
  {
    if !Waited(false, began, now, deadline, lag) then Late
    else if !Waited(expired, began, now, deadline, lag) then Early
    else if ok && !Prompt(began, now, arrivesAt, lag, from, taken) then Slow
    else if !NotThere(expired, began, deadline, arrivesAt, lag, taken + 1) then Hasty
    else Punctual
  }

  predicate Timed(ok: bool, expired: bool, began: real, now: real, deadline: Deadline, arrivesAt: seq<real>, lag: real,
                  from: nat, taken: nat)
  {
    Verdict(ok, expired, began, now, deadline, arrivesAt, lag, from, taken) == Punctual
  }

  lemma Begins(began: real, deadline: Deadline, arrivesAt: seq<real>, lag: real, from: nat)
    requires from <= |arrivesAt|
    ensures Timed(true, false, began, began, deadline, arrivesAt, lag, from, from)
  {}

  // A read goes on with its next part.
  lemma GoesOn(ok: bool, expired: bool, began: real, middle: real, now: real, deadline: Deadline, arrivesAt: seq<real>,
               lag: real, from: nat, taken: nat, later: nat)
    requires InOrder(arrivesAt) && !(ok && expired) && taken <= later
    requires Timed(true, false, began, middle, deadline, arrivesAt, lag, from, taken)
    requires Timed(ok, expired, middle, now, deadline, arrivesAt, lag, taken, later)
    ensures Timed(ok, expired, began, now, deadline, arrivesAt, lag, from, later)
  {
    WaitedThen(expired, began, middle, now, deadline, lag);
    if ok {
      PromptThen(began, middle, now, arrivesAt, lag, from, taken, later);
    }
    NotThereSince(expired, began, middle, deadline, arrivesAt, lag, from, taken, later + 1);
  }

  // It is over, for another reason than the deadline.
  lemma IsOver(ok: bool, began: real, now: real, deadline: Deadline, arrivesAt: seq<real>, lag: real, from: nat,
               taken: nat)
    requires Timed(true, false, began, now, deadline, arrivesAt, lag, from, taken)
    ensures Timed(ok, false, began, now, deadline, arrivesAt, lag, from, taken)
  {}

  // Given up before `end`, so for want of the bytes up to there.
  lemma GivenUpBefore(ok: bool, expired: bool, began: real, now: real, deadline: Deadline, arrivesAt: seq<real>,
                      lag: real, from: nat, taken: nat, end: nat)
    requires InOrder(arrivesAt) && Timed(ok, expired, began, now, deadline, arrivesAt, lag, from, taken)
    requires expired ==> taken < end
    ensures NotThere(expired, began, deadline, arrivesAt, lag, end)
  {}

  class ByteStream {
    // Everything that will ever reach this end, and when (the clock is positive).
    const incoming: seq<byte>
    const arrivesAt: seq<real>
    // How long a wait may overrun the moment that ends it.
    const lag: real

    var now: real
    // Bytes handed out or dropped so far.
    var taken: nat
    // How far into the input a receive has ever been allowed to read.
    ghost var reach: nat
    // What was handed to `send`, and when each send began.
    ghost var sends: seq<Sending>

    ghost predicate Valid()
      reads this
    {
      && |arrivesAt| == |incoming|
      && InOrder(arrivesAt)
      && 0.0 < now && 0.0 <= lag
      && taken <= |incoming|
      && taken <= reach
      && (taken > 0 ==> arrivesAt[taken - 1] <= now)
      && (|sends| > 0 ==> sends[|sends| - 1].at <= now)
    }

    // `receive(max_bytes)` inside a scope that expires at `deadline`.
    method Receive(max: nat, deadline: Deadline) returns (r: Received)
      requires Valid() && max >= 1
      modifies this`now, this`taken, this`reach
      ensures Valid() && old(now) <= now && old(taken) <= taken
      ensures reach == if old(reach) < old(taken) + max then old(taken) + max else old(reach)
      ensures r.Chunk? ==> 1 <= |r.bytes| <= max && taken == old(taken) + |r.bytes|
      ensures r.Chunk? ==> r.bytes == incoming[old(taken)..taken] && now <= Later(old(now), arrivesAt[old(taken)] + lag)
      ensures Waited(r.Expired?, old(now), now, deadline, lag)
      ensures !r.Chunk? ==> taken == old(taken)
      // A deadline ahead only expires with nothing there to read.
      ensures r.Expired? && old(now) < deadline.value && taken < |incoming| ==> deadline.value < arrivesAt[taken]
      ensures r.Raised? ==> r.error.Stream? || r.error.Cancelled?
      ensures r == Raised(Stream(EndOfStream)) ==> taken == |incoming|
    {
      reach := if reach < taken + max then taken + max else reach;
      var broken, cancelled, ended := *, *, *;
      if broken || (taken == |incoming| && deadline.None?) {
        var atEnd := taken == |incoming| && ended;
        return Raised(if atEnd then Stream(EndOfStream) else if cancelled then Cancelled else Stream(Broken));
      }
      if taken == |incoming| || (deadline.Some? && Later(now, deadline.value) < arrivesAt[taken]) {
        now := Later(now, deadline.value);
        return Expired;
      }
      var late := *;
      now := Later(now, if late && deadline.None? then arrivesAt[taken] + lag else arrivesAt[taken]);
      var count := Waiting(max);
      r := Chunk(incoming[taken..taken + count]);
      taken := taken + count;
    }

    // Some number of the bytes that are there, at least one.
    method Waiting(max: nat) returns (count: nat)
      requires Valid() && max >= 1 && taken < |incoming| && arrivesAt[taken] <= now
      ensures 1 <= count <= max && taken + count <= |incoming| && arrivesAt[taken + count - 1] <= now
    {
      count := 1;
      while count < max && taken + count < |incoming| && arrivesAt[taken + count] <= now
        invariant 1 <= count <= max && taken + count <= |incoming| && arrivesAt[taken + count - 1] <= now
        decreases max - count
      {
        var enough := *;
        if enough {
          return;
        }
        count := count + 1;
      }
    }

    // `sleep(duration)`, which never ends early unless it is cancelled.
    method Sleep(duration: real) returns (r: Result<()>)
      requires Valid() && duration >= 0.0
      modifies this`now
      ensures Valid() && old(now) <= now
      ensures r.Ok? ==> old(now) + duration <= now
      ensures r.Err? ==> r.error.Cancelled?
    {
      var cancelled := *;
      if cancelled {
        return Err(Cancelled);
      }
      now := now + duration;
      return Ok(());
    }

    // `send(data)`: once begun, some or all of it may have gone out however it ends.
    method Send(data: seq<byte>) returns (r: Result<()>)
      requires Valid()
      modifies this`now, this`sends
      ensures Valid() && old(now) <= now
      ensures sends == old(sends) + [Sending(old(now), data)]
      ensures r.Err? ==> r.error.Stream? || r.error.Cancelled?
    {
      sends := sends + [Sending(now, data)];
      r := Pause();
    }

    // `drain()`.
    method Pause() returns (r: Result<()>)
      requires Valid()
      modifies this`now
      ensures Valid() && old(now) <= now
      ensures r.Err? ==> r.error.Stream? || r.error.Cancelled?
    {
      var delay: real := *;
      now := now + (if delay < 0.0 then 0.0 else delay);
      var broken, cancelled := *, *;
      return if cancelled then Err(Cancelled) else if broken then Err(Stream(OsError)) else Ok(());
    }

    // `reset_input_buffer()`: drops what has arrived and nothing that is still to come.
    method ResetInput() returns (r: Result<()>)
      requires Valid()
      modifies this`now, this`taken, this`reach
      ensures Valid() && old(now) <= now && old(taken) <= taken
      ensures r.Ok? ==> forall k :: taken <= k < |incoming| ==> old(now) < arrivesAt[k]
      ensures r.Err? ==> r.error.Stream? || r.error.Cancelled?
    {
      r := Pause();
      if r.Ok? {
        while taken < |incoming| && arrivesAt[taken] <= now
          invariant Valid() && old(taken) <= taken && old(now) <= now
          decreases |incoming| - taken
        {
          taken := taken + 1;
          if reach < taken {
            reach := taken;
          }
        }
        assert forall k :: taken <= k < |incoming| ==> arrivesAt[taken] <= arrivesAt[k];
      }
    }
  }
}

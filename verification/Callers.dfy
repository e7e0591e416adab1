// Any number of callers on one bus (src/anymodbus/bus.py `_txn`, `_broadcast`,
// `aclose`): the closed test before the lock, the queue for the lock, the attempts
// and pauses of the call that holds it, as steps that may interleave in any order.
module Callers {
  import opened Bits
  import opened Errors
  import opened Replies
  import opened Timing
  import opened Buses

  datatype Phase =
    | Idle
    // Found the bus closed, or called with bad arguments.
    | Refused
    // Passed the closed test; waits for the lock. `most` attempts are allowed.
    | Queued(most: nat)
    // Holds the lock: an attempt is under way, or the pause before the next one.
    | Holding(id: nat, number: nat, most: nat, sent: bool)
    | Pausing(id: nat, number: nat, most: nat)
    | Finished
  {
    predicate Locks() { Holding? || Pausing? }

    // May still start an attempt without another closed test.
    predicate Admitted() { Queued? || Pausing? || (Holding? && number < most) }
  }

  datatype Event =
    | Started(caller: nat, id: nat, number: nat)
    | Sent(caller: nat, id: nat, number: nat)
    | Reported(caller: nat, id: nat, number: nat, willRetry: bool)

  datatype State = State(phases: seq<Phase>, holder: Option<nat>, closed: bool, count: nat, events: seq<Event>)

  datatype Step =
    | Call(caller: nat, most: nat)
    // A bad argument.
    | Reject(caller: nat)
    // Cancelled while waiting for the lock.
    | GiveUp(caller: nat)
    | Take(caller: nat)
    | Send(caller: nat)
    | End(caller: nat, again: bool)
    | Resume(caller: nat)
    | BreakOff(caller: nat)
    // `aclose`, or an attempt that found its port closed.
    | Close

  function Initial(callers: nat): State {
    State(seq(callers, _ => Idle), None, false, 0, [])
  }

  predicate Enabled(s: State, step: Step) {
    if step.Close? then true
    else
      step.caller < |s.phases| &&
      var phase := s.phases[step.caller];
      match step
      case Call(_, most) => phase.Idle? && most >= 1
      case Reject(_) => phase.Idle?
      case GiveUp(_) => phase.Queued?
      case Take(_) => phase.Queued? && s.holder.None?
      case Send(_) => phase.Holding? && !phase.sent
      case End(_, again) => phase.Holding? && (again ==> phase.number < phase.most)
      case Resume(_) => phase.Pausing?
      case BreakOff(_) => phase.Pausing?
  }

  function Next(s: State, step: Step): State
    requires Enabled(s, step)
  {
    match step
    case Close => s.(closed := true)
    case Call(c, most) => s.(phases := s.phases[c := if s.closed then Refused else Queued(most)])
    case Reject(c) => s.(phases := s.phases[c := Refused])
    case GiveUp(c) => s.(phases := s.phases[c := Finished])
    case Take(c) =>
      var id := s.count + 1;
      s.(phases := s.phases[c := Holding(id, 1, s.phases[c].most, false)], holder := Some(c), count := id,
         events := s.events + [Started(c, id, 1)])
    case Send(c) =>
      var phase := s.phases[c];
      s.(phases := s.phases[c := phase.(sent := true)], events := s.events + [Sent(c, phase.id, phase.number)])
    case End(c, again) =>
      var phase := s.phases[c];
      s.(phases := s.phases[c := if again then Pausing(phase.id, phase.number, phase.most) else Finished],
         holder := if again then s.holder else None,
         events := s.events + [Reported(c, phase.id, phase.number, again)])
    case Resume(c) =>
      var phase := s.phases[c];
      s.(phases := s.phases[c := Holding(phase.id, phase.number + 1, phase.most, false)],
         events := s.events + [Started(c, phase.id, phase.number + 1)])
    case BreakOff(c) => s.(phases := s.phases[c := Finished], holder := None)
  }

  predicate IsRun(s: State, steps: seq<Step>)
    decreases |steps|
  {
    steps == [] || (Enabled(s, steps[0]) && IsRun(Next(s, steps[0]), steps[1..]))
  }

  function After(s: State, steps: seq<Step>): State
    requires IsRun(s, steps)
    decreases |steps|
  {
    if steps == [] then s else After(Next(s, steps[0]), steps[1..])
  }

  // ----- What the events amount to -----

  // The line as its events leave it: at rest after attempt `number` of call `id` was reported, busy with
  // one attempt, or out of order.
  datatype Trace =
    | Rest(caller: nat, id: nat, number: nat, again: bool)
    | Busy(caller: nat, id: nat, number: nat, sent: bool)
    | Clash

  // A call starts with a fresh id, the next number only after a promised retry; one attempt at a time.
  function Traced(trace: Trace, event: Event): Trace {
    match event
    case Started(c, id, n) =>
      if trace.Rest?
        && ((id == trace.id + 1 && n == 1) || (trace.again && (c, id, n) == (trace.caller, trace.id, trace.number + 1)))
      then Busy(c, id, n, false) else Clash
    case Sent(c, id, n) => if trace == Busy(c, id, n, false) then Busy(c, id, n, true) else Clash
    case Reported(c, id, n, again) =>
      if trace.Busy? && (trace.caller, trace.id, trace.number) == (c, id, n) then Rest(c, id, n, again) else Clash
  }

  function TraceOf(events: seq<Event>): Trace {
    if events == [] then Rest(0, 0, 0, false) else Traced(TraceOf(events[..|events| - 1]), events[|events| - 1])
  }

  lemma TraceNext(events: seq<Event>, event: Event)
    ensures TraceOf(events + [event]) == Traced(TraceOf(events), event)
  {
    assert (events + [event])[..|events|] == events;
  }

  // ----- The invariant -----

  // One caller at most holds the lock, and the events are those of attempts made one at a time.
  predicate Exclusive(s: State) {
    && (s.holder.Some? ==> s.holder.value < |s.phases|)
    && forall c :: 0 <= c < |s.phases| ==> (s.phases[c].Locks() <==> s.holder == Some(c))
  }

  predicate Traces(s: State) { Fits(TraceOf(s.events), s) }

  predicate Fits(trace: Trace, s: State) {
    match trace
    case Busy(c, id, n, sent) =>
      && s.holder == Some(c) && c < |s.phases| && id == s.count
      && s.phases[c].Holding? && s.phases[c] == Holding(id, n, s.phases[c].most, sent)
    case Rest(c, id, n, again) =>
      && id == s.count
      && (s.holder.Some? ==>
            && s.holder == Some(c) && c < |s.phases| && again
            && s.phases[c].Pausing? && s.phases[c] == Pausing(id, n, s.phases[c].most))
    case Clash => false
  }

  predicate NumbersWithin(s: State) {
    forall c :: 0 <= c < |s.phases| ==>
      match s.phases[c]
      case Queued(most) => 1 <= most
      case Holding(_, n, most, _) => 1 <= n <= most
      case Pausing(_, n, most) => 1 <= n < most
      case _ => true
  }

  predicate NotIn(events: seq<Event>, caller: nat) {
    forall i :: 0 <= i < |events| ==> events[i].caller != caller
  }

  // Who has not come to hold the lock has left no trace on the line.
  predicate Untouched(s: State) {
    forall c :: 0 <= c < |s.phases| && (s.phases[c].Idle? || s.phases[c].Refused? || s.phases[c].Queued?) ==>
      NotIn(s.events, c)
  }

  predicate Inv(s: State) {
    Exclusive(s) && Traces(s) && NumbersWithin(s) && Untouched(s)
  }

  lemma InitiallyInv(callers: nat)
    ensures Inv(Initial(callers))
  {}

  // What a step adds to the events.
  function EventOf(s: State, step: Step): Option<Event>
    requires Enabled(s, step)
  {
    match step
    case Take(c) => Some(Started(c, s.count + 1, 1))
    case Send(c) => Some(Sent(c, s.phases[c].id, s.phases[c].number))
    case End(c, again) => Some(Reported(c, s.phases[c].id, s.phases[c].number, again))
    case Resume(c) => Some(Started(c, s.phases[c].id, s.phases[c].number + 1))
    case _ => None
  }

  lemma NextFits(s: State, step: Step, trace: Trace)
    requires Exclusive(s) && Fits(trace, s) && Enabled(s, step)
    ensures Fits(if EventOf(s, step).Some? then Traced(trace, EventOf(s, step).value) else trace, Next(s, step))
  {}

  lemma NextKeepsTraces(s: State, step: Step)
    requires Exclusive(s) && Traces(s) && Enabled(s, step)
    ensures Traces(Next(s, step))
  {
    hide Exclusive, Fits, Traced, TraceOf;
    NextFits(s, step, TraceOf(s.events));
    if EventOf(s, step).Some? {
      TraceNext(s.events, EventOf(s, step).value);
    }
  }

  lemma NextKeepsExclusive(s: State, step: Step)
    requires Exclusive(s) && NumbersWithin(s) && Enabled(s, step)
    ensures Exclusive(Next(s, step)) && NumbersWithin(Next(s, step))
  {}

  lemma NextKeepsUntouched(s: State, step: Step)
    requires Untouched(s) && Enabled(s, step)
    ensures Untouched(Next(s, step))
  {}

  lemma NextKeepsInv(s: State, step: Step)
    requires Inv(s) && Enabled(s, step)
    ensures Inv(Next(s, step))
  {
    hide Exclusive, Traces, NumbersWithin, Untouched, Next, Enabled;
    NextKeepsTraces(s, step);
    NextKeepsExclusive(s, step);
    NextKeepsUntouched(s, step);
  }

  // Whatever the interleaving, one caller at a time holds the line.
  lemma {:induction false} RunsKeepInv(s: State, steps: seq<Step>)
    requires Inv(s) && IsRun(s, steps)
    ensures Inv(After(s, steps))
    decreases |steps|
  {
    hide Inv, Next, Enabled;
    if steps != [] {
      NextKeepsInv(s, steps[0]);
      RunsKeepInv(Next(s, steps[0]), steps[1..]);
    }
  }

  // ----- What it means for the line -----

  lemma {:induction false} PrefixNoClash(events: seq<Event>, n: nat)
    requires TraceOf(events) != Clash && n <= |events|
    ensures TraceOf(events[..n]) != Clash
    decreases |events|
  {
    if n < |events| {
      PrefixNoClash(events[..|events| - 1], n);
      assert events[..|events| - 1][..n] == events[..n];
    } else {
      assert events[..n] == events;
    }
  }

  lemma PrefixTrace(events: seq<Event>, n: nat)
    requires TraceOf(events) != Clash && n < |events|
    ensures TraceOf(events[..n]) != Clash
            && TraceOf(events[..n + 1]) == Traced(TraceOf(events[..n]), events[n]) != Clash
  {
    PrefixNoClash(events, n);
    PrefixNoClash(events, n + 1);
    assert events[..n + 1] == events[..n] + [events[n]];
    TraceNext(events[..n], events[n]);
  }

  // Until an attempt is reported, it is the one on the line.
  lemma {:induction false} BusyUntilReported(events: seq<Event>, i: nat, j: nat)
    requires TraceOf(events) != Clash && i < j <= |events| && events[i].Sent?
    requires forall k :: i < k < j ==> !events[k].Reported?
    ensures TraceOf(events[..j]) == Busy(events[i].caller, events[i].id, events[i].number, true)
    decreases j
  {
    PrefixTrace(events, j - 1);
    if i < j - 1 {
      BusyUntilReported(events, i, j - 1);
    }
  }

  // Half duplex: between two frames the first one's attempt has ended.
  lemma {:induction false} SendsAreSeparated(events: seq<Event>, i: nat, j: nat)
    requires TraceOf(events) != Clash && i < j < |events| && events[i].Sent? && events[j].Sent?
    ensures exists k :: i < k < j && events[k].Reported?
                        && (events[k].caller, events[k].id, events[k].number)
                           == (events[i].caller, events[i].id, events[i].number)
  {
    var k := FirstReport(events, i, j);
    PrefixTrace(events, j);
    BusyUntilReported(events, i, k);
    PrefixTrace(events, k);
  }

  lemma {:induction false} FirstReport(events: seq<Event>, i: nat, j: nat) returns (k: nat)
    requires TraceOf(events) != Clash && i < j < |events| && events[i].Sent? && events[j].Sent?
    ensures i < k < j && events[k].Reported? && forall m :: i < m < k ==> !events[m].Reported?
  {
    if forall m :: i < m < j ==> !events[m].Reported? {
      BusyUntilReported(events, i, j);
      PrefixTrace(events, j);
    }
    k := i + 1;
    while !events[k].Reported?
      invariant i < k < j && forall m :: i < m < k ==> !events[m].Reported?
      invariant exists m :: k <= m < j && events[m].Reported?
      decreases j - k
    {
      k := k + 1;
    }
  }

  type AttemptId = (nat, nat, nat)

  // The attempts that were started, and those that were reported.
  function Starts(events: seq<Event>): seq<AttemptId> {
    if events == [] then []
    else
      var e := events[|events| - 1];
      Starts(events[..|events| - 1]) + if e.Started? then [(e.caller, e.id, e.number)] else []
  }

  function Reports(events: seq<Event>): seq<AttemptId> {
    if events == [] then []
    else
      var e := events[|events| - 1];
      Reports(events[..|events| - 1]) + if e.Reported? then [(e.caller, e.id, e.number)] else []
  }

  // One report for each started attempt, in the same order; only the one on the line is still to be reported.
  lemma {:induction false} OneReportEach(events: seq<Event>)
    requires TraceOf(events) != Clash
    ensures var trace := TraceOf(events);
            Starts(events) == Reports(events) + if trace.Busy? then [(trace.caller, trace.id, trace.number)] else []
    decreases |events|
  {
    if events != [] {
      OneReportEach(events[..|events| - 1]);
    }
  }

  // From one attempt to the next: the same call's next number, or a new call's first.
  predicate Succeeds(x: AttemptId, y: AttemptId) {
    y == (x.0, x.1, x.2 + 1) || (y.1 == x.1 + 1 && y.2 == 1)
  }

  predicate Consecutive(starts: seq<AttemptId>) {
    && (starts != [] ==> starts[0].1 == starts[0].2 == 1)
    && forall i :: 0 < i < |starts| ==> Succeeds(starts[i - 1], starts[i])
  }

  lemma {:induction false} StartsAreConsecutive(events: seq<Event>)
    requires TraceOf(events) != Clash
    ensures Consecutive(Starts(events))
    ensures var starts, trace := Starts(events), TraceOf(events);
            if starts == [] then trace == Rest(0, 0, 0, false)
            else starts[|starts| - 1] == (trace.caller, trace.id, trace.number)
    decreases |events|
  {
    if events != [] {
      StartsAreConsecutive(events[..|events| - 1]);
    }
  }

  // So ids and numbers only go up: no attempt is ever started twice.
  lemma {:induction false} StartsIncrease(starts: seq<AttemptId>, i: nat, j: nat)
    requires Consecutive(starts) && i < j < |starts|
    ensures starts[i].1 < starts[j].1
            || (starts[i].1 == starts[j].1 && starts[i].2 < starts[j].2 && starts[i].0 == starts[j].0)
    decreases j
  {
    assert Succeeds(starts[j - 1], starts[j]);
    if i < j - 1 {
      StartsIncrease(starts, i, j - 1);
    }
  }

  // Every run from the beginning: one caller at a time, frames separated, one report for each
  // attempt, ids and numbers going up, and nothing of a caller that was refused.
  lemma AnyInterleaving(callers: nat, steps: seq<Step>)
    requires IsRun(Initial(callers), steps)
    ensures var s := After(Initial(callers), steps);
            && Inv(s)
            && (forall i, j :: 0 <= i < j < |s.events| && s.events[i].Sent? && s.events[j].Sent? ==>
                  exists k :: i < k < j && s.events[k].Reported? && s.events[k].id == s.events[i].id
                              && s.events[k].number == s.events[i].number)
            && Reports(s.events) <= Starts(s.events)
            && |Starts(s.events)| == |Reports(s.events)| + (if TraceOf(s.events).Busy? then 1 else 0)
            && Consecutive(Starts(s.events))
            && (forall c :: 0 <= c < |s.phases| && s.phases[c].Refused? ==> NotIn(s.events, c))
  {
    InitiallyInv(callers);
    RunsKeepInv(Initial(callers), steps);
    var s := After(Initial(callers), steps);
    OneReportEach(s.events);
    StartsAreConsecutive(s.events);
    forall i, j | 0 <= i < j < |s.events| && s.events[i].Sent? && s.events[j].Sent?
      ensures exists k :: i < k < j && s.events[k].Reported? && s.events[k].id == s.events[i].id
                          && s.events[k].number == s.events[i].number
    {
      SendsAreSeparated(s.events, i, j);
    }
  }

  // ----- After the bus is closed -----

  predicate NobodyAdmitted(s: State) {
    forall c :: 0 <= c < |s.phases| ==> !s.phases[c].Admitted()
  }

  lemma {:induction false} NothingStarts(s: State, steps: seq<Step>)
    requires s.closed && NobodyAdmitted(s) && IsRun(s, steps)
    ensures Starts(After(s, steps).events) == Starts(s.events)
    decreases |steps|
  {
    if steps != [] {
      var next := Next(s, steps[0]);
      StartsStay(s, steps[0]);
      hide Starts, Next, Enabled;
      NothingStarts(next, steps[1..]);
    }
  }

  lemma StartsStay(s: State, step: Step)
    requires s.closed && NobodyAdmitted(s) && Enabled(s, step)
    ensures var next := Next(s, step);
            next.closed && NobodyAdmitted(next) && Starts(next.events) == Starts(s.events)
  {
    var next := Next(s, step);
    if next.events != s.events {
      assert next.events[..|next.events| - 1] == s.events;
    }
  }

  // Whoever is admitted can start an attempt after all.
  lemma {:induction false} SomethingStarts(s: State, c: nat) returns (steps: seq<Step>)
    requires Inv(s) && c < |s.phases| && s.phases[c].Admitted()
    ensures IsRun(s, steps) && Starts(After(s, steps).events) != Starts(s.events)
  {
    var phase := s.phases[c];
    if phase.Pausing? {
      steps := [Resume(c)];
      OneStep(s, Resume(c));
      StartNext(s.events, Started(c, phase.id, phase.number + 1));
    } else if phase.Holding? {
      steps := [End(c, true), Resume(c)];
      TwoSteps(s, End(c, true), Resume(c));
      StartNext(s.events, Reported(c, phase.id, phase.number, true));
      StartNext(s.events + [Reported(c, phase.id, phase.number, true)], Started(c, phase.id, phase.number + 1));
    } else if s.holder.None? {
      steps := [Take(c)];
      OneStep(s, Take(c));
      StartNext(s.events, Started(c, s.count + 1, 1));
    } else {
      var h := s.holder.value;
      var held := s.phases[h];
      if held.Pausing? {
        steps := [Resume(h)];
        OneStep(s, Resume(h));
        StartNext(s.events, Started(h, held.id, held.number + 1));
      } else {
        steps := [End(h, false), Take(c)];
        TwoSteps(s, End(h, false), Take(c));
        StartNext(s.events, Reported(h, held.id, held.number, false));
        StartNext(s.events + [Reported(h, held.id, held.number, false)], Started(c, s.count + 1, 1));
      }
    }
  }

  lemma StartNext(events: seq<Event>, e: Event)
    ensures Starts(events + [e]) == Starts(events) + if e.Started? then [(e.caller, e.id, e.number)] else []
  {
    assert (events + [e])[..|events|] == events;
  }

  lemma OneStep(s: State, step: Step)
    requires Enabled(s, step)
    ensures IsRun(s, [step]) && After(s, [step]) == Next(s, step)
  {
    assert [step][1..] == [];
  }

  lemma TwoSteps(s: State, step: Step, next: Step)
    requires Enabled(s, step) && Enabled(Next(s, step), next)
    ensures IsRun(s, [step, next]) && After(s, [step, next]) == Next(Next(s, step), next)
  {
    OneStep(Next(s, step), next);
    assert [step, next][1..] == [next];
  }

  // A closed bus starts nothing more exactly when no caller had passed the closed test before.
  lemma ClosedStartsNothing(s: State)
    requires Inv(s) && s.closed
    ensures (forall steps :: IsRun(s, steps) ==> Starts(After(s, steps).events) == Starts(s.events)) <==>
              NobodyAdmitted(s)
  {
    hide Inv, Starts, Enabled, Next, IsRun, After;
    if NobodyAdmitted(s) {
      forall steps | IsRun(s, steps)
        ensures Starts(After(s, steps).events) == Starts(s.events)
      {
        NothingStarts(s, steps);
      }
    } else {
      var c :| 0 <= c < |s.phases| && s.phases[c].Admitted();
      var steps := SomethingStarts(s, c);
    }
  }

  // ----- Who holds the lock does not notice the others -----

  // What callers do who do not hold the lock, and the close.
  predicate IsGuest(step: Step) { step.Call? || step.Reject? || step.GiveUp? || step.Close? }

  predicate AllGuests(steps: seq<Step>) {
    forall i :: 0 <= i < |steps| ==> IsGuest(steps[i])
  }

  function Guests(steps: seq<Step>): (r: seq<Step>)
    ensures AllGuests(r)
  {
    if steps == [] then [] else (if IsGuest(steps[0]) then [steps[0]] else []) + Guests(steps[1..])
  }

  // The steps of the calls that hold the lock, one call after the other.
  function Locks(steps: seq<Step>): seq<Step> {
    if steps == [] then [] else (if IsGuest(steps[0]) then [] else [steps[0]]) + Locks(steps[1..])
  }

  // A guest's step right after one of the lock's could as well have come right before it.
  lemma Commutes(s: State, lock: Step, guest: Step)
    requires Enabled(s, lock) && !IsGuest(lock) && IsGuest(guest) && Enabled(Next(s, lock), guest)
    ensures Enabled(s, guest) && Enabled(Next(s, guest), lock)
    ensures Next(Next(s, lock), guest) == Next(Next(s, guest), lock)
  {
    assert !guest.Close? ==> guest.caller != lock.caller;
  }

  lemma {:induction false} CommutesWithAll(s: State, lock: Step, guests: seq<Step>)
    requires Enabled(s, lock) && !IsGuest(lock) && AllGuests(guests) && IsRun(Next(s, lock), guests)
    ensures IsRun(s, guests) && Enabled(After(s, guests), lock)
    ensures Next(After(s, guests), lock) == After(Next(s, lock), guests)
    decreases |guests|
  {
    if guests != [] {
      Commutes(s, lock, guests[0]);
      hide Enabled, Next;
      CommutesWithAll(Next(s, guests[0]), lock, guests[1..]);
    }
  }

  lemma Ahead(s: State, first: Step, rest: seq<Step>)
    requires Enabled(s, first) && IsRun(Next(s, first), rest)
    ensures IsRun(s, [first] + rest) && After(s, [first] + rest) == After(Next(s, first), rest)
  {
    assert ([first] + rest)[1..] == rest;
  }

  // So whatever the interleaving, the outcome - the line's events, in order, included - is that of a run in which
  // everyone arrives, gives up or closes the bus first, in the order they did, and then the calls that get the lock
  // run, in the order they did, undisturbed.
  lemma {:induction false} GuestsFirst(s: State, steps: seq<Step>)
    requires IsRun(s, steps)
    ensures IsRun(s, Guests(steps)) && IsRun(After(s, Guests(steps)), Locks(steps))
    ensures After(After(s, Guests(steps)), Locks(steps)) == After(s, steps)
    decreases |steps|
  {
    if steps != [] {
      var first, guests, locks := steps[0], Guests(steps[1..]), Locks(steps[1..]);
      GuestsFirst(Next(s, first), steps[1..]);
      hide Enabled, Next;
      if IsGuest(first) {
        assert Guests(steps) == [first] + guests && Locks(steps) == locks;
        Ahead(s, first, guests);
      } else {
        assert Guests(steps) == guests && Locks(steps) == [first] + locks;
        CommutesWithAll(s, first, guests);
        Ahead(After(s, guests), first, locks);
      }
    }
  }

  // ----- What the bus does while it holds the lock -----

  // The events of one call's reports.
  function EventsOf(caller: nat, mine: seq<Attempt>): seq<Event> {
    if mine == [] then []
    else
      var x := mine[|mine| - 1];
      EventsOf(caller, mine[..|mine| - 1]) + EventsOfAttempt(caller, x)
  }

  function EventsOfAttempt(caller: nat, x: Attempt): seq<Event> {
    [Started(caller, x.requestId, x.number)]
    + (if x.record.sendAt.Some? then [Sent(caller, x.requestId, x.number)] else [])
    + [Reported(caller, x.requestId, x.number, x.willRetry)]
  }

  // The reports of one call or broadcast that held the lock.
  ghost predicate OneCall(mine: seq<Attempt>, id: nat, most: nat) {
    && 1 <= |mine| <= most
    && (forall i :: 0 <= i < |mine| ==> mine[i].requestId == id && mine[i].number == i + 1)
    && (forall i :: 0 <= i < |mine| ==> mine[i].willRetry ==> i + 1 < most)
    && (forall i :: 0 <= i < |mine| - 1 ==> mine[i].willRetry)
  }

  lemma CallsAreCalls<T>(config: BusConfig, wire: Wire, mine: seq<Attempt>, id: nat, slave: byte, fc: byte,
                         adu: seq<byte>, decode: seq<byte> -> Result<T>, r: Result<T>)
    requires CallRan(config, wire, mine, id, slave, fc, adu, decode, r)
    ensures OneCall(mine, id, MostAttempts(config.retries, fc))
  {
    hide Concludes, Paced;
    MostMade(config.retries, mine, id, slave, fc, adu);
  }

  lemma BroadcastIsCall(x: Attempt, id: nat)
    requires x.requestId == id && x.number == 1 && !x.willRetry
    ensures OneCall([x], id, 1)
  {}

  lemma {:induction false} RunsJoin(s: State, steps: seq<Step>, more: seq<Step>)
    requires IsRun(s, steps) && IsRun(After(s, steps), more)
    ensures IsRun(s, steps + more) && After(s, steps + more) == After(After(s, steps), more)
    decreases |steps|
  {
    if steps == [] {
      assert steps + more == more;
    } else {
      RunsJoin(Next(s, steps[0]), steps[1..], more);
      assert (steps + more)[0] == steps[0] && (steps + more)[1..] == steps[1..] + more;
    }
  }

  // An attempt that is under way, up to its report.
  lemma AttemptSteps(s: State, c: nat, x: Attempt, most: nat) returns (steps: seq<Step>)
    requires c < |s.phases| && s.phases[c] == Holding(x.requestId, x.number, most, false) && s.holder == Some(c)
    requires x.willRetry ==> x.number < most
    ensures IsRun(s, steps)
    ensures var phase := if x.willRetry then Pausing(x.requestId, x.number, most) else Finished;
            After(s, steps) == s.(phases := s.phases[c := phase], holder := if x.willRetry then Some(c) else None,
                                  events := s.events + EventsOfAttempt(c, x)[1..])
  {
    var end := End(c, x.willRetry);
    if x.record.sendAt.Some? {
      steps := [Send(c), end];
      TwoSteps(s, Send(c), end);
      var sent, reported := Sent(c, x.requestId, x.number), Reported(c, x.requestId, x.number, x.willRetry);
      assert s.events + [sent] + [reported] == s.events + [sent, reported];
    } else {
      steps := [end];
      OneStep(s, end);
    }
  }

  // Where a call stands after its first m attempts.
  function Stand(s: State, c: nat, mine: seq<Attempt>, id: nat, most: nat, m: nat): State
    requires c < |s.phases| && 1 <= m <= |mine|
  {
    var again := mine[m - 1].willRetry;
    s.(phases := s.phases[c := if again then Pausing(id, m, most) else Finished],
       holder := if again then Some(c) else None, count := id, events := s.events + EventsOf(c, mine[..m]))
  }

  // One attempt more.
  lemma MoreSteps(s: State, c: nat, mine: seq<Attempt>, id: nat, most: nat, m: nat, first: seq<Step>, begun: State)
    returns (steps: seq<Step>)
    requires c < |s.phases| && OneCall(mine, id, most) && 1 <= m <= |mine|
    requires IsRun(s, first) && After(s, first) == begun
    requires begun == s.(phases := s.phases[c := Holding(id, m, most, false)], holder := Some(c), count := id,
                         events := s.events + EventsOf(c, mine[..m - 1]) + [Started(c, id, m)])
    ensures IsRun(s, steps) && After(s, steps) == Stand(s, c, mine, id, most, m)
  {
    var x := mine[m - 1];
    var rest := AttemptSteps(begun, c, x, most);
    RunsJoin(s, first, rest);
    steps := first + rest;
    hide IsRun, After;
    var events := EventsOfAttempt(c, x);
    assert events == [Started(c, id, m)] + events[1..];
    assert mine[..m][..m - 1] == mine[..m - 1] && mine[..m][m - 1] == x;
    assert begun.events + events[1..] == s.events + (EventsOf(c, mine[..m - 1]) + events);
  }

  // The first m attempts of a call.
  lemma {:induction false} CallSteps(s: State, c: nat, mine: seq<Attempt>, id: nat, most: nat, m: nat)
    returns (steps: seq<Step>)
    requires c < |s.phases| && s.phases[c] == Queued(most) && s.holder.None? && id == s.count + 1
    requires OneCall(mine, id, most) && 1 <= m <= |mine|
    ensures IsRun(s, steps) && After(s, steps) == Stand(s, c, mine, id, most, m)
    decreases m
  {
    if m == 1 {
      OneStep(s, Take(c));
      assert mine[..0] == [] && s.events + EventsOf(c, []) == s.events;
      steps := MoreSteps(s, c, mine, id, most, 1, [Take(c)], Next(s, Take(c)));
    } else {
      var earlier := CallSteps(s, c, mine, id, most, m - 1);
      var paused := Stand(s, c, mine, id, most, m - 1);
      hide IsRun, After;
      OneStep(paused, Resume(c));
      RunsJoin(s, earlier, [Resume(c)]);
      steps := MoreSteps(s, c, mine, id, most, m, earlier + [Resume(c)], Next(paused, Resume(c)));
    }
  }

  // What `RunAdmitted` and `RunBroadcast` report is a run of these steps, from the lock free to the lock free.
  lemma LockedCallIsARun(s: State, c: nat, mine: seq<Attempt>, id: nat, most: nat) returns (steps: seq<Step>)
    requires c < |s.phases| && s.phases[c] == Queued(most) && s.holder.None? && id == s.count + 1
    requires OneCall(mine, id, most)
    ensures IsRun(s, steps)
    ensures After(s, steps)
            == s.(phases := s.phases[c := Finished], count := id, events := s.events + EventsOf(c, mine))
  {
    steps := CallSteps(s, c, mine, id, most, |mine|);
    assert mine[..|mine|] == mine;
    if mine[|mine| - 1].willRetry {
      OneStep(After(s, steps), BreakOff(c));
      RunsJoin(s, steps, [BreakOff(c)]);
      steps := steps + [BreakOff(c)];
    }
  }

  // ----- The bus, driven by any schedule -----

  // What a caller wants, and what may happen to it.
  datatype Asked = Asked(slave: int, pdu: seq<byte>, fc: byte, broadcast: bool)

  datatype Move = Ask(caller: nat) | Run(caller: nat) | Leave(caller: nat) | Shut

  datatype Seat = Outside | Denied | Waiting(adu: seq<byte>, slave: byte, fc: byte, broadcast: bool) | Left

  // The events of an unnamed caller: what they are to the line.
  function Unnamed(event: Event): Event { event.(caller := 0) }

  function AllUnnamed(events: seq<Event>): (r: seq<Event>)
    ensures |r| == |events|
  {
    seq(|events|, i requires 0 <= i < |events| => Unnamed(events[i]))
  }

  lemma UnnamedJoin(events: seq<Event>, more: seq<Event>)
    ensures AllUnnamed(events + more) == AllUnnamed(events) + AllUnnamed(more)
  {}

  lemma {:induction false} EventsUnnamed(caller: nat, mine: seq<Attempt>)
    ensures AllUnnamed(EventsOf(caller, mine)) == EventsOf(0, mine)
    decreases |mine|
  {
    if mine != [] {
      var last := |mine| - 1;
      EventsUnnamed(caller, mine[..last]);
      UnnamedJoin(EventsOf(caller, mine[..last]), EventsOfAttempt(caller, mine[last]));
      assert AllUnnamed(EventsOfAttempt(caller, mine[last])) == EventsOfAttempt(0, mine[last]);
    }
  }

  lemma EventsNext(caller: nat, xs: seq<Attempt>, x: Attempt)
    ensures EventsOf(caller, xs + [x]) == EventsOf(caller, xs) + EventsOfAttempt(caller, x)
  {
    assert (xs + [x])[..|xs|] == xs;
  }

  lemma {:induction false} EventsJoin(caller: nat, xs: seq<Attempt>, ys: seq<Attempt>)
    ensures EventsOf(caller, xs + ys) == EventsOf(caller, xs) + EventsOf(caller, ys)
    decreases |ys|
  {
    if ys == [] {
      assert xs + ys == xs;
    } else {
      var last := |ys| - 1;
      EventsJoin(caller, xs, ys[..last]);
      EventsNext(caller, xs + ys[..last], ys[last]);
      EventsNext(caller, ys[..last], ys[last]);
      hide *;
      Regrouped(xs, ys[..last], [ys[last]]);
      Regrouped(EventsOf(caller, xs), EventsOf(caller, ys[..last]), EventsOfAttempt(caller, ys[last]));
      assert ys == ys[..last] + [ys[last]];
    }
  }

  // How many attempts a call is allowed, of which a broadcast or a call that is never retried makes one.
  function Allowed(seat: Seat, retries: RetryPolicy): (most: nat)
    requires seat.Waiting?
    ensures most >= 1
  {
    if seat.broadcast then 1 else MostAttempts(retries, seat.fc)
  }

  function PhaseOf(seat: Seat, retries: RetryPolicy): Phase {
    match seat
    case Outside => Idle
    case Denied => Refused
    case Waiting(_, _, _, _) => Queued(Allowed(seat, retries))
    case Left => Finished
  }

  // The steps taken so far and the bus agree: every start, send and report, in order.
  predicate Agree(s: State, seats: seq<Seat>, retries: RetryPolicy, closed: bool, count: nat, reports: seq<Attempt>) {
    && s.phases == seq(|seats|, i requires 0 <= i < |seats| => PhaseOf(seats[i], retries))
    && s.holder.None? && s.closed == closed && s.count == count
    && AllUnnamed(s.events) == EventsOf(0, reports)
  }

  // One step that touches no report.
  lemma AgreeStep(s: State, steps: seq<Step>, callers: nat, step: Step, seats: seq<Seat>, c: nat, seat: Seat,
                  retries: RetryPolicy, closed: bool, count: nat, reports: seq<Attempt>)
    returns (next: State, after: seq<Step>)
    requires IsRun(Initial(callers), steps) && After(Initial(callers), steps) == s
    requires Agree(s, seats, retries, closed, count, reports) && c < |seats| && !step.Close? && step.caller == c
    requires match step
             case Call(_, most) =>
               seats[c] == Outside
               && if closed then seat == Denied && most >= 1
                  else seat.Waiting? && PhaseOf(seat, retries) == Queued(most)
             case Reject(_) => seats[c] == Outside && seat == Denied
             case GiveUp(_) => seats[c].Waiting? && seat == Left
             case _ => false
    ensures IsRun(Initial(callers), after) && After(Initial(callers), after) == next
    ensures Agree(next, seats[c := seat], retries, closed, count, reports)
  {
    next := Next(s, step);
    after := steps + [step];
    OneStep(s, step);
    RunsJoin(Initial(callers), steps, [step]);
  }

  lemma AgreeEnter(s: State, steps: seq<Step>, callers: nat, seats: seq<Seat>, c: nat, seat: Seat, retries: RetryPolicy,
                   closed: bool, count: nat, reports: seq<Attempt>)
    returns (next: State, after: seq<Step>)
    requires IsRun(Initial(callers), steps) && After(Initial(callers), steps) == s
    requires Agree(s, seats, retries, closed, count, reports) && c < |seats| && seats[c] == Outside
    requires seat == Denied || (seat.Waiting? && !closed)
    ensures IsRun(Initial(callers), after) && After(Initial(callers), after) == next
    ensures Agree(next, seats[c := seat], retries, closed, count, reports)
  {
    var step := if seat.Waiting? then Call(c, PhaseOf(seat, retries).most)
                else if closed then Call(c, 1)
                else Reject(c);
    next, after := AgreeStep(s, steps, callers, step, seats, c, seat, retries, closed, count, reports);
  }

  lemma Begins(callers: nat, seats: seq<Seat>, retries: RetryPolicy)
    requires |seats| == callers && forall c :: 0 <= c < callers ==> seats[c] == Outside
    ensures IsRun(Initial(callers), []) && After(Initial(callers), []) == Initial(callers)
    ensures Agree(Initial(callers), seats, retries, false, 0, [])
  {}

  lemma AgreeClosed(s: State, steps: seq<Step>, callers: nat, seats: seq<Seat>, retries: RetryPolicy, before: bool,
                    closed: bool, count: nat, reports: seq<Attempt>)
    returns (next: State, after: seq<Step>)
    requires IsRun(Initial(callers), steps) && After(Initial(callers), steps) == s
    requires Agree(s, seats, retries, before, count, reports) && (before ==> closed)
    ensures IsRun(Initial(callers), after) && After(Initial(callers), after) == next
    ensures Agree(next, seats, retries, closed, count, reports)
  {
    if closed && !s.closed {
      next := Next(s, Close);
      after := steps + [Close];
      OneStep(s, Close);
      RunsJoin(Initial(callers), steps, [Close]);
    } else {
      next, after := s, steps;
    }
  }

  // A call that held the lock.
  lemma AgreeCall(s: State, steps: seq<Step>, callers: nat, seats: seq<Seat>, c: nat, retries: RetryPolicy,
                  closed: bool, count: nat, reports: seq<Attempt>, mine: seq<Attempt>)
    returns (next: State, after: seq<Step>)
    requires IsRun(Initial(callers), steps) && After(Initial(callers), steps) == s
    requires Agree(s, seats, retries, closed, count, reports) && c < |seats| && seats[c].Waiting?
    requires OneCall(mine, count + 1, Allowed(seats[c], retries))
    ensures IsRun(Initial(callers), after) && After(Initial(callers), after) == next
    ensures Agree(next, seats[c := Left], retries, closed, count + 1, reports + mine)
  {
    var more := LockedCallIsARun(s, c, mine, count + 1, Allowed(seats[c], retries));
    RunsJoin(Initial(callers), steps, more);
    next, after := After(s, more), steps + more;
    hide OneCall, IsRun, After;
    EventsUnnamed(c, mine);
    UnnamedJoin(s.events, EventsOf(c, mine));
    EventsJoin(0, reports, mine);
  }

  // It may have found its port closed.
  lemma AgreeRun(s: State, steps: seq<Step>, callers: nat, seats: seq<Seat>, c: nat, retries: RetryPolicy,
                 before: bool, closed: bool, count: nat, reports: seq<Attempt>, mine: seq<Attempt>)
    returns (next: State, after: seq<Step>)
    requires IsRun(Initial(callers), steps) && After(Initial(callers), steps) == s
    requires Agree(s, seats, retries, before, count, reports) && c < |seats| && seats[c].Waiting?
    requires OneCall(mine, count + 1, Allowed(seats[c], retries)) && (before ==> closed)
    ensures IsRun(Initial(callers), after) && After(Initial(callers), after) == next
    ensures Agree(next, seats[c := Left], retries, closed, count + 1, reports + mine)
  {
    hide *;
    next, after := AgreeCall(s, steps, callers, seats, c, retries, before, count, reports, mine);
    next, after :=
      AgreeClosed(next, after, callers, seats[c := Left], retries, before, closed, count + 1, reports + mine);
  }

  // A caller comes: the closed test and the other checks, before the lock.
  method Enter(bus: Bus, asked: Asked) returns (seat: Seat)
    ensures if bus.closed then seat == Denied
            else seat == Denied || (seat.Waiting? && seat.broadcast == asked.broadcast)
  {
    if asked.broadcast {
      var adu := bus.AdmitBroadcast(asked.pdu);
      seat := if adu.Ok? then Waiting(adu.value, 0, asked.fc, true) else Denied;
    } else {
      var adu := bus.Admit(asked.slave, asked.pdu);
      seat := if adu.Ok? then Waiting(adu.value, asked.slave, asked.fc, false) else Denied;
    }
  }

  // A caller gets the lock: its call runs to the end, on a bus that may have been closed meanwhile.
  method RunSeat<T>(bus: Bus, seat: Seat, decode: seq<byte> -> Result<T>) returns (ghost mine: seq<Attempt>)
    requires bus.Valid() && seat.Waiting?
    modifies bus, bus.stream
    ensures bus.Valid() && bus.reports == old(bus.reports) + mine && bus.requestCount == old(bus.requestCount) + 1
    ensures OneCall(mine, bus.requestCount, Allowed(seat, bus.config.retries))
    ensures old(bus.closed) ==> bus.closed
  {
    hide OneCall, CallRan, MostAttempts, Bus.Valid, Bus.OnWire;
    if seat.broadcast {
      var r, x := bus.RunBroadcast(seat.adu, seat.fc);
      BroadcastIsCall(x, bus.requestCount);
      mine := [x];
    } else {
      var r;
      r, mine := bus.RunAdmitted(seat.adu, seat.slave, seat.fc, decode);
      CallsAreCalls(bus.config, bus.OnWire(), mine, bus.requestCount, seat.slave, seat.fc, seat.adu, decode, r);
    }
  }

  // What that makes of a run that the bus agrees with.
  method RunMove<T>(bus: Bus, seats: seq<Seat>, c: nat, decode: seq<byte> -> Result<T>, ghost s: State,
                    ghost steps: seq<Step>, ghost callers: nat)
    returns (ghost next: State, ghost after: seq<Step>)
    requires bus.Valid() && c < |seats| && seats[c].Waiting?
    requires IsRun(Initial(callers), steps) && After(Initial(callers), steps) == s
    requires Agree(s, seats, bus.config.retries, bus.closed, bus.requestCount, bus.reports)
    modifies bus, bus.stream
    ensures bus.Valid() && IsRun(Initial(callers), after) && After(Initial(callers), after) == next
    ensures Agree(next, seats[c := Left], bus.config.retries, bus.closed, bus.requestCount, bus.reports)
  {
    hide *;
    ghost var closed, count, reports := bus.closed, bus.requestCount, bus.reports;
    ghost var mine := RunSeat(bus, seats[c], decode);
    next, after :=
      AgreeRun(s, steps, callers, seats, c, bus.config.retries, closed, bus.closed, count, reports, mine);
  }

  // A new bus and its callers, driven by any schedule of arrivals, cancellations, calls and a close at any
  // moment: what the bus starts, sends, reports, counts and closes is a run of the steps above.
  method Drive<T>(bus: Bus, calls: seq<Asked>, moves: seq<Move>, decode: seq<byte> -> Result<T>)
    returns (ghost steps: seq<Step>)
    requires bus.Valid() && bus.reports == [] && bus.requestCount == 0 && !bus.closed
    modifies bus, bus.stream
    ensures bus.Valid() && IsRun(Initial(|calls|), steps)
    ensures var s := After(Initial(|calls|), steps);
            && s.closed == bus.closed && s.count == bus.requestCount
            && AllUnnamed(s.events) == EventsOf(0, bus.reports)
  {
    var seats := seq(|calls|, _ => Outside);
    ghost var retries, callers := bus.config.retries, |calls|;
    steps := [];
    ghost var s := Initial(callers);
    Begins(callers, seats, retries);
    hide *;
    for i := 0 to |moves|
      invariant bus.Valid() && |seats| == callers && retries == bus.config.retries
      invariant IsRun(Initial(callers), steps) && After(Initial(callers), steps) == s
      invariant Agree(s, seats, retries, bus.closed, bus.requestCount, bus.reports)
    {
      ghost var closed, count, reports := bus.closed, bus.requestCount, bus.reports;
      match moves[i] {
        case Ask(c) =>
          if c < |seats| && seats[c] == Outside {
            var seat := Enter(bus, calls[c]);
            s, steps := AgreeEnter(s, steps, callers, seats, c, seat, retries, closed, count, reports);
            seats := seats[c := seat];
          }
        case Leave(c) =>
          if c < |seats| && seats[c].Waiting? {
            s, steps := AgreeStep(s, steps, callers, GiveUp(c), seats, c, Left, retries, closed, count, reports);
            seats := seats[c := Left];
          }
        case Shut =>
          bus.Close();
          s, steps := AgreeClosed(s, steps, callers, seats, retries, closed, bus.closed, count, reports);
        case Run(c) =>
          if c < |seats| && seats[c].Waiting? {
            s, steps := RunMove(bus, seats, c, decode, s, steps, callers);
            seats := seats[c := Left];
          }
      }
    }
    AgreesAtTheEnd(s, seats, retries, bus.closed, bus.requestCount, bus.reports);
  }

  lemma AgreesAtTheEnd(s: State, seats: seq<Seat>, retries: RetryPolicy, closed: bool, count: nat,
                       reports: seq<Attempt>)
    requires Agree(s, seats, retries, closed, count, reports)
    ensures s.closed == closed && s.count == count && AllUnnamed(s.events) == EventsOf(0, reports)
  {}
}

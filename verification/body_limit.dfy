// The bound on the size of request bodies (oto_mcp/borne_corps.py, `BorneCorps.__call__`).

module BodyLimit {
  import opened Asgi

  datatype Incoming = Request(octets: seq<bv8>, more: bool) | Disconnect | OtherIn

  // The octets of request body among some messages.
  function Weight(ms: seq<Incoming>): nat {
    if ms == [] then 0
    else Weight(ms[..|ms| - 1]) + if ms[|ms| - 1].Request? then |ms[|ms| - 1].octets| else 0
  }

  lemma WeightMore(ms: seq<Incoming>, m: Incoming)
    ensures Weight(ms + [m]) == Weight(ms) + if m.Request? then |m.octets| else 0
  {
    assert (ms + [m])[..|ms|] == ms;
  }

  /** One thing the application does or that happens to it: it asks for a message, a message
      it asked for arrives, it sends one. An arbitrary application is an arbitrary sequence
      of these; a message that nobody asked for does not arrive. */
  datatype Event = Ask | Arrive(message: Incoming) | Answer(answer: Outgoing)

  /** What can be seen around the application: how many receives wait for an answer, what was
      taken from the server and what the application was given, what the application sent
      and what reached the client, and the overflows counted. */
  datatype Trace = Trace(pending: nat, consumed: seq<Incoming>, delivered: seq<Incoming>,
                         sent: seq<Outgoing>, client: seq<Outgoing>, overflows: nat)

  const NO_TRACE := Trace(0, [], [], [], [], 0)

  function Given(t: Trace, m: Incoming): Trace {
    t.(delivered := t.delivered + [m])
  }

  function Waiting(t: Trace): Trace {
    t.(pending := t.pending + 1)
  }

  function Served(t: Trace, m: Incoming, given: Incoming, counted: bool): Trace
    requires t.pending > 0
  {
    t.(pending := t.pending - 1, consumed := t.consumed + [m], delivered := t.delivered + [given],
       overflows := t.overflows + if counted then 1 else 0)
  }

  function Forwarded(t: Trace, m: Outgoing, through: bool): Trace {
    t.(sent := t.sent + [m], client := if through then t.client + [m] else t.client)
  }

  // ---- the application without the wrapper

  function Plain(t: Trace, e: Event): Trace {
    match e
    case Ask => Waiting(t)
    case Arrive(m) => if t.pending == 0 then t else Served(t, m, m, false)
    case Answer(m) => Forwarded(t, m, true)
  }

  function PlainRun(events: seq<Event>): Trace {
    if events == [] then NO_TRACE else Plain(PlainRun(events[..|events| - 1]), events[|events| - 1])
  }

  // The messages the application sends, and those the server hands it: one for each receive that
  // waits.
  function Answers(events: seq<Event>): seq<Outgoing> {
    if events == [] then [] else (if events[0].Answer? then [events[0].answer] else []) + Answers(events[1..])
  }

  function Taken(events: seq<Event>, waiting: nat): seq<Incoming> {
    if events == [] then []
    else match events[0]
         case Ask => Taken(events[1..], waiting + 1)
         case Arrive(m) => if waiting > 0 then [m] + Taken(events[1..], waiting - 1) else Taken(events[1..], 0)
         case Answer(_) => Taken(events[1..], waiting)
  }

  function WaitingAfter(events: seq<Event>, waiting: nat): nat {
    if events == [] then waiting
    else match events[0]
         case Ask => WaitingAfter(events[1..], waiting + 1)
         case Arrive(_) => WaitingAfter(events[1..], if waiting > 0 then waiting - 1 else 0)
         case Answer(_) => WaitingAfter(events[1..], waiting)
  }

  lemma {:induction false} OneEventMore(events: seq<Event>, e: Event, waiting: nat)
    ensures Answers(events + [e]) == Answers(events) + if e.Answer? then [e.answer] else []
    ensures Taken(events + [e], waiting) == Taken(events, waiting) + if e.Arrive? && WaitingAfter(events, waiting) > 0 then [e.message] else []
    ensures WaitingAfter(events + [e], waiting) == WaitingAfter([e], WaitingAfter(events, waiting))
    decreases |events|
  {
    if events == [] {
      assert events + [e] == [e] && [e][1..] == [];
    } else {
      assert (events + [e])[1..] == events[1..] + [e];
      var next := match events[0]
        case Ask => waiting + 1
        case Arrive(_) => if waiting > 0 then waiting - 1 else 0
        case Answer(_) => waiting;
      OneEventMore(events[1..], e, next);
    }
  }

  /** Without the wrapper, what the application sends reaches the client, and what the server hands
      over reaches the application, all of it and in order. */
  lemma {:induction false} PlainIsTransparent(events: seq<Event>)
    ensures
      var t := PlainRun(events);
      && t.sent == t.client == Answers(events) && t.consumed == t.delivered == Taken(events, 0)
      && t.pending == WaitingAfter(events, 0) && t.overflows == 0
  {
    if events != [] {
      var before, last := events[..|events| - 1], events[|events| - 1];
      PlainIsTransparent(before);
      OneEventMore(before, last, 0);
      assert before + [last] == events && [last][1..] == [];
      hide Answers, Taken;
    }
  }

  // ---- with the wrapper, one event at a time

  datatype Flags = Flags(received: nat, flagged: bool, cut: bool, begun: bool)

  datatype State = State(flags: Flags, trace: Trace)

  const FRESH := State(Flags(0, false, false, false), NO_TRACE)

  predicate Crosses(limit: nat, f: Flags, m: Incoming) {
    m.Request? && f.received + |m.octets| > limit && !f.flagged
  }

  predicate Cuts(limit: nat, enforce: bool, f: Flags, m: Incoming) {
    Crosses(limit, f, m) && enforce && !f.begun
  }

  function FlagsAfter(limit: nat, enforce: bool, f: Flags, m: Incoming): Flags {
    Flags(if m.Request? then f.received + |m.octets| else f.received,
          f.flagged || Crosses(limit, f, m), f.cut || Cuts(limit, enforce, f, m), f.begun)
  }

  function Step(limit: nat, enforce: bool, s: State, e: Event): State {
    var State(f, t) := s;
    match e
    case Ask => State(f, if f.cut then Given(t, Disconnect) else Waiting(t))
    case Arrive(m) =>
      if t.pending == 0 then s
      else State(FlagsAfter(limit, enforce, f, m),
                 Served(t, m, if Cuts(limit, enforce, f, m) then Disconnect else m, Crosses(limit, f, m)))
    case Answer(m) => State(f.(begun := f.begun || (m.Start? && !f.cut)), Forwarded(t, m, !f.cut))
  }

  function Run(limit: nat, enforce: bool, events: seq<Event>): State {
    if events == [] then FRESH
    else Step(limit, enforce, Run(limit, enforce, events[..|events| - 1]), events[|events| - 1])
  }

  // ---- what every run keeps

  ghost predicate Kept(limit: nat, enforce: bool, s: State) {
    var State(f, t) := s;
    && f.received == Weight(t.consumed)
    && (f.flagged <==> Weight(t.consumed) > limit)
    && t.overflows == (if f.flagged then 1 else 0)
    && (f.begun <==> HasStart(t.client))
    && (f.cut ==> enforce && f.flagged && !f.begun && t.client <= t.sent)
    && (!f.cut ==> t.client == t.sent && t.delivered == t.consumed && (enforce && f.flagged ==> f.begun))
  }

  lemma StartMore(client: seq<Outgoing>, m: Outgoing)
    ensures HasStart(client + [m]) <==> HasStart(client) || m.Start?
  {
    if HasStart(client) {
      var k :| 0 <= k < |client| && client[k].Start?;
      assert (client + [m])[k].Start?;
    }
    assert (client + [m])[|client|] == m;
  }

  lemma StepKeeps(limit: nat, enforce: bool, s: State, e: Event)
    requires Kept(limit, enforce, s)
    ensures Kept(limit, enforce, Step(limit, enforce, s, e))
  {
    match e
    case Ask =>
    case Arrive(m) => ArriveKeeps(limit, enforce, s, m);
    case Answer(m) =>
      StartMore(s.trace.client, m);
      hide HasStart, Weight;
  }

  lemma ArriveKeeps(limit: nat, enforce: bool, s: State, m: Incoming)
    requires Kept(limit, enforce, s)
    ensures Kept(limit, enforce, Step(limit, enforce, s, Arrive(m)))
  {
    WeightMore(s.trace.consumed, m);
    hide HasStart, Weight;
  }

  lemma {:induction false} RunKeeps(limit: nat, enforce: bool, events: seq<Event>)
    ensures Kept(limit, enforce, Run(limit, enforce, events))
  {
    if events != [] {
      RunKeeps(limit, enforce, events[..|events| - 1]);
      StepKeeps(limit, enforce, Run(limit, enforce, events[..|events| - 1]), events[|events| - 1]);
    }
  }

  /** In report mode the wrapper changes nothing in either direction, whatever the order of
      the receives and of the sends; it only counts. */
  lemma {:induction false} ReportIsIdentity(limit: nat, events: seq<Event>)
    ensures Run(limit, false, events).trace == PlainRun(events).(overflows := if Weight(PlainRun(events).consumed) > limit then 1 else 0)
  {
    RunKeeps(limit, false, events);
    if events != [] {
      RunKeeps(limit, false, events[..|events| - 1]);
      ReportIsIdentity(limit, events[..|events| - 1]);
    }
  }

  /** Enforcing, as long as nothing is cut the wrapper changes nothing either. */
  lemma {:induction false} UncutIsIdentity(limit: nat, events: seq<Event>)
    requires !Run(limit, true, events).flags.cut
    ensures Run(limit, true, events).trace == PlainRun(events).(overflows := if Weight(PlainRun(events).consumed) > limit then 1 else 0)
  {
    RunKeeps(limit, true, events);
    if events != [] {
      UncutIsIdentity(limit, events[..|events| - 1]);
      RunKeeps(limit, true, events[..|events| - 1]);
    }
  }

  // The message that brings the body over the limit arrives before any head is sent.
  ghost predicate OverBeforeStart(limit: nat, events: seq<Event>) {
    exists k | 0 <= k < |events| :: CrossingAt(limit, events, k)
  }

  predicate CrossingAt(limit: nat, events: seq<Event>, k: nat)
    requires k < |events|
  {
    && Weight(PlainRun(events[..k]).consumed) <= limit < Weight(PlainRun(events[..k + 1]).consumed)
    && !HasStart(PlainRun(events[..k]).sent)
  }

  lemma OverMore(limit: nat, events: seq<Event>)
    requires events != []
    ensures OverBeforeStart(limit, events)
            <==> OverBeforeStart(limit, events[..|events| - 1]) || CrossingAt(limit, events, |events| - 1)
  {
    var before := events[..|events| - 1];
    forall k | 0 <= k < |before|
      ensures CrossingAt(limit, before, k) <==> CrossingAt(limit, events, k)
    {
      assert before[..k] == events[..k] && before[..k + 1] == events[..k + 1];
    }
  }

  /** The request is cut exactly when that happens. */
  lemma {:induction false} CutIff(limit: nat, events: seq<Event>)
    ensures Run(limit, true, events).flags.cut <==> OverBeforeStart(limit, events)
  {
    if events != [] {
      var before := events[..|events| - 1];
      CutIff(limit, before);
      OverMore(limit, events);
      RunKeeps(limit, true, before);
      if !Run(limit, true, before).flags.cut {
        UncutIsIdentity(limit, before);
        LastCrosses(limit, events);
      }
    }
  }

  lemma LastCrosses(limit: nat, events: seq<Event>)
    requires events != []
    requires
      var before := events[..|events| - 1];
      && Kept(limit, true, Run(limit, true, before)) && !Run(limit, true, before).flags.cut
      && Run(limit, true, before).trace == PlainRun(before).(overflows := Run(limit, true, before).trace.overflows)
    ensures Run(limit, true, events).flags.cut <==> CrossingAt(limit, events, |events| - 1)
  {
    var before, e := events[..|events| - 1], events[|events| - 1];
    assert events[..|events| - 1 + 1] == events;
    if e.Arrive? {
      WeightMore(PlainRun(before).consumed, e.message);
    }
  }

  /** To the application a cut is a client that left: the message that makes it is handed over as a
      departure, and so is the answer to every receive that follows. */
  lemma CutLooksLikeADeparture(limit: nat, events: seq<Event>, e: Event)
    ensures
      var s, t := Run(limit, true, events), Run(limit, true, events + [e]);
      && (t.flags.cut && (!s.flags.cut || e == Ask) ==> t.trace.delivered == s.trace.delivered + [Disconnect])
      && (s.flags.cut ==> t.flags.cut && t.trace.client == s.trace.client)
  {
    assert (events + [e])[..|events|] == events;
  }

  // ---- how much an application is given before it answers

  ghost predicate OneAtATime(limit: nat, events: seq<Event>) {
    forall k | 0 <= k <= |events| :: Run(limit, true, events[..k]).trace.pending <= 1
  }

  /** An application that never has two receives waiting is given at most the limit before
      its response starts. */
  lemma {:induction false} AtMostTheLimit(limit: nat, events: seq<Event>)
    requires OneAtATime(limit, events) && !Run(limit, true, events).flags.begun
    ensures Weight(Run(limit, true, events).trace.delivered) <= limit
    ensures Run(limit, true, events).flags.cut ==> Run(limit, true, events).trace.pending == 0
  {
    RunKeeps(limit, true, events);
    if events != [] {
      var before, e := events[..|events| - 1], events[|events| - 1];
      RunKeeps(limit, true, before);
      assert OneAtATime(limit, before) by {
        forall k | 0 <= k <= |before| ensures Run(limit, true, before[..k]).trace.pending <= 1 {
          assert before[..k] == events[..k];
        }
      }
      AtMostTheLimit(limit, before);
      assert events[..|before|] == before && Run(limit, true, before).trace.pending <= 1;
      var t := Run(limit, true, before).trace;
      WeightMore(t.delivered, Disconnect);
      if e.Arrive? {
        WeightMore(t.delivered, e.message);
      }
    }
  }

  /** With two receives waiting when the limit is crossed, the second one is still answered:
      from any point before the cut and before the response, the messages to come keep within
      the limit whatever they are if and only if at most one receive waits. */
  lemma LimitKeptIffOneWaits(limit: nat, events: seq<Event>)
    requires !Run(limit, true, events).flags.begun && !Run(limit, true, events).flags.cut
    ensures (forall ms: seq<Incoming> :: Weight(Run(limit, true, events + Arrivals(ms)).trace.delivered) <= limit)
            <==> Run(limit, true, events).trace.pending <= 1
  {
    var s := Run(limit, true, events);
    RunKeeps(limit, true, events);
    if s.trace.pending <= 1 {
      forall ms: seq<Incoming>
        ensures Weight(Run(limit, true, events + Arrivals(ms)).trace.delivered) <= limit
      {
        OneWaits(limit, events, ms);
      }
    } else {
      TwoWait(limit, events);
    }
  }

  function Arrivals(ms: seq<Incoming>): (r: seq<Event>)
    ensures |r| == |ms| && forall k | 0 <= k < |ms| :: r[k] == Arrive(ms[k])
  {
    seq(|ms|, k requires 0 <= k < |ms| => Arrive(ms[k]))
  }

  lemma RunMore(limit: nat, events: seq<Event>, ms: seq<Incoming>)
    requires ms != []
    ensures Run(limit, true, events + Arrivals(ms))
         == Step(limit, true, Run(limit, true, events + Arrivals(ms[..|ms| - 1])), Arrive(ms[|ms| - 1]))
  {
    var all := events + Arrivals(ms);
    assert all[..|all| - 1] == events + Arrivals(ms[..|ms| - 1]);
  }

  lemma {:induction false} OneWaits(limit: nat, events: seq<Event>, ms: seq<Incoming>)
    requires !Run(limit, true, events).flags.begun && !Run(limit, true, events).flags.cut
    requires Run(limit, true, events).trace.pending <= 1
    ensures
      var s := Run(limit, true, events + Arrivals(ms));
      && Weight(s.trace.delivered) <= limit && !s.flags.begun && s.trace.pending <= 1
      && (s.flags.cut ==> s.trace.pending == 0)
  {
    if ms == [] {
      assert events + Arrivals(ms) == events;
      RunKeeps(limit, true, events);
    } else {
      var before, m := ms[..|ms| - 1], ms[|ms| - 1];
      OneWaits(limit, events, before);
      RunMore(limit, events, ms);
      RunKeeps(limit, true, events + Arrivals(before));
      RunKeeps(limit, true, events + Arrivals(ms));
      WeightMore(Run(limit, true, events + Arrivals(before)).trace.delivered, Disconnect);
      WeightMore(Run(limit, true, events + Arrivals(before)).trace.delivered, m);
    }
  }

  function Octets(n: nat): (r: seq<bv8>)
    ensures |r| == n
  {
    seq(n, _ => 0)
  }

  lemma TwoWait(limit: nat, events: seq<Event>)
    requires !Run(limit, true, events).flags.begun && !Run(limit, true, events).flags.cut
    requires Run(limit, true, events).trace.pending >= 2
    ensures
      var big := Request(Octets(limit + 1), true);
      Weight(Run(limit, true, events + Arrivals([big, big])).trace.delivered) > limit
  {
    var big := Request(Octets(limit + 1), true);
    RunKeeps(limit, true, events);
    assert events + Arrivals([]) == events;
    assert [big][..0] == [] && [big, big][..1] == [big];
    RunMore(limit, events, [big]);
    RunMore(limit, events, [big, big]);
    hide Run, Arrivals;
    SecondIsGiven(limit, Run(limit, true, events), big);
  }

  lemma SecondIsGiven(limit: nat, s: State, big: Incoming)
    requires Kept(limit, true, s) && !s.flags.begun && !s.flags.cut && s.trace.pending >= 2
    requires big.Request? && |big.octets| > limit
    ensures Weight(Step(limit, true, Step(limit, true, s, Arrive(big)), Arrive(big)).trace.delivered) > limit
  {
    hide Weight, HasStart;
    var t := Step(limit, true, s, Arrive(big)).trace;
    WeightMore(t.delivered, big);
  }
}

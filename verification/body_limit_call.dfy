// One request through the body bound: the wrapper as it keeps its flags, the call around it,
// and what the client can observe (oto_mcp/borne_corps.py, `BorneCorps.__call__`).

module BodyLimitCall {
  import opened Asgi
  import opened Decimal
  import opened BodyLimit

  datatype Mode = Off | Report | Enforce

  /** The settings, and the refusal as it is serialised: its headers and its body. */
  datatype Settings = Settings(mode: Mode, limit: nat, headers: seq<Header>, envelope: seq<bv8>)

  datatype Scope = Scope(http: bool, headers: seq<Header>)

  // How the application ends: it returns, raises, or is cancelled from outside.
  datatype Ending = Returns | Raises | Cancelled

  datatype Outcome = Outcome(called: bool, trace: Trace, ending: Ending)

  function Refusal(settings: Settings): seq<Outgoing> {
    [Start(413, settings.headers), Body(settings.envelope, false)]
  }

  function FirstHeader(headers: seq<Header>, name: string): string {
    if headers == [] then "" else if headers[0].name == name then headers[0].value else FirstHeader(headers[1..], name)
  }

  predicate IsNumber(s: string) {
    s != [] && forall k | 0 <= k < |s| :: '0' <= s[k] <= '9'
  }

  predicate AnnouncedOver(settings: Settings, scope: Scope) {
    var announced := FirstHeader(scope.headers, "content-length");
    IsNumber(announced) && Value(announced) > settings.limit
  }

  predicate Bounded(settings: Settings, scope: Scope) {
    scope.http && settings.mode != Off && settings.limit > 0
  }

  // What one request looks like from outside.
  function Observed(settings: Settings, scope: Scope, events: seq<Event>, ending: Ending): Outcome {
    if !Bounded(settings, scope) then Outcome(true, PlainRun(events), ending)
    else if AnnouncedOver(settings, scope) then
      if settings.mode == Enforce then Outcome(false, NO_TRACE.(client := Refusal(settings), overflows := 1), Returns)
      else Outcome(true, PlainRun(events).(overflows := 1), ending)
    else
      var s := Run(settings.limit, settings.mode == Enforce, events);
      if s.flags.cut && ending != Cancelled then
        Outcome(true, s.trace.(client := s.trace.client + Refusal(settings)), Returns)
      else Outcome(true, s.trace, ending)
  }

  // ---- the wrapper of one request

  class Wrapper {
    const limit: nat
    const enforce: bool
    var received: nat
    var flagged: bool
    var cut: bool
    var begun: bool

    function Now(): Flags
      reads this
    {
      Flags(received, flagged, cut, begun)
    }

    constructor (limit: nat, enforce: bool)
      ensures this.limit == limit && this.enforce == enforce && Now() == FRESH.flags
    {
      this.limit, this.enforce := limit, enforce;
      received, flagged, cut, begun := 0, false, false, false;
    }

    // `recevoir` once the server has answered.
    method Arrived(m: Incoming) returns (given: Incoming, counted: bool)
      modifies this
      ensures Now() == FlagsAfter(limit, enforce, old(Now()), m)
      ensures counted == old(Crosses(limit, Now(), m))
      ensures given == if old(Cuts(limit, enforce, Now(), m)) then Disconnect else m
    {
      given, counted := m, false;
      if m.Request? {
        received := received + |m.octets|;
        if received > limit && !flagged {
          flagged, counted := true, true;
          if enforce && !begun {
            cut := true;
            given := Disconnect;
          }
        }
      }
    }

    // `envoyer`.
    method Answering(m: Outgoing) returns (through: bool)
      modifies this
      ensures through == !old(cut)
      ensures Now() == old(Now()).(begun := old(begun) || (m.Start? && !old(cut)))
    {
      if cut {
        return false;
      }
      if m.Start? {
        begun := true;
      }
      return true;
    }
  }

  /** An application that makes `events` happen, run inside the wrapper. */
  method RunInside(w: Wrapper, events: seq<Event>) returns (t: Trace)
    requires w.Now() == FRESH.flags
    modifies w
    ensures State(w.Now(), t) == Run(w.limit, w.enforce, events)
  {
    t := NO_TRACE;
    for k := 0 to |events|
      invariant State(w.Now(), t) == Run(w.limit, w.enforce, events[..k])
    {
      assert events[..k + 1][..k] == events[..k];
      match events[k]
      case Ask =>
        if w.cut {
          t := Given(t, Disconnect);
        } else {
          t := Waiting(t);
        }
      case Arrive(m) =>
        if t.pending > 0 {
          var given, counted := w.Arrived(m);
          t := Served(t, m, given, counted);
        }
      case Answer(m) =>
        var through := w.Answering(m);
        t := Forwarded(t, m, through);
    }
    assert events[..|events|] == events;
  }

  method RunPlain(events: seq<Event>) returns (t: Trace)
    ensures t == PlainRun(events)
  {
    t := NO_TRACE;
    for k := 0 to |events|
      invariant t == PlainRun(events[..k])
    {
      assert events[..k + 1][..k] == events[..k];
      t := Plain(t, events[k]);
    }
    assert events[..|events|] == events;
  }

  /** `__call__`. */
  method Handle(settings: Settings, scope: Scope, events: seq<Event>, ending: Ending) returns (o: Outcome)
    ensures o == Observed(settings, scope, events, ending)
  {
    if !scope.http || settings.mode == Off || settings.limit <= 0 {
      var plain := RunPlain(events);
      return Outcome(true, plain, ending);
    }
    if AnnouncedOver(settings, scope) {
      if settings.mode == Enforce {
        return Outcome(false, NO_TRACE.(client := Refusal(settings), overflows := 1), Returns);
      }
      var plain := RunPlain(events);
      return Outcome(true, plain.(overflows := 1), ending);
    }
    var w := new Wrapper(settings.limit, settings.mode == Enforce);
    var t := RunInside(w, events);
    if w.cut && ending != Cancelled {
      return Outcome(true, t.(client := t.client + Refusal(settings)), Returns);
    }
    return Outcome(true, t, ending);
  }

  // ---- what the client observes

  // The first `content-length` header is a number over the limit.
  ghost predicate SaysTooBig(headers: seq<Header>, limit: nat) {
    exists k | 0 <= k < |headers| ::
      && headers[k].name == "content-length" && (forall j | 0 <= j < k :: headers[j].name != "content-length")
      && headers[k].value != "" && (forall c <- headers[k].value :: '0' <= c <= '9')
      && Number(headers[k].value) > limit
  }

  function Number(s: string): nat {
    if exists k | 0 <= k < |s| :: !('0' <= s[k] <= '9') then 0 else Value(s)
  }

  function FirstNamed(headers: seq<Header>, name: string): (k: nat)
    ensures k <= |headers| && (forall j | 0 <= j < k :: headers[j].name != name) && (k < |headers| ==> headers[k].name == name)
  {
    if headers == [] || headers[0].name == name then 0 else 1 + FirstNamed(headers[1..], name)
  }

  lemma {:induction false} FirstHeaderIs(headers: seq<Header>, name: string)
    ensures FirstHeader(headers, name) == if FirstNamed(headers, name) < |headers| then headers[FirstNamed(headers, name)].value else ""
  {
    if headers != [] && headers[0].name != name {
      FirstHeaderIs(headers[1..], name);
    }
  }

  lemma NumberIs(s: string)
    ensures IsNumber(s) <==> s != "" && forall c <- s :: '0' <= c <= '9'
    ensures IsNumber(s) ==> Number(s) == Value(s)
  {
    assert forall k | 0 <= k < |s| :: s[k] in s;
  }

  /** A request says it is too big in its first `content-length`, wherever that header stands. */
  lemma AnnouncedOverIff(settings: Settings, scope: Scope)
    ensures AnnouncedOver(settings, scope) <==> SaysTooBig(scope.headers, settings.limit)
  {
    var k := FirstNamed(scope.headers, "content-length");
    FirstHeaderIs(scope.headers, "content-length");
    NumberIs(FirstHeader(scope.headers, "content-length"));
    if SaysTooBig(scope.headers, settings.limit) {
      assert k < |scope.headers|;
      NumberIs(scope.headers[k].value);
    }
  }

  // A request is refused: announced too big, or too big before the response starts.
  ghost predicate Refused(settings: Settings, scope: Scope, events: seq<Event>) {
    && scope.http && settings.limit > 0 && settings.mode == Enforce
    && (SaysTooBig(scope.headers, settings.limit) || OverBeforeStart(settings.limit, events))
  }

  /** A request that is not refused goes through as if the wrapper was not there, both ways,
      and ends as the application does. */
  lemma NotRefusedIsIdentity(settings: Settings, scope: Scope, events: seq<Event>, ending: Ending)
    requires !Refused(settings, scope, events)
    ensures
      var o := Observed(settings, scope, events, ending);
      o.called && o.ending == ending && o.trace == PlainRun(events).(overflows := o.trace.overflows)
  {
    CutIff(settings.limit, events);
    AnnouncedOverIff(settings, scope);
    hide AnnouncedOver, SaysTooBig;
    if Bounded(settings, scope) && !AnnouncedOver(settings, scope) {
      if settings.mode == Enforce {
        UncutIsIdentity(settings.limit, events);
      } else {
        ReportIsIdentity(settings.limit, events);
        RunKeeps(settings.limit, false, events);
      }
    }
  }

  /** A refused request is answered by the refusal and nothing else: before it the server
      takes nothing the application sent. Only a cancellation from outside leaves the client
      without an answer. */
  lemma RefusedGetsOnlyTheRefusal(settings: Settings, scope: Scope, events: seq<Event>, ending: Ending)
    requires Refused(settings, scope, events)
    ensures
      var o := Observed(settings, scope, events, ending);
      if o.ending == Cancelled then Received(o.trace.client) == [] && ending == Cancelled
      else
        && Received(o.trace.client) == [Start(413, settings.headers), Body(settings.envelope, false)]
        && PhaseOf(o.trace.client) == Complete && o.ending == Returns
    ensures SaysTooBig(scope.headers, settings.limit) ==> !Observed(settings, scope, events, ending).called
  {
    AnnouncedOverIff(settings, scope);
    hide AnnouncedOver, SaysTooBig;
    CutIff(settings.limit, events);
    RunKeeps(settings.limit, true, events);
    if AnnouncedOver(settings, scope) {
      AfterNothing([], settings);
      assert [] + Refusal(settings) == Refusal(settings);
    } else {
      AfterNothing(Run(settings.limit, true, events).trace.client, settings);
    }
  }

  lemma AfterNothing(client: seq<Outgoing>, settings: Settings)
    requires !HasStart(client)
    ensures Received(client) == [] && PhaseOf(client) == Idle
    ensures Received(client + Refusal(settings)) == Refusal(settings) && PhaseOf(client + Refusal(settings)) == Complete
  {
    BegunIffStartSent(client);
    PhaseTells(client);
    var first, second := Refusal(settings)[0], Refusal(settings)[1];
    Sent(client, first);
    Sent(client + [first], second);
    assert client + [first] + [second] == client + Refusal(settings);
  }

  /** An application that never sends a body before a head: the client's stream itself is
      the application's, or the refusal alone, or nothing for a cancelled request. */
  lemma OneAnswerNeverAMix(settings: Settings, scope: Scope, events: seq<Event>, ending: Ending)
    requires PlainRun(events).sent != [] ==> PlainRun(events).sent[0].Start?
    ensures
      var o := Observed(settings, scope, events, ending);
      o.trace.client == if !Refused(settings, scope, events) then PlainRun(events).sent
                        else if o.ending == Cancelled then [] else [Start(413, settings.headers), Body(settings.envelope, false)]
  {
    AnnouncedOverIff(settings, scope);
    hide AnnouncedOver, SaysTooBig;
    if Refused(settings, scope, events) {
      if !AnnouncedOver(settings, scope) {
        CutIff(settings.limit, events);
        RunKeeps(settings.limit, true, events);
        SameSends(settings.limit, events);
        HeadComesFirst(Run(settings.limit, true, events).trace.client, PlainRun(events).sent);
      }
    } else {
      NotRefusedIsIdentity(settings, scope, events, ending);
      PlainClient(events);
    }
  }

  lemma HeadComesFirst(client: seq<Outgoing>, sent: seq<Outgoing>)
    requires client <= sent && (sent != [] ==> sent[0].Start?)
    ensures client == [] || HasStart(client)
  {
    if client != [] {
      assert client[0] == sent[0];
    }
  }

  lemma {:induction false} SameSends(limit: nat, events: seq<Event>)
    ensures Run(limit, true, events).trace.sent == PlainRun(events).sent
  {
    if events != [] {
      SameSends(limit, events[..|events| - 1]);
    }
  }

  lemma {:induction false} PlainClient(events: seq<Event>)
    ensures PlainRun(events).client == PlainRun(events).sent && PlainRun(events).overflows == 0
  {
    if events != [] {
      PlainClient(events[..|events| - 1]);
    }
  }

  /** An overflow, announced or met on the way, is counted once, and nothing else is. */
  lemma OverflowCountedOnce(settings: Settings, scope: Scope, events: seq<Event>, ending: Ending)
    ensures
      var o := Observed(settings, scope, events, ending);
      o.trace.overflows
      == if scope.http && settings.mode != Off && settings.limit > 0
            && (SaysTooBig(scope.headers, settings.limit) || Weight(o.trace.consumed) > settings.limit) then 1 else 0
  {
    AnnouncedOverIff(settings, scope);
    hide AnnouncedOver, SaysTooBig;
    PlainClient(events);
    RunKeeps(settings.limit, settings.mode == Enforce, events);
  }
}

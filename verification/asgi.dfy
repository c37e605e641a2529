// What an ASGI server makes of the messages an application sends it for one response.

module Asgi {

  datatype Header = Header(name: string, value: string)

  datatype Outgoing = Start(status: nat, headers: seq<Header>) | Body(octets: seq<bv8>, more: bool) | OtherOut

  datatype Phase = Idle | Started | Complete

  // The server refuses what is out of place, and nothing else.
  predicate Accepts(phase: Phase, m: Outgoing) {
    match phase
    case Idle => m.Start?
    case Started => m.Body?
    case Complete => false
  }

  function After(phase: Phase, m: Outgoing): Phase {
    if !Accepts(phase, m) then phase else if m.Body? && !m.more then Complete else Started
  }

  function PhaseOf(sent: seq<Outgoing>): Phase {
    if sent == [] then Idle else After(PhaseOf(sent[..|sent| - 1]), sent[|sent| - 1])
  }

  // The messages the server took, out of those it was sent.
  function Received(sent: seq<Outgoing>): seq<Outgoing> {
    if sent == [] then []
    else
      var before, last := sent[..|sent| - 1], sent[|sent| - 1];
      Received(before) + if Accepts(PhaseOf(before), last) then [last] else []
  }

  // The head of a response and some of its body, without the end.
  predicate IsBegun(r: seq<Outgoing>) {
    r != [] && r[0].Start? && forall k | 1 <= k < |r| :: r[k].Body? && r[k].more
  }

  // One whole response: a head, then a body whose last piece says so.
  predicate IsResponse(r: seq<Outgoing>) {
    r != [] && r[|r| - 1].Body? && !r[|r| - 1].more && IsBegun(r[..|r| - 1])
  }

  predicate HasStart(sent: seq<Outgoing>) {
    exists k | 0 <= k < |sent| :: sent[k].Start?
  }

  predicate IsEnd(m: Outgoing) {
    m.Body? && !m.more
  }

  predicate HasEnd(sent: seq<Outgoing>) {
    exists k | 0 <= k < |sent| :: IsEnd(sent[k])
  }

  /** The three phases are: nothing taken, a response begun, one whole response. */
  lemma {:induction false} PhaseTells(sent: seq<Outgoing>)
    ensures match PhaseOf(sent)
            case Idle => Received(sent) == []
            case Started => IsBegun(Received(sent))
            case Complete => IsResponse(Received(sent))
  {
    if sent != [] {
      var before, last := sent[..|sent| - 1], sent[|sent| - 1];
      PhaseTells(before);
      var r := Received(before) + [last];
      assert r[..|r| - 1] == Received(before);
    }
  }

  lemma Sent(sent: seq<Outgoing>, m: Outgoing)
    ensures PhaseOf(sent + [m]) == After(PhaseOf(sent), m)
    ensures Received(sent + [m]) == Received(sent) + if Accepts(PhaseOf(sent), m) then [m] else []
  {
    assert (sent + [m])[..|sent|] == sent;
  }

  /** A response has begun exactly when a head was sent: the first one is always taken. */
  lemma {:induction false} BegunIffStartSent(sent: seq<Outgoing>)
    ensures PhaseOf(sent) != Idle <==> HasStart(sent)
  {
    if sent != [] {
      var before := sent[..|sent| - 1];
      BegunIffStartSent(before);
      assert HasStart(before) ==> HasStart(sent);
    }
  }

  // The last piece of a body, sent after a head.
  predicate EndAfterStart(sent: seq<Outgoing>) {
    exists j, k | 0 <= j < k < |sent| :: sent[j].Start? && IsEnd(sent[k])
  }

  lemma EndMore(sent: seq<Outgoing>)
    requires sent != []
    ensures
      var before, last := sent[..|sent| - 1], sent[|sent| - 1];
      EndAfterStart(sent) <==> EndAfterStart(before) || (HasStart(before) && IsEnd(last))
  {
    var before := sent[..|sent| - 1];
    if EndAfterStart(sent) {
      var j, k :| 0 <= j < k < |sent| && sent[j].Start? && IsEnd(sent[k]);
      assert before[j].Start?;
      if k < |before| {
        assert IsEnd(before[k]);
      }
    }
    if EndAfterStart(before) {
      var j, k :| 0 <= j < k < |before| && before[j].Start? && IsEnd(before[k]);
      assert sent[j].Start? && IsEnd(sent[k]);
    }
    if HasStart(before) {
      var j :| 0 <= j < |before| && before[j].Start?;
      assert sent[j].Start?;
    }
  }

  /** It is over exactly when a last piece was sent after a head. */
  lemma {:induction false} CompleteIffEndAfterStart(sent: seq<Outgoing>)
    ensures PhaseOf(sent) == Complete <==> EndAfterStart(sent)
  {
    if sent != [] {
      CompleteIffEndAfterStart(sent[..|sent| - 1]);
      BegunIffStartSent(sent[..|sent| - 1]);
      EndMore(sent);
    }
  }
}

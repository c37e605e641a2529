// The guard that completes a response its client left (oto_mcp/client_disconnect_guard.py).

module DisconnectGuard {
  import opened Asgi

  // ---- exceptions

  /** An exception: whether its own chain of causes shows a client that left, and, for a
      group, its members. */
  datatype Exc = Exc(left: bool, members: seq<Exc>)

  // `_is_disconnect`.
  function IsDisconnect(e: Exc): bool {
    e.left || (e.members != [] && forall k | 0 <= k < |e.members| :: IsDisconnect(e.members[k]))
  }

  // A way down the members, to an exception that is no group, meeting no client that left.
  predicate LeadsToAFault(e: Exc, way: seq<nat>) {
    && !e.left
    && if e.members == [] then way == []
       else way != [] && way[0] < |e.members| && LeadsToAFault(e.members[way[0]], way[1..])
  }

  ghost predicate HasFault(e: Exc) {
    exists way: seq<nat> :: LeadsToAFault(e, way)
  }

  /** The guard lets an exception through exactly when some way down its groups leads to a
      fault of its own. */
  lemma {:induction false} PassesIffAFault(e: Exc)
    ensures !IsDisconnect(e) <==> HasFault(e)
  {
    if !IsDisconnect(e) {
      var way := FaultOf(e);
      assert LeadsToAFault(e, way);
    }
    if HasFault(e) {
      var way: seq<nat> :| LeadsToAFault(e, way);
      FaultPasses(e, way);
    }
  }

  lemma {:induction false} FaultOf(e: Exc) returns (way: seq<nat>)
    requires !IsDisconnect(e)
    ensures LeadsToAFault(e, way)
  {
    if e.members == [] {
      way := [];
    } else {
      var k :| 0 <= k < |e.members| && !IsDisconnect(e.members[k]);
      var rest := FaultOf(e.members[k]);
      way := [k] + rest;
      assert way[1..] == rest;
    }
  }

  lemma {:induction false} FaultPasses(e: Exc, way: seq<nat>)
    requires LeadsToAFault(e, way)
    ensures !IsDisconnect(e)
  {
    if e.members != [] {
      FaultPasses(e.members[way[0]], way[1..]);
    }
  }

  // ---- the guarded requests

  function WithoutTrailingSlashes(path: string): (r: string)
    ensures r <= path
  {
    if path != [] && path[|path| - 1] == '/' then WithoutTrailingSlashes(path[..|path| - 1]) else path
  }

  datatype Scope = Scope(http: bool, verb: string, path: string)

  predicate Guarded(scope: Scope) {
    scope.http && scope.verb == "POST" && WithoutTrailingSlashes(scope.path) == "/mcp"
  }

  predicate Slashes(s: string) {
    forall k | 0 <= k < |s| :: s[k] == '/'
  }

  /** The paths the guard watches: `/mcp`, then any number of `/`. */
  lemma {:induction false} GuardedPathIff(path: string)
    ensures WithoutTrailingSlashes(path) == "/mcp" <==> "/mcp" <= path && Slashes(path[4..])
  {
    if path != [] && path[|path| - 1] == '/' {
      var shorter := path[..|path| - 1];
      GuardedPathIff(shorter);
      OneSlashMore(shorter, path);
    } else if "/mcp" <= path {
      assert path == "/mcp" + path[4..];
      if |path| > 4 {
        assert path[4..][|path| - 5] == path[|path| - 1];
      }
    }
  }

  // A POST on `/mcp`, with or without slashes at the end.
  predicate Watched(scope: Scope) {
    scope.http && scope.verb == "POST" && "/mcp" <= scope.path && Slashes(scope.path[4..])
  }

  lemma GuardedIff(scope: Scope)
    ensures Guarded(scope) <==> Watched(scope)
  {
    GuardedPathIff(scope.path);
  }

  lemma OneSlashMore(shorter: string, path: string)
    requires path == shorter + "/"
    ensures "/mcp" <= path && Slashes(path[4..]) <==> "/mcp" <= shorter && Slashes(shorter[4..])
  {
    assert path[|shorter|] == '/' && "/mcp"[3] == 'p';
    assert "/mcp" <= path ==> path[3] == 'p';
    if |shorter| >= 4 {
      assert path[4..] == shorter[4..] + "/" && path[..4] == shorter[..4];
      assert Slashes(path[4..]) ==> forall k | 0 <= k < |shorter| - 4 :: path[4..][k] == shorter[4..][k];
    }
  }

  // ---- the wrapper of one request

  // How the application ends.
  datatype Ending = Returns | Raises(exc: Exc)

  class Wrapper {
    var started: bool
    var finished: bool
    var stream: seq<Outgoing>

    // What was sent to the server so far, and what the two flags say of it.
    predicate Sees(sent: seq<Outgoing>)
      reads this
    {
      stream == sent && (started <==> HasStart(sent)) && (finished <==> HasEnd(sent))
    }

    constructor ()
      ensures Sees([])
    {
      started, finished, stream := false, false, [];
    }

    // `_send`: the flags are set before the server sees the message.
    method Send(m: Outgoing)
      modifies this
      ensures stream == old(stream) + [m]
      ensures forall sent | old(Sees(sent)) :: Sees(sent + [m])
    {
      if m.Start? {
        started := true;
      } else if m.Body? && !m.more {
        finished := true;
      }
      stream := stream + [m];
      SentMore(old(stream), m);
    }

    // `_complete`.
    method Complete()
      modifies this
      ensures stream == old(stream) + Completion(old(started), old(finished))
    {
      if finished {
        return;
      }
      if !started {
        stream := stream + [Start(202, [Header("content-length", "0")])];
      }
      stream := stream + [Body([], false)];
    }
  }

  lemma SentMore(sent: seq<Outgoing>, m: Outgoing)
    ensures HasStart(sent + [m]) <==> HasStart(sent) || m.Start?
    ensures HasEnd(sent + [m]) <==> HasEnd(sent) || IsEnd(m)
  {
    var all := sent + [m];
    assert all[|sent|] == m;
    assert forall k | 0 <= k < |sent| :: all[k] == sent[k];
  }

  const HEAD: Outgoing := Start(202, [Header("content-length", "0")])
  const LAST_PIECE: Outgoing := Body([], false)

  function Completion(started: bool, finished: bool): seq<Outgoing> {
    if finished then [] else if started then [LAST_PIECE] else [HEAD, LAST_PIECE]
  }

  // What the server is sent, and what the guard raises.
  function Observed(scope: Scope, sent: seq<Outgoing>, ending: Ending): (seq<Outgoing>, Ending) {
    if !Guarded(scope) then (sent, ending)
    else if ending.Raises? && !IsDisconnect(ending.exc) then (sent, ending)
    else if ending.Raises? || HasStart(sent) then (sent + Completion(HasStart(sent), HasEnd(sent)), Returns)
    else (sent, Returns)
  }

  /** `__call__`, for an application that sends `sent` and ends as it likes. */
  method Handle(scope: Scope, sent: seq<Outgoing>, ending: Ending) returns (stream: seq<Outgoing>, ended: Ending)
    ensures (stream, ended) == Observed(scope, sent, ending)
  {
    if !Guarded(scope) {
      return sent, ending;
    }
    var w := new Wrapper();
    for k := 0 to |sent|
      invariant w.Sees(sent[..k])
    {
      assert sent[..k + 1] == sent[..k] + [sent[k]];
      w.Send(sent[k]);
    }
    assert sent[..|sent|] == sent;
    if ending.Raises? {
      if !IsDisconnect(ending.exc) {
        return w.stream, ending;
      }
      w.Complete();
      return w.stream, Returns;
    }
    if w.started && !w.finished {
      w.Complete();
    }
    assert sent + [] == sent;
    return w.stream, Returns;
  }

  // ---- what the server has received

  // The last piece of a body was sent, but never after a head.
  ghost predicate LostEnd(sent: seq<Outgoing>) {
    HasEnd(sent) && !EndAfterStart(sent)
  }

  /** What the guard does of each request: nothing off its path, nothing but raising on a fault;
      when the client left, or a response was begun and not ended, it ends it, with a head of its
      own if there was none. */
  lemma ObservedIs(scope: Scope, sent: seq<Outgoing>, ending: Ending)
    ensures !Watched(scope) ==> Observed(scope, sent, ending) == (sent, ending)
    ensures Watched(scope) && ending.Raises? && HasFault(ending.exc) ==> Observed(scope, sent, ending) == (sent, ending)
    ensures Watched(scope) && (ending.Returns? || !HasFault(ending.exc)) ==>
              Observed(scope, sent, ending)
              == (sent + if HasEnd(sent) then []
                         else if HasStart(sent) then [Body([], false)]
                         else if ending.Returns? then []
                         else [Start(202, [Header("content-length", "0")]), Body([], false)],
                  Returns)
  {
    GuardedIff(scope);
    if ending.Raises? {
      PassesIffAFault(ending.exc);
    }
    assert sent + [] == sent;
    hide Guarded, Watched, HasFault, IsDisconnect, HasStart, HasEnd;
  }

  /** What the guard adds, the server always takes. */
  lemma AdditionsAreTaken(sent: seq<Outgoing>)
    ensures Received(sent + Completion(HasStart(sent), HasEnd(sent))) == Received(sent) + Completion(HasStart(sent), HasEnd(sent))
    ensures !HasEnd(sent) ==> PhaseOf(sent + Completion(HasStart(sent), HasEnd(sent))) == Complete
  {
    BegunIffStartSent(sent);
    CompleteIffEndAfterStart(sent);
    if HasEnd(sent) {
      assert sent + [] == sent && Received(sent) + [] == Received(sent);
    } else if HasStart(sent) {
      Sent(sent, LAST_PIECE);
    } else {
      Sent(sent, HEAD);
      Sent(sent + [HEAD], LAST_PIECE);
      assert sent + [HEAD] + [LAST_PIECE] == sent + [HEAD, LAST_PIECE];
      assert Received(sent) + [HEAD] + [LAST_PIECE] == Received(sent) + [HEAD, LAST_PIECE];
    }
  }

  /** When the guard returns, from a response that was begun or a client that left, the
      server has one whole response, the application's messages first, if and only if the
      application did not spend the end of its body before the head. */
  lemma OneWholeResponse(scope: Scope, sent: seq<Outgoing>, ending: Ending)
    requires Watched(scope) && Observed(scope, sent, ending).1.Returns?
    requires HasStart(sent) || ending.Raises?
    ensures Received(sent) <= Received(Observed(scope, sent, ending).0)
    ensures IsResponse(Received(Observed(scope, sent, ending).0)) <==> !LostEnd(sent)
  {
    GuardedIff(scope);
    hide Watched, Guarded;
    var stream := Observed(scope, sent, ending).0;
    AdditionsAreTaken(sent);
    PhaseTells(stream);
    CompleteIffEndAfterStart(sent);
    BegunIffStartSent(sent);
    EndAfterStartEnds(sent);
    if HasEnd(sent) {
      assert stream == sent;
      NotAResponse(Received(stream), PhaseOf(stream));
    }
  }

  lemma EndAfterStartEnds(sent: seq<Outgoing>)
    ensures EndAfterStart(sent) ==> HasEnd(sent)
  {
    if EndAfterStart(sent) {
      var j, k :| 0 <= j < k < |sent| && sent[j].Start? && IsEnd(sent[k]);
      assert IsEnd(sent[k]);
    }
  }

  lemma NotAResponse(r: seq<Outgoing>, phase: Phase)
    requires match phase case Idle => r == [] case Started => IsBegun(r) case Complete => IsResponse(r)
    ensures IsResponse(r) <==> phase == Complete
  {
    if phase == Started {
      assert |r| > 1 ==> r[|r| - 1].more;
    }
  }

  /** An application that sends a head before any body never spends it. */
  lemma HeadFirstLosesNoEnd(sent: seq<Outgoing>)
    requires sent != [] ==> sent[0].Start?
    ensures !LostEnd(sent)
  {
    if HasEnd(sent) {
      var k :| 0 <= k < |sent| && IsEnd(sent[k]);
      assert sent[0].Start? && 0 < k;
    }
  }

  /** What the guard raises is the application's own exception, and shows a fault that is no
      departure; the server was sent the application's messages and nothing more. */
  lemma RaisesOnlyFaults(scope: Scope, sent: seq<Outgoing>, ending: Ending)
    requires Watched(scope) && Observed(scope, sent, ending).1.Raises?
    ensures Observed(scope, sent, ending) == (sent, ending)
    ensures HasFault(ending.exc)
  {
    GuardedIff(scope);
    PassesIffAFault(ending.exc);
  }

  /** Nothing is added to a response the application completed, and none is begun in its
      place when it returns without one. */
  lemma NothingAddedToAWholeResponse(scope: Scope, sent: seq<Outgoing>, ending: Ending)
    requires PhaseOf(sent) == Complete || (ending.Returns? && !HasStart(sent))
    ensures Observed(scope, sent, ending).0 == sent
  {
    CompleteIffEndAfterStart(sent);
    EndAfterStartEnds(sent);
  }
}

// What the sharing gestures keep, one by one and over whole runs.

module PlatformSharingLaws {
  import opened Options
  import opened PlatformSharing

  datatype Gesture =
    | GrantTo(s: Scope, quota: Option<int>, name: Option<string>)
    | RevokeFrom(s: Scope, name: Option<string>)
    | Deposit(row: string, meta: NewMeta)
    | MergeAccounts(oldSub: string, newSub: string)

  function Apply(con: Connector, keys: seq<Key>, g: Gesture): seq<Key> {
    match g
    case GrantTo(s, quota, name) =>
      if GrantAccepted(con, keys, quota, name) then GrantRows(con, keys, s, quota, TargetLabel(keys, name).value)
      else keys
    case RevokeFrom(s, name) => RevokeRows(keys, s, name)
    case Deposit(name, meta) => SetRows(con, keys, name, meta)
    case MergeAccounts(oldSub, newSub) => MergeRows(keys, oldSub, newSub)
  }

  function Run(con: Connector, keys: seq<Key>, gestures: seq<Gesture>): seq<Key>
    decreases |gestures|
  {
    if gestures == [] then keys else Run(con, Apply(con, keys, gestures[0]), gestures[1..])
  }

  // ---- revocations

  predicate Denied(keys: seq<Key>, s: Scope) {
    exists key <- keys :: s in key.denied
  }

  /** Exactly when a scope is refused after a grant: when it was, and it is not the one granted. */
  lemma DeniedAfterGrant(con: Connector, keys: seq<Key>, s: Scope, quota: Option<int>, name: Option<string>, t: Scope)
    requires GrantAccepted(con, keys, quota, name)
    ensures Denied(Apply(con, keys, GrantTo(s, quota, name)), t) <==> Denied(keys, t) && t != s
  {
    var after := Apply(con, keys, GrantTo(s, quota, name));
    forall k | 0 <= k < |keys|
      ensures after[k] in after && keys[k] in keys
      ensures t in after[k].denied <==> t in keys[k].denied && t != s
    {
    }
  }

  /** Exactly when a scope is refused after a revocation: when it was, or when it is the one
      revoked and a key bears the label (any key does, without a label). */
  lemma DeniedAfterRevoke(con: Connector, keys: seq<Key>, s: Scope, name: Option<string>, t: Scope)
    ensures Denied(Apply(con, keys, RevokeFrom(s, name)), t)
            <==> Denied(keys, t) || (t == s && exists key <- keys :: Named(key, name))
  {
    var after := Apply(con, keys, RevokeFrom(s, name));
    forall k | 0 <= k < |keys|
      ensures after[k] in after && keys[k] in keys
      ensures t in after[k].denied <==> t in keys[k].denied || (t == s && Named(keys[k], name))
    {
    }
  }

  /** A merge carries the refusals of both accounts to the surviving one, and no other. */
  lemma DeniedAfterMerge(con: Connector, keys: seq<Key>, oldSub: string, newSub: string, t: Scope)
    requires MergeApplies(oldSub, newSub)
    ensures Denied(Apply(con, keys, MergeAccounts(oldSub, newSub)), t)
            <==> t != User(oldSub) && (Denied(keys, t) || (t == User(newSub) && Denied(keys, User(oldSub))))
  {
    var after := Apply(con, keys, MergeAccounts(oldSub, newSub));
    forall k | 0 <= k < |keys|
      ensures after[k] in after && keys[k] in keys
      ensures t in after[k].denied
              <==> t != User(oldSub) && (t in keys[k].denied || (t == User(newSub) && User(oldSub) in keys[k].denied))
    {
    }
  }

  /** A rotation that does not name the refusals, and any new key, leave them as they were. */
  lemma DeniedAfterDeposit(con: Connector, keys: seq<Key>, name: string, meta: NewMeta, t: Scope)
    requires meta.denied.None?
    ensures Denied(Apply(con, keys, Deposit(name, meta)), t) <==> Denied(keys, t)
  {
    var after := Apply(con, keys, Deposit(name, meta));
    DepositRows(con, keys, name, meta);
    if Denied(keys, t) {
      var key :| key in keys && t in key.denied;
      assert (key in after) || (RotatedRow(key, meta) in after && RotatedRow(key, meta).denied == key.denied);
    }
  }

  // The rows of a deposit: the others as they were, and the deposited one.
  lemma DepositRows(con: Connector, keys: seq<Key>, name: string, meta: NewMeta)
    ensures
      var after := SetRows(con, keys, name, meta);
      if exists key <- keys :: key.name == name then
        var old_ := keys[Index(keys, name)];
        && RotatedRow(old_, meta) in after
        && (forall key <- keys :: key == old_ || key in after)
        && (forall key <- after :: key == RotatedRow(old_, meta) || key in keys)
      else after == [NewRow(con, name, meta)] + keys
  {
    if exists key <- keys :: key.name == name {
      var k := Index(keys, name);
      var after := SetRows(con, keys, name, meta);
      assert keys == keys[..k] + [keys[k]] + keys[k + 1..];
      assert after == [RotatedRow(keys[k], meta)] + keys[..k] + keys[k + 1..];
    }
  }

  // The scope a refusal of `s` bears on after the gesture: a merge moves it with the account.
  function Follow(s: Scope, g: Gesture): Scope {
    if g.MergeAccounts? && MergeApplies(g.oldSub, g.newSub) && s == User(g.oldSub) then User(g.newSub) else s
  }

  function FollowAll(s: Scope, gestures: seq<Gesture>): Scope
    decreases |gestures|
  {
    if gestures == [] then s else FollowAll(Follow(s, gestures[0]), gestures[1..])
  }

  // No gesture grants the scope, wherever merges carry it, nor rewrites the refusals by hand.
  predicate NeverGranted(s: Scope, gestures: seq<Gesture>)
    decreases |gestures|
  {
    gestures != [] ==>
    && (gestures[0].GrantTo? ==> gestures[0].s != s)
    && (gestures[0].Deposit? ==> gestures[0].meta.denied.None?)
    && NeverGranted(Follow(s, gestures[0]), gestures[1..])
  }

  /** A revocation holds over every run of grants and revocations to others, rotations, new
      keys and merges: until a grant names the scope, no caller it targets is served. */
  lemma {:induction false} RevocationSticks(con: Connector, keys: seq<Key>, gestures: seq<Gesture>, s: Scope, c: Caller)
    requires Denied(keys, s) && NeverGranted(s, gestures)
    requires c.sub != "" && FollowAll(s, gestures) in Targets(c)
    ensures !Served(c, Run(con, keys, gestures))
    decreases |gestures|
  {
    if gestures == [] {
      var key :| key in keys && s in key.denied;
      assert DeniedBy(c, key);
    } else {
      var g := gestures[0];
      match g {
        case GrantTo(t, quota, name) =>
          if GrantAccepted(con, keys, quota, name) {
            DeniedAfterGrant(con, keys, t, quota, name, s);
          }
        case RevokeFrom(t, name) => DeniedAfterRevoke(con, keys, t, name, s);
        case Deposit(name, meta) => DeniedAfterDeposit(con, keys, name, meta, s);
        case MergeAccounts(a, b) =>
          if MergeApplies(a, b) {
            DeniedAfterMerge(con, keys, a, b, Follow(s, g));
          } else {
            assert MergeRows(keys, a, b) == keys;
          }
      }
      RevocationSticks(con, Apply(con, keys, g), gestures[1..], Follow(s, g), c);
    }
  }

  // ---- the reader

  // The scopes that target a caller: its account, its active team, its active organisation.
  predicate IsTarget(c: Caller, t: Scope) {
    t == User(c.sub) || (c.team.Some? && t == Team(c.team.value)) || (c.org.Some? && t == Org(c.org.value))
  }

  // A key with a list that names the caller, or open to all, or lent to one of its circles.
  predicate Reaches(c: Caller, key: Key) {
    || (key.mode == Open && key.down == [])
    || (exists t <- key.down :: IsTarget(c, t))
    || (exists t <- key.side :: t == Everyone || t == User(c.sub) || t in c.memberOf)
  }

  /** Who is served, from the lists themselves: an account whose scopes no key refuses, and that
      some key names, is open to, or is lent to. */
  lemma ServedFromTheLists(c: Caller, keys: seq<Key>)
    requires c.sub != ""
    ensures Served(c, keys)
            <==> && (forall key, t | key in keys && t in key.denied :: !IsTarget(c, t))
                 && exists key <- keys :: Reaches(c, key)
  {
    ServedIff(c, keys);
    forall key: Key
      ensures Admits(c, key) <==> Reaches(c, key)
    {
      AdmitsFromTheLists(c, key);
    }
    hide Admits, Reaches;
    assert forall key: Key :: DeniedBy(c, key) <==> exists t <- key.denied :: IsTarget(c, t);
  }

  lemma AdmitsFromTheLists(c: Caller, key: Key)
    ensures Admits(c, key) <==> Reaches(c, key)
  {
    forall t
      ensures t in Elements(key.down) <==> t in key.down
    {
    }
    assert (exists t <- key.down :: IsTarget(c, t)) <==> GranteeScope(c, Elements(key.down)).Some?;
  }

  /** The quota of a caller on a key is that of its most specific scope that has one there:
      account, team, organisation, then the key itself. */
  lemma QuotaFromTheLists(c: Caller, key: Key)
    ensures forall t | t in key.rateBy && IsTarget(c, t) && !(exists u <- key.rateBy :: ReadBefore(c, u, t)) ::
              Quota(c, key) == key.rateBy[t]
    ensures !(exists t <- key.rateBy :: IsTarget(c, t)) ==> Quota(c, key) == key.rate
    ensures forall t :: t in Targets(c) <==> IsTarget(c, t)
  {
  }

  // ---- nobody else gains or loses

  // What the platform rung reads of a key for a caller.
  predicate SameFor(c: Caller, a: Key, b: Key) {
    && a.name == b.name && (Admits(c, a) <==> Admits(c, b)) && (DeniedBy(c, a) <==> DeniedBy(c, b))
    && Quota(c, a) == Quota(c, b)
  }

  lemma {:induction false} SameVerdict(c: Caller, a: seq<Key>, b: seq<Key>)
    requires |a| == |b| && forall k | 0 <= k < |a| :: SameFor(c, a[k], b[k])
    ensures FirstAdmitting(c, a) == FirstAdmitting(c, b)
    ensures (exists key <- a :: DeniedBy(c, key)) <==> (exists key <- b :: DeniedBy(c, key))
  {
    if a != [] {
      SameVerdict(c, a[1..], b[1..]);
      assert forall key <- a :: key == a[0] || key in a[1..];
      assert forall key <- b :: key == b[0] || key in b[1..];
      assert a[0] in a && b[0] in b;
    }
  }

  lemma GrantRowSameForOthers(con: Connector, key: Key, s: Scope, quota: Option<int>, c: Caller)
    requires s !in Targets(c)
    ensures SameFor(c, key, GrantRow(con, key, s, quota))
    ensures SameFor(c, key, key.(denied := Without(key.denied, s)))
  {
    var row := GrantRow(con, key, s, quota);
    assert forall t <- Targets(c) :: t in key.rateBy.Keys <==> t in row.rateBy.Keys;
    assert forall t <- Targets(c) :: t in Elements(key.down) <==> t in Elements(row.down);
  }

  lemma RevokeRowSameForOthers(key: Key, s: Scope, c: Caller)
    requires s !in Targets(c)
    ensures SameFor(c, key, RevokeRow(key, s))
  {
    var row := RevokeRow(key, s);
    assert forall t <- Targets(c) :: t in key.rateBy.Keys <==> t in row.rateBy.Keys;
    assert forall t <- Targets(c) :: t in Elements(key.down) <==> t in Elements(row.down);
    if key.down != [] && row.down == [] {
      assert key.down[0] !in row.down;
    }
  }

  /** A grant or a revocation leaves the verdict of everyone it does not name as it was: the
      key that serves them and their quota included. */
  lemma OthersKeepTheirVerdict(con: Connector, keys: seq<Key>, g: Gesture, c: Caller)
    requires (g.GrantTo? || g.RevokeFrom?) && g.s !in Targets(c)
    ensures Resolve(c, Apply(con, keys, g)) == Resolve(c, keys)
  {
    var after := Apply(con, keys, g);
    forall k | 0 <= k < |keys|
      ensures SameFor(c, keys[k], after[k])
    {
      if g.GrantTo? {
        GrantRowSameForOthers(con, keys[k], g.s, g.quota, c);
      } else {
        RevokeRowSameForOthers(keys[k], g.s, c);
      }
    }
    SameVerdict(c, keys, after);
  }

  lemma MergeRowSameForOthers(key: Key, oldSub: string, newSub: string, c: Caller)
    requires MergeApplies(oldSub, newSub) && c.sub != oldSub && c.sub != newSub
    ensures SameFor(c, key, MergeRow(key, User(oldSub), User(newSub)))
  {
    var row := MergeRow(key, User(oldSub), User(newSub));
    assert forall t <- Targets(c) :: t in key.rateBy.Keys <==> t in row.rateBy.Keys;
    assert forall t <- Targets(c) :: t in Elements(key.down) <==> t in Elements(row.down);
  }

  /** Merging two accounts leaves the verdict of every other account as it was. */
  lemma MergeKeepsOtherVerdicts(con: Connector, keys: seq<Key>, oldSub: string, newSub: string, c: Caller)
    requires c.sub != oldSub && c.sub != newSub
    ensures Resolve(c, Apply(con, keys, MergeAccounts(oldSub, newSub))) == Resolve(c, keys)
  {
    var after := Apply(con, keys, MergeAccounts(oldSub, newSub));
    if MergeApplies(oldSub, newSub) {
      forall k | 0 <= k < |keys|
        ensures SameFor(c, keys[k], after[k])
      {
        MergeRowSameForOthers(keys[k], oldSub, newSub, c);
      }
      SameVerdict(c, keys, after);
    } else {
      assert after == keys;
    }
  }

  /** A rotation that does not name the refusals changes who is served for nobody. A new key
      of a connector without a free tier changes it for nobody either. */
  lemma DepositServesNobodyNew(con: Connector, keys: seq<Key>, name: string, meta: NewMeta, c: Caller)
    requires meta.denied.None? && (con.freeTier ==> exists key <- keys :: key.name == name)
    ensures Served(c, Apply(con, keys, Deposit(name, meta))) <==> Served(c, keys)
  {
    var after := Apply(con, keys, Deposit(name, meta));
    ServedIff(c, keys);
    ServedIff(c, after);
    DepositRows(con, keys, name, meta);
    if exists key <- keys :: key.name == name {
      var old_ := keys[Index(keys, name)];
      var rotated := RotatedRow(old_, meta);
      assert rotated.denied == old_.denied;
      assert Admits(c, rotated) <==> Admits(c, old_);
      assert DeniedBy(c, rotated) <==> DeniedBy(c, old_);
    } else {
      var fresh_ := NewRow(con, name, meta);
      assert !Admits(c, fresh_) && !DeniedBy(c, fresh_);
    }
  }

  // ---- what a gesture does for the scope it names

  // The caller is refused for another of its scopes.
  predicate OtherwiseDenied(c: Caller, keys: seq<Key>, s: Scope) {
    exists t <- Targets(c) :: t != s && Denied(keys, t)
  }

  lemma DeniedByIff(c: Caller, keys: seq<Key>)
    requires c.sub != ""
    ensures (exists key <- keys :: DeniedBy(c, key)) <==> exists t <- Targets(c) :: Denied(keys, t)
  {
    if t :| t in Targets(c) && Denied(keys, t) {
      var key :| key in keys && t in key.denied;
      assert DeniedBy(c, key);
    }
    if key :| key in keys && DeniedBy(c, key) {
      var t :| t in Targets(c) && t in key.denied;
      assert Denied(keys, t);
    }
  }

  /** After a grant to a scope of the caller, the caller is served exactly when no other of
      its scopes is refused and, on a free-tier connector, a key already admitted it: there
      a grant writes the quota and lifts the refusal, it never adds to an allowlist. */
  lemma GrantServes(con: Connector, keys: seq<Key>, s: Scope, quota: Option<int>, name: Option<string>, c: Caller)
    requires c.sub != "" && s in Targets(c) && GrantAccepted(con, keys, quota, name)
    ensures Served(c, Apply(con, keys, GrantTo(s, quota, name)))
            <==> !OtherwiseDenied(c, keys, s) && (con.freeTier ==> exists key <- keys :: Admits(c, key))
  {
    hide Admits, DeniedBy, GrantRow, Resolve;
    var after := Apply(con, keys, GrantTo(s, quota, name));
    ServedIff(c, after);
    DeniedByIff(c, after);
    forall t | t in Targets(c) {
      DeniedAfterGrant(con, keys, s, quota, name, t);
    }
    assert (exists t <- Targets(c) :: Denied(after, t)) <==> OtherwiseDenied(c, keys, s);
    forall k | 0 <= k < |keys|
      ensures after[k] in after && keys[k] in keys
      ensures con.freeTier ==> (Admits(c, after[k]) <==> Admits(c, keys[k]))
      ensures !con.freeTier && keys[k].name == TargetLabel(keys, name).value ==> Admits(c, after[k])
    {
      GrantRowAdmits(con, keys[k], s, quota, c);
    }
  }

  lemma GrantRowAdmits(con: Connector, key: Key, s: Scope, quota: Option<int>, c: Caller)
    requires s in Targets(c)
    ensures con.freeTier ==> (Admits(c, GrantRow(con, key, s, quota)) <==> Admits(c, key))
    ensures !con.freeTier ==> Admits(c, GrantRow(con, key, s, quota))
    ensures Admits(c, key.(denied := Without(key.denied, s))) <==> Admits(c, key)
  {
    var row := GrantRow(con, key, s, quota);
    assert !con.freeTier ==> s in Elements(row.down) || OpenToAll(row);
  }

  /** The free-tier case is real: a key closed by the revocation of its last beneficiary
      stays closed to a scope that a later grant names. */
  lemma FreeTierGrantCanServeNobody() returns (key: Key, c: Caller)
    ensures
      var con := Connector(true, false);
      GrantAccepted(con, [key], None, None) && !Served(c, Apply(con, [key], GrantTo(User(c.sub), None, None)))
  {
    key := RevokeRow(Key("k", Open, [User("a")], [], None, map[], []), User("a"));
    c := Caller("a", None, None, {});
    assert Without([User("a")], User("a")) == [];
    assert key in [key];
    assert forall k <- [key] :: !Admits(c, k);
    GrantServes(Connector(true, false), [key], User("a"), None, None, c);
  }

  /** A revocation cuts every caller the scope targets, exactly when a key bears the label. */
  lemma RevokeCuts(con: Connector, keys: seq<Key>, s: Scope, name: Option<string>, c: Caller)
    requires c.sub != "" && s in Targets(c)
    ensures Served(c, Apply(con, keys, RevokeFrom(s, name)))
            <==> Served(c, keys) && !exists key <- keys :: Named(key, name)
  {
    var after := Apply(con, keys, RevokeFrom(s, name));
    if exists key <- keys :: Named(key, name) {
      DeniedAfterRevoke(con, keys, s, name, s);
      DeniedByIff(c, after);
      ServedIff(c, after);
    } else {
      forall k | 0 <= k < |keys|
        ensures after[k] == keys[k]
      {
        assert keys[k] in keys;
      }
      assert after == keys;
    }
  }

  /** After a merge, the surviving account is served exactly when neither account was
      refused nor its other scopes are, and a key admits it or listed the merged account. */
  lemma MergeServes(con: Connector, keys: seq<Key>, oldSub: string, newSub: string, c: Caller)
    requires MergeApplies(oldSub, newSub) && c.sub == newSub
    ensures Served(c, Apply(con, keys, MergeAccounts(oldSub, newSub)))
            <==> && (forall t <- Targets(c) :: !Denied(keys, t)) && !Denied(keys, User(oldSub))
                 && exists key <- keys :: Admits(c, key) || User(oldSub) in key.down
  {
    hide Admits, DeniedBy, MergeRow, Resolve;
    var after := Apply(con, keys, MergeAccounts(oldSub, newSub));
    ServedIff(c, after);
    DeniedByIff(c, after);
    forall t | t in Targets(c) {
      DeniedAfterMerge(con, keys, oldSub, newSub, t);
    }
    assert User(newSub) in Targets(c) && User(oldSub) !in Targets(c);
    forall k | 0 <= k < |keys|
      ensures Admits(c, after[k]) <==> Admits(c, keys[k]) || User(oldSub) in keys[k].down
      ensures after[k] in after && keys[k] in keys
    {
      MergeRowAdmits(keys[k], oldSub, newSub, c);
    }
  }

  lemma MergeRowAdmits(key: Key, oldSub: string, newSub: string, c: Caller)
    requires MergeApplies(oldSub, newSub) && c.sub == newSub
    ensures Admits(c, MergeRow(key, User(oldSub), User(newSub))) <==> Admits(c, key) || User(oldSub) in key.down
  {
    var row := MergeRow(key, User(oldSub), User(newSub));
    assert forall t <- Targets(c) ::
        t in Elements(row.down) <==> t in Elements(key.down) || (t == User(newSub) && User(oldSub) in key.down);
  }

  lemma {:induction false} RepointNothing(scopes: seq<Scope>, old_: Scope, new_: Scope)
    requires old_ !in scopes && new_ !in scopes
    ensures Repoint(scopes, old_, new_) == scopes
  {
    if scopes != [] {
      var init := scopes[..|scopes| - 1];
      assert scopes == init + [scopes[|scopes| - 1]];
      RepointNothing(init, old_, new_);
    }
  }

  lemma {:induction false} WithoutLast(scopes: seq<Scope>, last: Scope, s: Scope)
    ensures Without(scopes + [last], s) == Without(scopes, s) + if last == s then [] else [last]
  {
    if scopes == [] {
      assert scopes + [last] == [last] && [last][1..] == [];
    } else {
      assert (scopes + [last])[1..] == scopes[1..] + [last];
      WithoutLast(scopes[1..], last, s);
    }
  }

  /** In a list that names either account, the surviving one takes the place of the first of the
      two; it comes once, and the others keep theirs. */
  lemma {:induction false} RepointInPlace(before: seq<Scope>, s: Scope, after: seq<Scope>, old_: Scope, new_: Scope)
    requires old_ !in before && new_ !in before && (s == old_ || s == new_)
    ensures Repoint(before + [s] + after, old_, new_) == before + [new_] + Without(Without(after, old_), new_)
    decreases |after|
  {
    if after == [] {
      RepointFirst(before, s, after, old_, new_);
    } else {
      var last, fewer := after[|after| - 1], after[..|after| - 1];
      RepointInPlace(before, s, fewer, old_, new_);
      RestLast(fewer, last, old_, new_);
      RepointLast(before + [s] + fewer, last, old_, new_);
      hide *;
      var kept := Without(Without(fewer, old_), new_);
      assert (before + [new_] + kept)[|before|] == new_;
      assert after == fewer + [last];
      OneMore(before + [s], fewer, last);
      OneMore(before + [new_], kept, last);
    }
  }

  lemma RepointFirst(before: seq<Scope>, s: Scope, after: seq<Scope>, old_: Scope, new_: Scope)
    requires old_ !in before && new_ !in before && (s == old_ || s == new_) && after == []
    ensures Repoint(before + [s] + after, old_, new_) == before + [new_] + Without(Without(after, old_), new_)
  {
    RepointNothing(before, old_, new_);
    RepointLast(before, s, old_, new_);
    assert Without(Without(after, old_), new_) == [];
    hide *;
    assert before + [s] + after == before + [s];
  }

  lemma OneMore(a: seq<Scope>, b: seq<Scope>, x: Scope)
    ensures a + (b + [x]) == a + b + [x] && a + (b + []) == a + b
  {
    assert b + [] == b;
  }

  lemma RestLast(scopes: seq<Scope>, last: Scope, old_: Scope, new_: Scope)
    ensures Without(Without(scopes + [last], old_), new_)
         == Without(Without(scopes, old_), new_) + if last == old_ || last == new_ then [] else [last]
  {
    var some := Without(scopes, old_);
    WithoutLast(scopes, last, old_);
    WithoutLast(some, last, new_);
    hide Without;
    assert some + [] == some && Without(some, new_) + [] == Without(some, new_);
  }

  lemma RepointLast(init: seq<Scope>, last: Scope, old_: Scope, new_: Scope)
    ensures
      var out := Repoint(init, old_, new_);
      Repoint(init + [last], old_, new_)
      == if last != old_ && last != new_ then out + [last] else if new_ in out then out else out + [new_]
  {
    var scopes := init + [last];
    assert scopes[..|scopes| - 1] == init;
  }

  // A quota that is no looser than another one; no quota at all is the loosest.
  predicate NoLooser(a: Option<int>, b: Option<int>) {
    b.None? || (a.Some? && a.value <= b.value)
  }

  /** The quota the surviving account has on a key is one of the two, and no looser than
      either: a cap that one of the accounts had is never lost. */
  lemma MergeKeepsStricterQuota(key: Key, oldSub: string, newSub: string)
    requires MergeApplies(oldSub, newSub)
    ensures
      var before, after := key.rateBy, MergeRow(key, User(oldSub), User(newSub)).rateBy;
      && User(oldSub) !in after
      && (User(newSub) in after <==> User(oldSub) in before || User(newSub) in before)
      && (User(newSub) in after ==>
            && (forall s | s in before && (s == User(oldSub) || s == User(newSub)) :: NoLooser(after[User(newSub)], before[s]))
            && (exists s :: s in before && (s == User(oldSub) || s == User(newSub)) && after[User(newSub)] == before[s]))
      && (forall s | s != User(oldSub) && s != User(newSub) ::
            (s in before <==> s in after) && (s in before ==> after[s] == before[s]))
  {
    var before, after := key.rateBy, MergeRow(key, User(oldSub), User(newSub)).rateBy;
    if User(newSub) in after {
      var s := if User(oldSub) in before && after[User(newSub)] == before[User(oldSub)] then User(oldSub) else User(newSub);
      assert s in before && after[User(newSub)] == before[s];
    }
  }

  /** On one key, what the surviving account would get there gets looser in one case only: the
      old account had a quota of its own there, the surviving one had none, and what its team,
      its organisation or the key gave it was stricter than the quota it inherits. */
  lemma MergedQuotaLoosensIff(key: Key, oldSub: string, newSub: string, c: Caller)
    requires MergeApplies(oldSub, newSub) && c.sub == newSub
    ensures
      var before, merged := key.rateBy, Quota(c, MergeRow(key, User(oldSub), User(newSub)));
      && (User(oldSub) !in before ==> merged == Quota(c, key))
      && (!NoLooser(merged, Quota(c, key))
          <==> User(oldSub) in before && User(newSub) !in before && !NoLooser(before[User(oldSub)], Quota(c, key)))
  {
    var before, after := key.rateBy, MergeRow(key, User(oldSub), User(newSub)).rateBy;
    if User(oldSub) in before {
      assert User(newSub) in after && Quota(c, MergeRow(key, User(oldSub), User(newSub))) == after[User(newSub)];
    } else {
      assert after == before;
      assert forall s :: s in MergeRow(key, User(oldSub), User(newSub)).rateBy.Keys <==> s in before.Keys;
    }
  }

  /** Such a merge: a key capped at 5 calls a day on which the old account was granted 100.
      The surviving account had 5 and has 100 afterwards. */
  lemma MergeCanLoosenAQuota()
    ensures
      var key, c := Key("k", Open, [], [], Some(5), map[User("o") := Some(100)], []), Caller("n", None, None, {});
      && Resolve(c, [key]) == Some(Verdict("k", Some(5)))
      && Resolve(c, MergeRows([key], "o", "n")) == Some(Verdict("k", Some(100)))
  {
    var key, c := Key("k", Open, [], [], Some(5), map[User("o") := Some(100)], []), Caller("n", None, None, {});
    var row := MergeRow(key, User("o"), User("n"));
    assert row.rateBy == map[User("n") := Some(100)] && row.down == [] && row.denied == [];
    assert MergeRows([key], "o", "n") == [row];
    OneKey(c, key);
    OneKey(c, row);
  }

  // The first key that admits the caller, or the number of keys.
  function FirstOpen(c: Caller, keys: seq<Key>): (m: nat)
    ensures m <= |keys| && (forall j | 0 <= j < m :: !Admits(c, keys[j])) && (m < |keys| ==> Admits(c, keys[m]))
  {
    if keys == [] || Admits(c, keys[0]) then 0 else 1 + FirstOpen(c, keys[1..])
  }

  // The first key that admits the caller or lists another account, or the number of keys.
  function FirstOpenOrListing(c: Caller, keys: seq<Key>, account: Scope): (k: nat)
    ensures k <= FirstOpen(c, keys) && (forall j | 0 <= j < k :: !Admits(c, keys[j]) && account !in keys[j].down)
    ensures k < |keys| ==> Admits(c, keys[k]) || account in keys[k].down
  {
    if keys == [] || Admits(c, keys[0]) || account in keys[0].down then 0 else 1 + FirstOpenOrListing(c, keys[1..], account)
  }

  lemma {:induction false} ServedByTheFirst(c: Caller, keys: seq<Key>, k: nat)
    requires (forall key <- keys :: !DeniedBy(c, key)) && k < |keys| && Admits(c, keys[k])
    requires forall j | 0 <= j < k :: !Admits(c, keys[j])
    ensures Resolve(c, keys) == Some(Verdict(keys[k].name, Quota(c, keys[k])))
  {
    hide Admits, DeniedBy, Quota;
    if k > 0 {
      assert !Admits(c, keys[0]);
      ServedByTheFirst(c, keys[1..], k - 1);
      assert Resolve(c, keys[1..]) == FirstAdmitting(c, keys[1..]);
    }
  }

  lemma UnservedByNone(c: Caller, keys: seq<Key>)
    requires forall key <- keys :: !Admits(c, key)
    ensures Resolve(c, keys) == None
  {
    ServedIff(c, keys);
    assert !Served(c, keys);
  }

  // What a caller who is refused nothing gets: the quota of the first key that admits it.
  lemma VerdictIs(c: Caller, keys: seq<Key>)
    requires forall key <- keys :: !DeniedBy(c, key)
    ensures
      var m := FirstOpen(c, keys);
      Resolve(c, keys) == if m < |keys| then Some(Verdict(keys[m].name, Quota(c, keys[m]))) else None
  {
    hide Admits, DeniedBy, Quota, Resolve;
    if FirstOpen(c, keys) < |keys| {
      ServedByTheFirst(c, keys, FirstOpen(c, keys));
    } else {
      UnservedByNone(c, keys);
    }
  }

  // Neither account is refused, nor another scope of the surviving one.
  predicate Unrefused(c: Caller, keys: seq<Key>, oldSub: string) {
    (forall t <- Targets(c) :: !Denied(keys, t)) && !Denied(keys, User(oldSub))
  }

  /** What the surviving account gets after a merge: nothing if either account was refused;
      otherwise the first key that admitted it or listed the merged account, with the quota it
      has there by then. */
  lemma MergedVerdictIs(con: Connector, keys: seq<Key>, oldSub: string, newSub: string, c: Caller)
    requires MergeApplies(oldSub, newSub) && c.sub == newSub
    ensures
      var k := FirstOpenOrListing(c, keys, User(oldSub));
      Resolve(c, Apply(con, keys, MergeAccounts(oldSub, newSub)))
      == if Unrefused(c, keys, oldSub) && k < |keys| then Some(Verdict(keys[k].name, Quota(c, MergeRow(keys[k], User(oldSub), User(newSub)))))
         else None
  {
    var k, after := FirstOpenOrListing(c, keys, User(oldSub)), Apply(con, keys, MergeAccounts(oldSub, newSub));
    MergeServes(con, keys, oldSub, newSub, c);
    ServedIff(c, after);
    hide Admits, DeniedBy, Quota, MergeRow, Resolve;
    if Served(c, after) {
      forall j | 0 <= j < |keys|
        ensures Admits(c, after[j]) <==> Admits(c, keys[j]) || User(oldSub) in keys[j].down
      {
        MergeRowAdmits(keys[j], oldSub, newSub, c);
      }
      ServedByTheFirst(c, after, k);
      MergeKeepsNames(keys[k], User(oldSub), User(newSub));
    } else if k < |keys| {
      assert keys[k] in keys;
    }
  }

  lemma MergeKeepsNames(key: Key, old_: Scope, new_: Scope)
    ensures MergeRow(key, old_, new_).name == key.name
  {
  }

  // The second verdict has a looser quota than the first one.
  predicate Looser(before: Option<Verdict>, after: Option<Verdict>) {
    before.Some? && after.Some? && !NoLooser(after.value.quota, before.value.quota)
  }

  /** What the surviving account gets gets looser exactly when neither account was refused and
      the quota it has, after the merge, on the first key that admitted it or listed the merged
      account is looser than the one it had on the first key that admitted it. */
  lemma MergedVerdictLoosensIff(con: Connector, keys: seq<Key>, oldSub: string, newSub: string, c: Caller)
    requires MergeApplies(oldSub, newSub) && c.sub == newSub
    ensures
      var k, m := FirstOpenOrListing(c, keys, User(oldSub)), FirstOpen(c, keys);
      Looser(Resolve(c, keys), Resolve(c, Apply(con, keys, MergeAccounts(oldSub, newSub))))
      <==> && Unrefused(c, keys, oldSub) && m < |keys|
           && !NoLooser(Quota(c, MergeRow(keys[k], User(oldSub), User(newSub))), Quota(c, keys[m]))
  {
    MergedVerdictIs(con, keys, oldSub, newSub, c);
    DeniedByIff(c, keys);
    hide Admits, DeniedBy, Quota, MergeRow, Resolve, Targets;
    if Unrefused(c, keys, oldSub) {
      VerdictIs(c, keys);
    }
  }

  /** The two ways it happens: on the key that served already, as `MergedQuotaLoosensIff` says; or
      by a more recent key, which did not admit the surviving account and listed the old one. */
  lemma MergedVerdictLoosensInTwoWays(con: Connector, keys: seq<Key>, oldSub: string, newSub: string, c: Caller)
    requires MergeApplies(oldSub, newSub) && c.sub == newSub
    requires Looser(Resolve(c, keys), Resolve(c, Apply(con, keys, MergeAccounts(oldSub, newSub))))
    ensures
      var k, m := FirstOpenOrListing(c, keys, User(oldSub)), FirstOpen(c, keys);
      && m < |keys|
      && if k == m then
           User(oldSub) in keys[m].rateBy && User(newSub) !in keys[m].rateBy && !NoLooser(keys[m].rateBy[User(oldSub)], Quota(c, keys[m]))
         else k < m && !Admits(c, keys[k]) && User(oldSub) in keys[k].down
  {
    MergedVerdictLoosensIff(con, keys, oldSub, newSub, c);
    var k, m := FirstOpenOrListing(c, keys, User(oldSub)), FirstOpen(c, keys);
    MergedQuotaLoosensIff(keys[m], oldSub, newSub, c);
    hide Admits, Quota, MergeRow, Resolve, Apply;
  }

  /** The second way: a closed key without a quota that lists the old account, before a closed one
      capped at 5 that lists the surviving account. No key has a quota for either of them. */
  lemma MergeCanMoveToALooserKey(con: Connector)
    ensures
      var a, b := Key("a", Closed, [User("o")], [], None, map[], []), Key("b", Closed, [User("n")], [], Some(5), map[], []);
      var c := Caller("n", None, None, {});
      && Resolve(c, [a, b]) == Some(Verdict("b", Some(5)))
      && Resolve(c, Apply(con, [a, b], MergeAccounts("o", "n"))) == Some(Verdict("a", None))
  {
    var a, b := Key("a", Closed, [User("o")], [], None, map[], []), Key("b", Closed, [User("n")], [], Some(5), map[], []);
    var c := Caller("n", None, None, {});
    TwoListedKeys(con, a, b, c, "o");
    hide *;
  }

  lemma TwoListedKeys(con: Connector, a: Key, b: Key, c: Caller, oldSub: string)
    requires MergeApplies(oldSub, c.sub) && c.team.None? && c.org.None? && c.memberOf == {}
    requires a.mode == b.mode == Closed && a.side == b.side == [] && a.denied == b.denied == [] && a.rateBy == b.rateBy == map[]
    requires a.down == [User(oldSub)] && b.down == [User(c.sub)]
    ensures Resolve(c, [a, b]) == Some(Verdict(b.name, b.rate))
    ensures Resolve(c, Apply(con, [a, b], MergeAccounts(oldSub, c.sub))) == Some(Verdict(a.name, a.rate))
  {
    var keys := [a, b];
    assert User(c.sub) in Elements(b.down) && User(oldSub) in a.down;
    assert Admits(c, keys[1]) && !Admits(c, keys[0]);
    assert FirstOpen(c, keys) == 1 && FirstOpenOrListing(c, keys, User(oldSub)) == 0;
    assert Unrefused(c, keys, oldSub);
    assert MergeRow(a, User(oldSub), User(c.sub)).rateBy == map[] && MergeRow(a, User(oldSub), User(c.sub)).rate == a.rate;
    assert Quota(c, MergeRow(a, User(oldSub), User(c.sub))) == a.rate && Quota(c, b) == b.rate;
    hide Admits, Quota, MergeRow, Resolve, Apply, FirstOpen, FirstOpenOrListing;
    MergedVerdictIs(con, keys, oldSub, c.sub, c);
    assert forall key <- keys :: !DeniedBy(c, key);
    VerdictIs(c, keys);
  }

  lemma OneKey(c: Caller, key: Key)
    requires OpenToAll(key) && key.denied == []
    ensures Resolve(c, [key]) == Some(Verdict(key.name, Quota(c, key)))
  {
    assert FirstAdmitting(c, [key]) == Some(Verdict(key.name, Quota(c, key)));
  }

  // ---- an allowlist never opens

  // The keys of that label are there, and none is open to all.
  predicate Listed(keys: seq<Key>, name: string) {
    && (exists key <- keys :: key.name == name)
    && (forall key <- keys | key.name == name :: !OpenToAll(key))
  }

  lemma DepositOpensNoKey(con: Connector, keys: seq<Key>, row: string, meta: NewMeta, name: string)
    requires Listed(keys, name)
    ensures Listed(SetRows(con, keys, row, meta), name)
  {
    hide SetRows;
    var after := SetRows(con, keys, row, meta);
    var w :| w in keys && w.name == name;
    DepositRows(con, keys, row, meta);
    assert w in after || RotatedRow(w, meta) in after;
  }

  lemma RowwiseOpensNoKey(keys: seq<Key>, after: seq<Key>, name: string)
    requires Listed(keys, name) && |after| == |keys|
    requires forall k | 0 <= k < |keys| :: after[k].name == keys[k].name && (OpenToAll(after[k]) ==> OpenToAll(keys[k]))
    ensures Listed(after, name)
  {
    var k :| 0 <= k < |keys| && keys[k].name == name;
    assert after[k] in after;
    forall key | key in after && key.name == name
      ensures !OpenToAll(key)
    {
      var j :| 0 <= j < |after| && after[j] == key;
      assert keys[j] in keys;
    }
  }

  /** No gesture turns a key that is not open to all into one that is. */
  lemma NothingOpensAKey(con: Connector, keys: seq<Key>, g: Gesture, name: string)
    requires Listed(keys, name)
    ensures Listed(Apply(con, keys, g), name)
  {
    hide GrantRow, RevokeRow, MergeRow, Listed, SetRows;
    if g.Deposit? {
      DepositOpensNoKey(con, keys, g.row, g.meta, name);
    } else {
      var after := Apply(con, keys, g);
      forall k | 0 <= k < |keys|
        ensures after[k].name == keys[k].name && (OpenToAll(after[k]) ==> OpenToAll(keys[k]))
      {
        RowsStayListed(con, keys[k], g);
      }
      RowwiseOpensNoKey(keys, after, name);
    }
  }

  lemma RowsStayListed(con: Connector, key: Key, g: Gesture)
    requires !g.Deposit?
    ensures g.GrantTo? ==>
      var row := GrantRow(con, key, g.s, g.quota);
      row.name == key.name && (OpenToAll(row) <==> OpenToAll(key))
    ensures g.RevokeFrom? ==>
      var row := RevokeRow(key, g.s);
      row.name == key.name && (OpenToAll(row) <==> OpenToAll(key))
    ensures g.MergeAccounts? ==>
      var row := MergeRow(key, User(g.oldSub), User(g.newSub));
      row.name == key.name && (OpenToAll(row) <==> OpenToAll(key))
  {
  }

  lemma {:induction false} NothingEverOpensAKey(con: Connector, keys: seq<Key>, gestures: seq<Gesture>, name: string)
    requires Listed(keys, name)
    ensures Listed(Run(con, keys, gestures), name)
    decreases |gestures|
  {
    if gestures != [] {
      NothingOpensAKey(con, keys, gestures[0], name);
      NothingEverOpensAKey(con, Apply(con, keys, gestures[0]), gestures[1..], name);
    }
  }

  // ---- quotas

  // A scope of the caller that its quota is read from before `s`.
  predicate ReadBefore(c: Caller, t: Scope, s: Scope) {
    && t in Targets(c)
    && match s
       case User(_) => false
       case Team(_) => t.User?
       case Org(_) => t.User? || t.Team?
       case Everyone => true
  }

  /** The quota a caller gets on a key after a grant: the one granted, when there is one, on the
      key of the label, for a caller the scope targets that has no quota there under a more
      specific scope; in every other case the one it had. A grant without a quota changes none. */
  lemma GrantGivesItsQuota(con: Connector, keys: seq<Key>, s: Scope, quota: Option<int>, name: Option<string>, c: Caller, k: nat)
    requires GrantAccepted(con, keys, quota, name) && k < |keys|
    ensures |Apply(con, keys, GrantTo(s, quota, name))| == |keys|
    ensures Quota(c, Apply(con, keys, GrantTo(s, quota, name))[k])
         == if quota.Some? && keys[k].name == (if name.Some? && name.value != "" then name.value else keys[0].name)
               && s in Targets(c) && !exists t <- keys[k].rateBy :: ReadBefore(c, t, s)
            then quota else Quota(c, keys[k])
    ensures quota.None? ==> Quota(c, Apply(con, keys, GrantTo(s, quota, name))[k]) == Quota(c, keys[k])
  {
    GrantRowQuota(con, keys[k], s, quota, c);
    hide GrantRow, Quota, ReadBefore, Targets;
  }

  lemma GrantRowQuota(con: Connector, key: Key, s: Scope, quota: Option<int>, c: Caller)
    ensures Quota(c, key.(denied := Without(key.denied, s))) == Quota(c, key)
    ensures Quota(c, GrantRow(con, key, s, quota))
         == if quota.Some? && s in Targets(c) && !exists t <- key.rateBy :: ReadBefore(c, t, s) then quota else Quota(c, key)
  {
    var row := GrantRow(con, key, s, quota);
    GrantRowWritten(con, key, s, quota);
    hide GrantRow;
    if quota.Some? {
      QuotaWith(c, key, row, s, quota);
    }
  }

  lemma QuotaWith(c: Caller, key: Key, row: Key, s: Scope, quota: Option<int>)
    requires row.rateBy == key.rateBy[s := quota] && row.rate == key.rate
    ensures Quota(c, row) == if s in Targets(c) && !exists t <- key.rateBy :: ReadBefore(c, t, s) then quota else Quota(c, key)
  {
    assert forall t <- Targets(c) | t != s :: t in row.rateBy.Keys <==> t in key.rateBy.Keys;
  }

  /** On each key, a rotation that names no quota keeps that of every caller; a revocation keeps
      that of every caller it does not name. */
  lemma QuotasOutliveOtherGestures(con: Connector, key: Key, s: Scope, meta: NewMeta, c: Caller)
    ensures meta.rate.None? && meta.rateBy.None? ==> Quota(c, RotatedRow(key, meta)) == Quota(c, key)
    ensures s !in Targets(c) ==> Quota(c, RevokeRow(key, s)) == Quota(c, key)
    ensures s !in RevokeRow(key, s).rateBy
  {
  }

  // The rows of a connector bear distinct labels.
  predicate DistinctLabels(keys: seq<Key>) {
    forall j, k | 0 <= j < k < |keys| :: keys[j].name != keys[k].name
  }

  lemma {:induction false} FirstAdmittingIn(c: Caller, a: seq<Key>, b: seq<Key>)
    ensures FirstAdmitting(c, a + b) == if FirstAdmitting(c, a).Some? then FirstAdmitting(c, a) else FirstAdmitting(c, b)
    ensures FirstAdmitting(c, a).Some? <==> exists key <- a :: Admits(c, key) && !DeniedBy(c, key)
    ensures FirstAdmitting(c, a).Some? ==> exists key <- a :: key.name == FirstAdmitting(c, a).value.name
  {
    hide Admits, DeniedBy, Quota;
    if a == [] {
      assert a + b == b;
    } else {
      assert (a + b)[1..] == a[1..] + b;
      assert a == [a[0]] + a[1..];
      FirstAdmittingIn(c, a[1..], b);
    }
  }

  lemma RotatedIsFirst(con: Connector, keys: seq<Key>, k: nat, meta: NewMeta)
    requires DistinctLabels(keys) && k < |keys|
    ensures SetRows(con, keys, keys[k].name, meta) == [RotatedRow(keys[k], meta)] + (keys[..k] + keys[k + 1..])
    ensures keys == keys[..k] + ([keys[k]] + keys[k + 1..])
  {
    IndexIs(keys, keys[k].name, k);
    hide RotatedRow, Index, DistinctLabels;
    assert SetRows(con, keys, keys[k].name, meta) == [RotatedRow(keys[k], meta)] + keys[..k] + keys[k + 1..];
    hide SetRows;
    Regroup([RotatedRow(keys[k], meta)], keys[..k], keys[k + 1..]);
    OneApart(keys, k);
  }

  lemma Regroup<T>(a: seq<T>, b: seq<T>, c: seq<T>)
    ensures a + b + c == a + (b + c)
  {
  }

  lemma OneApart<T>(s: seq<T>, k: nat)
    requires k < |s|
    ensures s == s[..k] + ([s[k]] + s[k + 1..])
  {
  }

  // A deposit that names no agreement.
  const NO_AGREEMENT: NewMeta := NewMeta(None, None, None)

  lemma DeniedInAnyOrder(c: Caller, keys: seq<Key>, after: seq<Key>)
    requires multiset(keys) == multiset(after)
    ensures (exists key <- keys :: DeniedBy(c, key)) <==> (exists key <- after :: DeniedBy(c, key))
  {
    hide DeniedBy;
    assert forall key :: key in keys <==> key in multiset(keys);
    assert forall key :: key in after <==> key in multiset(after);
  }

  /** A rotation dates its key first. What a caller gets, key and quota, changes exactly when it
      is not refused, that key admits it and a more recent one did: from the latter to the
      rotated one. */
  lemma RotationChangesAVerdictIff(con: Connector, keys: seq<Key>, k: nat, c: Caller)
    requires DistinctLabels(keys) && k < |keys|
    ensures
      var before, after := Resolve(c, keys), Resolve(c, Apply(con, keys, Deposit(keys[k].name, NO_AGREEMENT)));
      && (after != before <==> Served(c, keys) && Admits(c, keys[k]) && exists j | 0 <= j < k :: Admits(c, keys[j]))
      && (after != before ==> after == Some(Verdict(keys[k].name, Quota(c, keys[k]))))
  {
    var newer, key, older := keys[..k], keys[k], keys[k + 1..];
    assert RotatedRow(key, NO_AGREEMENT) == key;
    RotatedIsFirst(con, keys, k, NO_AGREEMENT);
    assert forall x <- newer :: x in keys && x.name != key.name;
    MovedFirst(c, newer, key, older);
    hide Admits, DeniedBy, Quota, FirstAdmitting, Resolve;
    AdmittedBefore(c, keys, k);
  }

  lemma AdmittedBefore(c: Caller, keys: seq<Key>, k: nat)
    requires k < |keys|
    ensures (exists x <- keys[..k] :: Admits(c, x)) <==> exists j | 0 <= j < k :: Admits(c, keys[j])
  {
    hide Admits;
    if j :| 0 <= j < k && Admits(c, keys[j]) {
      assert keys[..k][j] in keys[..k];
    }
  }

  // A key that moves before more recent ones takes the caller from the first that admits it.
  lemma MovedFirst(c: Caller, newer: seq<Key>, key: Key, older: seq<Key>)
    requires forall x <- newer :: x.name != key.name
    ensures
      var keys, after := newer + ([key] + older), [key] + (newer + older);
      && (Resolve(c, after) != Resolve(c, keys) <==> Served(c, keys) && Admits(c, key) && exists x <- newer :: Admits(c, x))
      && (Resolve(c, after) != Resolve(c, keys) ==> Resolve(c, after) == Some(Verdict(key.name, Quota(c, key))))
  {
    var keys, after := newer + ([key] + older), [key] + (newer + older);
    assert multiset(after) == multiset(keys);
    DeniedInAnyOrder(c, keys, after);
    if !exists x <- keys :: DeniedBy(c, x) {
      assert key in [key] + older;
      assert forall x <- newer + ([key] + older) :: !DeniedBy(c, x);
      MovedFirstAdmits(c, newer, key, older);
    }
  }

  lemma MovedFirstAdmits(c: Caller, newer: seq<Key>, key: Key, older: seq<Key>)
    requires forall x <- newer :: x.name != key.name && !DeniedBy(c, x)
    requires !DeniedBy(c, key)
    ensures
      var before, after := FirstAdmitting(c, newer + ([key] + older)), FirstAdmitting(c, [key] + (newer + older));
      && (Admits(c, key) ==> before.Some? && after == Some(Verdict(key.name, Quota(c, key))))
      && (after != before <==> Admits(c, key) && exists x <- newer :: Admits(c, x))
  {
    FirstAdmittingIn(c, newer, [key] + older);
    FirstAdmittingIn(c, [key], older);
    FirstAdmittingIn(c, [key], newer + older);
    FirstAdmittingIn(c, newer, older);
    assert FirstAdmitting(c, [key]) == if Admits(c, key) then Some(Verdict(key.name, Quota(c, key))) else None;
    hide Admits, DeniedBy, Quota, FirstAdmitting;
  }

  /** Such a rotation: two open keys, the more recent one capped at 5 calls a day. Rotating the
      other one leaves every caller without a cap. */
  lemma RotationCanLiftAQuota(con: Connector, c: Caller)
    ensures
      var a, b := Key("a", Open, [], [], Some(5), map[], []), Key("b", Open, [], [], None, map[], []);
      && Resolve(c, [a, b]) == Some(Verdict("a", Some(5)))
      && Resolve(c, Apply(con, [a, b], Deposit("b", NO_AGREEMENT))) == Some(Verdict("b", None))
  {
    var a, b := Key("a", Open, [], [], Some(5), map[], []), Key("b", Open, [], [], None, map[], []);
    RotationChangesAVerdictIff(con, [a, b], 1, c);
    assert Admits(c, [a, b][0]) && Admits(c, [a, b][1]);
    ServedIff(c, [a, b]);
    assert FirstAdmitting(c, [a, b]) == Some(Verdict("a", Some(5)));
  }
}

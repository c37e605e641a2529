// Sharing of the platform keys of one connector (oto_mcp/credentials_store.py, read by
// oto_mcp/access/platform_grant.py): who is served, and what each gesture does to it.

module PlatformSharing {
  import opened Options

  /** A scope a key is shared with. `Everyone` is the bare `org` of a lateral loan. */
  datatype Scope = User(sub: string) | Team(gid: int) | Org(id: int) | Everyone

  datatype Mode = Open | Closed

  /** A platform row of the vault: what it says of sharing, without the secret. `denied`
      is `meta.share_denied`, `rateBy` is `meta.rate_limit_by`. */
  datatype Key = Key(name: string, mode: Mode, down: seq<Scope>, side: seq<Scope>,
                     rate: Option<int>, rateBy: map<Scope, Option<int>>, denied: seq<Scope>)

  /** The agreements a new deposit of a key names itself; `None` is a key absent of `meta`. */
  datatype NewMeta = NewMeta(rate: Option<Option<int>>, rateBy: Option<map<Scope, Option<int>>>,
                             denied: Option<seq<Scope>>)

  /** What the registry declares of the connector. */
  datatype Connector = Connector(freeTier: bool, quotaRequired: bool)

  // ---- the reader

  /** Someone calling: the account, its active team and its active organisation, and every
      scope it really is a member of (which only the lateral loans look at). */
  datatype Caller = Caller(sub: string, team: Option<int>, org: Option<int>, memberOf: set<Scope>)

  function Targets(c: Caller): set<Scope> {
    {User(c.sub)} + (if c.team.Some? then {Team(c.team.value)} else {}) + (if c.org.Some? then {Org(c.org.value)} else {})
  }

  predicate DeniedBy(c: Caller, key: Key) {
    || (c.sub != "" && User(c.sub) in key.denied)
    || (c.team.Some? && Team(c.team.value) in key.denied)
    || (c.org.Some? && Org(c.org.value) in key.denied)
  }

  // The scope among `scopes` that targets the caller: the account, then the team, then the
  // organisation.
  function GranteeScope(c: Caller, scopes: set<Scope>): Option<Scope> {
    if User(c.sub) in scopes then Some(User(c.sub))
    else if c.team.Some? && Team(c.team.value) in scopes then Some(Team(c.team.value))
    else if c.org.Some? && Org(c.org.value) in scopes then Some(Org(c.org.value))
    else None
  }

  function Elements(scopes: seq<Scope>): set<Scope> {
    set s | s in scopes
  }

  // Whether the key serves the caller, denials aside.
  predicate Admits(c: Caller, key: Key) {
    var granted := GranteeScope(c, Elements(key.down)).Some?;
    || Everyone in key.side
    || (exists s <- c.memberOf :: s in key.side)
    || User(c.sub) in key.side
    || (if key.mode == Closed then key.down != [] && granted else key.down == [] || granted)
  }

  function Quota(c: Caller, key: Key): Option<int> {
    var s := GranteeScope(c, key.rateBy.Keys);
    if s.Some? then key.rateBy[s.value] else key.rate
  }

  datatype Verdict = Verdict(name: string, quota: Option<int>)

  function FirstAdmitting(c: Caller, keys: seq<Key>): Option<Verdict> {
    if keys == [] then None
    else if Admits(c, keys[0]) && !DeniedBy(c, keys[0]) then Some(Verdict(keys[0].name, Quota(c, keys[0])))
    else FirstAdmitting(c, keys[1..])
  }

  // The platform rung: the most recent key that serves the caller, and its daily quota.
  function Resolve(c: Caller, keys: seq<Key>): Option<Verdict> {
    if exists key <- keys :: DeniedBy(c, key) then None else FirstAdmitting(c, keys)
  }

  predicate Served(c: Caller, keys: seq<Key>) {
    Resolve(c, keys).Some?
  }

  lemma {:induction false} FirstAdmittingIff(c: Caller, keys: seq<Key>)
    requires forall key <- keys :: !DeniedBy(c, key)
    ensures FirstAdmitting(c, keys).Some? <==> exists key <- keys :: Admits(c, key)
  {
    if keys != [] {
      FirstAdmittingIff(c, keys[1..]);
    }
  }

  /** Who is served: no key of the connector denies the caller, and one admits it. */
  lemma ServedIff(c: Caller, keys: seq<Key>)
    ensures Served(c, keys) <==> (forall key <- keys :: !DeniedBy(c, key)) && (exists key <- keys :: Admits(c, key))
  {
    if forall key <- keys :: !DeniedBy(c, key) {
      FirstAdmittingIff(c, keys);
    }
  }

  // ---- the gestures, as functions of the rows (most recent first)

  function Without(scopes: seq<Scope>, s: Scope): (r: seq<Scope>)
    ensures forall x :: x in r <==> x in scopes && x != s
  {
    if scopes == [] then []
    else if scopes[0] == s then Without(scopes[1..], s)
    else [scopes[0]] + Without(scopes[1..], s)
  }

  predicate OpenToAll(key: Key) {
    key.mode != Closed && key.down == []
  }

  // The row a grant is written on.
  function GrantRow(con: Connector, key: Key, s: Scope, quota: Option<int>): Key {
    var lifted := key.(denied := Without(key.denied, s),
                       rateBy := if quota.Some? then key.rateBy[s := Some(quota.value)] else key.rateBy);
    if con.freeTier || OpenToAll(key) then lifted
    else lifted.(mode := Closed, down := if s in key.down then key.down else key.down + [s])
  }

  function RevokeRow(key: Key, s: Scope): Key {
    var down := Without(key.down, s);
    key.(down := down, mode := if key.mode != Closed && key.down != [] && down == [] then Closed else key.mode,
         rateBy := key.rateBy - {s}, denied := if s in key.denied then key.denied else key.denied + [s])
  }

  function TargetLabel(keys: seq<Key>, name: Option<string>): Option<string> {
    if name.Some? && name.value != "" then name else if keys != [] then Some(keys[0].name) else None
  }

  predicate GrantAccepted(con: Connector, keys: seq<Key>, quota: Option<int>, name: Option<string>) {
    && (con.quotaRequired ==> quota.Some? && quota.value > 0)
    && TargetLabel(keys, name).Some?
    && exists key <- keys :: key.name == TargetLabel(keys, name).value
  }

  function GrantRows(con: Connector, keys: seq<Key>, s: Scope, quota: Option<int>, target: string): (r: seq<Key>)
    ensures |r| == |keys|
    ensures forall k | 0 <= k < |keys| ::
              r[k] == if keys[k].name == target then GrantRow(con, keys[k], s, quota)
                      else keys[k].(denied := Without(keys[k].denied, s))
  {
    seq(|keys|, k requires 0 <= k < |keys| =>
      if keys[k].name == target then GrantRow(con, keys[k], s, quota)
      else keys[k].(denied := Without(keys[k].denied, s)))
  }

  function Named(key: Key, name: Option<string>): bool {
    name.None? || key.name == name.value
  }

  function RevokeRows(keys: seq<Key>, s: Scope, name: Option<string>): (r: seq<Key>)
    ensures |r| == |keys|
    ensures forall k | 0 <= k < |keys| :: r[k] == if Named(keys[k], name) then RevokeRow(keys[k], s) else keys[k]
  {
    seq(|keys|, k requires 0 <= k < |keys| => if Named(keys[k], name) then RevokeRow(keys[k], s) else keys[k])
  }

  // A deposit: a rotation when the label exists, a new key otherwise; dated now, so first.
  function SetRows(con: Connector, keys: seq<Key>, name: string, meta: NewMeta): seq<Key> {
    if exists key <- keys :: key.name == name then
      var k := Index(keys, name);
      [RotatedRow(keys[k], meta)] + keys[..k] + keys[k + 1..]
    else
      [NewRow(con, name, meta)] + keys
  }

  function RotatedRow(key: Key, meta: NewMeta): Key {
    key.(rate := if meta.rate.Some? then meta.rate.value else key.rate,
         rateBy := if meta.rateBy.Some? then meta.rateBy.value else key.rateBy,
         denied := if meta.denied.Some? then meta.denied.value else key.denied)
  }

  function NewRow(con: Connector, name: string, meta: NewMeta): Key {
    Key(name, if con.freeTier then Open else Closed, [], [],
        if meta.rate.Some? then meta.rate.value else None,
        if meta.rateBy.Some? then meta.rateBy.value else map[],
        if meta.denied.Some? then meta.denied.value else [])
  }

  function Index(keys: seq<Key>, name: string): (k: nat)
    requires exists key <- keys :: key.name == name
    ensures k < |keys| && keys[k].name == name
  {
    if keys[0].name == name then 0 else 1 + Index(keys[1..], name)
  }

  lemma {:induction false} IndexIs(keys: seq<Key>, name: string, k: nat)
    requires k < |keys| && keys[k].name == name && forall j | 0 <= j < k :: keys[j].name != name
    ensures (exists key <- keys :: key.name == name) && Index(keys, name) == k
  {
    assert keys[k] in keys;
    if k > 0 {
      assert keys[0].name != name;
      IndexIs(keys[1..], name, k - 1);
    }
  }

  function Absent<T>(x: Option<T>, default: T): T {
    if x.Some? then x.value else default
  }

  // `_repointer_la_cible`: `old` becomes `new` in its place, without a second `new`.
  function Repoint(scopes: seq<Scope>, old_: Scope, new_: Scope): (r: seq<Scope>)
    ensures forall x :: x in r <==> (x in scopes && x != old_) || (x == new_ && (old_ in scopes || new_ in scopes))
    ensures r == [] <==> scopes == []
  {
    if scopes == [] then []
    else
      var last := scopes[|scopes| - 1];
      var out := Repoint(scopes[..|scopes| - 1], old_, new_);
      var scope := if last == old_ then new_ else last;
      assert scopes == scopes[..|scopes| - 1] + [last];
      if scope == new_ && new_ in out then out else out + [scope]
  }

  function Strictest(a: Option<int>, b: Option<int>): Option<int> {
    if a.None? then b else if b.None? then a else if a.value <= b.value then a else b
  }

  predicate NamesAccount(key: Key, account: Scope) {
    account in key.down || account in key.denied || account in key.rateBy
  }

  function MergedQuotas(quotas: map<Scope, Option<int>>, old_: Scope, new_: Scope): map<Scope, Option<int>> {
    if old_ !in quotas then quotas
    else
      var inherited := quotas[old_];
      (quotas - {old_})[new_ := if new_ in quotas && new_ != old_ then Strictest(inherited, quotas[new_]) else inherited]
  }

  function MergeRow(key: Key, old_: Scope, new_: Scope): Key {
    if NamesAccount(key, old_) then
      key.(down := Repoint(key.down, old_, new_),
           denied := if old_ in key.denied then Repoint(key.denied, old_, new_) else key.denied,
           rateBy := MergedQuotas(key.rateBy, old_, new_))
    else key
  }

  predicate MergeApplies(oldSub: string, newSub: string) {
    oldSub != "" && newSub != "" && oldSub != newSub
  }

  function MergeRows(keys: seq<Key>, oldSub: string, newSub: string): (r: seq<Key>)
    ensures |r| == |keys|
    ensures forall k | 0 <= k < |keys| ::
              r[k] == if MergeApplies(oldSub, newSub) then MergeRow(keys[k], User(oldSub), User(newSub)) else keys[k]
  {
    seq(|keys|, k requires 0 <= k < |keys| =>
      if MergeApplies(oldSub, newSub) then MergeRow(keys[k], User(oldSub), User(newSub)) else keys[k])
  }

  // ---- what each gesture writes on a row, field by field

  predicate SameShare(was: Key, now: Key) {
    now.name == was.name && now.side == was.side && now.rate == was.rate
  }

  // `named` says that the row is the one the grant is for.
  ghost predicate GrantWritten(con: Connector, was: Key, now: Key, s: Scope, quota: Option<int>, named: bool) {
    && SameShare(was, now)
    && now.rateBy == (if named && quota.Some? then was.rateBy[s := quota] else was.rateBy)
    && (forall t :: t in now.denied <==> t in was.denied && t != s)
    && if named && !con.freeTier && (was.mode == Closed || was.down != [])
       then now.mode == Closed && forall t :: t in now.down <==> t in was.down || t == s
       else now.mode == was.mode && now.down == was.down
  }

  lemma GrantRowWritten(con: Connector, key: Key, s: Scope, quota: Option<int>)
    ensures GrantWritten(con, key, GrantRow(con, key, s, quota), s, quota, true)
    ensures GrantWritten(con, key, key.(denied := Without(key.denied, s)), s, quota, false)
  {
  }

  lemma GrantRowsWritten(con: Connector, keys: seq<Key>, s: Scope, quota: Option<int>, target: string)
    ensures forall k | 0 <= k < |keys| ::
              var row := GrantRows(con, keys, s, quota, target)[k];
              && GrantWritten(con, keys[k], row, s, quota, keys[k].name == target)
              && row.rateBy == if quota.Some? && keys[k].name == target then keys[k].rateBy[s := quota] else keys[k].rateBy
  {
    forall k | 0 <= k < |keys|
      ensures
        var row := GrantRows(con, keys, s, quota, target)[k];
        && GrantWritten(con, keys[k], row, s, quota, keys[k].name == target)
        && row.rateBy == if quota.Some? && keys[k].name == target then keys[k].rateBy[s := quota] else keys[k].rateBy
    {
      GrantRowWritten(con, keys[k], s, quota);
      hide GrantRow;
    }
  }

  ghost predicate RevokeWritten(was: Key, now: Key, s: Scope) {
    && SameShare(was, now)
    && now.rateBy == was.rateBy - {s}
    && (forall t :: t in now.denied <==> t in was.denied || t == s)
    && (forall t :: t in now.down <==> t in was.down && t != s)
    && now.mode == if was.down != [] && forall t <- was.down :: t == s then Closed else was.mode
  }

  lemma RevokeRowWritten(key: Key, s: Scope)
    ensures RevokeWritten(key, RevokeRow(key, s), s)
  {
    FirstIn(Without(key.down, s));
    if t :| t in key.down && t != s {
      assert t in Without(key.down, s);
    }
  }

  lemma FirstIn(scopes: seq<Scope>)
    ensures scopes == [] || scopes[0] in scopes
  {
  }

  // A list where one account has taken the place of the other.
  ghost predicate Moved(was: seq<Scope>, now: seq<Scope>, old_: Scope, new_: Scope) {
    forall t :: t in now <==> t != old_ && (t in was || (t == new_ && old_ in was))
  }

  ghost predicate MergeWritten(was: Key, now: Key, old_: Scope, new_: Scope) {
    && SameShare(was, now) && now.mode == was.mode
    && Moved(was.down, now.down, old_, new_) && Moved(was.denied, now.denied, old_, new_)
    && (forall t :: t in now.rateBy <==> t != old_ && (t in was.rateBy || (t == new_ && old_ in was.rateBy)))
    && forall t | t in now.rateBy ::
         now.rateBy[t] == if t == new_ && old_ in was.rateBy
                          then (if new_ in was.rateBy then Strictest(was.rateBy[old_], was.rateBy[new_]) else was.rateBy[old_])
                          else was.rateBy[t]
  }

  lemma MergeRowWritten(key: Key, old_: Scope, new_: Scope)
    requires old_ != new_
    ensures MergeWritten(key, MergeRow(key, old_, new_), old_, new_)
  {
  }

  // The agreements of a deposit: those it names, and for the others the ones given.
  predicate Agreements(now: Key, rate: Option<int>, rateBy: map<Scope, Option<int>>, denied: seq<Scope>, meta: NewMeta) {
    && (if meta.rate.Some? then meta.rate == Some(now.rate) else now.rate == rate)
    && (if meta.rateBy.Some? then meta.rateBy == Some(now.rateBy) else now.rateBy == rateBy)
    && (if meta.denied.Some? then meta.denied == Some(now.denied) else now.denied == denied)
  }

  lemma MergeRowsWritten(keys: seq<Key>, oldSub: string, newSub: string)
    requires MergeApplies(oldSub, newSub)
    ensures forall k | 0 <= k < |keys| :: MergeWritten(keys[k], MergeRows(keys, oldSub, newSub)[k], User(oldSub), User(newSub))
  {
    forall k | 0 <= k < |keys|
      ensures MergeWritten(keys[k], MergeRows(keys, oldSub, newSub)[k], User(oldSub), User(newSub))
    {
      MergeRowWritten(keys[k], User(oldSub), User(newSub));
      hide MergeRow, MergeWritten;
    }
  }

  // A deposit: the row of the label moves first with the agreements the deposit names, or a new
  // one is there; the other rows are as they were, in order.
  predicate Deposited(con: Connector, was: seq<Key>, now: seq<Key>, name: string, meta: NewMeta) {
    && now != [] && now[0].name == name
    && if exists key <- was :: key.name == name then
         exists k | 0 <= k < |was| ::
           && was[k].name == name && now[1..] == was[..k] + was[k + 1..]
           && now[0].mode == was[k].mode && now[0].down == was[k].down && now[0].side == was[k].side
           && Agreements(now[0], was[k].rate, was[k].rateBy, was[k].denied, meta)
       else
         && now[1..] == was && now[0].mode == (if con.freeTier then Open else Closed) && now[0].down == now[0].side == []
         && Agreements(now[0], None, map[], [], meta)
  }

  lemma RotatedAgreements(key: Key, meta: NewMeta)
    ensures Agreements(RotatedRow(key, meta), key.rate, key.rateBy, key.denied, meta)
    ensures RotatedRow(key, meta).(rate := key.rate, rateBy := key.rateBy, denied := key.denied) == key
  {
  }

  lemma SetRowsDeposit(con: Connector, keys: seq<Key>, name: string, meta: NewMeta)
    ensures Deposited(con, keys, SetRows(con, keys, name, meta), name, meta)
  {
    if exists key <- keys :: key.name == name {
      var k := Index(keys, name);
      RotatedAgreements(keys[k], meta);
      hide Index, RotatedRow, Agreements;
      assert SetRows(con, keys, name, meta)[1..] == keys[..k] + keys[k + 1..];
    }
  }

  // The rows among the first `n` that name an account.
  function Naming(keys: seq<Key>, account: Scope, n: nat): set<nat>
    requires n <= |keys|
  {
    set k: nat | k < n && (account in keys[k].down || account in keys[k].denied || account in keys[k].rateBy)
  }

  lemma NamingGrows(keys: seq<Key>, account: Scope, n: nat)
    requires n < |keys|
    ensures |Naming(keys, account, n + 1)| == |Naming(keys, account, n)| + if NamesAccount(keys[n], account) then 1 else 0
  {
    assert Naming(keys, account, n + 1) == Naming(keys, account, n) + if NamesAccount(keys[n], account) then {n} else {};
  }

  // ---- the gestures, as the code makes them

  class PlatformKeys {
    const con: Connector
    // The platform rows of the connector, most recent first.
    var keys: seq<Key>

    constructor (con: Connector)
      ensures this.con == con && keys == []
    {
      this.con := con;
      keys := [];
    }

    /** `platform_grant`: one transaction, so a refusal leaves every row as it was. On the key of
        the label (the most recent one without a label) it writes a quota only when it is given one,
        and lists the scope unless the key is open to all or the connector has a free tier; on every
        key it lifts the refusal of the scope, and nothing else. */
    method Grant(s: Scope, quota: Option<int>, name: Option<string>) returns (ok: bool)
      modifies this
      ensures ok <==> GrantAccepted(con, old(keys), quota, name)
      ensures keys == if ok then GrantRows(con, old(keys), s, quota, TargetLabel(old(keys), name).value) else old(keys)
      ensures ok <==>
        && old(keys) != [] && (con.quotaRequired ==> quota.Some? && quota.value > 0)
        && (name.Some? && name.value != "" ==> exists key <- old(keys) :: key.name == name.value)
      ensures |keys| == |old(keys)|
      ensures ok ==> forall k | 0 <= k < |keys| ::
                keys[k].rateBy
                == if quota.Some? && old(keys)[k].name == (if name.Some? && name.value != "" then name.value else old(keys)[0].name)
                   then old(keys)[k].rateBy[s := quota] else old(keys)[k].rateBy
      ensures ok ==> forall k | 0 <= k < |keys| ::
                GrantWritten(con, old(keys)[k], keys[k], s, quota,
                             old(keys)[k].name == if name.Some? && name.value != "" then name.value else old(keys)[0].name)
    {
      hide GrantWritten, GrantRow;
      if con.quotaRequired && !(quota.Some? && quota.value > 0) {
        return false;
      }
      var target := TargetLabel(keys, name);
      if target.None? {
        return false;
      }
      var found, rows, k := false, keys, 0;
      while k < |keys|
        invariant 0 <= k <= |keys| == |rows| && keys == old(keys)
        invariant found <==> exists key <- keys[..k] :: key.name == target.value
        invariant forall j | 0 <= j < k :: rows[j] == GrantRows(con, keys, s, quota, target.value)[j]
        invariant forall j | k <= j < |keys| :: rows[j] == keys[j]
      {
        assert keys[..k + 1] == keys[..k] + [keys[k]];
        if keys[k].name == target.value {
          found := true;
          rows := rows[k := GrantRow(con, keys[k], s, quota)];
        } else if s in keys[k].denied {
          rows := rows[k := keys[k].(denied := Without(keys[k].denied, s))];
        } else {
          WithoutAbsent(keys[k].denied, s);
        }
        k := k + 1;
      }
      assert keys[..k] == keys;
      if !found {
        return false;
      }
      assert rows == GrantRows(con, keys, s, quota, target.value);
      GrantRowsWritten(con, keys, s, quota, target.value);
      keys := rows;
      return true;
    }

    /** `platform_revoke`: each key of the label (every key without one) refuses the scope, no
        longer lists it nor has a quota for it, and closes if it listed that scope alone. */
    method Revoke(s: Scope, name: Option<string>)
      modifies this
      ensures keys == RevokeRows(old(keys), s, name)
      ensures |keys| == |old(keys)|
      ensures forall k | 0 <= k < |keys| ::
                if name.None? || old(keys)[k].name == name.value then RevokeWritten(old(keys)[k], keys[k], s) else keys[k] == old(keys)[k]
    {
      var k := 0;
      while k < |keys|
        invariant 0 <= k <= |keys| == |old(keys)|
        invariant forall j | 0 <= j < k :: keys[j] == RevokeRows(old(keys), s, name)[j]
        invariant forall j | k <= j < |keys| :: keys[j] == old(keys)[j]
      {
        if name.None? || keys[k].name == name.value {
          keys := keys[k := RevokeRow(keys[k], s)];
        }
        k := k + 1;
      }
      forall j | 0 <= j < |keys|
        ensures RevokeWritten(old(keys)[j], RevokeRow(old(keys)[j], s), s)
      {
        RevokeRowWritten(old(keys)[j], s);
      }
    }

    // The row of a label, or the number of rows.
    method Find(name: string) returns (k: nat)
      ensures k <= |keys| && (forall j | 0 <= j < k :: keys[j].name != name)
      ensures k < |keys| ==> keys[k].name == name
    {
      k := 0;
      while k < |keys| && keys[k].name != name
        invariant k <= |keys| && forall j | 0 <= j < k :: keys[j].name != name
      {
        k := k + 1;
      }
    }

    /** `set_platform_key`: the agreements the deposit does not name are carried over one by
        one from the row of that label, the row is written and dated now, and a new one is
        closed unless the connector has a free tier. */
    method SetKey(name: string, meta: NewMeta)
      modifies this
      ensures keys == SetRows(con, old(keys), name, meta)
      ensures Deposited(con, old(keys), keys, name, meta)
    {
      SetRowsDeposit(con, keys, name, meta);
      hide Deposited;
      var k := Find(name);
      if k == |keys| {
        keys := [Key(name, Open, [], [], Absent(meta.rate, None), Absent(meta.rateBy, map[]), Absent(meta.denied, []))] + keys;
        if !con.freeTier {
          keys := keys[0 := keys[0].(mode := Closed)];
        }
        return;
      }
      IndexIs(keys, name, k);
      var carried := meta;
      if carried.rate.None? {
        carried := carried.(rate := Some(keys[k].rate));
      }
      if carried.rateBy.None? {
        carried := carried.(rateBy := Some(keys[k].rateBy));
      }
      if carried.denied.None? {
        carried := carried.(denied := Some(keys[k].denied));
      }
      var row := keys[k].(rate := carried.rate.value, rateBy := carried.rateBy.value, denied := carried.denied.value);
      keys := [row] + keys[..k] + keys[k + 1..];
    }

    /** `suivre_les_accords_recus`, on the rows of this connector. */
    method Merge(oldSub: string, newSub: string) returns (rewritten: nat)
      modifies this
      ensures keys == MergeRows(old(keys), oldSub, newSub)
      ensures rewritten == if MergeApplies(oldSub, newSub) then |Naming(old(keys), User(oldSub), |keys|)| else 0
      ensures rewritten == 0 ==> keys == old(keys)
      ensures oldSub == "" || newSub == "" || oldSub == newSub ==> keys == old(keys)
      ensures |keys| == |old(keys)|
      ensures oldSub != "" && newSub != "" && oldSub != newSub ==>
                forall k | 0 <= k < |keys| :: MergeWritten(old(keys)[k], keys[k], User(oldSub), User(newSub))
    {
      hide MergeWritten;
      rewritten := 0;
      if oldSub == "" || newSub == "" || oldSub == newSub {
        assert keys == MergeRows(old(keys), oldSub, newSub);
        return;
      }
      var k := 0;
      while k < |keys|
        invariant 0 <= k <= |keys| == |old(keys)|
        invariant forall j | 0 <= j < k :: keys[j] == MergeRow(old(keys)[j], User(oldSub), User(newSub))
        invariant forall j | k <= j < |keys| :: keys[j] == old(keys)[j]
        invariant rewritten == 0 ==> keys == old(keys)
        invariant rewritten == |Naming(old(keys), User(oldSub), k)|
      {
        NamingGrows(old(keys), User(oldSub), k);
        if NamesAccount(keys[k], User(oldSub)) {
          keys := keys[k := MergeRow(keys[k], User(oldSub), User(newSub))];
          rewritten := rewritten + 1;
        }
        k := k + 1;
      }
      MergeRowsWritten(old(keys), oldSub, newSub);
    }
  }

  lemma {:induction false} WithoutAbsent(scopes: seq<Scope>, s: Scope)
    requires s !in scopes
    ensures Without(scopes, s) == scopes
  {
    if scopes != [] {
      WithoutAbsent(scopes[1..], s);
    }
  }
}

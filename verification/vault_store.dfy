// The gestures of oto_mcp/credentials_store.py that write the vault.

module VaultStore {
  import opened Options
  import opened Decimal
  import opened FiniteSets
  import opened Vault

  // A renaming that keeps every other row and the plaintext of its own.
  predicate RenameLossless(master: int, before: Rows, after: Rows, from: Id, to: Id) {
    && (forall id <- before | id != from :: id in after && after[id] == before[id])
    && to in after && Reveal(master, after, to) == Reveal(master, before, from)
  }

  // `rename_account` on the rows: pose under the new name, then withdrawal of the old one.
  function RenameRows(master: int, rows: Rows, from: Id, to: Id): Rows
    requires from in rows
  {
    UpsertRows(master, rows, to, rows[from].secret.plain, None, rows[from].copiedTo) - {from}
  }

  function UpsertRows(master: int, rows: Rows, id: Id, secret: string, setBy: Option<string>,
                      copiedTo: Option<string>): Rows {
    rows[id := Row(Encrypt(master, secret, Aad(id)), copiedTo, setBy,
                   if id in rows then rows[id].version + 1 else 1, if id in rows then rows[id].sharing else "")]
  }

  /** A rename keeps every other row and the plaintext exactly when the new account is free:
      not the old one itself, and not one that exists. */
  lemma RenameLosslessIffFree(master: int, rows: Rows, from: Id, to: Id)
    requires from in rows && Readable(master, rows, from)
    ensures RenameLossless(master, rows, RenameRows(master, rows, from, to), from, to) <==> to !in rows
  {
    var after := RenameRows(master, rows, from, to);
    if to in rows && to != from {
      assert after[to].version == rows[to].version + 1;
    }
  }

  // One row written: its version goes up, its sharing stays, a new one begins at 1 and shares
  // nothing; the other rows are as they were.
  predicate Posed(before: Rows, after: Rows, id: Id) {
    && after.Keys == before.Keys + {id}
    && (forall other <- before | other != id :: after[other] == before[other])
    && if id in before then after[id].version == before[id].version + 1 && after[id].sharing == before[id].sharing
       else after[id].version == 1 && after[id].sharing == ""
  }

  // One row renamed: the old name is gone, the new one has its plaintext and its mark, no author,
  // and the other rows are as they were.
  predicate Renamed(master: int, before: Rows, after: Rows, from: Id, to: Id)
    requires from in before
  {
    && after.Keys == (before.Keys + {to}) - {from}
    && (forall other <- before | other != from && other != to :: after[other] == before[other])
    && (to in after ==>
          && Reveal(master, after, to) == Reveal(master, before, from) && after[to].setBy.None?
          && after[to].copiedTo == before[from].copiedTo
          && if to in before then after[to].version == before[to].version + 1 && after[to].sharing == before[to].sharing
             else after[to].version == 1 && after[to].sharing == "")
  }

  lemma RenamedRows(master: int, rows: Rows, from: Id, to: Id)
    requires from in rows && Readable(master, rows, from)
    ensures Renamed(master, rows, RenameRows(master, rows, from, to), from, to)
  {
    hide Aad;
    assert (rows.Keys + {to}) - {from} == RenameRows(master, rows, from, to).Keys;
  }

  class Store {
    const master: int
    var rows: Rows

    constructor (master: int)
      ensures this.master == master && rows == map[]
    {
      this.master := master;
      rows := map[];
    }

    /** `_upsert`, with its optimistic lock. */
    method Upsert(id: Id, secret: string, setBy: Option<string>, copiedTo: Option<string>, expected: Option<nat>)
      returns (ok: bool)
      modifies this
      ensures ok <==> (expected.Some? && id in old(rows) ==> old(rows)[id].version == expected.value)
      ensures rows == if ok then UpsertRows(master, old(rows), id, secret, setBy, copiedTo) else old(rows)
      ensures ok ==> Reveal(master, rows, id) == Some(secret)
      ensures forall other | other != id :: Reveal(master, rows, other) == old(Reveal(master, rows, other))
      ensures ok ==> Posed(old(rows), rows, id) && rows[id].setBy == setBy && rows[id].copiedTo == copiedTo
    {
      if expected.Some? && id in rows && rows[id].version != expected.value {
        return false;
      }
      rows := UpsertRows(master, rows, id, secret, setBy, copiedTo);
      return true;
    }

    /** `rename_account`: `None` when the row is there but does not open. */
    method RenameAccount(owner: Owner, connector: string, from: string, to: string) returns (renamed: Option<bool>)
      modifies this
      ensures
        var source, target := Id(owner, connector, from), Id(owner, connector, to);
        if source !in old(rows) then renamed == Some(false) && rows == old(rows)
        else if !Readable(master, old(rows), source) then renamed == None && rows == old(rows)
        else renamed == Some(true) && rows == RenameRows(master, old(rows), source, target)
             && Renamed(master, old(rows), rows, source, target)
    {
      var source := Id(owner, connector, from);
      if source !in rows {
        return Some(false);
      }
      var secret := Decrypt(master, rows[source].secret, Aad(source));
      if secret.None? {
        return None;
      }
      RenamedRows(master, rows, source, Id(owner, connector, to));
      hide Posed, Renamed, Aad;
      var _ := Upsert(Id(owner, connector, to), secret.value, None, rows[source].copiedTo, None);
      rows := rows - {source};
      return Some(true);
    }

    /** `ensure_named_coexistence`, before a credential is posed under `account`: refused when
        an unnamed one would join named ones; otherwise the unnamed row, if there is one and
        a named one is coming, first takes a free name. */
    method EnsureNamedCoexistence(owner: Owner, connector: string, account: string) returns (ok: bool)
      modifies this
      ensures ok <==>
        && (account == "" ==> Accounts(old(rows), owner, connector) <= {""})
        && (account != "" && "" in Accounts(old(rows), owner, connector) ==>
              Readable(master, old(rows), Id(owner, connector, "")))
      ensures !ok ==> rows == old(rows)
      ensures ok && (account == "" || "" !in Accounts(old(rows), owner, connector)) ==> rows == old(rows)
      ensures ok && account != "" && "" in Accounts(old(rows), owner, connector) ==>
        exists target ::
          && target != "" && target != account && target !in Accounts(old(rows), owner, connector)
          && RenameLossless(master, old(rows), rows, Id(owner, connector, ""), Id(owner, connector, target))
          && rows == RenameRows(master, old(rows), Id(owner, connector, ""), Id(owner, connector, target))
      ensures ok && account != "" ==> "" !in Accounts(rows, owner, connector)
    {
      var existing := Accounts(rows, owner, connector);
      if account == "" {
        ok := forall a <- existing :: a == "";
        return;
      }
      if "" !in existing {
        return true;
      }
      var target := FreeName(existing + {account});
      var source := Id(owner, connector, "");
      assert source in rows;
      assert Id(owner, connector, target) !in rows by {
        assert Id(owner, connector, target).account !in existing;
      }
      if Readable(master, rows, source) {
        RenameLosslessIffFree(master, rows, source, Id(owner, connector, target));
      }
      var renamed := RenameAccount(owner, connector, "", target);
      ok := renamed.Some?;
      if ok {
        assert source !in rows;
      }
    }

    // The first of `principal`, `principal-2`, `principal-3`… that is not taken.
    method FreeName(taken: set<string>) returns (target: string)
      ensures target !in taken && target != ""
      ensures exists i: nat :: i >= 1 && target == Principal(i) && forall j: nat | 1 <= j < i :: Principal(j) in taken
      ensures "principal" !in taken ==> target == "principal"
      ensures "principal" in taken ==> exists i: nat :: i >= 2 && target == "principal-" + Digits(i)
    {
      var i := 1;
      target := Principal(1);
      ghost var tried: set<string> := {};
      while target in taken
        invariant i >= 1 && target == Principal(i)
        invariant forall j: nat | 1 <= j < i :: Principal(j) in taken
        invariant tried <= taken
        invariant forall name <- tried :: exists j: nat :: 1 <= j < i && name == Principal(j)
        decreases |taken| - |tried|
      {
        assert target !in tried by {
          if target in tried {
            var j: nat :| 1 <= j < i && target == Principal(j);
            PrincipalInjective(i, j);
          }
        }
        tried := tried + {target};
        SizeGrows(tried, taken);
        i := i + 1;
        target := Principal(i);
      }
    }

    // One row of the re-key: decrypted under its old identity, sealed again under the new.
    method RekeyRow(id: Id, newSub: string) returns (outcome: Outcome)
      requires id in rows
      modifies this
      ensures rows == RekeyNext(master, old(rows), newSub, id)
      ensures outcome == if Rekeyed(id, newSub) in old(rows) then Taken
                         else if Readable(master, old(rows), id) then Done else Unopened
    {
      var target := Rekeyed(id, newSub);
      if target in rows {
        return Taken;
      }
      var secret := Decrypt(master, rows[id].secret, Aad(id));
      if secret.None? {
        return Unopened;
      }
      rows := (rows - {id})[target := rows[id].(secret := Encrypt(master, secret.value, Aad(target)))];
      return Done;
    }

    method RekeyAndCount(id: Id, oldSub: string, newSub: string, counts: RekeyCounts, ghost before: Rows, ghost done: set<Id>)
      returns (next: RekeyCounts)
      requires RekeyApplies(oldSub, newSub) && id in before && Personal(id, oldSub)
      requires id !in done && done <= PersonalRows(before, oldSub)
      requires RekeyedUpTo(master, before, rows, oldSub, newSub, done) && counts == RekeyTally(master, before, newSub, done)
      modifies this
      ensures RekeyedUpTo(master, before, rows, oldSub, newSub, done + {id})
      ensures next == RekeyTally(master, before, newSub, done + {id})
    {
      hide *;
      RekeyStep(master, before, rows, oldSub, newSub, done, id);
      TallyStep(master, before, newSub, done, id);
      SameReading(master, before, rows, id);
      var outcome := RekeyRow(id, newSub);
      next := match outcome
        case Taken => counts.(collisions := counts.collisions + 1)
        case Unopened => counts.(unreadable := counts.unreadable + 1)
        case Done => counts.(rekeyed := counts.rekeyed + 1);
    }

    /** `rekey_personal_credentials`. */
    method RekeyPersonal(oldSub: string, newSub: string) returns (counts: RekeyCounts)
      modifies this
      ensures !RekeyApplies(oldSub, newSub) ==> rows == old(rows) && counts == RekeyCounts(0, 0, 0)
      ensures RekeyApplies(oldSub, newSub) ==>
        && RekeyedUpTo(master, old(rows), rows, oldSub, newSub, PersonalRows(old(rows), oldSub))
        && counts == RekeyTally(master, old(rows), newSub, PersonalRows(old(rows), oldSub))
        && counts.rekeyed + counts.collisions + counts.unreadable == |PersonalRows(old(rows), oldSub)|
      ensures oldSub != "" && newSub != "" && oldSub != newSub ==>
        && (forall connector, account ::
              Follows(master, old(rows), rows, Id(User(oldSub), connector, account), Id(User(newSub), connector, account)))
        && (forall org, connector, account ::
              Follows(master, old(rows), rows, Id(Member(org, oldSub), connector, account), Id(Member(org, newSub), connector, account)))
        && forall id <- old(rows) | !OwnedBy(id, oldSub) :: id in rows && rows[id] == old(rows)[id]
      ensures oldSub != "" && newSub != "" && oldSub != newSub ==>
        && counts.rekeyed + counts.collisions + counts.unreadable == |set id | id in old(rows) && OwnedBy(id, oldSub)|
        && counts.rekeyed == |set id | id in old(rows) && id !in rows|
        && counts.collisions == |set id | id in old(rows) && OwnedBy(id, oldSub) && Heir(id, newSub) in old(rows)|
    {
      counts := RekeyCounts(0, 0, 0);
      if oldSub == "" || newSub == "" || oldSub == newSub {
        return;
      }
      var todo := PersonalRows(rows, oldSub);
      ghost var all, done := todo, {};
      assert RekeyedUpTo(master, rows, rows, oldSub, newSub, done);
      assert counts == RekeyTally(master, rows, newSub, done);
      assert forall id <- all :: id in rows && Personal(id, oldSub);
      assert Split(all, todo, done);
      hide *;
      while todo != {}
        invariant Split(all, todo, done)
        invariant RekeyedUpTo(master, old(rows), rows, oldSub, newSub, done)
        invariant counts == RekeyTally(master, old(rows), newSub, done)
        decreases todo
      {
        ghost var some := SomeElement(todo);
        var id :| id in todo;
        SplitStep(all, todo, done, id);
        counts := RekeyAndCount(id, oldSub, newSub, counts, old(rows), done);
        todo, done := todo - {id}, done + {id};
      }
      SplitEnd(all, done);
      TallySums(master, old(rows), newSub, all);
      RekeyByOwner(master, old(rows), rows, oldSub, newSub);
      RekeyCounted(master, old(rows), rows, oldSub, newSub);
    }

    // One row of the copy.
    method CopyRow(id: Id, to: string) returns (outcome: Outcome)
      requires id in rows
      modifies this
      ensures rows == CopyNext(master, old(rows), to, id)
      ensures outcome == if Carried(id, to) in old(rows) then Taken
                         else if Readable(master, old(rows), id) then Done else Unopened
    {
      var target := Carried(id, to);
      if target in rows {
        rows := rows[id := rows[id].(copiedTo := Some(to))];
        return Taken;
      }
      var secret := Decrypt(master, rows[id].secret, Aad(id));
      if secret.None? {
        return Unopened;
      }
      var _ := Upsert(target, secret.value, rows[id].setBy, rows[id].copiedTo, None);
      rows := rows[id := rows[id].(copiedTo := Some(to))];
      return Done;
    }

    method CopyAndCount(id: Id, from: string, to: string, counts: CopyCounts, ghost before: Rows, ghost done: set<Id>)
      returns (next: CopyCounts)
      requires Unmarked(before, id, from) && id !in done && done <= ToCopy(before, from)
      requires CopiedUpTo(master, before, rows, from, to, done) && counts == CopyTally(master, before, to, done)
      modifies this
      ensures CopiedUpTo(master, before, rows, from, to, done + {id}) && next == CopyTally(master, before, to, done + {id})
    {
      hide *;
      CopyStep(master, before, rows, from, to, done, id);
      CopyTallyStep(master, before, to, done, id);
      SameReading(master, before, rows, id);
      var outcome := CopyRow(id, to);
      next := match outcome
        case Taken => counts.(present := counts.present + 1)
        case Unopened => counts.(unreadable := counts.unreadable + 1)
        case Done => counts.(copied := counts.copied + 1);
    }

    /** `copy_connector_rows`. */
    method CopyConnectorRows(from: string, to: string) returns (counts: CopyCounts)
      modifies this
      ensures CopiedUpTo(master, old(rows), rows, from, to, ToCopy(old(rows), from))
      ensures counts == CopyTally(master, old(rows), to, ToCopy(old(rows), from))
      ensures counts.copied + counts.present + counts.unreadable == |ToCopy(old(rows), from)|
      ensures forall id <- old(rows) | id.connector != from || old(rows)[id].copiedTo.Some? :: id in rows && rows[id] == old(rows)[id]
      ensures forall owner, account |
                Id(owner, from, account) in old(rows) && old(rows)[Id(owner, from, account)].copiedTo.None? ::
                CopiedRow(master, old(rows), rows, Id(owner, from, account), Id(owner, to, account), to)
      ensures forall id <- rows :: id in old(rows) || (id.connector == to && Id(id.owner, from, id.account) in old(rows))
      ensures counts.copied == |set id | id in rows && id !in old(rows)|
      ensures counts.unreadable == |set id | id in rows && id in old(rows) && id.connector == from && rows[id].copiedTo.None?|
    {
      counts := CopyCounts(0, 0, 0);
      var todo := ToCopy(rows, from);
      ghost var all, done := todo, {};
      assert CopiedUpTo(master, rows, rows, from, to, done);
      assert counts == CopyTally(master, rows, to, done);
      assert forall id <- all :: Unmarked(rows, id, from);
      assert Split(all, todo, done);
      hide *;
      while todo != {}
        invariant Split(all, todo, done)
        invariant CopiedUpTo(master, old(rows), rows, from, to, done)
        invariant counts == CopyTally(master, old(rows), to, done)
        decreases todo
      {
        ghost var some := SomeElement(todo);
        var id :| id in todo;
        SplitStep(all, todo, done, id);
        counts := CopyAndCount(id, from, to, counts, old(rows), done);
        todo, done := todo - {id}, done + {id};
      }
      SplitEnd(all, done);
      CopyTallySums(master, old(rows), to, all);
      CopyByRow(master, old(rows), rows, from, to);
      CopyCounted(master, old(rows), rows, from, to);
    }
  }

  datatype Outcome = Done | Taken | Unopened

  lemma SameReading(master: int, before: Rows, after: Rows, id: Id)
    requires id in before && id in after && before[id] == after[id]
    ensures Readable(master, before, id) <==> Readable(master, after, id)
  {
  }

  datatype CopyCounts = CopyCounts(copied: nat, present: nat, unreadable: nat)

  function CopyTally(master: int, rows: Rows, to: string, ids: set<Id>): CopyCounts {
    CopyCounts(|Copied(master, rows, to, ids)|, |AlreadyThere(rows, to, ids)|, |Unopenable(master, rows, to, ids)|)
  }

  function Copied(master: int, rows: Rows, to: string, ids: set<Id>): set<Id> {
    set id | id in ids && Carried(id, to) !in rows && Readable(master, rows, id)
  }

  function AlreadyThere(rows: Rows, to: string, ids: set<Id>): set<Id> {
    set id | id in ids && Carried(id, to) in rows
  }

  function Unopenable(master: int, rows: Rows, to: string, ids: set<Id>): set<Id> {
    set id | id in ids && Carried(id, to) !in rows && !Readable(master, rows, id)
  }

  lemma CopyTallyStep(master: int, rows: Rows, to: string, done: set<Id>, id: Id)
    requires id !in done
    ensures
      var before, after := CopyTally(master, rows, to, done), CopyTally(master, rows, to, done + {id});
      after == if Carried(id, to) in rows then before.(present := before.present + 1)
               else if Readable(master, rows, id) then before.(copied := before.copied + 1)
               else before.(unreadable := before.unreadable + 1)
  {
    hide Carried, Readable;
    var taken, open_ := Carried(id, to) in rows, Readable(master, rows, id);
    GrowsBy(Copied(master, rows, to, done), Copied(master, rows, to, done + {id}), id, !taken && open_);
    GrowsBy(AlreadyThere(rows, to, done), AlreadyThere(rows, to, done + {id}), id, taken);
    GrowsBy(Unopenable(master, rows, to, done), Unopenable(master, rows, to, done + {id}), id, !taken && !open_);
  }

  // The counters: the rows added, and those left without a mark.
  lemma CopyCounted(master: int, before: Rows, after: Rows, from: string, to: string)
    requires CopiedUpTo(master, before, after, from, to, ToCopy(before, from))
    ensures
      var tally := CopyTally(master, before, to, ToCopy(before, from));
      && tally.copied == |set id | id in after && id !in before|
      && tally.unreadable == |set id | id in after && id in before && id.connector == from && after[id].copiedTo.None?|
  {
    CopiesCounted(master, before, after, from, to);
    hide Aad;
    assert Unopenable(master, before, to, ToCopy(before, from))
        == set id | id in after && id in before && id.connector == from && after[id].copiedTo.None?;
  }

  lemma CopiesCounted(master: int, before: Rows, after: Rows, from: string, to: string)
    requires CopiedUpTo(master, before, after, from, to, ToCopy(before, from))
    ensures |Copied(master, before, to, ToCopy(before, from))| == |set id | id in after && id !in before|
  {
    var copied := Copied(master, before, to, ToCopy(before, from));
    var added, images := (set id | id in after && id !in before), set id | id in copied :: Carried(id, to);
    CarriedSize(copied, from, to);
    hide Readable;
    forall id
      ensures id in added <==> id in images
    {
      if id in added {
        var src :| src in ToCopy(before, from) && Copies(master, before, from, to, src) && id == Carried(src, to);
        assert src in copied;
      }
    }
    assert added == images;
  }

  lemma CarriedSize(ids: set<Id>, from: string, to: string)
    requires forall id <- ids :: id.connector == from
    ensures |set id | id in ids :: Carried(id, to)| == |ids|
    decreases |ids|
  {
    var images := set id | id in ids :: Carried(id, to);
    if ids != {} {
      var some := SomeElement(ids);
      var fewer := ids - {some};
      CarriedSize(fewer, from, to);
      var rest := set id | id in fewer :: Carried(id, to);
      forall id | id in rest
        ensures id != Carried(some, to)
      {
        var x :| x in fewer && id == Carried(x, to);
        assert Id(x.owner, from, x.account) == x && Id(some.owner, from, some.account) == some;
      }
      assert images == rest + {Carried(some, to)};
    }
  }

  lemma CopyTallySums(master: int, rows: Rows, to: string, ids: set<Id>)
    ensures
      var tally := CopyTally(master, rows, to, ids);
      tally.copied + tally.present + tally.unreadable == |ids|
  {
    assert ids == Copied(master, rows, to, ids) + AlreadyThere(rows, to, ids) + Unopenable(master, rows, to, ids);
  }
}

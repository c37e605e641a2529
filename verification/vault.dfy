// The credential vault (oto_mcp/credentials_store.py): rows sealed under their own
// identity, and the gestures that move them to another one.

module Vault {
  import opened Options
  import opened Decimal

  // The kinds of entities that are not a person.
  type SharedKind = k: string | k != "user" && k != "member" witness "org"

  /** The entity that holds a row; a personal key belongs to a `User` or a `Member`. */
  datatype Owner = User(sub: string) | Member(org: nat, sub: string) | Shared(kind: SharedKind, ident: string)

  /** The primary key of a row. */
  datatype Id = Id(owner: Owner, connector: string, account: string)

  function OwnerText(o: Owner): string {
    match o
    case User(sub) => "user:" + sub
    case Member(org, sub) => "member:" + Digits(org) + ":" + sub
    case Shared(kind, ident) => kind + ":" + ident
  }

  // `_aad`: the identity a ciphertext is bound to.
  function Aad(id: Id): string {
    "connector_credentials:" + OwnerText(id.owner) + ":" + id.connector +
    (if id.account == "" then "" else ":" + id.account)
  }

  /** A ciphertext: it opens under the same master key and the same bound identity only. */
  datatype Sealed = Sealed(master: int, aad: string, plain: string)

  datatype Row = Row(secret: Sealed, copiedTo: Option<string>, setBy: Option<string>, version: nat, sharing: string)

  type Rows = map<Id, Row>

  function Encrypt(master: int, plain: string, aad: string): Sealed {
    Sealed(master, aad, plain)
  }

  function Decrypt(master: int, secret: Sealed, aad: string): Option<string> {
    if secret.master == master && secret.aad == aad then Some(secret.plain) else None
  }

  // What a read of the row gives: its plaintext, or nothing when it does not open.
  function Reveal(master: int, rows: Rows, id: Id): Option<string> {
    if id in rows then Decrypt(master, rows[id].secret, Aad(id)) else None
  }

  predicate Readable(master: int, rows: Rows, id: Id) {
    Reveal(master, rows, id).Some?
  }

  // ---- re-keying the personal rows of a merged account

  predicate Personal(id: Id, sub: string) {
    (id.owner.User? || id.owner.Member?) && id.owner.sub == sub
  }

  function Rekeyed(id: Id, sub: string): Id {
    if id.owner.User? then id.(owner := User(sub))
    else if id.owner.Member? then id.(owner := Member(id.owner.org, sub))
    else id
  }

  function PersonalRows(rows: Rows, sub: string): set<Id> {
    set id | id in rows && Personal(id, sub)
  }

  predicate RekeyApplies(oldSub: string, newSub: string) {
    oldSub != "" && newSub != "" && oldSub != newSub
  }

  // The rows the re-key moves: the identity they go to is free, and they open.
  predicate Moves(master: int, rows: Rows, oldSub: string, newSub: string, id: Id) {
    Personal(id, oldSub) && Rekeyed(id, newSub) !in rows && Readable(master, rows, id)
  }

  function MovedRow(row: Row, master: int, target: Id): Row {
    row.(secret := Encrypt(master, row.secret.plain, Aad(target)))
  }

  // Where the row of `id` is after the rows of `done` have been dealt with.
  predicate RekeyedUpTo(master: int, before: Rows, after: Rows, oldSub: string, newSub: string, done: set<Id>) {
    && (forall id <- before ::
          if id in done && Moves(master, before, oldSub, newSub, id)
          then id !in after && Rekeyed(id, newSub) in after
               && after[Rekeyed(id, newSub)] == MovedRow(before[id], master, Rekeyed(id, newSub))
          else id in after && after[id] == before[id])
    && (forall id <- after :: id in before ||
          exists src <- done :: src in before && Moves(master, before, oldSub, newSub, src) && id == Rekeyed(src, newSub))
  }

  datatype RekeyCounts = RekeyCounts(rekeyed: nat, collisions: nat, unreadable: nat)

  function RekeyTally(master: int, rows: Rows, newSub: string, ids: set<Id>): RekeyCounts {
    RekeyCounts(|Movable(master, rows, newSub, ids)|, |Colliding(rows, newSub, ids)|, |Shut(master, rows, newSub, ids)|)
  }

  function Movable(master: int, rows: Rows, newSub: string, ids: set<Id>): set<Id> {
    set id | id in ids && Rekeyed(id, newSub) !in rows && Readable(master, rows, id)
  }

  function Colliding(rows: Rows, newSub: string, ids: set<Id>): set<Id> {
    set id | id in ids && Rekeyed(id, newSub) in rows
  }

  function Shut(master: int, rows: Rows, newSub: string, ids: set<Id>): set<Id> {
    set id | id in ids && Rekeyed(id, newSub) !in rows && !Readable(master, rows, id)
  }

  lemma RekeyedInjective(a: Id, b: Id, oldSub: string, newSub: string)
    requires Personal(a, oldSub) && Personal(b, oldSub) && Rekeyed(a, newSub) == Rekeyed(b, newSub)
    ensures a == b
  {
  }

  // The rows once the one of `id` has been dealt with.
  function RekeyNext(master: int, rows: Rows, newSub: string, id: Id): Rows
    requires id in rows
  {
    var target := Rekeyed(id, newSub);
    if target !in rows && Readable(master, rows, id) then (rows - {id})[target := MovedRow(rows[id], master, target)]
    else rows
  }

  // One more row dealt with.
  lemma RekeyStep(master: int, before: Rows, after: Rows, oldSub: string, newSub: string, done: set<Id>, id: Id)
    requires RekeyApplies(oldSub, newSub)
    requires RekeyedUpTo(master, before, after, oldSub, newSub, done)
    requires id in before && Personal(id, oldSub) && id !in done && done <= PersonalRows(before, oldSub)
    ensures Rekeyed(id, newSub) in after <==> Rekeyed(id, newSub) in before
    ensures id in after && after[id] == before[id]
    ensures RekeyedUpTo(master, before, RekeyNext(master, after, newSub, id), oldSub, newSub, done + {id})
  {
    var next := RekeyNext(master, after, newSub, id);
    var target := Rekeyed(id, newSub);
    assert !Personal(target, oldSub);
    assert id in after && after[id] == before[id];
    if target in after && target !in before {
      var src :| src in done && Moves(master, before, oldSub, newSub, src) && target == Rekeyed(src, newSub);
      RekeyedInjective(id, src, oldSub, newSub);
    }
    assert Rekeyed(id, newSub) in after <==> Rekeyed(id, newSub) in before;
    forall x | x in before
      ensures if x in done + {id} && Moves(master, before, oldSub, newSub, x)
              then x !in next && Rekeyed(x, newSub) in next
                   && next[Rekeyed(x, newSub)] == MovedRow(before[x], master, Rekeyed(x, newSub))
              else x in next && next[x] == before[x]
    {
      if x != id && x in done && Moves(master, before, oldSub, newSub, x) && Rekeyed(x, newSub) == target {
        RekeyedInjective(id, x, oldSub, newSub);
      }
    }
  }

  lemma TallyStep(master: int, rows: Rows, newSub: string, done: set<Id>, id: Id)
    requires id !in done
    ensures
      var before, after := RekeyTally(master, rows, newSub, done), RekeyTally(master, rows, newSub, done + {id});
      after == if Rekeyed(id, newSub) in rows then before.(collisions := before.collisions + 1)
               else if Readable(master, rows, id) then before.(rekeyed := before.rekeyed + 1)
               else before.(unreadable := before.unreadable + 1)
  {
    hide Readable, Rekeyed;
    var target := Rekeyed(id, newSub);
    var open_ := Readable(master, rows, id);
    GrowsBy(Movable(master, rows, newSub, done), Movable(master, rows, newSub, done + {id}), id, target !in rows && open_);
    GrowsBy(Colliding(rows, newSub, done), Colliding(rows, newSub, done + {id}), id, target in rows);
    GrowsBy(Shut(master, rows, newSub, done), Shut(master, rows, newSub, done + {id}), id, target !in rows && !open_);
  }

  lemma GrowsBy(small: set<Id>, big: set<Id>, id: Id, added: bool)
    requires id !in small && (id in big <==> added) && forall x | x != id :: x in small <==> x in big
    ensures |big| == |small| + if added then 1 else 0
  {
    assert big == if added then small + {id} else small;
  }

  /** The three counters of a re-key sum to the rows it selected. */
  lemma TallySums(master: int, rows: Rows, newSub: string, ids: set<Id>)
    ensures
      var tally := RekeyTally(master, rows, newSub, ids);
      tally.rekeyed + tally.collisions + tally.unreadable == |ids|
  {
    assert ids == Movable(master, rows, newSub, ids) + Colliding(rows, newSub, ids) + Shut(master, rows, newSub, ids);
  }

  // Where a row is once the re-key is done.
  function Settled(master: int, rows: Rows, oldSub: string, newSub: string, id: Id): Id {
    if Moves(master, rows, oldSub, newSub, id) then Rekeyed(id, newSub) else id
  }

  // Two rows never settle at the same place.
  lemma SettledApart(master: int, rows: Rows, oldSub: string, newSub: string, a: Id, b: Id)
    requires a in rows && b in rows && Settled(master, rows, oldSub, newSub, a) == Settled(master, rows, oldSub, newSub, b)
    ensures a == b
  {
    if Moves(master, rows, oldSub, newSub, a) && Moves(master, rows, oldSub, newSub, b) {
      RekeyedInjective(a, b, oldSub, newSub);
    }
  }

  /** What a re-key does to the plaintexts: each one is readable at exactly one place, the
      identity the row went to, and nothing that was there is overwritten or lost. */
  lemma RekeyKeepsPlaintexts(master: int, before: Rows, after: Rows, oldSub: string, newSub: string)
    requires RekeyApplies(oldSub, newSub)
    requires RekeyedUpTo(master, before, after, oldSub, newSub, PersonalRows(before, oldSub))
    ensures forall id <- before ::
              var place := Settled(master, before, oldSub, newSub, id);
              && place in after && Reveal(master, after, place) == Reveal(master, before, id)
              && after[place].(secret := before[id].secret) == before[id]
    ensures forall a, b | a in before && b in before
              && Settled(master, before, oldSub, newSub, a) == Settled(master, before, oldSub, newSub, b) :: a == b
    ensures forall id <- after :: exists src <- before :: id == Settled(master, before, oldSub, newSub, src)
  {
    forall a, b | a in before && b in before
                  && Settled(master, before, oldSub, newSub, a) == Settled(master, before, oldSub, newSub, b)
      ensures a == b
    {
      SettledApart(master, before, oldSub, newSub, a, b);
    }
    forall id | id in after
      ensures exists src <- before :: id == Settled(master, before, oldSub, newSub, src)
    {
      if id in before {
        assert id == Settled(master, before, oldSub, newSub, id);
      }
    }
  }

  /** A replay moves nothing: the rows it still finds are the ones left for good. */
  lemma RekeyReplayMovesNothing(master: int, before: Rows, after: Rows, oldSub: string, newSub: string)
    requires RekeyApplies(oldSub, newSub)
    requires RekeyedUpTo(master, before, after, oldSub, newSub, PersonalRows(before, oldSub))
    ensures forall id <- PersonalRows(after, oldSub) :: !Moves(master, after, oldSub, newSub, id)
    ensures RekeyTally(master, after, newSub, PersonalRows(after, oldSub)).rekeyed == 0
  {
    forall id | id in PersonalRows(after, oldSub)
      ensures !Moves(master, after, oldSub, newSub, id)
    {
      assert id in before && !Moves(master, before, oldSub, newSub, id);
      if Rekeyed(id, newSub) in before {
        assert !Personal(Rekeyed(id, newSub), oldSub);
        assert Rekeyed(id, newSub) in after;
      }
    }
    assert Movable(master, after, newSub, PersonalRows(after, oldSub)) == {};
  }

  // One row and where it goes: it is there alone, all but its ciphertext as it was and with the
  // same plaintext, if the place was free and the row opens; otherwise it stays.
  predicate Follows(master: int, before: Rows, after: Rows, source: Id, target: Id) {
    source in before ==>
      if target !in before && Reveal(master, before, source).Some? then
        && source !in after && target in after && Reveal(master, after, target) == Reveal(master, before, source)
        && after[target].(secret := before[source].secret) == before[source]
      else source in after && after[source] == before[source]
  }

  predicate OwnedBy(id: Id, sub: string) {
    match id.owner
    case User(s) => s == sub
    case Member(_, s) => s == sub
    case Shared(_, _) => false
  }

  /** Kind by kind: the row of a user goes to the other user, the row of a member to the member of
      that same organisation, and a row whose owner is neither stays as it is. */
  lemma RekeyByOwner(master: int, before: Rows, after: Rows, oldSub: string, newSub: string)
    requires RekeyApplies(oldSub, newSub)
    requires RekeyedUpTo(master, before, after, oldSub, newSub, PersonalRows(before, oldSub))
    ensures forall connector, account ::
              Follows(master, before, after, Id(User(oldSub), connector, account), Id(User(newSub), connector, account))
    ensures forall org, connector, account ::
              Follows(master, before, after, Id(Member(org, oldSub), connector, account), Id(Member(org, newSub), connector, account))
    ensures forall id <- before | !OwnedBy(id, oldSub) :: id in after && after[id] == before[id]
    ensures PersonalRows(before, oldSub) == set id | id in before && OwnedBy(id, oldSub)
  {
    hide Aad;
  }

  /** The counters: what moved, what found its place taken, what does not open. */
  lemma RekeyCounted(master: int, before: Rows, after: Rows, oldSub: string, newSub: string)
    requires RekeyApplies(oldSub, newSub)
    requires RekeyedUpTo(master, before, after, oldSub, newSub, PersonalRows(before, oldSub))
    ensures
      var tally := RekeyTally(master, before, newSub, PersonalRows(before, oldSub));
      && tally.rekeyed == |set id | id in before && id !in after|
      && tally.unreadable == |set id | id in before && id in after && OwnedBy(id, oldSub) && Heir(id, newSub) !in before|
      && tally.collisions == |set id | id in before && OwnedBy(id, oldSub) && Heir(id, newSub) in before|
  {
    var selected := PersonalRows(before, oldSub);
    hide Aad;
    assert forall id <- selected :: Heir(id, newSub) == Rekeyed(id, newSub);
    assert Movable(master, before, newSub, selected) == set id | id in before && id !in after;
    assert Shut(master, before, newSub, selected)
        == set id | id in before && id in after && OwnedBy(id, oldSub) && Heir(id, newSub) !in before;
    assert Colliding(before, newSub, selected) == set id | id in before && OwnedBy(id, oldSub) && Heir(id, newSub) in before;
  }

  // The same row under another account.
  function Heir(id: Id, sub: string): Id {
    match id.owner
    case User(_) => Id(User(sub), id.connector, id.account)
    case Member(org, _) => Id(Member(org, sub), id.connector, id.account)
    case Shared(_, _) => id
  }

  // ---- copying the rows of a connector to the one that takes over

  function Carried(id: Id, connector: string): Id {
    id.(connector := connector)
  }

  predicate Unmarked(rows: Rows, id: Id, connector: string) {
    id in rows && id.connector == connector && rows[id].copiedTo.None?
  }

  function ToCopy(rows: Rows, connector: string): set<Id> {
    set id | id in rows && Unmarked(rows, id, connector)
  }

  predicate Copies(master: int, rows: Rows, from: string, to: string, id: Id) {
    Unmarked(rows, id, from) && Carried(id, to) !in rows && Readable(master, rows, id)
  }

  function CopyOf(master: int, row: Row, target: Id): Row {
    Row(Encrypt(master, row.secret.plain, Aad(target)), row.copiedTo, row.setBy, 1, "")
  }

  // The rows that were there once the sources of `done` have been dealt with: the sources are
  // marked, nothing else changes.
  predicate SourcesMarked(master: int, before: Rows, after: Rows, to: string, done: set<Id>) {
    forall id <- before ::
      && id in after
      && after[id] == if id in done && (Carried(id, to) in before || Readable(master, before, id))
                      then before[id].(copiedTo := Some(to)) else before[id]
  }

  predicate CopiesMade(master: int, before: Rows, after: Rows, from: string, to: string, done: set<Id>) {
    forall id <- before | id in done && Copies(master, before, from, to, id) ::
      Carried(id, to) in after && after[Carried(id, to)] == CopyOf(master, before[id], Carried(id, to))
  }

  predicate OnlyCopiesAdded(master: int, before: Rows, after: Rows, from: string, to: string, done: set<Id>) {
    forall id <- after :: id in before ||
      exists src <- done :: src in before && Copies(master, before, from, to, src) && id == Carried(src, to)
  }

  predicate CopiedUpTo(master: int, before: Rows, after: Rows, from: string, to: string, done: set<Id>) {
    && SourcesMarked(master, before, after, to, done)
    && CopiesMade(master, before, after, from, to, done)
    && OnlyCopiesAdded(master, before, after, from, to, done)
  }

  // The rows once the one of `id` has been dealt with.
  function CopyNext(master: int, rows: Rows, to: string, id: Id): Rows
    requires id in rows
  {
    var target, marked := Carried(id, to), rows[id].(copiedTo := Some(to));
    if target in rows then rows[id := marked]
    else if Readable(master, rows, id) then rows[target := CopyOf(master, rows[id], target)][id := marked]
    else rows
  }

  // The row of a copy not made yet is as it was.
  lemma NotCopiedYet(master: int, before: Rows, after: Rows, from: string, to: string, done: set<Id>, id: Id)
    requires CopiedUpTo(master, before, after, from, to, done)
    requires Unmarked(before, id, from) && id !in done && done <= ToCopy(before, from)
    ensures id in after && after[id] == before[id]
    ensures Carried(id, to) in after <==> Carried(id, to) in before
    ensures forall x <- done :: x in before && Carried(x, to) != Carried(id, to)
  {
    hide Copies, CopyOf;
    forall x | x in done
      ensures x in before && Carried(x, to) != Carried(id, to)
    {
      assert x.connector == id.connector;
      assert Carried(x, to) == Carried(id, to) ==> x == id;
    }
  }

  lemma CopyStep(master: int, before: Rows, after: Rows, from: string, to: string, done: set<Id>, id: Id)
    requires CopiedUpTo(master, before, after, from, to, done)
    requires Unmarked(before, id, from) && id !in done && done <= ToCopy(before, from)
    ensures id in before && id in after && after[id] == before[id]
    ensures Carried(id, to) in after <==> Carried(id, to) in before
    ensures CopiedUpTo(master, before, CopyNext(master, after, to, id), from, to, done + {id})
  {
    NotCopiedYet(master, before, after, from, to, done, id);
    assert Readable(master, after, id) <==> Readable(master, before, id);
    assert Copies(master, before, from, to, id) <==> Carried(id, to) !in before && Readable(master, before, id);
    hide Copies, CopyOf, Readable;
    OneMoreMarked(master, before, after, from, to, done, id);
    OneMoreMade(master, before, after, from, to, done, id);
    OneMoreCopy(master, before, after, from, to, done, id);
  }

  lemma OneMoreMarked(master: int, before: Rows, after: Rows, from: string, to: string, done: set<Id>, id: Id)
    requires SourcesMarked(master, before, after, to, done)
    requires id in before && id in after && after[id] == before[id] && id !in done
    requires Carried(id, to) in after <==> Carried(id, to) in before
    requires Readable(master, after, id) <==> Readable(master, before, id)
    ensures SourcesMarked(master, before, CopyNext(master, after, to, id), to, done + {id})
  {
    hide CopyOf, Readable;
  }

  lemma OneMoreMade(master: int, before: Rows, after: Rows, from: string, to: string, done: set<Id>, id: Id)
    requires CopiesMade(master, before, after, from, to, done)
    requires id in before && id in after && after[id] == before[id] && Unmarked(before, id, from)
    requires Carried(id, to) in after <==> Carried(id, to) in before
    requires Readable(master, after, id) <==> Readable(master, before, id)
    requires forall x <- done :: x in before && Carried(x, to) != Carried(id, to)
    ensures CopiesMade(master, before, CopyNext(master, after, to, id), from, to, done + {id})
  {
    hide CopyOf, Readable;
  }

  lemma OneMoreCopy(master: int, before: Rows, after: Rows, from: string, to: string, done: set<Id>, id: Id)
    requires OnlyCopiesAdded(master, before, after, from, to, done) && id in before && id in after
    requires Readable(master, after, id) <==> Readable(master, before, id)
    requires Carried(id, to) in after <==> Carried(id, to) in before
    requires Copies(master, before, from, to, id) <==> Carried(id, to) !in before && Readable(master, before, id)
    ensures OnlyCopiesAdded(master, before, CopyNext(master, after, to, id), from, to, done + {id})
  {
    hide Copies, CopyOf, Readable;
    var next := CopyNext(master, after, to, id);
    forall x | x in next
      ensures x in before || exists src <- done + {id} :: src in before && Copies(master, before, from, to, src) && x == Carried(src, to)
    {
      if x in after && x !in before {
        var src :| src in done && src in before && Copies(master, before, from, to, src) && x == Carried(src, to);
        assert src in done + {id};
      } else if x !in before {
        assert x == Carried(id, to) && id in done + {id};
      }
    }
  }

  /** After a copy, each source row opens as before, and so does its copy; no row of
      another connector is touched. */
  lemma CopyKeepsPlaintexts(master: int, before: Rows, after: Rows, from: string, to: string)
    requires CopiedUpTo(master, before, after, from, to, ToCopy(before, from))
    ensures forall id <- before :: Reveal(master, after, id) == Reveal(master, before, id)
    ensures forall id <- before | Copies(master, before, from, to, id) ::
              Reveal(master, after, Carried(id, to)) == Reveal(master, before, id)
    ensures forall id <- before | id.connector != from :: id in after && after[id] == before[id]
  {
  }

  /** Whatever is removed under the new connector afterwards, a replay copies nothing back:
      the rows it still selects are the unreadable ones. */
  lemma CopyNeverResurrects(master: int, before: Rows, after: Rows, from: string, to: string, removed: set<Id>)
    requires from != to && CopiedUpTo(master, before, after, from, to, ToCopy(before, from))
    requires forall id <- removed :: id.connector == to
    ensures forall id <- ToCopy(after - removed, from) :: !Readable(master, after - removed, id)
  {
    forall id | id in ToCopy(after - removed, from)
      ensures !Readable(master, after - removed, id)
    {
      assert id in after && id in before;
    }
  }

  /** Row by row: a marked row, or one of another connector, is untouched; one whose place is taken
      is marked; one that opens is marked too and has its copy there, new, with its author and
      nothing shared; the others stay as they are. */
  lemma CopyByRow(master: int, before: Rows, after: Rows, from: string, to: string)
    requires CopiedUpTo(master, before, after, from, to, ToCopy(before, from))
    ensures forall id <- before | id.connector != from || before[id].copiedTo.Some? :: id in after && after[id] == before[id]
    ensures forall owner, account |
              Id(owner, from, account) in before && before[Id(owner, from, account)].copiedTo.None? ::
              CopiedRow(master, before, after, Id(owner, from, account), Id(owner, to, account), to)
    ensures forall id <- after :: id in before || (id.connector == to && Id(id.owner, from, id.account) in before)
    ensures ToCopy(before, from) == set id | id in before && id.connector == from && before[id].copiedTo.None?
  {
    forall owner, account | Id(owner, from, account) in before && before[Id(owner, from, account)].copiedTo.None?
      ensures CopiedRow(master, before, after, Id(owner, from, account), Id(owner, to, account), to)
    {
      assert Carried(Id(owner, from, account), to) == Id(owner, to, account);
      hide Aad;
    }
    forall id | id in after && id !in before
      ensures id.connector == to && Id(id.owner, from, id.account) in before
    {
      CopyHasASource(master, before, after, from, to, id);
    }
  }

  lemma CopyHasASource(master: int, before: Rows, after: Rows, from: string, to: string, id: Id)
    requires OnlyCopiesAdded(master, before, after, from, to, ToCopy(before, from)) && id in after && id !in before
    ensures id.connector == to && Id(id.owner, from, id.account) in before
  {
    hide Readable;
    var src :| src in ToCopy(before, from) && Copies(master, before, from, to, src) && id == Carried(src, to);
    assert src == Id(id.owner, from, id.account);
  }

  predicate CopiedRow(master: int, before: Rows, after: Rows, source: Id, target: Id, to: string)
    requires source in before
  {
    && source in after
    && if target in before then after[source] == before[source].(copiedTo := Some(to))
       else if Reveal(master, before, source).None? then after[source] == before[source] && target !in after
       else
         && after[source] == before[source].(copiedTo := Some(to))
         && target in after && Reveal(master, after, target) == Reveal(master, before, source)
         && after[target].copiedTo.None? && after[target].setBy == before[source].setBy
         && after[target].version == 1 && after[target].sharing == ""
  }

  // ---- naming the accounts of a connector

  function Accounts(rows: Rows, owner: Owner, connector: string): set<string> {
    set id | id in rows && id.owner == owner && id.connector == connector :: id.account
  }

  function Principal(i: nat): string {
    if i < 2 then "principal" else "principal-" + Digits(i)
  }

  lemma PrincipalInjective(i: nat, j: nat)
    requires 1 <= i && 1 <= j && Principal(i) == Principal(j)
    ensures i == j
  {
    assert forall k: nat | k >= 2 :: |Principal(k)| > 10 && Principal(k)[10..] == Digits(k);
    if i >= 2 && j >= 2 {
      DigitsInjective(i, j);
    }
  }
}

// What the vault keeps over any sequence of gestures (oto_mcp/credentials_store.py).

module VaultRuns {
  import opened Options
  import opened Vault
  import opened VaultStore

  datatype Gesture =
    | Pose(id: Id, secret: string, setBy: Option<string>, copiedTo: Option<string>)
    | Remove(id: Id)
    | Rename(owner: Owner, connector: string, from: string, to: string)
    | Rekey(oldSub: string, newSub: string)
    | Copy(old_: string, new_: string)

  predicate Renames(master: int, rows: Rows, g: Gesture)
    requires g.Rename?
  {
    Readable(master, rows, Id(g.owner, g.connector, g.from))
  }

  // What one gesture makes of the rows.
  ghost predicate Leads(master: int, s: Rows, g: Gesture, t: Rows) {
    match g
    case Pose(id, secret, setBy, copiedTo) => t == UpsertRows(master, s, id, secret, setBy, copiedTo)
    case Remove(id) => t == s - {id}
    case Rename(owner, connector, from, to) =>
      t == if Renames(master, s, g) then RenameRows(master, s, Id(owner, connector, from), Id(owner, connector, to)) else s
    case Rekey(oldSub, newSub) =>
      if RekeyApplies(oldSub, newSub) then RekeyedUpTo(master, s, t, oldSub, newSub, PersonalRows(s, oldSub)) else t == s
    case Copy(old_, new_) => CopiedUpTo(master, s, t, old_, new_, ToCopy(s, old_))
  }

  ghost predicate IsRun(master: int, states: seq<Rows>, gestures: seq<Gesture>) {
    |states| == |gestures| + 1 && forall k | 0 <= k < |gestures| :: Leads(master, states[k], gestures[k], states[k + 1])
  }

  predicate AllOpen(master: int, rows: Rows) {
    forall id <- rows :: Readable(master, rows, id)
  }

  lemma StepKeepsOpen(master: int, s: Rows, g: Gesture, t: Rows)
    requires AllOpen(master, s) && Leads(master, s, g, t)
    ensures AllOpen(master, t)
  {
    match g
    case Pose(id, secret, setBy, copiedTo) => hide Aad;
    case Remove(id) =>
    case Rename(owner, connector, from, to) => hide Aad;
    case Rekey(oldSub, newSub) => RekeyKeepsOpen(master, s, oldSub, newSub, t);
    case Copy(old_, new_) => CopyKeepsOpen(master, s, old_, new_, t);
  }

  lemma RekeyKeepsOpen(master: int, s: Rows, oldSub: string, newSub: string, t: Rows)
    requires AllOpen(master, s) && Leads(master, s, Rekey(oldSub, newSub), t)
    ensures AllOpen(master, t)
  {
    if RekeyApplies(oldSub, newSub) {
      RekeyKeepsPlaintexts(master, s, t, oldSub, newSub);
      hide RekeyedUpTo, Settled, Reveal;
    }
  }

  lemma CopyKeepsOpen(master: int, s: Rows, old_: string, new_: string, t: Rows)
    requires AllOpen(master, s) && Leads(master, s, Copy(old_, new_), t)
    ensures AllOpen(master, t)
  {
    CopyKeepsPlaintexts(master, s, t, old_, new_);
    hide Reveal, Copies;
  }

  /** Every row of the vault opens under its own identity, after any sequence of gestures. */
  lemma {:induction false} EveryRowAlwaysOpens(master: int, states: seq<Rows>, gestures: seq<Gesture>, k: nat)
    requires IsRun(master, states, gestures) && k <= |gestures| && AllOpen(master, states[0])
    ensures AllOpen(master, states[k])
  {
    if k > 0 {
      EveryRowAlwaysOpens(master, states, gestures, k - 1);
      hide AllOpen, Leads;
      StepKeepsOpen(master, states[k - 1], gestures[k - 1], states[k]);
    }
  }

  // ---- nothing lost

  // A gesture that is not asked to replace or to remove: a pose on a new row, a renaming to a
  // free account, a re-keying, a copy.
  predicate Conserves(master: int, s: Rows, g: Gesture) {
    match g
    case Pose(id, _, _, _) => id !in s
    case Remove(id) => id !in s
    case Rename(owner, connector, _, to) => Renames(master, s, g) ==> Id(owner, connector, to) !in s
    case Rekey(_, _) => true
    case Copy(_, _) => true
  }

  // Where the row of `id` is after the gesture.
  function Place(master: int, s: Rows, g: Gesture, id: Id): Id {
    match g
    case Rename(owner, connector, from, to) =>
      if Renames(master, s, g) && id == Id(owner, connector, from) then Id(owner, connector, to) else id
    case Rekey(oldSub, newSub) =>
      if RekeyApplies(oldSub, newSub) then Settled(master, s, oldSub, newSub, id) else id
    case _ => id
  }

  // Each row is found at its place, with its plaintext, and alone there.
  ghost predicate Placed(master: int, s: Rows, g: Gesture, t: Rows) {
    && (forall id <- s :: Place(master, s, g, id) in t && Reveal(master, t, Place(master, s, g, id)) == Reveal(master, s, id))
    && (forall a, b | a in s && b in s && Place(master, s, g, a) == Place(master, s, g, b) :: a == b)
  }

  lemma RenamePlaces(master: int, s: Rows, g: Gesture, t: Rows)
    requires g.Rename? && Conserves(master, s, g) && Leads(master, s, g, t)
    ensures Placed(master, s, g, t)
  {
    var source, target := Id(g.owner, g.connector, g.from), Id(g.owner, g.connector, g.to);
    if Renames(master, s, g) {
      RenameLosslessIffFree(master, s, source, target);
      hide Aad, RenameRows, UpsertRows;
    }
  }

  lemma RekeyPlaces(master: int, s: Rows, g: Gesture, t: Rows)
    requires g.Rekey? && Leads(master, s, g, t)
    ensures Placed(master, s, g, t)
  {
    hide Reveal, RekeyedUpTo, Settled;
    if RekeyApplies(g.oldSub, g.newSub) {
      RekeyKeepsPlaintexts(master, s, t, g.oldSub, g.newSub);
    }
  }

  lemma CopyPlaces(master: int, s: Rows, g: Gesture, t: Rows)
    requires g.Copy? && Leads(master, s, g, t)
    ensures Placed(master, s, g, t)
  {
    CopyKeepsPlaintexts(master, s, t, g.old_, g.new_);
    hide Reveal, Copies, Readable;
  }

  lemma PlaceKeeps(master: int, s: Rows, g: Gesture, t: Rows)
    requires Conserves(master, s, g) && Leads(master, s, g, t)
    ensures Placed(master, s, g, t)
  {
    match g
    case Pose(_, _, _, _) => hide Aad;
    case Remove(_) =>
    case Rename(_, _, _, _) => RenamePlaces(master, s, g, t);
    case Rekey(_, _) => RekeyPlaces(master, s, g, t);
    case Copy(_, _) => CopyPlaces(master, s, g, t);
  }

  function PlaceAll(master: int, states: seq<Rows>, gestures: seq<Gesture>, k: nat, id: Id): Id
    requires |states| == |gestures| + 1 && k <= |gestures|
  {
    if k == 0 then id else Place(master, states[k - 1], gestures[k - 1], PlaceAll(master, states, gestures, k - 1, id))
  }

  /** Over any sequence of gestures that replace and remove nothing, each row of the start can
      be followed to a row of its own where the same plaintext opens: none is lost, and no two
      are merged. */
  lemma {:induction false} NoSecretIsLost(master: int, states: seq<Rows>, gestures: seq<Gesture>, k: nat)
    requires IsRun(master, states, gestures) && k <= |gestures|
    requires forall j | 0 <= j < |gestures| :: Conserves(master, states[j], gestures[j])
    ensures forall id <- states[0] ::
              PlaceAll(master, states, gestures, k, id) in states[k]
              && Reveal(master, states[k], PlaceAll(master, states, gestures, k, id)) == Reveal(master, states[0], id)
    ensures forall a, b | a in states[0] && b in states[0]
              && PlaceAll(master, states, gestures, k, a) == PlaceAll(master, states, gestures, k, b) :: a == b
  {
    if k > 0 {
      NoSecretIsLost(master, states, gestures, k - 1);
      hide Leads, Conserves, Place, Reveal;
      PlaceKeeps(master, states[k - 1], gestures[k - 1], states[k]);
    }
  }
}

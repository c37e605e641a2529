// What holds over whole runs of the archive protocol: nothing is lost, archives and
// registry lines never change, and the exact fate of a line that enters an open window.

module JournalRuns {
  import opened Options
  import opened JournalProtocol

  predicate IsRun(states: seq<State>, steps: seq<Step>) {
    |states| == |steps| + 1 && forall k | 0 <= k < |steps| :: Next(states[k], steps[k], states[k + 1])
  }

  predicate AllOutsideWindow(states: seq<State>, steps: seq<Step>)
    requires IsRun(states, steps)
  {
    forall k | 0 <= k < |steps| :: OutsideWindow(states[k], steps[k])
  }

  lemma {:induction false} RunKeepsInv(states: seq<State>, steps: seq<Step>, k: nat)
    requires IsRun(states, steps) && AllOutsideWindow(states, steps) && Inv(states[0])
    requires k <= |steps|
    ensures Inv(states[k])
  {
    if k > 0 {
      RunKeepsInv(states, steps, k - 1);
      StepKeeps(states[k - 1], steps[k - 1], states[k]);
    }
  }

  /** Nothing is lost: in every state of every run whose insertions stay out of the open
      windows, a line that ever entered the journal is in the database, or it is in its
      month's readable archive, recorded with the number of lines that archive holds. */
  lemma NoLineIsLost(states: seq<State>, steps: seq<Step>, k: nat, id: int)
    requires IsRun(states, steps) && AllOutsideWindow(states, steps) && Initial(states[0])
    requires k <= |steps| && id in states[k].history
    ensures
      var w, row := states[k].world, states[k].history[id];
      if id in w.db then w.db[id] == row
      else && !row.runFact && row.at.month in w.objects && row.at.month in w.registry
           && w.objects[row.at.month].readable
           && Record(id, row) in w.objects[row.at.month].records
           && w.registry[row.at.month] == Entry(Key(row.at.month), |w.objects[row.at.month].records|)
  {
    StartKeeps(states[0]);
    RunKeepsInv(states, steps, k);
    assert Kept(states[k], id);
  }

  // The steps from the `from`-th on insert nothing.
  predicate NothingInserted(steps: seq<Step>, from: nat) {
    forall j | from <= j < |steps| :: !steps[j].Insert?
  }

  /** A pass lets no line in: whatever was inserted before it, what it adds to a run stays
      outside the windows, and the invariant still holds when it ends. */
  lemma PassKeepsInv(states: seq<State>, steps: seq<Step>, states': seq<State>, steps': seq<Step>)
    requires IsRun(states, steps) && IsRun(states', steps') && states <= states' && steps <= steps'
    requires NothingInserted(steps', |steps|)
    ensures AllOutsideWindow(states, steps) ==> AllOutsideWindow(states', steps')
    ensures Inv(states[|steps|]) ==> Inv(states'[|steps'|])
  {
    if AllOutsideWindow(states, steps) {
      forall k | 0 <= k < |steps'|
        ensures OutsideWindow(states'[k], steps'[k])
      {
        if k < |steps| {
          assert states'[k] == states[k] && steps'[k] == steps[k];
          assert OutsideWindow(states[k], steps[k]);
        }
      }
    }
    var later, rest := states'[|steps|..], steps'[|steps|..];
    forall k | 0 <= k < |rest|
      ensures Next(later[k], rest[k], later[k + 1]) && OutsideWindow(later[k], rest[k])
    {
      assert Next(states'[|steps| + k], steps'[|steps| + k], states'[|steps| + k + 1]);
    }
    if Inv(states[|steps|]) {
      RunKeepsInv(later, rest, |rest|);
    }
  }

  // ---- what no step ever changes, whatever is inserted

  predicate Grows(s: State, t: State) {
    && (forall m <- s.world.objects :: m in t.world.objects && t.world.objects[m] == s.world.objects[m])
    && (forall m <- s.world.registry :: m in t.world.registry && t.world.registry[m] == s.world.registry[m])
    && (forall id <- s.world.db | s.world.db[id].runFact :: id in t.world.db && t.world.db[id] == s.world.db[id])
    && SubTable(s.history, t.history)
  }

  // An export never starts where an archive already stands.
  predicate WriteGuard(s: State) {
    && (s.phase.Copied? ==> s.phase.item.month !in s.world.objects)
    && (s.phase.Proved? && !s.phase.recorded ==> s.phase.item.month !in s.world.registry)
    && (s.phase.Stored? ==> s.phase.item.month !in s.world.registry)
    && (s.phase.Copied? ==> s.phase.item.month !in s.world.registry)
    && (s.phase.Looked? && s.phase.entry.None? ==> s.phase.item.month !in s.world.registry)
    && SubTable(s.world.db, s.history)
  }

  lemma StepGrows(s: State, step: Step, t: State)
    requires Next(s, step, t) && WriteGuard(s)
    ensures Grows(s, t) && WriteGuard(t)
  {
  }

  /** Write-once: over every run, insertions in open windows included, an archive is never
      rewritten, a registry line is never rewritten and a run fact is never deleted. */
  lemma {:induction false} NeverRewritten(states: seq<State>, steps: seq<Step>, j: nat, k: nat)
    requires IsRun(states, steps) && WriteGuard(states[0]) && j <= k <= |steps|
    ensures Grows(states[j], states[k]) && WriteGuard(states[k])
    decreases k
  {
    if k > 0 {
      NeverRewritten(states, steps, if j < k then j else k - 1, k - 1);
      StepGrows(states[k - 1], steps[k - 1], states[k]);
    }
  }

  // ---- what one pass keeps

  /** A line in the database when a pass begins is, when it ends or is cut short, still there,
      or in the readable and recorded archive of its month. */
  lemma PassLosesNoLine(states: seq<State>, steps: seq<Step>, states': seq<State>, steps': seq<Step>, id: int)
    requires IsRun(states, steps) && IsRun(states', steps') && states <= states' && steps <= steps'
    requires NothingInserted(steps', |steps|) && AllOutsideWindow(states, steps) && Initial(states[0])
    requires id in states[|steps|].world.db
    ensures
      var w, row := states'[|steps'|].world, states[|steps|].world.db[id];
      if id in w.db then w.db[id] == row
      else && row.at.month in w.objects && row.at.month in w.registry && w.objects[row.at.month].readable
           && Record(id, row) in w.objects[row.at.month].records
  {
    StartKeeps(states[0]);
    RunKeepsInv(states, steps, |steps|);
    PassKeepsInv(states, steps, states', steps');
    assert states'[|steps|] == states[|steps|] && states'[0] == states[0];
    NeverRewritten(states', steps', 0, |steps|);
    NeverRewritten(states', steps', |steps|, |steps'|);
    hide Inv, Initial, IsRun, AllOutsideWindow, NothingInserted;
    LineInHistory(states[|steps|], id);
    NoLineIsLost(states', steps', |steps'|, id);
  }

  lemma LineInHistory(s: State, id: int)
    requires Inv(s) && id in s.world.db
    ensures id in s.history && s.history[id] == s.world.db[id]
  {
  }

  // ---- the purge of one month, with insertions going on

  // The cursor the purge of the window starts, or goes on, from.
  function WindowCursor(phase: Phase): Instant
    requires phase.Copied? || phase.Stored? || phase.Proved? || phase.Purging?
  {
    if phase.Purging? then phase.cursor else Start(phase.item.month)
  }

  // The window of `month` stays open up to the last step, which ends its purge.
  predicate PurgeRun(states: seq<State>, steps: seq<Step>, month: int) {
    && IsRun(states, steps) && steps != [] && steps[|steps| - 1].PurgeDone?
    && forall k | 0 <= k < |steps| :: WindowOpen(states[k].phase, month)
  }

  lemma TailRun(states: seq<State>, steps: seq<Step>, month: int)
    requires PurgeRun(states, steps, month) && |steps| > 1
    ensures PurgeRun(states[1..], steps[1..], month)
  {
    assert steps[1..][|steps[1..]| - 1] == steps[|steps| - 1];
  }

  /** The batch loop, line by line: a line present at some moment of the window is still
      there when the purge ends if and only if it is out of the month, a run fact, or
      before the cursor of that moment. */
  lemma {:induction false} PurgeFate(states: seq<State>, steps: seq<Step>, month: int, id: int)
    requires PurgeRun(states, steps, month)
    requires SubTable(states[0].world.db, states[0].history) && id in states[0].world.db
    requires states[0].phase.Purging? ==> states[0].phase.cursor.month == month
    ensures
      var row, last := states[0].world.db[id], states[|steps|];
      if InRange(row, WindowCursor(states[0].phase), month) then id !in last.world.db
      else id in last.world.db && last.world.db[id] == row
    decreases |steps|
  {
    var s, step, t := states[0], steps[0], states[1];
    var row := s.world.db[id];
    if |steps| > 1 {
      TailRun(states, steps, month);
      assert WindowOpen(t.phase, month);
      if step.DeleteBatch? && id in step.batch {
        assert id in Remaining(s.world.db, s.phase.cursor, month);
        Gone(states[1..], steps[1..], month, id);
      } else {
        assert id in t.world.db && t.world.db[id] == row;
        if step.DeleteBatch? {
          var a :| a in step.batch && a in s.world.db && s.world.db[a].at == t.phase.cursor;
          assert a in Remaining(s.world.db, s.phase.cursor, month);
          assert InRange(row, s.phase.cursor, month) <==> InRange(row, t.phase.cursor, month) by {
            if InRange(row, s.phase.cursor, month) {
              assert id in Remaining(s.world.db, s.phase.cursor, month);
            }
          }
        }
        PurgeFate(states[1..], steps[1..], month, id);
      }
    } else {
      assert step.PurgeDone?;
      assert id !in Remaining(s.world.db, s.phase.cursor, month);
    }
  }

  // A deleted id never comes back: ids are given once.
  lemma {:induction false} Gone(states: seq<State>, steps: seq<Step>, month: int, id: int)
    requires PurgeRun(states, steps, month)
    requires id in states[0].history && id !in states[0].world.db
    ensures id !in states[|steps|].world.db
    decreases |steps|
  {
    if |steps| > 1 {
      TailRun(states, steps, month);
      Gone(states[1..], steps[1..], month, id);
    }
  }

  /** The one window the code does not detect, exactly: an archivable line that enters the
      month while its window is open survives the end of that purge if and only if it falls
      before the cursor; otherwise it is in neither store. */
  lemma LateLineFate(s: State, row: Row, id: int, states: seq<State>, steps: seq<Step>)
    requires Inv(s) && WindowOpen(s.phase, row.at.month) && !row.runFact
    requires PurgeRun(states, steps, row.at.month)
    requires Next(s, Insert(id, row), states[0])
    ensures id in states[|steps|].history
    ensures Kept(states[|steps|], id) <==> s.phase.Purging? && Before(row.at, s.phase.cursor)
  {
    var month, last := row.at.month, states[|steps|];
    PurgeFate(states, steps, month, id);
    NeverRewritten(states, steps, 0, |steps|);
    if s.phase.Copied? {
      CopiedArchive(states, steps, month, id);
    } else {
      assert forall r <- s.world.objects[month].records :: r.id in s.history;
      assert Record(id, row) !in s.world.objects[month].records;
    }
  }

  // An archive stored after the line entered was copied before it did.
  lemma {:induction false} CopiedArchive(states: seq<State>, steps: seq<Step>, month: int, id: int)
    requires PurgeRun(states, steps, month) && WriteGuard(states[0])
    requires states[0].phase.Copied? && id !in RecordIds(states[0].phase.snapshot)
    ensures month in states[|steps|].world.objects
    ensures forall r <- states[|steps|].world.objects[month].records :: r.id != id
    decreases |steps|
  {
    var s, step, t := states[0], steps[0], states[1];
    StepGrows(s, step, t);
    assert |steps| > 1 by {
      assert !step.PurgeDone?;
    }
    TailRun(states, steps, month);
    assert WindowOpen(t.phase, month);
    if step.Store? {
      NeverRewritten(states, steps, 1, |steps|);
      var records := t.world.objects[month].records;
      assert records == s.phase.snapshot;
      forall r | r in records
        ensures r.id != id
      {
        var k :| 0 <= k < |records| && records[k] == r;
        assert r.id in RecordIds(records);
      }
    } else {
      CopiedArchive(states[1..], steps[1..], month, id);
    }
  }

  // A batch that takes the two lines left of a month, then the end of its purge.
  lemma TwoLinesPurged(first: Row, late: Row, objects: map<nat, Archive>, registry: map<nat, Entry>)
    requires first == Row(Instant(0, 0), false, "first") && late == Row(Instant(0, 5), false, "late")
    ensures
      var item, h := Item(0, 1), map[1 := first, 2 := late];
      var s1 := State(World(h, objects, registry), Purging(item, Start(0), [], false), h);
      var s2 := State(World(map[], objects, registry), Purging(item, late.at, [], false), h);
      && Next(s1, DeleteBatch({1, 2}), s2)
      && Next(s2, PurgeDone, State(World(map[], objects, registry), Listed([], false), h))
  {
    var h: map<nat, Row> := map[1 := first, 2 := late];
    assert Remaining(h, Start(0), 0) == {1, 2};
    assert h - {1, 2} == map[];
    assert h[2].at == late.at;
    assert Remaining(map[], late.at, 0) == {};
  }

  // From an empty store to the purge: the month listed, copied, stored, verified and recorded.
  lemma OneLineArchived(first: Row)
    requires first == Row(Instant(0, 0), false, "first")
    ensures
      var db, item, record := map[1 := first], Item(0, 1), [Record(1, first)];
      var objects := map[0 := Archive(record, true)];
      var start := State(World(db, map[], map[]), Idle, db);
      var stored := start.(world := World(db, objects, map[]));
      && Initial(start)
      && Next(start, Begin(1, [item], false), start.(phase := Listed([item], false)))
      && Next(start.(phase := Listed([item], false)), Look, start.(phase := Looked(item, None, false, [], false)))
      && Next(start.(phase := Looked(item, None, false, [], false)), Copy(record), start.(phase := Copied(item, record, [], false)))
      && Next(start.(phase := Copied(item, record, [], false)), Store(Faithful), stored.(phase := Stored(item, [], false)))
      && Next(stored.(phase := Stored(item, [], false)), Verify, stored.(phase := Proved(item, 1, false, [], false)))
      && Next(stored.(phase := Proved(item, 1, false, [], false)), RecordMonth,
              State(World(db, objects, map[0 := Entry(Key(0), 1)]), Purging(item, Start(0), [], false), db))
  {
    var db: map<int, Row> := map[1 := first];
    var record := [Record(1, first)];
    assert Archivable(db, 0) == {1};
    assert Item(0, 1) in [Item(0, 1)];
    assert record[0].id == 1 && Enumerates(record, db, 0);
    var start := State(World(db, map[], map[]), Idle, db);
    var looked := start.(phase := Looked(Item(0, 1), None, false, [], false));
    assert Next(looked, Copy(record), looked.(phase := Copied(Item(0, 1), record, [], false)));
  }

  const FIRST := Row(Instant(0, 0), false, "first")
  const LATE := Row(Instant(0, 5), false, "late")

  // The month archived and its purge begun; then with the late line; and the end of the purge.
  const PURGING := State(World(map[1 := FIRST], map[0 := Archive([Record(1, FIRST)], true)], map[0 := Entry(Key(0), 1)]),
                         Purging(Item(0, 1), Start(0), [], false), map[1 := FIRST])
  const PURGED := State(World(map[], PURGING.world.objects, PURGING.world.registry), Listed([], false), map[1 := FIRST, 2 := LATE])

  // The run up to the purge, and the rest of it with the late line.
  lemma RunToThePurge() returns (states: seq<State>, steps: seq<Step>)
    ensures IsRun(states, steps) && |steps| == 6 && states[6] == PURGING
    ensures Initial(states[0]) && forall k | 0 <= k < 6 :: !steps[k].Insert?
  {
    var record, item, db := [Record(1, FIRST)], Item(0, 1), map[1 := FIRST];
    var start := State(World(db, map[], map[]), Idle, db);
    var stored := start.(world := World(db, map[0 := Archive(record, true)], map[]));
    OneLineArchived(FIRST);
    hide Next, Initial;
    states := [start, start.(phase := Listed([item], false)), start.(phase := Looked(item, None, false, [], false)),
               start.(phase := Copied(item, record, [], false)), stored.(phase := Stored(item, [], false)),
               stored.(phase := Proved(item, 1, false, [], false)), PURGING];
    steps := [Begin(1, [item], false), Look, Copy(record), Store(Faithful), Verify, RecordMonth];
  }

  lemma RunOfThePurge() returns (states: seq<State>, steps: seq<Step>)
    ensures IsRun(states, steps) && |steps| == 3 && states[0] == PURGING && states[3] == PURGED
    ensures steps[0] == Insert(2, LATE) && !steps[1].Insert? && !steps[2].Insert?
  {
    var objects, registry, h := PURGING.world.objects, PURGING.world.registry, map[1 := FIRST, 2 := LATE];
    var late1 := State(World(h, objects, registry), PURGING.phase, h);
    var late2 := State(World(map[], objects, registry), Purging(Item(0, 1), LATE.at, [], false), h);
    TwoLinesPurged(FIRST, LATE, objects, registry);
    assert Next(PURGING, Insert(2, LATE), late1);
    hide Next;
    states := [PURGING, late1, late2, PURGED];
    steps := [Insert(2, LATE), DeleteBatch({1, 2}), PurgeDone];
  }

  lemma RunsJoin(states: seq<State>, steps: seq<Step>, states': seq<State>, steps': seq<Step>)
    requires IsRun(states, steps) && IsRun(states', steps') && states[|steps|] == states'[0]
    ensures IsRun(states + states'[1..], steps + steps')
  {
    hide Next;
    var all, moves := states + states'[1..], steps + steps';
    forall k | 0 <= k < |moves|
      ensures Next(all[k], moves[k], all[k + 1])
    {
      if k >= |steps| {
        assert Next(states'[k - |steps|], steps'[k - |steps|], states'[k - |steps| + 1]);
      }
    }
  }

  /** The window condition is not vacuous: from an empty store, one line is archived, its month is
      being purged, and a second line enters that month: it is deleted and no archive holds it.
      That insertion is the only step inside a window. */
  lemma WindowLosesALine() returns (states: seq<State>, steps: seq<Step>)
    ensures IsRun(states, steps) && Initial(states[0])
    ensures forall k | 0 <= k < |steps| :: OutsideWindow(states[k], steps[k]) <==> k != 6
    ensures 2 in states[|steps|].history && !Kept(states[|steps|], 2)
  {
    var front, moves := RunToThePurge();
    var back, moves' := RunOfThePurge();
    RunsJoin(front, moves, back, moves');
    states, steps := front + back[1..], moves + moves';
    hide IsRun, Initial;
    assert states[6] == PURGING && steps[6] == Insert(2, LATE);
    assert states[9] == PURGED;
    assert !Kept(PURGED, 2) && WindowOpen(PURGING.phase, 0);
  }

  /** A batch never holds more than 20000 lines. */
  lemma BatchesAreBounded(states: seq<State>, steps: seq<Step>, k: nat)
    requires IsRun(states, steps) && k < |steps| && steps[k].DeleteBatch?
    ensures 0 < |steps[k].batch| <= 20000
    ensures forall id <- steps[k].batch :: id in states[k].world.db && !states[k].world.db[id].runFact
  {
    assert Next(states[k], steps[k], states[k + 1]);
  }
}

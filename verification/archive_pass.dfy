// One pass of the archiving job, as the code runs it (deploy/archive_tool_calls.py,
// `main` and the functions it calls), recorded step by step as a run of the protocol.

module JournalPass {
  import opened Options
  import opened JournalProtocol
  import opened JournalRuns
  import opened JournalConvergence
  import opened FiniteSets
  import BlockedBitmap

  lemma GrownIds(records: seq<Record>, r: Record)
    ensures RecordIds(records + [r]) == RecordIds(records) + {r.id}
  {
    var grown := records + [r];
    assert forall k | 0 <= k < |records| :: grown[k] == records[k];
    assert grown[|records|].id in RecordIds(grown);
    forall id | id in RecordIds(records)
      ensures id in RecordIds(grown)
    {
      var k :| 0 <= k < |records| && records[k].id == id;
      assert grown[k].id == id;
    }
  }

  // A run goes on by steps of one process: no insertion, no new pass, uploads as `upload`.
  predicate Continues(states: seq<State>, steps: seq<Step>, states': seq<State>, steps': seq<Step>, upload: Upload) {
    && states <= states' && steps <= steps'
    && forall j | |steps| <= j < |steps'| ::
         !steps'[j].Insert? && !steps'[j].Begin? && (steps'[j].Store? ==> steps'[j].upload == upload)
  }

  lemma ContinuesOn(states: seq<State>, steps: seq<Step>, states': seq<State>, steps': seq<Step>,
                    states'': seq<State>, steps'': seq<Step>, upload: Upload)
    requires Continues(states, steps, states', steps', upload) && Continues(states', steps', states'', steps'', upload)
    ensures Continues(states, steps, states'', steps'', upload)
  {
  }

  lemma ContinuesOnTrack(origin: Table, bound: int, states: seq<State>, steps: seq<Step>,
                         states': seq<State>, steps': seq<Step>)
    requires Continues(states, steps, states', steps', Faithful) && IsRun(states, steps) && IsRun(states', steps')
    requires OnTrack(origin, bound, states[|steps|])
    ensures OnTrack(origin, bound, states'[|steps'|])
  {
    StaysOnTrack(origin, bound, states', steps', |steps|, |steps'|);
  }

  // Purging a month leaves the other months as they are.
  lemma PurgeIsLocal(db: Table, month: int, other: int)
    ensures Archivable(db - Archivable(db, month), other) == if other == month then {} else Archivable(db, other)
  {
    forall id | id in Archivable(db, other) && other != month
      ensures id !in Archivable(db, month)
    {
    }
    if other == month {
      forall id | id in db - Archivable(db, month)
        ensures !InRange(db[id], Start(month), month)
      {
        assert id !in Archivable(db, month);
      }
    }
  }

  // After a batch, what is left of the month is what lies at or after the new cursor.
  lemma BatchAdvances(db: Table, cursor: Instant, month: int, limit: nat, batch: set<int>, latest: Instant)
    requires IsBatch(db, cursor, month, limit, batch) && IsLatest(db, batch, latest)
    ensures Remaining(db - batch, latest, month) == Remaining(db, cursor, month) - batch
  {
    var a :| a in batch && a in db && db[a].at == latest;
    assert a in Remaining(db, cursor, month);
    forall id
      ensures id in Remaining(db - batch, latest, month) <==> id in Remaining(db, cursor, month) - batch
    {
    }
  }

  // The object of a month reads, and holds as many lines as the listing announced.
  predicate Counted(w: World, item: Item, count: nat) {
    && item.month in w.objects && w.objects[item.month].readable
    && |w.objects[item.month].records| == item.count == count
  }

  lemma ResumableIff(w: World, month: int, entry: Option<Entry>)
    ensures Resumable(w, month, entry) <==>
      && month in w.objects && w.objects[month].readable
      && var records := w.objects[month].records;
      && (forall j, k | 0 <= j < k < |records| :: records[j].id != records[k].id)
      && (entry.Some? ==> entry.value == Entry(Key(month), |records|))
      && (forall id | id in w.db && w.db[id].at.month == month && !w.db[id].runFact :: exists k | 0 <= k < |records| :: records[k].id == id)
      && (entry.None? ==> forall k | 0 <= k < |records| ::
            records[k].id in w.db && w.db[records[k].id].at.month == month && !w.db[records[k].id].runFact)
  {
    hide Key;
    if month in w.objects {
      var records := w.objects[month].records;
      DistinctCount(records);
      forall id
        ensures id in Archivable(w.db, month) <==> id in w.db && w.db[id].at.month == month && !w.db[id].runFact
      {
        if id in w.db {
          MonthRange(w.db[id], month);
        }
      }
      hide Archivable;
      if Archivable(w.db, month) <= RecordIds(records) {
        SameSizeIff(Archivable(w.db, month), RecordIds(records));
      }
      assert forall id :: id in RecordIds(records) <==> exists k | 0 <= k < |records| :: records[k].id == id;
      hide RecordIds;
      assert RecordIds(records) <= Archivable(w.db, month) <==> forall k | 0 <= k < |records| :: records[k].id in Archivable(w.db, month);
    }
  }

  lemma SameSizeIff(small: set<int>, big: set<int>)
    requires small <= big
    ensures |small| == |big| <==> big <= small
  {
    if |small| == |big| {
      SubsetOfSameSize(small, big);
    }
    assert big <= small ==> small == big;
  }

  class Pass {
    var world: World
    // Where the pass is, and the run of the protocol it has made so far.
    ghost var phase: Phase
    ghost var history: Table
    ghost var trace: seq<State>
    ghost var steps: seq<Step>

    ghost function Now(): State
      reads this
    {
      State(world, phase, history)
    }

    ghost predicate Valid()
      reads this
    {
      IsRun(trace, steps) && trace[|steps|] == Now()
    }

    // The run went on from what it was, by steps of this process alone.
    twostate predicate Extended(upload: Upload)
      reads this
    {
      Valid() && history == old(history) && Continues(old(trace), old(steps), trace, steps, upload)
    }

    lemma Reflexive(upload: Upload)
      ensures Continues(trace, steps, trace, steps, upload)
    {
    }

    ghost method Advance(step: Step, before: State)
      requires IsRun(trace, steps) && trace[|steps|] == before
      requires Next(before, step, Now())
      modifies this`trace, this`steps
      ensures Valid() && trace == old(trace) + [Now()] && steps == old(steps) + [step]
    {
      trace, steps := trace + [Now()], steps + [step];
    }

    /** `_relire_archive` with its ids: how many records, and the set of their ids. */
    method ReadBack(archive: Archive) returns (count: nat, ids: BlockedBitmap.Ids)
      ensures count == |archive.records|
      ensures fresh(ids) && fresh(ids.blocks.Values) && ids.Valid() && ids.Contents == RecordIds(archive.records)
    {
      ids := new BlockedBitmap.Ids();
      count := 0;
      while count < |archive.records|
        invariant count <= |archive.records|
        invariant fresh(ids) && fresh(ids.blocks.Values) && ids.Valid()
        invariant ids.Contents == RecordIds(archive.records[..count])
      {
        GrownIds(archive.records[..count], archive.records[count]);
        assert archive.records[..count + 1] == archive.records[..count] + [archive.records[count]];
        ids.Add(archive.records[count].id);
        count := count + 1;
      }
      assert archive.records[..count] == archive.records;
    }

    /** `_hors_archive`: the lines of the month still in the database, and how many of them
        the archive does not hold. */
    method CountOutside(month: int, ids: BlockedBitmap.Ids) returns (remaining: nat, absent: nat)
      requires ids.Valid()
      ensures remaining == |Archivable(world.db, month)|
      ensures absent == |Archivable(world.db, month) - ids.Contents|
    {
      remaining, absent := 0, 0;
      var todo := Archivable(world.db, month);
      ghost var all, done, outside := todo, {}, {};
      assert Split(all, todo, done);
      hide Split, Archivable, BlockedBitmap.Ids.Valid;
      while todo != {}
        invariant Split(all, todo, done)
        invariant remaining == |done|
        invariant outside == done - ids.Contents && absent == |outside|
        decreases todo
      {
        ghost var some := SomeElement(todo);
        var id :| id in todo;
        SplitStep(all, todo, done, id);
        var found := ids.Contains(id);
        remaining := remaining + 1;
        if !found {
          absent := absent + 1;
        }
        OneMore(done, ids.Contents, id);
        outside := (done + {id}) - ids.Contents;
        todo, done := todo - {id}, done + {id};
      }
      SplitEnd(all, done);
    }

    // What the checks of a resumption prove of the archive.
    lemma ResumedMonth(month: int, entry: Option<Entry>)
      requires Resumable(world, month, entry)
      ensures entry.None? ==> RecordIds(world.objects[month].records) == Archivable(world.db, month)
      ensures Inv(Now()) ==>
                && (forall id <- Archivable(world.db, month) :: Record(id, world.db[id]) in world.objects[month].records)
                && (entry.None? ==> Enumerates(world.objects[month].records, world.db, month))
    {
      hide Resumable, Inv, Enumerates;
      if entry.None? {
        AdoptedIdsAreThoseLeft(world, month);
      }
      if Inv(Now()) {
        ResumedRecordsAreTheLines(Now(), month, entry);
      }
    }

    /** `_reprendre`: the count of the archive when the deletion can go on, or nothing. It can when
        the registry line is of this object and of its count, the object reads with no id twice and
        holds every line left, and, without a registry line, no other. */
    method ResumeMonth(month: int, entry: Option<Entry>) returns (count: Option<nat>)
      ensures count.Some? <==>
        && month in world.objects && world.objects[month].readable
        && var records := world.objects[month].records;
        && (forall j, k | 0 <= j < k < |records| :: records[j].id != records[k].id)
        && (entry.Some? ==> entry.value == Entry(Key(month), |records|))
        && (forall id | id in world.db && world.db[id].at.month == month && !world.db[id].runFact :: exists k | 0 <= k < |records| :: records[k].id == id)
        && (entry.None? ==> forall k | 0 <= k < |records| ::
              records[k].id in world.db && world.db[records[k].id].at.month == month && !world.db[records[k].id].runFact)
      ensures count.Some? <==> Resumable(world, month, entry)
      ensures count.Some? ==> count.value == |world.objects[month].records|
      ensures count.Some? && entry.None? ==> RecordIds(world.objects[month].records) == Archivable(world.db, month)
      ensures count.Some? && Inv(Now()) ==>
                && (forall id <- Archivable(world.db, month) :: Record(id, world.db[id]) in world.objects[month].records)
                && (entry.None? ==> Enumerates(world.objects[month].records, world.db, month))
    {
      ResumableIff(world, month, entry);
      if entry.Some? && entry.value.key != Key(month) {
        return None;
      }
      if month !in world.objects || !world.objects[month].readable {
        return None;
      }
      var read, ids := ReadBack(world.objects[month]);
      if ids.distinct != read || (entry.Some? && read != entry.value.count) {
        return None;
      }
      var remaining, absent := CountOutside(month, ids);
      NoneOutside(Archivable(world.db, month), ids.Contents);
      if (entry.None? && (absent != 0 || read != remaining)) || absent != 0 {
        return None;
      }
      assert Resumable(world, month, entry);
      ResumedMonth(month, entry);
      return Some(read);
    }

    /** The export query: the archivable lines of the month, in some order. */
    method CopyMonth(month: int) returns (records: seq<Record>)
      ensures Enumerates(records, world.db, month)
    {
      records := [];
      var todo := Archivable(world.db, month);
      ghost var all := todo;
      while todo != {}
        invariant todo <= all && RecordIds(records) == all - todo && DistinctIds(records)
        invariant forall r <- records :: r.id in world.db && r.row == world.db[r.id]
        decreases todo
      {
        ghost var some := SomeElement(todo);
        var id :| id in todo;
        ghost var before := records;
        records := records + [Record(id, world.db[id])];
        GrownIds(before, Record(id, world.db[id]));
        assert forall k | 0 <= k < |before| :: before[k].id in RecordIds(before);
        todo := todo - {id};
      }
    }

    /** The batch statement: the first lines of the month from the cursor on, by instant. */
    method SelectBatch(cursor: Instant, month: int, limit: nat) returns (batch: set<int>)
      ensures IsBatch(world.db, cursor, month, limit, batch)
    {
      batch := {};
      var rest := Remaining(world.db, cursor, month);
      while |batch| < limit && rest != {}
        invariant batch !! rest && batch + rest == Remaining(world.db, cursor, month)
        invariant |batch| <= limit
        invariant forall a, b | a in batch && b in rest :: AtMost(world.db[a].at, world.db[b].at)
        decreases rest
      {
        var first := Earliest(rest);
        batch, rest := batch + {first}, rest - {first};
      }
    }

    method Earliest(ids: set<int>) returns (first: int)
      requires ids != {} && ids <= world.db.Keys
      ensures first in ids && forall id <- ids :: AtMost(world.db[first].at, world.db[id].at)
    {
      ghost var some := SomeElement(ids);
      first :| first in ids;
      var todo := ids - {first};
      while todo != {}
        invariant first in ids && todo <= ids
        invariant forall id <- ids - todo :: AtMost(world.db[first].at, world.db[id].at)
        decreases todo
      {
        ghost var some := SomeElement(todo);
        var id :| id in todo;
        if Before(world.db[id].at, world.db[first].at) {
          first := id;
        }
        todo := todo - {id};
      }
    }

    method Latest(ids: set<int>) returns (latest: Instant)
      requires ids != {} && ids <= world.db.Keys
      ensures IsLatest(world.db, ids, latest)
    {
      ghost var some := SomeElement(ids);
      var last :| last in ids;
      var todo := ids - {last};
      while todo != {}
        invariant last in ids && todo <= ids
        invariant forall id <- ids - todo :: AtMost(world.db[id].at, world.db[last].at)
        decreases todo
      {
        ghost var some := SomeElement(todo);
        var id :| id in todo;
        if Before(world.db[last].at, world.db[id].at) {
          last := id;
        }
        todo := todo - {id};
      }
      latest := world.db[last].at;
    }

    /** `_export_month`, from the copy to the check of the size of what was stored. */
    method ExportMonth(month: int, upload: Upload) returns (ok: bool)
      requires Valid() && phase.Looked? && phase.item.month == month && phase.entry.None? && !phase.present
      requires month !in world.objects
      modifies this
      ensures Extended(upload) && ok == upload.Faithful?
      ensures world.db == old(world.db) && world.registry == old(world.registry)
      ensures ok ==> phase == Stored(old(phase.item), old(phase.todo), old(phase.exportOnly))
      ensures ok ==> month in world.objects && world.objects[month].readable
      ensures ok ==> Enumerates(world.objects[month].records, world.db, month)
      ensures !ok ==> phase.Idle?
    {
      var snapshot := CopyMonth(month);
      ghost var before := Now();
      phase := Copied(phase.item, snapshot, phase.todo, phase.exportOnly);
      Advance(Copy(snapshot), before);
      before := Now();
      world := world.(objects := world.objects[month := StoredArchive(snapshot, upload)]);
      ok := upload.Faithful?;
      phase := if ok then Stored(phase.item, phase.todo, phase.exportOnly) else Idle;
      Advance(Store(upload), before);
    }

    // One batch, its own transaction.
    method DeleteSelected(month: int, batch: set<int>, latest: Instant, ghost upload: Upload)
      requires Valid() && phase.Purging? && phase.item.month == month && batch != {}
      requires IsBatch(world.db, phase.cursor, month, BATCH_SIZE, batch) && IsLatest(world.db, batch, latest)
      modifies this
      ensures Extended(upload)
      ensures world == old(world).(db := old(world.db) - batch) && phase == old(phase).(cursor := latest)
    {
      ghost var before := Now();
      world := world.(db := world.db - batch);
      phase := phase.(cursor := latest);
      Advance(DeleteBatch(batch), before);
    }

    // A step that only moves the pass on.
    ghost method Move(step: Step, to: Phase, upload: Upload)
      requires Valid() && Next(Now(), step, Now().(phase := to))
      requires !step.Insert? && !step.Begin? && !step.Store?
      modifies this`phase, this`trace, this`steps
      ensures Extended(upload) && phase == to
    {
      var before := Now();
      phase := to;
      Advance(step, before);
    }

    // The batch that finds nothing.
    ghost method EndPurge(month: int, upload: Upload)
      requires Valid() && phase.Purging? && phase.item.month == month
      requires IsBatch(world.db, phase.cursor, month, BATCH_SIZE, {})
      modifies this`phase, this`trace, this`steps
      ensures Extended(upload) && phase == Listed(old(phase.todo), old(phase.exportOnly))
    {
      Move(PurgeDone, Listed(phase.todo, phase.exportOnly), upload);
    }

    /** `_delete_month`: batch after batch, until one finds nothing. */
    method DeleteMonth(month: int, ghost upload: Upload) returns (total: nat)
      requires Valid() && phase.Purging? && phase.item.month == month && phase.cursor == Start(month)
      modifies this
      ensures Extended(upload)
      ensures world == old(world).(db := old(world.db) - Archivable(old(world.db), month))
      ensures total == |Archivable(old(world.db), month)|
      ensures phase == Listed(old(phase.todo), old(phase.exportOnly))
    {
      hide IsRun, IsLatest, Continues, Next;
      var cursor := Start(month);
      total := 0;
      ghost var all, gone := Archivable(world.db, month), {};
      assert Continues(trace, steps, trace, steps, upload) by { Reflexive(upload); }
      while true
        invariant Extended(upload)
        invariant phase == old(phase).(cursor := cursor)
        invariant gone <= all && total == |gone|
        invariant world == old(world).(db := old(world.db) - gone)
        invariant Remaining(world.db, cursor, month) == all - gone
        decreases |all - gone|
      {
        hide Remaining;
        ghost var trace0, steps0 := trace, steps;
        var batch := SelectBatch(cursor, month, BATCH_SIZE);
        if batch == {} {
          EndPurge(month, upload);
          ContinuesOn(old(trace), old(steps), trace0, steps0, trace, steps, upload);
          assert gone == all;
          break;
        }
        var latest := Latest(batch);
        BatchAdvances(world.db, cursor, month, BATCH_SIZE, batch, latest);
        DeleteSelected(month, batch, latest, upload);
        ContinuesOn(old(trace), old(steps), trace0, steps0, trace, steps, upload);
        cursor := latest;
        total := total + |batch|;
        gone := gone + batch;
      }
    }

    // `_record_archive`, for a month the pass found unrecorded.
    method RecordProved(item: Item, count: nat, recorded: bool, ghost upload: Upload)
      requires Valid() && phase.Proved? && phase.item == item && phase.count == count && phase.recorded == recorded
      requires !phase.exportOnly && (recorded || item.month !in world.registry)
      modifies this
      ensures Extended(upload)
      ensures phase == Purging(item, Start(item.month), old(phase.todo), false)
      ensures world == if recorded then old(world)
                       else old(world).(registry := old(world.registry)[item.month := Entry(Key(item.month), count)])
    {
      ghost var before := Now();
      if !recorded {
        world := world.(registry := world.registry[item.month := Entry(Key(item.month), count)]);
      }
      phase := Purging(item, Start(item.month), phase.todo, false);
      Advance(RecordMonth, before);
    }

    // A fresh export, read back and counted (`_export_month`, then `_verify_archive`).
    method ProveByExport(item: Item, exportOnly: bool, upload: Upload) returns (count: Option<nat>)
      requires Valid() && phase.Looked? && phase.item == item && phase.entry.None? && !phase.present
      requires phase.exportOnly == exportOnly && item.month !in world.objects
      modifies this
      ensures Extended(upload)
      ensures world.db == old(world.db) && world.registry == old(world.registry)
      ensures count.Some? <==> upload.Faithful? && |Archivable(old(world.db), item.month)| == item.count
      ensures count.None? ==> phase.Idle?
      ensures count.Some? ==> phase == Proved(item, count.value, false, old(phase.todo), exportOnly)
      ensures count.Some? ==> Counted(world, item, count.value)
    {
      ghost var trace0, steps0 := trace, steps;
      var ok := ExportMonth(item.month, upload);
      if !ok {
        return None;
      }
      ghost var trace1, steps1 := trace, steps;
      CountOf(world.objects[item.month].records, world.db, item.month);
      if |world.objects[item.month].records| == item.count {
        Move(Verify, Proved(item, item.count, false, phase.todo, exportOnly), upload);
        count := Some(item.count);
      } else {
        Move(Crash, Idle, upload);
        count := None;
      }
      ContinuesOn(trace0, steps0, trace1, steps1, trace, steps, upload);
    }

    // An archive or a registry line is already there (`_reprendre`).
    method ProveByResume(item: Item, entry: Option<Entry>, exportOnly: bool, ghost upload: Upload)
      returns (count: Option<nat>)
      requires Valid() && phase.Looked? && phase.item == item && phase.entry == entry
      requires (entry.Some? || phase.present) && phase.exportOnly == exportOnly
      modifies this
      ensures Extended(upload) && world == old(world)
      ensures count.Some? <==> Resumable(world, item.month, entry)
      ensures count.None? ==> phase.Idle?
      ensures count.Some? ==> phase == Proved(item, count.value, entry.Some?, old(phase.todo), exportOnly)
    {
      count := ResumeMonth(item.month, entry);
      if count.None? {
        Move(Crash, Idle, upload);
      } else {
        Move(Resume, Proved(item, count.value, entry.Some?, phase.todo, exportOnly), upload);
      }
    }

    /** What `main` proves of a month before anything of it is deleted. */
    method ProveMonth(item: Item, exportOnly: bool, upload: Upload) returns (count: Option<nat>)
      requires Valid() && phase.Listed? && phase.exportOnly == exportOnly
      requires phase.todo != [] && phase.todo[0] == item
      modifies this
      ensures Extended(upload)
      ensures world.db == old(world.db) && world.registry == old(world.registry)
      ensures count.Some? <==> Accepts(old(world), item, upload)
      ensures count.None? ==> phase.Idle?
      ensures count.Some? ==>
        phase == Proved(item, count.value, item.month in world.registry, old(phase.todo)[1..], exportOnly)
      ensures count.Some? && item.month !in old(world.registry) && item.month !in old(world.objects) ==>
                Counted(world, item, count.value)
    {
      hide IsRun, Resumable, Continues;
      var month := item.month;
      var entry := if month in world.registry then Some(world.registry[month]) else None;
      var present := month in world.objects;
      Move(Look, Looked(item, entry, present, phase.todo[1..], exportOnly), upload);
      ghost var trace1, steps1 := trace, steps;
      if entry.None? && !present {
        count := ProveByExport(item, exportOnly, upload);
      } else {
        count := ProveByResume(item, entry, exportOnly, upload);
      }
      ContinuesOn(old(trace), old(steps), trace1, steps1, trace, steps, upload);
    }

    /** The body of the loop of `main` on one month of the listing. */
    method ProcessMonth(item: Item, exportOnly: bool, upload: Upload) returns (ok: bool)
      requires Valid() && phase.Listed? && phase.exportOnly == exportOnly
      requires phase.todo != [] && phase.todo[0] == item
      modifies this
      ensures Extended(upload)
      ensures ok <==> Accepts(old(world), item, upload)
      ensures !ok ==> phase.Idle? && world.db == old(world.db) && world.registry == old(world.registry)
      ensures ok ==> phase == Listed(old(phase.todo)[1..], exportOnly)
      ensures ok && exportOnly ==> world.db == old(world.db) && world.registry == old(world.registry)
      ensures ok && !exportOnly ==> world.db == old(world.db) - Archivable(old(world.db), item.month)
    {
      var recorded := item.month in world.registry;
      var count := ProveMonth(item, exportOnly, upload);
      if count.None? {
        return false;
      }
      ghost var trace1, steps1 := trace, steps;
      if exportOnly {
        Move(StopAtExport, Listed(phase.todo, true), upload);
      } else {
        RecordProved(item, count.value, recorded, upload);
        ghost var trace2, steps2 := trace, steps;
        var _ := DeleteMonth(item.month, upload);
        ContinuesOn(trace1, steps1, trace2, steps2, trace, steps, upload);
      }
      ContinuesOn(old(trace), old(steps), trace1, steps1, trace, steps, upload);
      return true;
    }

    // The months of the listing, one after the other, until one is refused.
    method ProcessMonths(bound: int, todo: seq<Item>, exportOnly: bool, uploads: int -> Upload, ghost origin: Table)
      returns (ok: bool)
      requires Valid() && phase == Listed(todo, exportOnly) && GoodListing(world.db, bound, todo)
      modifies this
      ensures Valid() && old(trace) <= trace && old(steps) <= steps && NothingInserted(steps, |old(steps)|)
      ensures if ok then phase == Listed([], exportOnly) else phase.Idle?
      ensures ListingKeeps(old(world.db), world.db, bound, exportOnly)
      ensures ok ==> ListingHolds(old(world.db), world.db, bound, todo, |todo|, exportOnly)
      ensures old(OnTrack(origin, bound, Now())) && (forall m :: uploads(m).Faithful?) ==> ok && OnTrack(origin, bound, Now())
    {
      ghost var onTrack := OnTrack(origin, bound, Now()) && forall m :: uploads(m).Faithful?;
      var k := 0;
      hide IsRun, OnTrack, GoodListing, Accepts;
      while k < |todo|
        invariant k <= |todo|
        invariant Valid() && phase == Listed(todo[k..], exportOnly) && old(trace) <= trace && old(steps) <= steps
        invariant NothingInserted(steps, |old(steps)|)
        invariant onTrack ==> OnTrack(origin, bound, Now())
        invariant ListingHolds(old(world.db), world.db, bound, todo, k, exportOnly)
      {
        ghost var trace1, steps1, w1, now1 := trace, steps, world, Now();
        var item := todo[k];
        ok := ProcessMonth(item, exportOnly, uploads(item.month));
        if onTrack {
          ItemCounts(old(world.db), w1.db, bound, todo, k, exportOnly);
          OnTrackAccepts(origin, bound, now1, item);
          ContinuesOnTrack(origin, bound, trace1, steps1, trace, steps);
        }
        if !ok {
          return false;
        }
        ListingGoesOn(old(world.db), w1.db, world.db, bound, todo, k, exportOnly);
        k := k + 1;
      }
      return true;
    }

    ghost method BeginPass(bound: int, todo: seq<Item>, exportOnly: bool, origin: Table)
      requires Valid() && phase.Idle? && GoodListing(world.db, bound, todo)
      modifies this
      ensures Valid() && phase == Listed(todo, exportOnly) && world == old(world)
      ensures old(trace) <= trace && old(steps) <= steps && NothingInserted(steps, |old(steps)|)
      ensures old(OnTrack(origin, bound, Now())) ==> OnTrack(origin, bound, Now())
    {
      ghost var before := Now();
      phase := Listed(todo, exportOnly);
      Advance(Begin(bound, todo, exportOnly), before);
      hide IsRun, OnTrack, GoodListing;
      if OnTrack(origin, bound, before) {
        StepOnTrack(origin, bound, before, Begin(bound, todo, exportOnly), Now());
      }
    }

    ghost method EndPass(bound: int, origin: Table)
      requires Valid() && phase.Listed? && phase.todo == []
      modifies this
      ensures Valid() && phase.Idle? && world == old(world)
      ensures old(trace) <= trace && old(steps) <= steps && NothingInserted(steps, |old(steps)|)
      ensures old(OnTrack(origin, bound, Now())) ==> OnTrack(origin, bound, Now())
    {
      ghost var before := Now();
      Move(Finish, Idle, Faithful);
      hide IsRun, OnTrack;
      if OnTrack(origin, bound, before) {
        StepOnTrack(origin, bound, before, Finish, Now());
      }
    }

    /** `main`, on the months the listing found: `bound` is the first month that is not yet
        entirely out of the retention window, `uploads` says how each upload goes. */
    method RunPass(bound: int, todo: seq<Item>, exportOnly: bool, uploads: int -> Upload, ghost origin: Table)
      returns (ok: bool)
      requires Valid() && phase.Idle? && GoodListing(world.db, bound, todo)
      modifies this
      ensures Valid() && phase.Idle? && old(trace) <= trace && old(steps) <= steps
      ensures NothingInserted(steps, |old(steps)|)
      ensures old(AllOutsideWindow(trace, steps)) ==> AllOutsideWindow(trace, steps)
      ensures old(Inv(Now())) ==> Inv(Now())
      ensures SubTable(world.db, old(world.db))
      ensures forall id <- old(world.db) | old(world.db)[id].runFact || old(world.db)[id].at.month >= bound || exportOnly ::
                id in world.db
      ensures ok && !exportOnly ==> forall id <- world.db :: world.db[id].runFact || world.db[id].at.month >= bound
      ensures old(OnTrack(origin, bound, Now())) && (forall m :: uploads(m).Faithful?) ==>
                ok && OnTrack(origin, bound, Now()) && (!exportOnly ==> Finished(origin, bound, world))
    {
      hide IsRun, OnTrack, GoodListing, Inv, AllOutsideWindow, Finished;
      ghost var onTrack := OnTrack(origin, bound, Now()) && forall m :: uploads(m).Faithful?;
      BeginPass(bound, todo, exportOnly, origin);
      ok := ProcessMonths(bound, todo, exportOnly, uploads, origin);
      if ok {
        EndPass(bound, origin);
        if !exportOnly {
          AllPurged(old(world.db), world.db, bound, todo);
          if onTrack {
            NothingLeftIsFinished(origin, bound, Now());
          }
        }
      }
      PassKeepsInv(old(trace), old(steps), trace, steps);
    }
  }

  // A pass only deletes, and neither run facts nor lines still in the window.
  predicate ListingKeeps(start: Table, db: Table, bound: int, exportOnly: bool) {
    && SubTable(db, start)
    && forall id <- start | start[id].runFact || start[id].at.month >= bound || exportOnly :: id in db
  }

  // The database once the first `k` months of the listing are done.
  predicate ListingHolds(start: Table, db: Table, bound: int, todo: seq<Item>, k: nat, exportOnly: bool)
    requires k <= |todo|
  {
    && ListingKeeps(start, db, bound, exportOnly) && GoodListing(start, bound, todo)
    && (forall j | k <= j < |todo| :: Archivable(db, todo[j].month) == Archivable(start, todo[j].month))
    && (!exportOnly ==> forall j | 0 <= j < k :: Archivable(db, todo[j].month) == {})
  }

  // The count the listing announced for a month is still right when its turn comes.
  lemma ItemCounts(start: Table, db: Table, bound: int, todo: seq<Item>, k: nat, exportOnly: bool)
    requires k < |todo| && ListingHolds(start, db, bound, todo, k, exportOnly)
    ensures todo[k].count == |Archivable(db, todo[k].month)|
  {
    assert todo[k] in todo;
  }

  lemma ListingGoesOn(start: Table, db: Table, db': Table, bound: int, todo: seq<Item>, k: nat, exportOnly: bool)
    requires k < |todo| && ListingHolds(start, db, bound, todo, k, exportOnly)
    requires db' == if exportOnly then db else db - Archivable(db, todo[k].month)
    ensures ListingHolds(start, db', bound, todo, k + 1, exportOnly)
  {
    forall j | 0 <= j < |todo| {
      PurgeIsLocal(db, todo[k].month, todo[j].month);
    }
    assert todo[k] in todo;
  }

  lemma AllPurged(start: Table, db: Table, bound: int, todo: seq<Item>)
    requires ListingHolds(start, db, bound, todo, |todo|, false)
    ensures forall id <- db :: db[id].runFact || db[id].at.month >= bound
  {
    forall id | id in db && !db[id].runFact
      ensures db[id].at.month >= bound
    {
      forall i | i in todo
        ensures i.month != start[id].at.month
      {
        var j :| 0 <= j < |todo| && todo[j] == i;
        assert id !in Archivable(db, todo[j].month);
      }
    }
  }
}

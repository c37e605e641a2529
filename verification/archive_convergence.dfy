// Where an undisturbed run of the archive protocol leads, however often it is cut short.

module JournalConvergence {
  import opened Options
  import opened JournalProtocol
  import opened JournalRuns
  import opened FiniteSets

  // ---- what an undisturbed history converges to

  /** Every pass so far started from the lines `origin`, with faithful uploads, no foreign
      insertion and no month at or after `bound`. */
  predicate OnTrack(origin: Table, bound: int, s: State) {
    var w := s.world;
    && s.history == origin && SubTable(w.db, origin)
    && (forall m <- w.objects :: m < bound && w.objects[m].readable
                                 && Archivable(origin, m) != {} && Enumerates(w.objects[m].records, origin, m))
    && (forall m <- w.registry :: m in w.objects && w.registry[m] == Entry(Key(m), |Archivable(origin, m)|))
    && (forall id <- origin :: id in w.db || (!origin[id].runFact && origin[id].at.month in w.registry))
    && PhaseOnTrack(origin, bound, s)
  }

  predicate WorthArchiving(origin: Table, bound: int, item: Item) {
    item.month < bound && Archivable(origin, item.month) != {}
  }

  predicate PhaseOnTrack(origin: Table, bound: int, s: State) {
    var w := s.world;
    && (!s.phase.Idle? ==> forall i <- s.phase.todo :: WorthArchiving(origin, bound, i))
    && (!s.phase.Idle? && !s.phase.Listed? ==> WorthArchiving(origin, bound, s.phase.item))
    && match s.phase
       case Copied(item, snapshot, _, _) => Enumerates(snapshot, origin, item.month) && item.month !in w.registry
       case Stored(item, _, _) => item.month in w.objects && item.month !in w.registry
       case Proved(item, count, recorded, _, _) =>
         item.month in w.objects && count == |Archivable(origin, item.month)| && (recorded <==> item.month in w.registry)
       case Purging(item, cursor, _, _) => item.month in w.registry && cursor.month == item.month
       case Looked(item, entry, present, _, _) =>
         && (entry.Some? <==> item.month in w.registry)
         && (entry.Some? ==> entry.value == w.registry[item.month])
         && (present <==> item.month in w.objects)
       case _ => true
  }

  predicate Undisturbed(bound: int, step: Step) {
    !step.Insert? && (step.Store? ==> step.upload.Faithful?) && (step.Begin? ==> step.bound <= bound)
  }

  lemma UnrecordedMonthIsWhole(origin: Table, bound: int, s: State, month: int)
    requires OnTrack(origin, bound, s) && month !in s.world.registry
    ensures Archivable(s.world.db, month) == Archivable(origin, month)
  {
    forall id | id in Archivable(origin, month)
      ensures id in Archivable(s.world.db, month)
    {
      MonthRange(origin[id], month);
      assert id in s.world.db;
    }
    assert forall id <- Archivable(s.world.db, month) :: id in Archivable(origin, month);
  }

  lemma CountOf(records: seq<Record>, db: Table, month: int)
    requires Enumerates(records, db, month)
    ensures |records| == |Archivable(db, month)|
  {
    DistinctCount(records);
  }

  lemma CopyOnTrack(origin: Table, bound: int, s: State, step: Step, t: State)
    requires OnTrack(origin, bound, s) && Next(s, step, t) && step.Copy?
    ensures OnTrack(origin, bound, t)
  {
    UnrecordedMonthIsWhole(origin, bound, s, s.phase.item.month);
    forall r | r in step.snapshot
      ensures r.id in origin && r.row == origin[r.id]
    {
    }
  }

  lemma BatchOnTrack(origin: Table, bound: int, s: State, step: Step, t: State)
    requires OnTrack(origin, bound, s) && Next(s, step, t) && step.DeleteBatch?
    ensures OnTrack(origin, bound, t)
  {
    forall id | id in step.batch
      ensures !origin[id].runFact && origin[id].at.month == s.phase.item.month
    {
      assert id in Remaining(s.world.db, s.phase.cursor, s.phase.item.month);
    }
    var a :| a in step.batch && a in s.world.db && s.world.db[a].at == t.phase.cursor;
  }

  lemma StepOnTrack(origin: Table, bound: int, s: State, step: Step, t: State)
    requires OnTrack(origin, bound, s) && Next(s, step, t) && Undisturbed(bound, step)
    ensures OnTrack(origin, bound, t)
  {
    match step
    case Copy(_) => CopyOnTrack(origin, bound, s, step, t);
    case DeleteBatch(_) => BatchOnTrack(origin, bound, s, step, t);
    case Verify => CountOf(s.world.objects[s.phase.item.month].records, origin, s.phase.item.month);
    case Resume => CountOf(s.world.objects[s.phase.item.month].records, origin, s.phase.item.month);
    case Begin(b, todo, _) =>
      forall i | i in todo
        ensures WorthArchiving(origin, bound, i)
      {
        var id := SomeElement(Archivable(s.world.db, i.month));
        assert id in Archivable(origin, i.month);
      }
    case Look => assert forall i <- s.phase.todo[1..] :: i in s.phase.todo;
    case _ =>
  }

  /** Whatever the crashes and the `--export-only` passes, an undisturbed run stays on track. */
  lemma {:induction false} RunOnTrack(origin: Table, bound: int, states: seq<State>, steps: seq<Step>, k: nat)
    requires IsRun(states, steps) && Initial(states[0]) && states[0].history == origin && k <= |steps|
    requires forall j | 0 <= j < |steps| :: Undisturbed(bound, steps[j])
    ensures OnTrack(origin, bound, states[k])
  {
    if k > 0 {
      RunOnTrack(origin, bound, states, steps, k - 1);
      StepOnTrack(origin, bound, states[k - 1], steps[k - 1], states[k]);
    }
  }

  // The end of a pass that nothing interrupts: the lines of the months before `bound` are
  // archived, recorded and gone from the database.
  ghost predicate Finished(origin: Table, bound: int, w: World) {
    && SubTable(w.db, origin)
    && (forall id <- origin :: id in w.db <==> origin[id].runFact || origin[id].at.month >= bound)
    && (forall m <- w.objects :: m < bound && Archivable(origin, m) != {})
    && (forall m | m < bound && Archivable(origin, m) != {} ::
          && m in w.objects && w.objects[m].readable && Enumerates(w.objects[m].records, origin, m)
          && m in w.registry && w.registry[m] == Entry(Key(m), |Archivable(origin, m)|))
    && (forall m <- w.registry :: m in w.objects)
  }

  /** `Finished` determines the three stores, up to the order of the lines in an archive. */
  lemma FinishedIsOneState(origin: Table, bound: int, v: World, w: World)
    requires Finished(origin, bound, v) && Finished(origin, bound, w)
    ensures v.db == w.db && v.registry == w.registry && v.objects.Keys == w.objects.Keys
    ensures forall m <- v.objects :: v.objects[m].readable == w.objects[m].readable
                                     && multiset(v.objects[m].records) == multiset(w.objects[m].records)
  {
    forall m | m in v.objects
      ensures m in w.objects
      ensures multiset(v.objects[m].records) == multiset(w.objects[m].records)
    {
      SameRecords(v.objects[m].records, w.objects[m].records, origin, m);
    }
    forall m | m in w.objects
      ensures m in v.objects
    {
    }
    SameSet(v.objects.Keys, w.objects.Keys);
    forall m | m in v.registry
      ensures m in w.registry && w.registry[m] == v.registry[m]
    {
    }
    forall m | m in w.registry
      ensures m in v.registry
    {
    }
    SameMap(v.registry, w.registry);
    forall id | id in v.db
      ensures id in w.db && w.db[id] == v.db[id]
    {
    }
    forall id | id in w.db
      ensures id in v.db
    {
    }
    SameMap(v.db, w.db);
  }

  lemma {:induction false} OncePerRecord(records: seq<Record>)
    requires DistinctIds(records)
    ensures forall r: Record :: multiset(records)[r] == if r in records then 1 else 0
  {
    if records != [] {
      var last := |records| - 1;
      assert records == records[..last] + [records[last]];
      OncePerRecord(records[..last]);
    }
  }

  lemma SameRecords(a: seq<Record>, b: seq<Record>, db: Table, month: int)
    requires Enumerates(a, db, month) && Enumerates(b, db, month)
    ensures multiset(a) == multiset(b)
  {
    OncePerRecord(a);
    OncePerRecord(b);
    forall r: Record
      ensures r in a <==> r in b
    {
      HoldsRecord(a, db, month, r);
      HoldsRecord(b, db, month, r);
    }
  }

  lemma HoldsRecord(records: seq<Record>, db: Table, month: int, r: Record)
    requires Enumerates(records, db, month)
    ensures r in records <==> r.id in Archivable(db, month) && r.row == db[r.id]
  {
    if r.id in RecordIds(records) {
      var k :| 0 <= k < |records| && records[k].id == r.id;
      assert records[k] in records;
    }
    if r in records {
      var k :| 0 <= k < |records| && records[k] == r;
      assert records[k].id in RecordIds(records);
    }
  }

  lemma NothingLeftIsFinished(origin: Table, bound: int, s: State)
    requires OnTrack(origin, bound, s)
    requires forall id <- s.world.db :: s.world.db[id].runFact || s.world.db[id].at.month >= bound
    ensures Finished(origin, bound, s.world)
  {
    forall m | m < bound && Archivable(origin, m) != {}
      ensures m in s.world.registry
    {
      var id := SomeElement(Archivable(origin, m));
      assert id !in s.world.db;
    }
    forall m | m in s.world.objects
      ensures m in s.world.registry
    {
    }
    forall id | id in origin
      ensures id in s.world.db <==> origin[id].runFact || origin[id].at.month >= bound
    {
    }
  }

  lemma {:induction false} StaysOnTrack(origin: Table, bound: int, states: seq<State>, steps: seq<Step>, j: nat, k: nat)
    requires IsRun(states, steps) && j <= k <= |steps| && OnTrack(origin, bound, states[j])
    requires forall i | j <= i < k :: Undisturbed(bound, steps[i])
    ensures OnTrack(origin, bound, states[k])
    decreases k
  {
    if j < k {
      StaysOnTrack(origin, bound, states, steps, j, k - 1);
      StepOnTrack(origin, bound, states[k - 1], steps[k - 1], states[k]);
    }
  }

  // When the pass goes through a month instead of stopping on it.
  predicate Accepts(w: World, item: Item, upload: Upload) {
    if item.month !in w.registry && item.month !in w.objects then
      upload.Faithful? && |Archivable(w.db, item.month)| == item.count
    else
      Resumable(w, item.month, if item.month in w.registry then Some(w.registry[item.month]) else None)
  }

  lemma OnTrackAccepts(origin: Table, bound: int, s: State, item: Item)
    requires OnTrack(origin, bound, s) && item.count == |Archivable(s.world.db, item.month)|
    ensures Accepts(s.world, item, Faithful)
  {
    var m := item.month;
    if m in s.world.objects {
      CountOf(s.world.objects[m].records, origin, m);
      DistinctCount(s.world.objects[m].records);
      if m !in s.world.registry {
        UnrecordedMonthIsWhole(origin, bound, s, m);
      }
      forall id | id in Archivable(s.world.db, m)
        ensures id in Archivable(origin, m)
      {
      }
    }
  }
}

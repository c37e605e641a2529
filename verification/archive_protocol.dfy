// The archive-and-purge protocol of the call journal (deploy/archive_tool_calls.py) as a
// state machine: three stores, one pass at a time, a crash possible between any two steps.

module JournalProtocol {
  import opened Options
  import opened Decimal
  import opened FiniteSets

  /** A point in time, as the calendar month it falls in and its rank in that month: all
      the code needs of the calendar is that months follow each other. */
  datatype Instant = Instant(month: int, rank: nat)

  predicate AtMost(a: Instant, b: Instant) {
    a.month < b.month || (a.month == b.month && a.rank <= b.rank)
  }

  predicate Before(a: Instant, b: Instant) {
    !AtMost(b, a)
  }

  function Start(month: int): Instant {
    Instant(month, 0)
  }

  function End(month: int): Instant {
    Instant(month + 1, 0)
  }

  /** A journal line. `runFact` says its tool is one of `run_start` and `run_finish`. */
  datatype Row = Row(at: Instant, runFact: bool, payload: string)
  type Table = map<int, Row>

  /** A line of an archive, and an archive: what a re-read of the S3 object yields. */
  datatype Record = Record(id: int, row: Row)
  datatype Archive = Archive(records: seq<Record>, readable: bool)

  /** A line of `journal_archives`. */
  datatype Entry = Entry(key: string, count: nat)

  datatype World = World(db: Table, objects: map<int, Archive>, registry: map<int, Entry>)

  // The object key of a month; months are counted from an epoch, so they may be negative.
  function Key(month: int): string {
    "journal/tool_calls/" + (if month < 0 then "-" + Digits(-month) else Digits(month)) + ".csv.gz"
  }

  // ---- which lines a month archives

  // The predicate shared by the export, the check and the deletion, from a cursor on.
  predicate InRange(row: Row, cursor: Instant, month: int) {
    AtMost(cursor, row.at) && Before(row.at, End(month)) && !row.runFact
  }

  function Remaining(db: Table, cursor: Instant, month: int): set<int> {
    set id | id in db && InRange(db[id], cursor, month)
  }

  function Archivable(db: Table, month: int): set<int> {
    Remaining(db, Start(month), month)
  }

  predicate InMonth(row: Row, month: int) {
    row.at.month == month && !row.runFact
  }

  function RecordIds(records: seq<Record>): set<int> {
    set k | 0 <= k < |records| :: records[k].id
  }

  predicate DistinctIds(records: seq<Record>) {
    forall j, k | 0 <= j < k < |records| :: records[j].id != records[k].id
  }

  // `records` is an export of the month: each archivable line once, as it is.
  predicate Enumerates(records: seq<Record>, db: Table, month: int) {
    && DistinctIds(records)
    && RecordIds(records) == Archivable(db, month)
    && forall r <- records :: r.id in db && r.row == db[r.id]
  }

  // ---- the pass

  /** One line of the listing a pass starts from: the month, and how many lines it holds. */
  datatype Item = Item(month: int, count: nat)

  predicate GoodListing(db: Table, bound: int, todo: seq<Item>) {
    && (forall i <- todo :: i.month < bound && Archivable(db, i.month) != {} && i.count == |Archivable(db, i.month)|)
    && (forall j, k | 0 <= j < k < |todo| :: todo[j].month < todo[k].month)
    && (forall id <- db | db[id].at.month < bound && !db[id].runFact :: exists i <- todo :: i.month == db[id].at.month)
  }

  datatype Phase =
    | Idle
    | Listed(todo: seq<Item>, exportOnly: bool)
    | Looked(item: Item, entry: Option<Entry>, present: bool, todo: seq<Item>, exportOnly: bool)
    | Copied(item: Item, snapshot: seq<Record>, todo: seq<Item>, exportOnly: bool)
    | Stored(item: Item, todo: seq<Item>, exportOnly: bool)
    | Proved(item: Item, count: nat, recorded: bool, todo: seq<Item>, exportOnly: bool)
    | Purging(item: Item, cursor: Instant, todo: seq<Item>, exportOnly: bool)

  /** `history` keeps every line that ever entered the journal. */
  datatype State = State(world: World, phase: Phase, history: Table)

  datatype Upload = Faithful | Truncated(kept: nat, readable: bool)

  datatype Step =
    | Begin(bound: int, todo: seq<Item>, exportOnly: bool)
    | Look
    | Copy(snapshot: seq<Record>)
    | Store(upload: Upload)
    | Verify
    | Resume
    | StopAtExport
    | RecordMonth
    | DeleteBatch(batch: set<int>)
    | PurgeDone
    | Finish
    | Crash
    | Insert(id: int, row: Row)

  const BATCH_SIZE: nat := 20000

  // What the batch statement deletes: the first lines of the month from the cursor on.
  predicate IsBatch(db: Table, cursor: Instant, month: int, limit: nat, batch: set<int>) {
    var rest := Remaining(db, cursor, month);
    && batch <= rest
    && |batch| <= limit
    && (|batch| < limit ==> batch == rest)
    && forall a, b | a in batch && b in rest && b !in batch :: AtMost(db[a].at, db[b].at)
  }

  // The latest instant of a batch, which becomes the next cursor.
  predicate IsLatest(db: Table, batch: set<int>, latest: Instant) {
    && (exists a <- batch :: a in db && db[a].at == latest)
    && (forall a <- batch :: a in db && AtMost(db[a].at, latest))
  }

  // The checks of `_reprendre`, given the entry it was passed.
  predicate Resumable(w: World, month: int, entry: Option<Entry>) {
    && (entry.Some? ==> entry.value.key == Key(month))
    && month in w.objects
    && var archive := w.objects[month];
    && archive.readable
    && |RecordIds(archive.records)| == |archive.records|
    && (entry.Some? ==> |archive.records| == entry.value.count)
    && (entry.None? ==> |archive.records| == |Archivable(w.db, month)|)
    && Archivable(w.db, month) <= RecordIds(archive.records)
  }

  function StoredArchive(snapshot: seq<Record>, upload: Upload): Archive {
    match upload
    case Faithful => Archive(snapshot, true)
    case Truncated(kept, readable) => Archive(if kept < |snapshot| then snapshot[..kept] else snapshot, readable)
  }

  predicate Next(s: State, step: Step, t: State) {
    var w := s.world;
    match step
    case Begin(bound, todo, exportOnly) =>
      s.phase.Idle? && GoodListing(w.db, bound, todo) && t == s.(phase := Listed(todo, exportOnly))
    case Look =>
      && s.phase.Listed? && s.phase.todo != []
      && var item := s.phase.todo[0];
      && var entry := if item.month in w.registry then Some(w.registry[item.month]) else None;
      t == s.(phase := Looked(item, entry, item.month in w.objects, s.phase.todo[1..], s.phase.exportOnly))
    case Copy(snapshot) =>
      && s.phase.Looked? && s.phase.entry.None? && !s.phase.present
      && s.phase.item.month !in w.objects
      && Enumerates(snapshot, w.db, s.phase.item.month)
      && t == s.(phase := Copied(s.phase.item, snapshot, s.phase.todo, s.phase.exportOnly))
    case Store(upload) =>
      && s.phase.Copied?
      && var month := s.phase.item.month;
      t == s.(world := w.(objects := w.objects[month := StoredArchive(s.phase.snapshot, upload)]),
              phase := if upload.Faithful? then Stored(s.phase.item, s.phase.todo, s.phase.exportOnly) else Idle)
    case Verify =>
      && s.phase.Stored?
      && var item := s.phase.item;
      && item.month in w.objects && w.objects[item.month].readable && |w.objects[item.month].records| == item.count
      && t == s.(phase := Proved(item, item.count, false, s.phase.todo, s.phase.exportOnly))
    case Resume =>
      && s.phase.Looked? && (s.phase.entry.Some? || s.phase.present)
      && Resumable(w, s.phase.item.month, s.phase.entry)
      && t == s.(phase := Proved(s.phase.item, |w.objects[s.phase.item.month].records|, s.phase.entry.Some?,
                                 s.phase.todo, s.phase.exportOnly))
    case StopAtExport =>
      s.phase.Proved? && s.phase.exportOnly && t == s.(phase := Listed(s.phase.todo, true))
    case RecordMonth =>
      && s.phase.Proved? && !s.phase.exportOnly
      && var month := s.phase.item.month;
      && (s.phase.recorded || month !in w.registry)
      && t == s.(world := if s.phase.recorded then w
                          else w.(registry := w.registry[month := Entry(Key(month), s.phase.count)]),
                 phase := Purging(s.phase.item, Start(month), s.phase.todo, false))
    case DeleteBatch(batch) =>
      && s.phase.Purging? && batch != {}
      && IsBatch(w.db, s.phase.cursor, s.phase.item.month, BATCH_SIZE, batch)
      && t.phase.Purging? && IsLatest(w.db, batch, t.phase.cursor)
      && t == s.(world := w.(db := w.db - batch), phase := s.phase.(cursor := t.phase.cursor))
    case PurgeDone =>
      && s.phase.Purging? && IsBatch(w.db, s.phase.cursor, s.phase.item.month, BATCH_SIZE, {})
      && t == s.(phase := Listed(s.phase.todo, s.phase.exportOnly))
    case Finish =>
      s.phase.Listed? && s.phase.todo == [] && t == s.(phase := Idle)
    case Crash =>
      t == s.(phase := Idle)
    case Insert(id, row) =>
      && id !in s.history
      && t == s.(world := w.(db := w.db[id := row]), history := s.history[id := row])
  }

  // The month whose export or remaining lines have been read and not yet purged.
  predicate WindowOpen(phase: Phase, month: int) {
    match phase
    case Copied(item, _, _, _) => item.month == month
    case Stored(item, _, _) => item.month == month
    case Proved(item, _, _, _, _) => item.month == month
    case Purging(item, _, _, _) => item.month == month
    case _ => false
  }

  // A step that does not let a new line into a month whose window is open.
  predicate OutsideWindow(s: State, step: Step) {
    step.Insert? ==> step.row.runFact || !WindowOpen(s.phase, step.row.at.month)
  }

  // ---- what every step keeps

  predicate SubTable(small: Table, big: Table) {
    forall id <- small :: id in big && small[id] == big[id]
  }

  predicate SoundArchive(archive: Archive, month: int, history: Table) {
    && DistinctIds(archive.records)
    && forall r <- archive.records :: r.id in history && r.row == history[r.id] && InMonth(r.row, month)
  }

  predicate Covered(w: World, month: int) {
    && month in w.objects && w.objects[month].readable
    && Archivable(w.db, month) <= RecordIds(w.objects[month].records)
  }

  predicate RegistryMatches(w: World) {
    forall m <- w.registry ::
      m in w.objects && w.objects[m].readable && w.registry[m] == Entry(Key(m), |w.objects[m].records|)
  }

  // A line that entered the journal is still there, or it is in its month's archive.
  predicate Kept(s: State, id: int)
    requires id in s.history
  {
    var row := s.history[id];
    || id in s.world.db
    || (&& InMonth(row, row.at.month) && row.at.month in s.world.registry && row.at.month in s.world.objects
        && Record(id, row) in s.world.objects[row.at.month].records)
  }

  predicate PhaseInv(s: State) {
    var w := s.world;
    match s.phase
    case Copied(item, snapshot, _, _) =>
      Enumerates(snapshot, w.db, item.month) && item.month !in w.registry && item.month !in w.objects
    case Stored(item, _, _) =>
      Covered(w, item.month) && item.month !in w.registry
    case Proved(item, count, recorded, _, _) =>
      && Covered(w, item.month) && count == |w.objects[item.month].records|
      && (recorded <==> item.month in w.registry)
    case Purging(item, cursor, _, _) =>
      Covered(w, item.month) && item.month in w.registry && cursor.month == item.month
    case Looked(item, entry, present, _, _) =>
      && (entry.Some? <==> item.month in w.registry)
      && (entry.Some? ==> entry.value == w.registry[item.month])
      && (present <==> item.month in w.objects)
    case _ => true
  }

  predicate Inv(s: State) {
    && SubTable(s.world.db, s.history)
    && (forall m <- s.world.objects :: SoundArchive(s.world.objects[m], m, s.history))
    && RegistryMatches(s.world)
    && (forall id <- s.history :: Kept(s, id))
    && PhaseInv(s)
  }

  predicate Initial(s: State) {
    s.phase.Idle? && s.world.objects == map[] && s.world.registry == map[] && s.history == s.world.db
  }

  // ---- small facts

  lemma MonthRange(row: Row, month: int)
    ensures InRange(row, Start(month), month) <==> InMonth(row, month)
  {
  }

  lemma {:induction false} DistinctCount(records: seq<Record>)
    ensures DistinctIds(records) <==> |RecordIds(records)| == |records|
    ensures |RecordIds(records)| <= |records|
  {
    if records != [] {
      var last := |records| - 1;
      var init := records[..last];
      DistinctCount(init);
      assert RecordIds(records) == RecordIds(init) + {records[last].id};
      if DistinctIds(records) {
        assert records[last].id !in RecordIds(init);
      } else if DistinctIds(init) {
        assert exists j | 0 <= j < last :: records[j].id == records[last].id;
        assert records[last].id in RecordIds(init);
      }
    }
  }

  /** Two months never share an object. */
  lemma KeyTellsTheMonth(a: int, b: int)
    requires Key(a) == Key(b)
    ensures a == b
  {
    var x, y := MonthText(a), MonthText(b);
    KeyText(a);
    KeyText(b);
    hide Key;
    assert x == Key(a)[19..|Key(a)| - 7] && y == Key(b)[19..|Key(b)| - 7];
    MonthTextTells(a, b);
  }

  function MonthText(month: int): string {
    if month < 0 then "-" + Digits(-month) else Digits(month)
  }

  lemma KeyText(month: int)
    ensures Key(month) == "journal/tool_calls/" + MonthText(month) + ".csv.gz"
  {
  }

  lemma MonthTextTells(a: int, b: int)
    requires MonthText(a) == MonthText(b)
    ensures a == b
  {
    MonthSign(a);
    MonthSign(b);
    hide Digits;
    if a < 0 && b < 0 {
      assert Digits(-a) == MonthText(a)[1..] && Digits(-b) == MonthText(b)[1..];
      DigitsInjective(-a, -b);
    } else if a >= 0 && b >= 0 {
      DigitsInjective(a, b);
    }
  }

  lemma MonthSign(month: int)
    ensures MonthText(month) != "" && (MonthText(month)[0] == '-' <==> month < 0)
  {
  }

  // A record whose id is archived is the line itself, when the archive is sound.
  lemma RecordOf(archive: Archive, month: int, history: Table, id: int)
    requires SoundArchive(archive, month, history) && id in RecordIds(archive.records) && id in history
    ensures Record(id, history[id]) in archive.records
  {
    var k :| 0 <= k < |archive.records| && archive.records[k].id == id;
    assert archive.records[k] == Record(id, history[id]);
  }

  /** An object adopted without a registry line holds exactly the ids still in the database:
      as many distinct ids as lines, and every line covered. */
  lemma AdoptedIdsAreThoseLeft(w: World, month: int)
    requires Resumable(w, month, None)
    ensures RecordIds(w.objects[month].records) == Archivable(w.db, month)
  {
    SubsetOfSameSize(Archivable(w.db, month), RecordIds(w.objects[month].records));
  }

  /** In every state the protocol reaches, a month taken up again has each line still in the
      database in its archive, as it is; an adopted object holds these lines and nothing else. */
  lemma ResumedRecordsAreTheLines(s: State, month: int, entry: Option<Entry>)
    requires Inv(s) && Resumable(s.world, month, entry)
    ensures
      var db, records := s.world.db, s.world.objects[month].records;
      && (forall id <- Archivable(db, month) :: Record(id, db[id]) in records)
      && (entry.None? ==> Enumerates(records, db, month))
  {
    var db, archive := s.world.db, s.world.objects[month];
    forall id | id in Archivable(db, month)
      ensures Record(id, db[id]) in archive.records
    {
      RecordOf(archive, month, s.history, id);
    }
    if entry.None? {
      AdoptedIdsAreThoseLeft(s.world, month);
      forall r | r in archive.records
        ensures r.id in db && r.row == db[r.id]
      {
        assert r.id in RecordIds(archive.records);
      }
    }
  }

  // ---- preservation, step by step

  lemma StartKeeps(s: State)
    requires Initial(s)
    ensures Inv(s)
  {
  }

  lemma CopyKeeps(s: State, step: Step, t: State)
    requires Inv(s) && Next(s, step, t) && step.Copy?
    ensures Inv(t)
  {
  }

  lemma StoreKeeps(s: State, step: Step, t: State)
    requires Inv(s) && Next(s, step, t) && step.Store?
    ensures Inv(t)
  {
    var month := s.phase.item.month;
    var records := t.world.objects[month].records;
    assert forall k | 0 <= k < |records| :: records[k] == s.phase.snapshot[k];
    forall r | r in records
      ensures r.id in t.history && r.row == t.history[r.id] && InMonth(r.row, month)
    {
      assert r in s.phase.snapshot;
      assert r.id in RecordIds(s.phase.snapshot);
    }
    forall id | id in t.history
      ensures Kept(t, id)
    {
      assert Kept(s, id);
    }
  }

  lemma ResumeKeeps(s: State, step: Step, t: State)
    requires Inv(s) && Next(s, step, t) && step.Resume?
    ensures Inv(t)
  {
  }

  lemma RecordKeeps(s: State, step: Step, t: State)
    requires Inv(s) && Next(s, step, t) && step.RecordMonth?
    ensures Inv(t)
  {
    forall id | id in t.history
      ensures Kept(t, id)
    {
      assert Kept(s, id);
    }
  }

  lemma DeleteKeeps(s: State, step: Step, t: State)
    requires Inv(s) && Next(s, step, t) && step.DeleteBatch?
    ensures Inv(t)
  {
    var month := s.phase.item.month;
    var archive := s.world.objects[month];
    forall id | id in t.history
      ensures Kept(t, id)
    {
      assert Kept(s, id);
      if id in step.batch {
        assert id in Remaining(s.world.db, s.phase.cursor, month);
        assert id in Archivable(s.world.db, month);
        RecordOf(archive, month, s.history, id);
      }
    }
    assert Archivable(t.world.db, month) <= Archivable(s.world.db, month);
  }

  lemma InsertKeeps(s: State, step: Step, t: State)
    requires Inv(s) && Next(s, step, t) && step.Insert? && OutsideWindow(s, step)
    ensures Inv(t)
  {
    forall id | id in t.history
      ensures Kept(t, id)
    {
      assert id in s.history ==> Kept(s, id);
    }
    forall month | WindowOpen(s.phase, month)
      ensures Archivable(t.world.db, month) == Archivable(s.world.db, month)
    {
      MonthRange(step.row, month);
    }
  }

  lemma StepKeeps(s: State, step: Step, t: State)
    requires Inv(s) && Next(s, step, t) && OutsideWindow(s, step)
    ensures Inv(t)
  {
    match step
    case Copy(_) => CopyKeeps(s, step, t);
    case Store(_) => StoreKeeps(s, step, t);
    case Resume => ResumeKeeps(s, step, t);
    case RecordMonth => RecordKeeps(s, step, t);
    case DeleteBatch(_) => DeleteKeeps(s, step, t);
    case Insert(_, _) => InsertKeeps(s, step, t);
    case _ =>
      forall id | id in t.history
        ensures Kept(t, id)
      {
        assert Kept(s, id);
      }
  }
}

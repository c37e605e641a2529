// Pages edited while they are indexed (oto_mcp/embed_worker.py, with the queries of
// oto_mcp/db/projects.py): the steps of the rounds and the edits, in any order.

module EmbedEdits {
  import opened Options
  import opened Texts
  import opened Embeddings
  import opened EmbeddingCalls
  import opened EmbedWorker
  import opened EmbedLaws

  /** The pages with the texts they bear, what is stored about them, and the texts the present
      round has read. */
  datatype Live = Live(texts: map<nat, string>, store: State, read: map<nat, string>)

  /** A round reads its pages, marks one clean whose text is unchanged, writes one; anyone edits
      or creates a page. A round cut short is one that takes no more of its steps. */
  datatype Step = Read(rows: seq<Row>) | Clear(id: nat) | Write(id: nat, fails: Failure) | Edit(id: nat, text: string)

  function TextsOf(rows: seq<Row>): map<nat, string> {
    if rows == [] then map[] else TextsOf(rows[..|rows| - 1])[rows[|rows| - 1].id := rows[|rows| - 1].text]
  }

  lemma {:induction false} TextsOfRows(rows: seq<Row>)
    requires DistinctIds(rows)
    ensures forall r <- rows :: r.id in TextsOf(rows) && TextsOf(rows)[r.id] == r.text
    ensures forall id <- TextsOf(rows) :: Row(id, TextsOf(rows)[id]) in rows
  {
    if rows != [] {
      var before, last := rows[..|rows| - 1], rows[|rows| - 1];
      TextsOfRows(before);
      assert forall r <- before :: r.id != last.id;
      assert TextsOf(rows) == TextsOf(before)[last.id := last.text];
      hide TextsOf, DistinctIds;
      assert rows == before + [last];
    }
  }

  // When a step may come.
  ghost predicate May(digest: string -> string, s: Live, step: Step) {
    match step
    case Read(rows) => IsBatch(s.texts, s.store, rows)
    case Clear(id) => id in s.read && Unchanged(digest, s.store, Row(id, s.read[id]))
    case Write(id, _) => id in s.read
    case Edit(_, _) => true
  }

  function After(digest: string -> string, embed: string -> Vector, s: Live, step: Step): Live {
    match step
    case Read(rows) => s.(read := TextsOf(rows))
    case Clear(id) => s.(store := s.store.(dirty := s.store.dirty - {id}))
    case Write(id, fails) =>
      if id in s.read then s.(store := WrittenOne(digest, embed, s.store, Row(id, s.read[id]), fails)) else s
    case Edit(id, text) => s.(texts := s.texts[id := text], store := s.store.(dirty := s.store.dirty + {id}))
  }

  function Play(digest: string -> string, embed: string -> Vector, s: Live, steps: seq<Step>): Live {
    if steps == [] then s
    else After(digest, embed, Play(digest, embed, s, steps[..|steps| - 1]), steps[|steps| - 1])
  }

  ghost predicate Legal(digest: string -> string, embed: string -> Vector, s: Live, steps: seq<Step>) {
    steps == []
    || (Legal(digest, embed, s, steps[..|steps| - 1]) && May(digest, Play(digest, embed, s, steps[..|steps| - 1]), steps[|steps| - 1]))
  }

  // ---- a round without edits is such a run

  lemma LegalMore(digest: string -> string, embed: string -> Vector, s: Live, steps: seq<Step>, step: Step)
    ensures Play(digest, embed, s, steps + [step]) == After(digest, embed, Play(digest, embed, s, steps), step)
    ensures Legal(digest, embed, s, steps + [step]) <==> Legal(digest, embed, s, steps) && May(digest, Play(digest, embed, s, steps), step)
  {
    assert (steps + [step])[..|steps|] == steps;
  }

  predicate NoEdit(steps: seq<Step>) {
    forall k | 0 <= k < |steps| :: !steps[k].Edit?
  }

  // The steps lead from one state to the other and edit nothing.
  ghost predicate Leads(digest: string -> string, embed: string -> Vector, s: Live, steps: seq<Step>, t: Live) {
    Legal(digest, embed, s, steps) && Play(digest, embed, s, steps) == t && NoEdit(steps)
  }

  lemma LeadsOn(digest: string -> string, embed: string -> Vector, s: Live, steps: seq<Step>, t: Live, step: Step)
    requires Leads(digest, embed, s, steps, t) && May(digest, t, step) && !step.Edit?
    ensures Leads(digest, embed, s, steps + [step], After(digest, embed, t, step))
  {
    LegalMore(digest, embed, s, steps, step);
  }

  lemma {:induction false} ClearsAreSteps(digest: string -> string, embed: string -> Vector, s: Live, t: Live, rows: seq<Row>, k: nat,
                                          steps: seq<Step>) returns (more: seq<Step>)
    requires DistinctIds(rows) && t.read == TextsOf(rows) && k <= |rows|
    requires Leads(digest, embed, s, steps, t)
    ensures Leads(digest, embed, s, more, t.(store := Cleared(digest, t.store, rows[..k])))
  {
    if k == 0 {
      NothingSkippedYet(digest, t.store, rows);
      more := steps;
    } else {
      more := ClearsAreSteps(digest, embed, s, t, rows, k - 1, steps);
      var r, now := rows[k - 1], t.(store := Cleared(digest, t.store, rows[..k - 1]));
      TextsOfRows(rows);
      assert r in rows;
      ClearedMore(digest, t.store, rows, k - 1);
      assert Unchanged(digest, now.store, r) <==> Unchanged(digest, t.store, r);
      hide Leads, Cleared, Unchanged, TextsOf;
      if Unchanged(digest, t.store, r) {
        LeadsOn(digest, embed, s, more, now, Clear(r.id));
        more := more + [Clear(r.id)];
      }
    }
  }

  lemma {:induction false} WritesAreSteps(digest: string -> string, embed: string -> Vector, s: Live, t: Live, rows: seq<Row>,
                                          todo: seq<Row>, fails: nat -> Failure, steps: seq<Step>) returns (more: seq<Step>)
    requires DistinctIds(rows) && t.read == TextsOf(rows) && forall r <- todo :: r in rows
    requires Leads(digest, embed, s, steps, t)
    ensures Leads(digest, embed, s, more, t.(store := Written(digest, embed, t.store, todo, fails)))
  {
    if todo == [] {
      more := steps;
    } else {
      var before, r := todo[..|todo| - 1], todo[|todo| - 1];
      assert forall x <- before :: x in todo;
      more := WritesAreSteps(digest, embed, s, t, rows, before, fails, steps);
      TextsOfRows(rows);
      assert r in todo;
      var now := t.(store := Written(digest, embed, t.store, before, fails));
      assert Written(digest, embed, t.store, todo, fails) == WrittenOne(digest, embed, now.store, r, fails(r.id));
      hide Leads, Written, WrittenOne, TextsOf;
      LeadsOn(digest, embed, s, more, now, Write(r.id, fails(r.id)));
      more := more + [Write(r.id, fails(r.id))];
    }
  }

  /** A whole round, as it is specified, is a run of these steps without an edit. */
  lemma RoundIsARun(digest: string -> string, embed: string -> Vector, s: Live, rows: seq<Row>, served: bool, fails: nat -> Failure)
      returns (steps: seq<Step>)
    requires IsBatch(s.texts, s.store, rows)
    ensures Leads(digest, embed, s, steps, Live(s.texts, Round(digest, embed, s.store, rows, served, fails).0, TextsOf(rows)))
  {
    var t := s.(read := TextsOf(rows));
    assert Leads(digest, embed, s, [], s);
    LeadsOn(digest, embed, s, [], s, Read(rows));
    steps := ClearsAreSteps(digest, embed, s, t, rows, |rows|, [] + [Read(rows)]);
    assert rows[..|rows|] == rows;
    RoundState(digest, embed, s.store, rows, served, fails);
    ToEmbedIff(digest, s.store, rows);
    hide Leads, Round, Cleared, ToEmbed, Written, TextsOf, AllBlank;
    var todo := ToEmbed(digest, s.store, rows);
    if served && !AllBlank(todo) {
      steps := WritesAreSteps(digest, embed, s, t.(store := Cleared(digest, s.store, rows)), rows, todo, fails, steps);
    }
  }

  // ---- what becomes of one page

  // The step settles the page: it marks it clean.
  predicate Settles(s: Live, step: Step, id: nat) {
    match step
    case Clear(i) => i == id
    case Write(i, fails) => i == id && id in s.read && !Blank(s.read[id]) && fails != FirstFails
    case _ => false
  }

  predicate Edits(step: Step, id: nat) {
    step.Edit? && step.id == id
  }

  lemma SettledPage(digest: string -> string, embed: string -> Vector, s: Live, step: Step, id: nat)
    requires May(digest, s, step) && Settles(s, step, id)
    ensures
      var t := After(digest, embed, s, step);
      && id in s.read && id !in t.store.dirty && id in t.store.first
      && t.store.first[id].digest == digest(s.read[id]) && t.texts == s.texts
  {
    if step.Write? {
      BlankIff(s.read[id]);
      hide Blank, ChunksOf;
    }
  }

  // The settling leaves the page with the vectors of its whole text: both writes went through or
  // the vectors it kept were the right ones.
  ghost predicate SettlesWhole(digest: string -> string, embed: string -> Vector, s: Live, step: Step, id: nat)
    requires id in s.read
  {
    match step
    case Write(_, fails) =>
      var vectors := VectorsOf(embed, ChunksOf(s.read[id], MAX_CHARS));
      vectors != [] && (fails == NoFailure || PageOf(s.store, id).rest == vectors[1..])
    case _ => Holds(digest, embed, PageOf(s.store, id), s.read[id])
  }

  lemma SettledWholeIff(digest: string -> string, embed: string -> Vector, s: Live, step: Step, id: nat)
    requires May(digest, s, step) && Settles(s, step, id)
    ensures id in s.read
    ensures Holds(digest, embed, PageOf(After(digest, embed, s, step).store, id), s.read[id]) <==> SettlesWhole(digest, embed, s, step, id)
  {
    hide Blank, ChunksOf, Unchanged, VectorsOf;
    if step.Write? {
      WrittenPage(digest, embed, s.store, Row(id, s.read[id]), step.fails);
      hide WrittenOne, PageOf;
      WholeVectorsIff(PageOf(s.store, id).rest, VectorsOf(embed, ChunksOf(s.read[id], MAX_CHARS)));
    }
  }

  lemma WholeVectorsIff(rest: seq<Vector>, vectors: seq<Vector>)
    requires vectors != []
    ensures [vectors[0]] + vectors[1..] == vectors
    ensures [vectors[0]] + rest == vectors <==> rest == vectors[1..]
  {
    SameVectorsIff(rest, vectors);
  }

  lemma WrittenPage(digest: string -> string, embed: string -> Vector, s: State, r: Row, fails: Failure)
    requires !Blank(r.text) && fails != FirstFails
    ensures
      var vectors := VectorsOf(embed, ChunksOf(r.text, MAX_CHARS));
      && vectors != []
      && PageOf(WrittenOne(digest, embed, s, r, fails), r.id)
         == PageState(false, [Stored(digest(r.text), vectors[0])], if fails == RestFails then PageOf(s, r.id).rest else vectors[1..])
  {
    BlankIff(r.text);
    hide Blank, ChunksOf;
  }

  // What is known of a page: its text, whether it is to be indexed, and what is stored.
  function About(s: Live, id: nat): (Option<string>, PageState) {
    (if id in s.texts then Some(s.texts[id]) else None, PageOf(s.store, id))
  }

  lemma OtherStep(digest: string -> string, embed: string -> Vector, s: Live, step: Step, id: nat)
    requires !Settles(s, step, id) && !Edits(step, id)
    ensures About(After(digest, embed, s, step), id) == About(s, id)
  {
    if step.Write? && step.id in s.read {
      BlankIff(s.read[step.id]);
      hide Blank, ChunksOf;
    }
  }

  function At(digest: string -> string, embed: string -> Vector, s: Live, steps: seq<Step>, k: nat): Live
    requires k <= |steps|
  {
    Play(digest, embed, s, steps[..k])
  }

  lemma AtNext(digest: string -> string, embed: string -> Vector, s: Live, steps: seq<Step>, k: nat)
    requires k < |steps|
    ensures At(digest, embed, s, steps, k + 1) == After(digest, embed, At(digest, embed, s, steps, k), steps[k])
    ensures Legal(digest, embed, s, steps[..k + 1])
            <==> Legal(digest, embed, s, steps[..k]) && May(digest, At(digest, embed, s, steps, k), steps[k])
  {
    assert steps[..k + 1] == steps[..k] + [steps[k]];
    LegalMore(digest, embed, s, steps[..k], steps[k]);
  }

  lemma {:induction false} LegalAt(digest: string -> string, embed: string -> Vector, s: Live, steps: seq<Step>, k: nat)
    requires Legal(digest, embed, s, steps) && k <= |steps|
    ensures Legal(digest, embed, s, steps[..k])
    decreases |steps| - k
  {
    if k == |steps| {
      assert steps[..k] == steps;
    } else {
      LegalAt(digest, embed, s, steps, k + 1);
      AtNext(digest, embed, s, steps, k);
    }
  }

  /** The page was read at step `j`, settled from that reading at step `k`, and neither settled
      nor edited since. */
  ghost predicate SettledBy(digest: string -> string, embed: string -> Vector, s: Live, steps: seq<Step>, id: nat, j: nat, k: nat) {
    && j < k < |steps|
    && steps[j].Read? && id in Ids(steps[j].rows)
    && (forall i | j < i < k :: !steps[i].Read?)
    && Settles(At(digest, embed, s, steps, k), steps[k], id)
    && (forall i | k < i < |steps| :: !Settles(At(digest, embed, s, steps, i), steps[i], id) && !Edits(steps[i], id))
  }

  // The last text an edit of the page gave it, from step `j` to step `k`.
  function LastEdit(steps: seq<Step>, id: nat, j: nat, k: nat): Option<string>
    requires j <= k <= |steps|
    decreases k
  {
    if j == k then None
    else if Edits(steps[k - 1], id) then Some(steps[k - 1].text)
    else LastEdit(steps, id, j, k - 1)
  }

  lemma ReadAfter(digest: string -> string, embed: string -> Vector, s: Live, step: Step)
    ensures !step.Read? ==> After(digest, embed, s, step).read == s.read
    ensures step.Read? && May(digest, s, step) ==> After(digest, embed, s, step).read.Keys == Ids(step.rows)
  {
    if step.Read? && May(digest, s, step) {
      TextsOfRows(step.rows);
      hide TextsOf;
      assert forall r <- step.rows :: r.id in Ids(step.rows);
    }
  }

  // The last reading before step `k`, while the round holds it.
  lemma {:induction false} ReadAt(digest: string -> string, embed: string -> Vector, s: Live, steps: seq<Step>, id: nat, k: nat)
      returns (j: nat)
    requires s.read == map[] && k <= |steps| && Legal(digest, embed, s, steps) && id in At(digest, embed, s, steps, k).read
    ensures j < k && steps[j].Read? && id in Ids(steps[j].rows) && forall i | j < i < k :: !steps[i].Read?
  {
    hide *;
    AtStart(digest, embed, s, steps);
    AtNext(digest, embed, s, steps, k - 1);
    LegalAt(digest, embed, s, steps, k);
    ReadAfter(digest, embed, At(digest, embed, s, steps, k - 1), steps[k - 1]);
    if steps[k - 1].Read? {
      j := k - 1;
    } else {
      j := ReadAt(digest, embed, s, steps, id, k - 1);
    }
  }

  lemma AtStart(digest: string -> string, embed: string -> Vector, s: Live, steps: seq<Step>)
    ensures At(digest, embed, s, steps, 0) == s
  {
  }

  /** Whatever the order of rounds and edits, a page that was to be indexed, or was not there, and
      is clean in the end was settled by a round that had read it. */
  lemma {:induction false} CleanWasSettled(digest: string -> string, embed: string -> Vector, s: Live, steps: seq<Step>, id: nat)
      returns (j: nat, k: nat)
    requires s.read == map[] && (id in s.store.dirty || id !in s.texts)
    requires Legal(digest, embed, s, steps)
    requires id in Play(digest, embed, s, steps).texts && id !in Play(digest, embed, s, steps).store.dirty
    ensures SettledBy(digest, embed, s, steps, id, j, k)
    decreases |steps|
  {
    var last := |steps| - 1;
    assert steps != [];
    var before := steps[..last];
    var now := At(digest, embed, s, steps, last);
    if Settles(now, steps[last], id) {
      SettledPage(digest, embed, now, steps[last], id);
      k := last;
      j := ReadAt(digest, embed, s, steps, id, k);
    } else {
      OtherOrEdit(digest, embed, now, steps[last], id);
      j, k := CleanWasSettled(digest, embed, s, before, id);
      SettledLonger(digest, embed, s, steps, id, j, k);
    }
  }

  // An edit leaves its page to be indexed; a step that is neither leaves it as it was.
  lemma OtherOrEdit(digest: string -> string, embed: string -> Vector, s: Live, step: Step, id: nat)
    requires !Settles(s, step, id) && id !in After(digest, embed, s, step).store.dirty
    ensures !Edits(step, id) && About(After(digest, embed, s, step), id) == About(s, id)
  {
    OtherStep(digest, embed, s, step, id);
  }

  lemma SettledLonger(digest: string -> string, embed: string -> Vector, s: Live, steps: seq<Step>, id: nat, j: nat, k: nat)
    requires steps != [] && SettledBy(digest, embed, s, steps[..|steps| - 1], id, j, k)
    requires !Settles(At(digest, embed, s, steps, |steps| - 1), steps[|steps| - 1], id) && !Edits(steps[|steps| - 1], id)
    ensures SettledBy(digest, embed, s, steps, id, j, k)
  {
    hide Settles, At, Edits, Ids;
    var before := steps[..|steps| - 1];
    AtBefore(digest, embed, s, steps, k);
    forall i | k < i < |steps|
      ensures !Settles(At(digest, embed, s, steps, i), steps[i], id) && !Edits(steps[i], id)
    {
      if i < |before| {
        AtBefore(digest, embed, s, steps, i);
        assert !Settles(At(digest, embed, s, before, i), before[i], id) && !Edits(before[i], id);
      }
    }
    forall i | j < i < k
      ensures !steps[i].Read?
    {
      assert !before[i].Read?;
    }
  }

  lemma AtBefore(digest: string -> string, embed: string -> Vector, s: Live, steps: seq<Step>, i: nat)
    requires i < |steps|
    ensures At(digest, embed, s, steps[..|steps| - 1], i) == At(digest, embed, s, steps, i)
  {
    assert steps[..|steps| - 1][..i] == steps[..i];
  }

  lemma {:induction false} ReadStays(digest: string -> string, embed: string -> Vector, s: Live, steps: seq<Step>, j: nat, k: nat)
    requires j < k <= |steps| && forall i | j < i < k :: !steps[i].Read?
    ensures At(digest, embed, s, steps, k).read == At(digest, embed, s, steps, j + 1).read
  {
    if j + 1 < k {
      ReadStays(digest, embed, s, steps, j, k - 1);
      AtNext(digest, embed, s, steps, k - 1);
    }
  }

  lemma {:induction false} TextSince(digest: string -> string, embed: string -> Vector, s: Live, steps: seq<Step>, id: nat, j: nat, k: nat)
    requires j <= k <= |steps| && id in At(digest, embed, s, steps, j).texts
    ensures
      var t := At(digest, embed, s, steps, k).texts;
      id in t && t[id] == if LastEdit(steps, id, j, k).Some? then LastEdit(steps, id, j, k).value else At(digest, embed, s, steps, j).texts[id]
    decreases k
  {
    if j < k {
      TextSince(digest, embed, s, steps, id, j, k - 1);
      AtNext(digest, embed, s, steps, k - 1);
      hide At, LastEdit;
      TextAfter(digest, embed, At(digest, embed, s, steps, k - 1), steps[k - 1], id);
      LastEditNext(steps, id, j, k);
    }
  }

  lemma TextAfter(digest: string -> string, embed: string -> Vector, s: Live, step: Step, id: nat)
    requires id in s.texts
    ensures
      var t := After(digest, embed, s, step).texts;
      id in t && t[id] == if Edits(step, id) then step.text else s.texts[id]
  {
  }

  lemma LastEditNext(steps: seq<Step>, id: nat, j: nat, k: nat)
    requires j < k <= |steps|
    ensures LastEdit(steps, id, j, k) == if Edits(steps[k - 1], id) then Some(steps[k - 1].text) else LastEdit(steps, id, j, k - 1)
  {
  }

  lemma {:induction false} SettledStays(digest: string -> string, embed: string -> Vector, s: Live, steps: seq<Step>, id: nat, k: nat, m: nat)
    requires k <= m <= |steps|
    requires forall i | k <= i < m :: !Settles(At(digest, embed, s, steps, i), steps[i], id) && !Edits(steps[i], id)
    ensures About(At(digest, embed, s, steps, m), id) == About(At(digest, embed, s, steps, k), id)
    decreases m
  {
    if k < m {
      SettledStays(digest, embed, s, steps, id, k, m - 1);
      AtNext(digest, embed, s, steps, m - 1);
      OtherStep(digest, embed, At(digest, embed, s, steps, m - 1), steps[m - 1], id);
    }
  }

  // What is stored of a page is that of the text it bears.
  predicate Current(digest: string -> string, s: Live, id: nat) {
    id in s.texts && id in s.store.first && s.store.first[id].digest == digest(s.texts[id])
  }

  // A page is settled from the text it bore when it was read.
  lemma SettledFromReading(digest: string -> string, embed: string -> Vector, s: Live, steps: seq<Step>, id: nat, j: nat, k: nat)
    requires Legal(digest, embed, s, steps) && j < k < |steps|
    requires steps[j].Read? && id in Ids(steps[j].rows) && forall i | j < i < k :: !steps[i].Read?
    ensures id in At(digest, embed, s, steps, j).texts && id in At(digest, embed, s, steps, k).read
    ensures At(digest, embed, s, steps, k).read[id] == At(digest, embed, s, steps, j).texts[id]
  {
    LegalAt(digest, embed, s, steps, j + 1);
    AtNext(digest, embed, s, steps, j);
    TextsOfRows(steps[j].rows);
    ReadStays(digest, embed, s, steps, j, k);
    hide At, Legal, TextsOf;
  }

  // Once settled, a page keeps what was stored of it then and the text it bore.
  lemma SettledKeeps(digest: string -> string, embed: string -> Vector, s: Live, steps: seq<Step>, id: nat, j: nat, k: nat)
    requires Legal(digest, embed, s, steps) && SettledBy(digest, embed, s, steps, id, j, k)
    ensures
      var then_, end := At(digest, embed, s, steps, k), Play(digest, embed, s, steps);
      && id in then_.read && May(digest, then_, steps[k])
      && About(end, id) == (if id in then_.texts then Some(then_.texts[id]) else None,
                            PageOf(After(digest, embed, then_, steps[k]).store, id))
      && !PageOf(end.store, id).dirty && PageOf(end.store, id).stored != []
      && PageOf(end.store, id).stored[0].digest == digest(then_.read[id])
  {
    LegalAt(digest, embed, s, steps, k + 1);
    AtNext(digest, embed, s, steps, k);
    SettledPage(digest, embed, At(digest, embed, s, steps, k), steps[k], id);
    SettledStays(digest, embed, s, steps, id, k + 1, |steps|);
    assert At(digest, embed, s, steps, |steps|) == Play(digest, embed, s, steps) by {
      assert steps[..|steps|] == steps;
    }
    hide At, Legal, Play, Settles, After;
  }

  /** The digest stored of a settled page is that of its present text exactly when no edit came
      between the reading and the settling, or the last one gave it back the digest read. */
  lemma SettledIsCurrentIff(digest: string -> string, embed: string -> Vector, s: Live, steps: seq<Step>, id: nat, j: nat, k: nat)
    requires Legal(digest, embed, s, steps) && SettledBy(digest, embed, s, steps, id, j, k)
    ensures id in At(digest, embed, s, steps, j).texts && id in Play(digest, embed, s, steps).texts
    ensures id !in Play(digest, embed, s, steps).store.dirty
    ensures
      var edit := LastEdit(steps, id, j, k);
      Current(digest, Play(digest, embed, s, steps), id)
      <==> edit.None? || digest(edit.value) == digest(At(digest, embed, s, steps, j).texts[id])
  {
    SettledFromReading(digest, embed, s, steps, id, j, k);
    SettledKeeps(digest, embed, s, steps, id, j, k);
    hide At, Legal, Play, Settles, SettledBy, LastEdit, After;
    TextSince(digest, embed, s, steps, id, j, k);
  }

  // The vectors kept for a page are those of the text it bears.
  ghost predicate Indexed(digest: string -> string, embed: string -> Vector, s: Live, id: nat) {
    id in s.texts && Holds(digest, embed, PageOf(s.store, id), s.texts[id])
  }

  // The digest tells a text from the one a page bears.
  predicate ToldApart(digest: string -> string, s: Live, id: nat, text: string) {
    id in s.texts && digest(s.texts[id]) == digest(text) ==> s.texts[id] == text
  }

  /** A settled page has the vectors of its present text exactly when no edit came between the
      reading and the settling, or the last one gave it back the digest read, and the settling
      left it with the vectors of the whole text it had read. */
  lemma SettledIsIndexedIff(digest: string -> string, embed: string -> Vector, s: Live, steps: seq<Step>, id: nat, j: nat, k: nat)
    requires Legal(digest, embed, s, steps) && SettledBy(digest, embed, s, steps, id, j, k)
    requires id in At(digest, embed, s, steps, j).texts
    requires ToldApart(digest, Play(digest, embed, s, steps), id, At(digest, embed, s, steps, j).texts[id])
    ensures id in At(digest, embed, s, steps, k).read
    ensures
      var edit := LastEdit(steps, id, j, k);
      Indexed(digest, embed, Play(digest, embed, s, steps), id)
      <==> && (edit.None? || digest(edit.value) == digest(At(digest, embed, s, steps, j).texts[id]))
           && SettlesWhole(digest, embed, At(digest, embed, s, steps, k), steps[k], id)
  {
    SettledIsCurrentIff(digest, embed, s, steps, id, j, k);
    SettledFromReading(digest, embed, s, steps, id, j, k);
    SettledKeeps(digest, embed, s, steps, id, j, k);
    SettledWholeIff(digest, embed, At(digest, embed, s, steps, k), steps[k], id);
    CurrentWhenIndexed(digest, embed, Play(digest, embed, s, steps), id);
    hide At, Legal, Play, Settles, SettledBy, LastEdit, After, SettlesWhole, Holds;
  }

  lemma CurrentWhenIndexed(digest: string -> string, embed: string -> Vector, s: Live, id: nat)
    ensures Indexed(digest, embed, s, id) ==> Current(digest, s, id)
    ensures Current(digest, s, id) <==>
              id in s.texts && PageOf(s.store, id).stored != [] && PageOf(s.store, id).stored[0].digest == digest(s.texts[id])
  {
    hide VectorsOf, ChunksOf;
  }

  /** Over every run from a state where the page is still to be indexed, or not there yet: if it
      is clean in the end, one round read it and settled it. The digest stored of it is that of
      its present text exactly when what it bore at these two moments has one digest; and it has
      the vectors of its present text exactly when, besides, the settling was whole. */
  lemma CleanIsIndexedIff(digest: string -> string, embed: string -> Vector, s: Live, steps: seq<Step>, id: nat)
      returns (j: nat, k: nat)
    requires s.read == map[] && (id in s.store.dirty || id !in s.texts)
    requires Legal(digest, embed, s, steps)
    requires id in Play(digest, embed, s, steps).texts && id !in Play(digest, embed, s, steps).store.dirty
    ensures SettledBy(digest, embed, s, steps, id, j, k)
    ensures id in At(digest, embed, s, steps, j).texts && id in At(digest, embed, s, steps, k).read
    ensures
      var t, edit, text := Play(digest, embed, s, steps), LastEdit(steps, id, j, k), At(digest, embed, s, steps, j).texts[id];
      && (Current(digest, t, id) <==> edit.None? || digest(edit.value) == digest(text))
      && (ToldApart(digest, t, id, text) ==>
            (Indexed(digest, embed, t, id) <==> Current(digest, t, id) && SettlesWhole(digest, embed, At(digest, embed, s, steps, k), steps[k], id)))
  {
    hide *;
    j, k := CleanWasSettled(digest, embed, s, steps, id);
    SettledIsCurrentIff(digest, embed, s, steps, id, j, k);
    SettledHeld(digest, embed, s, steps, id, j, k);
    if ToldApart(digest, Play(digest, embed, s, steps), id, At(digest, embed, s, steps, j).texts[id]) {
      SettledIsIndexedIff(digest, embed, s, steps, id, j, k);
    }
  }

  lemma SettledHeld(digest: string -> string, embed: string -> Vector, s: Live, steps: seq<Step>, id: nat, j: nat, k: nat)
    requires Legal(digest, embed, s, steps) && SettledBy(digest, embed, s, steps, id, j, k)
    ensures id in At(digest, embed, s, steps, k).read
  {
    SettledKeeps(digest, embed, s, steps, id, j, k);
  }

  // ---- a second write that fails

  /** Without any edit: a page that had an overflow vector of an older text, read and written with
      its second write failing, ends clean under the digest of its text and without its vectors. */
  lemma OldOverflowIsKept(digest: string -> string, embed: string -> Vector, before: Stored, old_: Vector)
    ensures
      var s := Live(map[1 := "a"], State({1}, map[1 := before], map[1 := [old_]]), map[]);
      var steps := [Read([Row(1, "a")]), Write(1, RestFails)];
      var t := Play(digest, embed, s, steps);
      && Legal(digest, embed, s, steps) && NoEdit(steps)
      && t.store.dirty == {} && Current(digest, t, 1) && !Indexed(digest, embed, t, 1)
  {
    assert Strip("a") == "a" by {
      assert StripLeft("a") == "a" && StripRight("a") == "a";
    }
    assert |"a"| == 1;
    OneSlice("a", MAX_CHARS);
    hide Strip, Slices, Stripped;
    assert ChunksOf("a", MAX_CHARS) == ["a"];
    WrittenOnce(digest, embed, 1, "a", before, old_);
  }

  lemma WrittenOnce(digest: string -> string, embed: string -> Vector, id: nat, text: string, before: Stored, old_: Vector)
    requires ChunksOf(text, MAX_CHARS) == [text]
    ensures
      var s := Live(map[id := text], State({id}, map[id := before], map[id := [old_]]), map[]);
      var steps := [Read([Row(id, text)]), Write(id, RestFails)];
      var t := Play(digest, embed, s, steps);
      && Legal(digest, embed, s, steps) && NoEdit(steps)
      && t.store.dirty == {} && Current(digest, t, id) && !Indexed(digest, embed, t, id)
  {
    var s, rows := Live(map[id := text], State({id}, map[id := before], map[id := [old_]]), map[]), [Row(id, text)];
    var read, write := Read(rows), Write(id, RestFails);
    assert rows[..0] == [] && rows[0] in rows && Ids(rows) == {id};
    assert TextsOf(rows) == map[id := text];
    assert May(digest, s, read);
    hide ChunksOf, Play, Legal, TextsOf, Ids, IsBatch;
    PlayNothing(digest, embed, s);
    LegalMore(digest, embed, s, [], read);
    LegalMore(digest, embed, s, [read], write);
    assert [] + [read] == [read] && [read] + [write] == [read, write];
    NotWhole(digest, embed, Play(digest, embed, s, [read, write]), id, text);
  }

  // One chunk, and an overflow vector besides.
  lemma NotWhole(digest: string -> string, embed: string -> Vector, t: Live, id: nat, text: string)
    requires id in t.texts && t.texts[id] == text && ChunksOf(text, MAX_CHARS) == [text] && |PageOf(t.store, id).rest| == 1
    ensures !Indexed(digest, embed, t, id)
  {
    hide ChunksOf;
    assert |VectorsOf(embed, ChunksOf(text, MAX_CHARS))| == 1;
  }

  // ---- an edit in between

  /** A page read, edited, then written is marked clean with the vector of its old text: the
      update by id alone does not see the edit, and no later round reads the page again. */
  lemma EditIsNotSeen(digest: string -> string, embed: string -> Vector)
    requires digest("a") != digest("b")
    ensures
      var s := Live(map[1 := "a"], State({1}, map[], map[]), map[]);
      var steps := [Read([Row(1, "a")]), Edit(1, "b"), Write(1, NoFailure)];
      var t := Play(digest, embed, s, steps);
      && Legal(digest, embed, s, steps)
      && t.texts == map[1 := "b"] && t.store.dirty == {} && !Current(digest, t, 1)
      && 1 in t.store.first && t.store.first[1].digest == digest("a")
  {
    assert Strip("a") == "a" by {
      assert StripLeft("a") == "a" && StripRight("a") == "a";
    }
    EditBeforeWrite(digest, embed, 1, "a", "b");
  }

  lemma EditBeforeWrite(digest: string -> string, embed: string -> Vector, id: nat, a: string, b: string)
    requires digest(a) != digest(b) && !Blank(a)
    ensures
      var s := Live(map[id := a], State({id}, map[], map[]), map[]);
      var steps := [Read([Row(id, a)]), Edit(id, b), Write(id, NoFailure)];
      var t := Play(digest, embed, s, steps);
      && Legal(digest, embed, s, steps)
      && t.texts == map[id := b] && t.store.dirty == {} && !Current(digest, t, id)
      && id in t.store.first && t.store.first[id].digest == digest(a)
  {
    var s, rows := Live(map[id := a], State({id}, map[], map[]), map[]), [Row(id, a)];
    var read, edit, write := Read(rows), Edit(id, b), Write(id, NoFailure);
    assert rows[..0] == [] && rows[0] in rows && Ids(rows) == {id};
    assert TextsOf(rows) == map[id := a];
    BlankIff(a);
    assert May(digest, s, read);
    hide Blank, ChunksOf, Play, Legal, TextsOf, Ids, IsBatch;
    PlayNothing(digest, embed, s);
    LegalMore(digest, embed, s, [], read);
    LegalMore(digest, embed, s, [read], edit);
    LegalMore(digest, embed, s, [read, edit], write);
    assert [] + [read] == [read] && [read] + [edit] == [read, edit] && [read, edit] + [write] == [read, edit, write];
  }

  lemma PlayNothing(digest: string -> string, embed: string -> Vector, s: Live)
    ensures Play(digest, embed, s, []) == s && Legal(digest, embed, s, [])
  {
  }
}

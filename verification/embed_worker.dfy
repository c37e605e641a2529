// One round of the indexing of pages (oto_mcp/embed_worker.py, `_index_batch`).

module EmbedWorker {
  import opened Texts
  import opened Embeddings
  import opened EmbeddingCalls

  datatype Row = Row(id: nat, text: string)

  datatype Stored = Stored(digest: string, vector: Vector)

  /** The pages to index, and for each indexed page the digest of the text and its first
      vector, then the vectors of its other chunks. */
  datatype State = State(dirty: set<nat>, first: map<nat, Stored>, rest: map<nat, seq<Vector>>)

  // Which of the two writes of a page fails.
  datatype Failure = NoFailure | FirstFails | RestFails

  predicate DistinctIds(rows: seq<Row>) {
    forall j, k | 0 <= j < k < |rows| :: rows[j].id != rows[k].id
  }

  // ---- what one round does

  predicate Unchanged(digest: string -> string, s: State, r: Row) {
    r.id in s.first && s.first[r.id].digest == digest(r.text)
  }

  function Cleared(digest: string -> string, s: State, rows: seq<Row>): State {
    s.(dirty := set id | id in s.dirty && !exists r <- rows :: r.id == id && Unchanged(digest, s, r))
  }

  function ToEmbed(digest: string -> string, s: State, rows: seq<Row>): (r: seq<Row>)
    ensures |r| <= |rows|
  {
    if rows == [] then []
    else
      var last := rows[|rows| - 1];
      ToEmbed(digest, s, rows[..|rows| - 1]) + if Unchanged(digest, s, last) then [] else [last]
  }

  lemma {:induction false} ToEmbedIff(digest: string -> string, s: State, rows: seq<Row>)
    ensures forall x :: x in ToEmbed(digest, s, rows) <==> x in rows && !Unchanged(digest, s, x)
  {
    if rows != [] {
      var before, last := rows[..|rows| - 1], rows[|rows| - 1];
      ToEmbedIff(digest, s, before);
      ToEmbedMore(digest, s, before, last);
      hide ToEmbed, Unchanged;
      assert rows == before + [last];
    }
  }

  function ChunksOfAll(rows: seq<Row>): (r: seq<seq<string>>)
    ensures |r| == |rows| && forall k | 0 <= k < |rows| :: r[k] == ChunksOf(rows[k].text, MAX_CHARS)
  {
    seq(|rows|, k requires 0 <= k < |rows| => ChunksOf(rows[k].text, MAX_CHARS))
  }

  // The two writes of a page, as far as they go.
  function WrittenOne(digest: string -> string, embed: string -> Vector, s: State, r: Row, fails: Failure): State {
    var vectors := VectorsOf(embed, ChunksOf(r.text, MAX_CHARS));
    if vectors == [] || fails == FirstFails then s
    else
      var once := s.(dirty := s.dirty - {r.id}, first := s.first[r.id := Stored(digest(r.text), vectors[0])]);
      if fails == RestFails then once else once.(rest := s.rest[r.id := vectors[1..]])
  }

  function Written(digest: string -> string, embed: string -> Vector, s: State, rows: seq<Row>, fails: nat -> Failure): State {
    if rows == [] then s
    else
      var last := rows[|rows| - 1];
      WrittenOne(digest, embed, Written(digest, embed, s, rows[..|rows| - 1], fails), last, fails(last.id))
  }

  function Done(rows: seq<Row>, fails: nat -> Failure): nat {
    if rows == [] then 0
    else
      var last := rows[|rows| - 1];
      Done(rows[..|rows| - 1], fails) + if ChunksOf(last.text, MAX_CHARS) != [] && fails(last.id) == NoFailure then 1 else 0
  }

  /** The state after a round over `rows`, and the number it returns; `served` tells whether
      the service answers. */
  function Round(digest: string -> string, embed: string -> Vector, s: State, rows: seq<Row>, served: bool, fails: nat -> Failure): (State, nat) {
    var cleared, todo := Cleared(digest, s, rows), ToEmbed(digest, s, rows);
    var skipped := |rows| - |todo|;
    if Flat(ChunksOfAll(todo)) == [] then (cleared, skipped)
    else if !served then (cleared, 0)
    else (Written(digest, embed, cleared, todo, fails), skipped + Done(todo, fails))
  }

  // ---- the store, and the round as it runs

  class Store {
    const digest: string -> string
    var dirty: set<nat>
    var first: map<nat, Stored>
    var rest: map<nat, seq<Vector>>

    function Now(): State
      reads this
    {
      State(dirty, first, rest)
    }

    constructor (digest: string -> string)
      ensures this.digest == digest && Now() == State({}, map[], map[])
    {
      this.digest := digest;
      dirty, first, rest := {}, map[], map[];
    }

    method SkipUnchanged(rows: seq<Row>) returns (todo: seq<Row>, skipped: nat)
      requires DistinctIds(rows)
      modifies this
      ensures Now() == old(Cleared(digest, Now(), rows))
      ensures todo == old(ToEmbed(digest, Now(), rows)) && skipped == |rows| - |todo|
    {
      todo, skipped := [], 0;
      ghost var before := Now();
      NothingSkippedYet(digest, before, rows);
      hide ToEmbed, Cleared, DistinctIds;
      for k := 0 to |rows|
        invariant Now() == Cleared(digest, before, rows[..k])
        invariant todo == ToEmbed(digest, before, rows[..k]) && skipped == k - |todo|
        invariant first == before.first
      {
        var r := rows[k];
        ClearedMore(digest, before, rows, k);
        ToEmbedMore(digest, before, rows[..k], r);
        assert rows[..k + 1] == rows[..k] + [r];
        if r.id in first && first[r.id].digest == digest(r.text) {
          dirty := dirty - {r.id};
          skipped := skipped + 1;
        } else {
          todo := todo + [r];
        }
      }
      assert rows[..|rows|] == rows;
    }

    // The two writes of one page; a failure leaves the second one, or both, undone.
    method WritePage(r: Row, vectors: seq<Vector>, fails: Failure, ghost embed: string -> Vector) returns (ok: bool)
      requires vectors == VectorsOf(embed, ChunksOf(r.text, MAX_CHARS)) && vectors != []
      modifies this
      ensures Now() == WrittenOne(digest, embed, old(Now()), r, fails) && (ok <==> fails == NoFailure)
    {
      if fails == FirstFails {
        return false;
      }
      first := first[r.id := Stored(digest(r.text), vectors[0])];
      dirty := dirty - {r.id};
      if fails == RestFails {
        return false;
      }
      rest := rest[r.id := vectors[1..]];
      return true;
    }

    /** Each page takes from the one list of vectors as many as it has chunks. */
    method WriteAll(rows: seq<Row>, vectors: seq<Vector>, fails: nat -> Failure, ghost embed: string -> Vector) returns (done: nat)
      requires vectors == VectorsOf(embed, Flat(ChunksOfAll(rows)))
      modifies this
      ensures Now() == Written(digest, embed, old(Now()), rows, fails) && done == Done(rows, fails)
    {
      done := 0;
      var next := 0;
      ghost var before := Now();
      hide *;
      NothingWrittenYet(digest, embed, before, rows, fails);
      for k := 0 to |rows|
        invariant Now() == Written(digest, embed, before, rows[..k], fails) && done == Done(rows[..k], fails)
        invariant next == |Flat(ChunksOfAll(rows)[..k])| <= |vectors|
      {
        OwnVectors(embed, ChunksOfAll(rows), k);
        WrittenMore(digest, embed, before, rows, k, fails);
        var count := |ChunksOf(rows[k].text, MAX_CHARS)|;
        var ok := WriteNext(rows[k], vectors[next..next + count], fails(rows[k].id), embed);
        next := next + count;
        done := done + if ok then 1 else 0;
      }
      assert rows[..|rows|] == rows;
    }

    method WriteNext(r: Row, vectors: seq<Vector>, fails: Failure, ghost embed: string -> Vector) returns (ok: bool)
      requires vectors == VectorsOf(embed, ChunksOf(r.text, MAX_CHARS))
      modifies this
      ensures Now() == WrittenOne(digest, embed, old(Now()), r, fails)
      ensures ok <==> ChunksOf(r.text, MAX_CHARS) != [] && fails == NoFailure
    {
      hide ChunksOf;
      ok := false;
      if vectors != [] {
        ok := WritePage(r, vectors, fails, embed);
      }
    }

    /** `_index_batch`, over the pages it read. */
    method IndexBatch(rows: seq<Row>, served: bool, fails: nat -> Failure, reply: seq<string> -> seq<Item>, ghost embed: string -> Vector)
        returns (n: nat)
      requires DistinctIds(rows) && Faithful(reply, embed)
      modifies this
      ensures (Now(), n) == old(Round(digest, embed, Now(), rows, served, fails))
    {
      ghost var before := Now();
      hide DistinctIds, Faithful, Cleared, ToEmbed, Written, Done, ChunksOfAll, Flat;
      var todo, skipped := SkipUnchanged(rows);
      var flat := Flat(ChunksOfAll(todo));
      if flat == [] {
        return skipped;
      }
      if !served {
        return 0;
      }
      var vectors := EmbedTexts(flat, reply, embed);
      var done := WriteAll(todo, vectors, fails, embed);
      assert Now() == Written(digest, embed, Cleared(digest, before, rows), todo, fails);
      return skipped + done;
    }
  }

  lemma NothingSkippedYet(digest: string -> string, s: State, rows: seq<Row>)
    ensures Cleared(digest, s, rows[..0]) == s && ToEmbed(digest, s, rows[..0]) == []
  {
  }

  lemma ClearedMore(digest: string -> string, s: State, rows: seq<Row>, k: nat)
    requires k < |rows|
    ensures Cleared(digest, s, rows[..k + 1])
         == if Unchanged(digest, s, rows[k]) then Cleared(digest, s, rows[..k]).(dirty := Cleared(digest, s, rows[..k]).dirty - {rows[k].id})
            else Cleared(digest, s, rows[..k])
  {
    assert rows[..k + 1] == rows[..k] + [rows[k]];
  }

  lemma NothingWrittenYet(digest: string -> string, embed: string -> Vector, s: State, rows: seq<Row>, fails: nat -> Failure)
    ensures Written(digest, embed, s, rows[..0], fails) == s && Done(rows[..0], fails) == 0
    ensures Flat(ChunksOfAll(rows)[..0]) == []
  {
  }

  lemma WrittenMore(digest: string -> string, embed: string -> Vector, s: State, rows: seq<Row>, k: nat, fails: nat -> Failure)
    requires k < |rows|
    ensures
      var f := fails(rows[k].id);
      && Written(digest, embed, s, rows[..k + 1], fails) == WrittenOne(digest, embed, Written(digest, embed, s, rows[..k], fails), rows[k], f)
      && Done(rows[..k + 1], fails) == Done(rows[..k], fails) + if ChunksOf(rows[k].text, MAX_CHARS) != [] && f == NoFailure then 1 else 0
  {
    assert rows[..k + 1][..k] == rows[..k];
    hide WrittenOne, ChunksOf;
  }

  // The vectors of one page, among those of all.
  lemma OwnVectors(embed: string -> Vector, lists: seq<seq<string>>, k: nat)
    requires k < |lists|
    ensures |Flat(lists[..k + 1])| == |Flat(lists[..k])| + |lists[k]| <= |Flat(lists)|
    ensures VectorsOf(embed, Flat(lists))[|Flat(lists[..k])|..|Flat(lists[..k])| + |lists[k]|] == VectorsOf(embed, lists[k])
  {
    assert lists[..k + 1] == lists[..k] + [lists[k]];
    FlatMore(lists[..k], lists[k]);
    FlatPrefix(lists, k + 1);
  }

  lemma {:induction false} FlatPrefix(lists: seq<seq<string>>, k: nat)
    requires k <= |lists|
    ensures Flat(lists[..k]) <= Flat(lists)
  {
    if k < |lists| {
      FlatPrefix(lists[..|lists| - 1], k);
      assert lists[..|lists| - 1][..k] == lists[..k];
    } else {
      assert lists[..k] == lists;
    }
  }

  // ---- what a round does to each page

  datatype PageState = PageState(dirty: bool, stored: seq<Stored>, rest: seq<Vector>)

  function PageOf(s: State, id: nat): PageState {
    PageState(id in s.dirty, if id in s.first then [s.first[id]] else [], if id in s.rest then s.rest[id] else [])
  }

  predicate Blank(text: string) {
    Strip(text) == ""
  }

  // A page with an unchanged text is marked clean; one with a new text gets the vectors of
  // its chunks, up to the write that fails; a blank one stays as it is.
  function PageAfter(digest: string -> string, embed: string -> Vector, p: PageState, text: string, served: bool, fails: Failure): PageState {
    if p.stored != [] && p.stored[0].digest == digest(text) then p.(dirty := false)
    else if !served || Blank(text) || fails == FirstFails then p
    else
      var vectors := VectorsOf(embed, ChunksOf(text, MAX_CHARS));
      NoChunkIffBlank(text, MAX_CHARS);
      PageState(false, [Stored(digest(text), vectors[0])], if fails == RestFails then p.rest else vectors[1..])
  }

  lemma {:induction false} WrittenOthers(digest: string -> string, embed: string -> Vector, s: State, rows: seq<Row>, fails: nat -> Failure, id: nat)
    requires forall r <- rows :: r.id != id
    ensures PageOf(Written(digest, embed, s, rows, fails), id) == PageOf(s, id)
  {
    if rows != [] {
      WrittenOthers(digest, embed, s, rows[..|rows| - 1], fails, id);
      assert rows[|rows| - 1] in rows;
      hide VectorsOf, ChunksOf;
    }
  }

  lemma WrittenOwn(digest: string -> string, embed: string -> Vector, s: State, r: Row, fails: Failure)
    ensures PageOf(WrittenOne(digest, embed, s, r, fails), r.id)
         == if Blank(r.text) || fails == FirstFails then PageOf(s, r.id)
            else PageAfter(digest, embed, PageOf(s, r.id).(stored := []), r.text, true, fails)
  {
    NoChunkIffBlank(r.text, MAX_CHARS);
    hide ChunksOf;
  }

  lemma {:induction false} WrittenEach(digest: string -> string, embed: string -> Vector, s: State, rows: seq<Row>, fails: nat -> Failure, r: Row)
    requires DistinctIds(rows) && r in rows
    ensures PageOf(Written(digest, embed, s, rows, fails), r.id)
         == if Blank(r.text) || fails(r.id) == FirstFails then PageOf(s, r.id)
            else PageAfter(digest, embed, PageOf(s, r.id).(stored := []), r.text, true, fails(r.id))
  {
    var before, last := rows[..|rows| - 1], rows[|rows| - 1];
    var w := Written(digest, embed, s, before, fails);
    hide WrittenOne, PageAfter, Blank;
    if r == last {
      WrittenOthers(digest, embed, s, before, fails, r.id);
      WrittenOwn(digest, embed, w, r, fails(r.id));
    } else {
      WrittenEach(digest, embed, s, before, fails, r);
      WrittenOthers(digest, embed, w, [last], fails, r.id);
      assert [last][..0] == [] && Written(digest, embed, w, [], fails) == w;
      assert Written(digest, embed, w, [last], fails) == WrittenOne(digest, embed, w, last, fails(last.id));
    }
  }

  lemma {:induction false} ToEmbedDistinct(digest: string -> string, s: State, rows: seq<Row>)
    requires DistinctIds(rows)
    ensures DistinctIds(ToEmbed(digest, s, rows))
  {
    if rows != [] {
      var before, last := rows[..|rows| - 1], rows[|rows| - 1];
      ToEmbedDistinct(digest, s, before);
      ToEmbedIff(digest, s, before);
      ToEmbedMore(digest, s, before, last);
      hide Unchanged, ToEmbed;
      assert rows == before + [last];
      assert forall x <- ToEmbed(digest, s, before) :: x in before && x.id != last.id;
    }
  }

  predicate AllBlank(rows: seq<Row>) {
    forall r <- rows :: Blank(r.text)
  }

  lemma AllBlankMore(before: seq<Row>, last: Row)
    ensures AllBlank(before + [last]) <==> AllBlank(before) && Blank(last.text)
  {
    hide Blank;
    assert forall r <- before :: r in before + [last];
    assert last in before + [last];
  }

  lemma NothingAtAll()
    ensures Flat(ChunksOfAll([])) == [] && AllBlank([])
  {
  }

  lemma {:induction false} NothingToSend(rows: seq<Row>)
    ensures Flat(ChunksOfAll(rows)) == [] <==> AllBlank(rows)
  {
    hide Flat, ChunksOfAll, ChunksOf, Blank, AllBlank;
    if rows == [] {
      NothingAtAll();
    } else {
      var before, last := rows[..|rows| - 1], rows[|rows| - 1];
      NothingToSend(before);
      BlankIff(last.text);
      AllBlankMore(before, last);
      ChunksOfAllMore(rows);
      FlatMore(ChunksOfAll(before), ChunksOf(last.text, MAX_CHARS));
      assert rows == before + [last];
    }
  }

  lemma BlankIff(text: string)
    ensures Blank(text) <==> ChunksOf(text, MAX_CHARS) == []
  {
    NoChunkIffBlank(text, MAX_CHARS);
  }

  lemma ChunksOfAllMore(rows: seq<Row>)
    requires rows != []
    ensures
      var last := |rows| - 1;
      ChunksOfAll(rows) == ChunksOfAll(rows[..last]) + [ChunksOf(rows[last].text, MAX_CHARS)]
  {
    hide ChunksOf;
  }

  lemma ClearedPage(digest: string -> string, s: State, rows: seq<Row>, r: Row)
    requires DistinctIds(rows) && r in rows
    ensures PageOf(Cleared(digest, s, rows), r.id) == if Unchanged(digest, s, r) then PageOf(s, r.id).(dirty := false) else PageOf(s, r.id)
  {
    hide Unchanged;
    assert forall x <- rows :: x.id == r.id ==> x == r;
  }

  lemma ClearedOthers(digest: string -> string, s: State, rows: seq<Row>, id: nat)
    requires forall r <- rows :: r.id != id
    ensures PageOf(Cleared(digest, s, rows), id) == PageOf(s, id)
  {
  }

  // The three ways a round can go.
  lemma RoundState(digest: string -> string, embed: string -> Vector, s: State, rows: seq<Row>, served: bool, fails: nat -> Failure)
    ensures Round(digest, embed, s, rows, served, fails).0
         == if !served || AllBlank(ToEmbed(digest, s, rows)) then Cleared(digest, s, rows)
            else Written(digest, embed, Cleared(digest, s, rows), ToEmbed(digest, s, rows), fails)
  {
    NothingToSend(ToEmbed(digest, s, rows));
    hide Cleared, ToEmbed, Written, Done, ChunksOfAll, Flat;
  }

  lemma PageOutOfTheRound(digest: string -> string, embed: string -> Vector, s: State, rows: seq<Row>, served: bool, fails: nat -> Failure, id: nat)
    requires forall r <- rows :: r.id != id
    ensures PageOf(Round(digest, embed, s, rows, served, fails).0, id) == PageOf(s, id)
  {
    hide Round, Cleared, PageOf, Written, Unchanged, ToEmbed;
    ToEmbedIff(digest, s, rows);
    RoundState(digest, embed, s, rows, served, fails);
    ClearedOthers(digest, s, rows, id);
    WrittenOthers(digest, embed, Cleared(digest, s, rows), ToEmbed(digest, s, rows), fails, id);
  }

  /** Each page of a round ends as its own text, its own failures and the service decide:
      whatever happens to the other pages, it has the vectors of its own chunks or keeps what
      it had. */
  lemma EachPageOnItsOwn(digest: string -> string, embed: string -> Vector, s: State, rows: seq<Row>, served: bool, fails: nat -> Failure, r: Row)
    requires DistinctIds(rows) && r in rows
    ensures PageOf(Round(digest, embed, s, rows, served, fails).0, r.id)
         == PageAfter(digest, embed, PageOf(s, r.id), r.text, served, fails(r.id))
  {
    var cleared, todo := Cleared(digest, s, rows), ToEmbed(digest, s, rows);
    RoundState(digest, embed, s, rows, served, fails);
    ClearedPage(digest, s, rows, r);
    ToEmbedDistinct(digest, s, rows);
    UnchangedPage(digest, s, r);
    hide Round, Cleared, Written, Unchanged, Blank, DistinctIds, ToEmbed;
    ToEmbedIff(digest, s, rows);
    if r in todo {
      WrittenEach(digest, embed, cleared, todo, fails, r);
      SameWithoutStored(digest, embed, PageOf(s, r.id), r.text, fails(r.id));
      hide PageOf;
      NotSent(digest, embed, PageOf(s, r.id), r.text, served, fails(r.id));
    } else {
      assert Unchanged(digest, s, r);
      forall x | x in todo
        ensures x.id != r.id
      {
        TwoRows(rows, x, r);
      }
      WrittenOthers(digest, embed, cleared, todo, fails, r.id);
    }
  }

  lemma TwoRows(rows: seq<Row>, x: Row, r: Row)
    requires DistinctIds(rows) && x in rows && r in rows && x != r
    ensures x.id != r.id
  {
  }

  lemma UnchangedPage(digest: string -> string, s: State, r: Row)
    ensures Unchanged(digest, s, r) <==> PageOf(s, r.id).stored != [] && PageOf(s, r.id).stored[0].digest == digest(r.text)
  {
  }

  lemma NotSent(digest: string -> string, embed: string -> Vector, p: PageState, text: string, served: bool, fails: Failure)
    requires p.stored == [] || p.stored[0].digest != digest(text)
    ensures !served || Blank(text) || fails == FirstFails ==> PageAfter(digest, embed, p, text, served, fails) == p
    ensures served ==> PageAfter(digest, embed, p, text, served, fails) == PageAfter(digest, embed, p, text, true, fails)
  {
  }

  lemma SameWithoutStored(digest: string -> string, embed: string -> Vector, p: PageState, text: string, fails: Failure)
    requires p.stored == [] || p.stored[0].digest != digest(text)
    ensures !Blank(text) && fails != FirstFails
            ==> PageAfter(digest, embed, p.(stored := []), text, true, fails) == PageAfter(digest, embed, p, text, true, fails)
  {
  }

  // ---- the number a round returns

  // The pages a round indexes or finds indexed.
  function Handled(digest: string -> string, s: State, rows: seq<Row>, fails: nat -> Failure): nat {
    if rows == [] then 0
    else
      var last := rows[|rows| - 1];
      Handled(digest, s, rows[..|rows| - 1], fails)
      + if Unchanged(digest, s, last) || (!Blank(last.text) && fails(last.id) == NoFailure) then 1 else 0
  }

  lemma DoneMore(rows: seq<Row>, r: Row, fails: nat -> Failure)
    ensures Done(rows + [r], fails) == Done(rows, fails) + if !Blank(r.text) && fails(r.id) == NoFailure then 1 else 0
  {
    NoChunkIffBlank(r.text, MAX_CHARS);
    assert (rows + [r])[..|rows|] == rows;
    hide ChunksOf;
  }

  lemma ToEmbedMore(digest: string -> string, s: State, before: seq<Row>, last: Row)
    ensures ToEmbed(digest, s, before + [last]) == if Unchanged(digest, s, last) then ToEmbed(digest, s, before) else ToEmbed(digest, s, before) + [last]
  {
    var rows := before + [last];
    assert rows[..|before|] == before && rows[|rows| - 1] == last;
    assert ToEmbed(digest, s, before) + [] == ToEmbed(digest, s, before);
    hide Unchanged;
    assert ToEmbed(digest, s, rows) == ToEmbed(digest, s, before) + if Unchanged(digest, s, last) then [] else [last];
  }

  lemma HandledMore(digest: string -> string, s: State, rows: seq<Row>, fails: nat -> Failure)
    requires rows != []
    ensures
      var last := rows[|rows| - 1];
      Handled(digest, s, rows, fails)
      == Handled(digest, s, rows[..|rows| - 1], fails) + if Unchanged(digest, s, last) || (!Blank(last.text) && fails(last.id) == NoFailure) then 1 else 0
  {
    hide Unchanged, Blank;
  }

  lemma NoneHandled(digest: string -> string, s: State, fails: nat -> Failure)
    ensures ToEmbed(digest, s, []) == [] && Done([], fails) == 0 == Handled(digest, s, [], fails)
  {
  }

  lemma {:induction false} SkippedAndDone(digest: string -> string, s: State, rows: seq<Row>, fails: nat -> Failure)
    ensures |rows| - |ToEmbed(digest, s, rows)| + Done(ToEmbed(digest, s, rows), fails) == Handled(digest, s, rows, fails)
  {
    hide *;
    if rows == [] {
      NoneHandled(digest, s, fails);
    } else {
      var before, last := rows[..|rows| - 1], rows[|rows| - 1];
      SkippedAndDone(digest, s, before, fails);
      HandledMore(digest, s, rows, fails);
      DoneMore(ToEmbed(digest, s, before), last, fails);
      ToEmbedMore(digest, s, before, last);
      assert rows == before + [last];
    }
  }

  lemma {:induction false} NothingDone(rows: seq<Row>, fails: nat -> Failure)
    requires AllBlank(rows)
    ensures Done(rows, fails) == 0
  {
    if rows != [] {
      var before, last := rows[..|rows| - 1], rows[|rows| - 1];
      assert rows == before + [last];
      AllBlankMore(before, last);
      hide AllBlank, Blank;
      NothingDone(before, fails);
      DoneMore(before, last, fails);
    }
  }

  /** A round returns the number of pages it indexed or found indexed; when the service fails it
      returns zero, although the second kind was marked clean. */
  lemma RoundReturns(digest: string -> string, embed: string -> Vector, s: State, rows: seq<Row>, served: bool, fails: nat -> Failure)
    ensures Round(digest, embed, s, rows, served, fails).1
         == if served || AllBlank(ToEmbed(digest, s, rows)) then Handled(digest, s, rows, fails) else 0
  {
    var todo := ToEmbed(digest, s, rows);
    NothingToSend(todo);
    SkippedAndDone(digest, s, rows, fails);
    hide AllBlank, Done, Cleared, ToEmbed, Written, Handled, ChunksOfAll, Flat;
    if AllBlank(todo) {
      NothingDone(todo, fails);
    }
  }
}

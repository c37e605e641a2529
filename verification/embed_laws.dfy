// What the indexing rounds guarantee, and where they stop (oto_mcp/embed_worker.py, with the
// queries of oto_mcp/db/projects.py).

module EmbedLaws {
  import opened Embeddings
  import opened EmbeddingCalls
  import opened EmbedWorker
  import opened FiniteSets

  // The vectors kept for a page are those of the chunks of a text, in order.
  predicate Holds(digest: string -> string, embed: string -> Vector, p: PageState, text: string) {
    && p.stored != [] && p.stored[0].digest == digest(text)
    && [p.stored[0].vector] + p.rest == VectorsOf(embed, ChunksOf(text, MAX_CHARS))
  }

  /** A page that is written ends with the vectors of its whole text, each chunk sent as it is,
      if and only if its second write went through or the vectors it kept from before are the
      right ones. It is marked clean in both cases. */
  lemma WrittenWholeIff(digest: string -> string, embed: string -> Vector, p: PageState, text: string, fails: Failure)
    requires !Blank(text) && fails != FirstFails
    requires p.stored == [] || p.stored[0].digest != digest(text)
    ensures
      var after, vectors := PageAfter(digest, embed, p, text, true, fails), VectorsOf(embed, ChunksOf(text, MAX_CHARS));
      && !after.dirty && vectors != []
      && (Holds(digest, embed, after, text) <==> fails == NoFailure || p.rest == vectors[1..])
      && forall k | 0 <= k < |vectors| :: vectors[k] == embed(ChunksOf(text, MAX_CHARS)[k])
  {
    NoChunkIffBlank(text, MAX_CHARS);
    hide ChunksOf;
    VectorsOfChunks(embed, text);
    SameVectorsIff(p.rest, VectorsOf(embed, ChunksOf(text, MAX_CHARS)));
    hide VectorsOf;
  }

  lemma VectorsOfChunks(embed: string -> Vector, text: string)
    ensures
      var vectors := VectorsOf(embed, ChunksOf(text, MAX_CHARS));
      |vectors| == |ChunksOf(text, MAX_CHARS)| && forall k | 0 <= k < |vectors| :: vectors[k] == embed(ChunksOf(text, MAX_CHARS)[k])
  {
    ChunksAreSentWhole(text, MAX_CHARS);
    hide ChunksOf, Cap;
  }

  lemma SameVectorsIff(rest: seq<Vector>, vectors: seq<Vector>)
    ensures vectors != [] ==> (rest == vectors[1..] <==> [vectors[0]] + rest == vectors)
  {
    if vectors != [] {
      assert vectors == [vectors[0]] + vectors[1..];
      assert ([vectors[0]] + rest)[1..] == rest;
    }
  }

  // The round can neither index the page nor find it indexed.
  predicate Kept(digest: string -> string, s: State, r: Row, served: bool, fails: Failure) {
    !Unchanged(digest, s, r) && (!served || Blank(r.text) || fails == FirstFails)
  }

  /** After a round over `rows`, the pages to index are those that were and that it did not
      read, and those it read whose text is new and that are blank, or that the service or the
      first write failed. */
  lemma StaysDirtyIff(digest: string -> string, embed: string -> Vector, s: State, rows: seq<Row>, served: bool, fails: nat -> Failure, id: nat)
    requires DistinctIds(rows)
    ensures id in Round(digest, embed, s, rows, served, fails).0.dirty
            <==> id in s.dirty && (forall r <- rows | r.id == id :: Kept(digest, s, r, served, fails(id)))
  {
    if r :| r in rows && r.id == id {
      EachPageOnItsOwn(digest, embed, s, rows, served, fails, r);
      UnchangedPage(digest, s, r);
      OneRow(rows, r);
      hide Round, Unchanged, Blank, DistinctIds;
    } else {
      PageOutOfTheRound(digest, embed, s, rows, served, fails, id);
      hide Round, Kept;
    }
  }

  lemma OneRow(rows: seq<Row>, r: Row)
    requires DistinctIds(rows) && r in rows
    ensures forall x <- rows | x.id == r.id :: x == r
  {
  }

  // ---- which pages a round reads

  const BATCH_SIZE: nat := 16

  // The first pages to index, by id, with the texts they bear.
  ghost predicate IsBatch(texts: map<nat, string>, s: State, rows: seq<Row>) {
    && DistinctIds(rows) && |rows| <= BATCH_SIZE
    && (forall r <- rows :: r.id in s.dirty && r.id in texts && r.text == texts[r.id])
    && forall id <- s.dirty :: id !in Ids(rows) ==> |rows| == BATCH_SIZE && forall r <- rows :: r.id < id
  }

  function Ids(rows: seq<Row>): set<nat> {
    set r | r in rows :: r.id
  }

  lemma {:induction false} IdsSize(rows: seq<Row>)
    requires DistinctIds(rows)
    ensures |Ids(rows)| == |rows|
  {
    if rows != [] {
      var before, last := rows[..|rows| - 1], rows[|rows| - 1];
      IdsSize(before);
      assert forall r <- before :: r.id != last.id;
      assert rows == before + [last];
      assert Ids(rows) == Ids(before) + {last.id};
      OneMore(Ids(before), {}, last.id);
    }
  }

  // A page the rounds can do nothing with: blank, and not indexed under its present digest.
  predicate Idle(digest: string -> string, texts: map<nat, string>, s: State, id: nat) {
    && id in texts && Blank(texts[id])
    && (id in s.first ==> s.first[id].digest != digest(texts[id]))
  }

  /** The pages to index begin with a full batch of such pages. */
  ghost predicate Blocked(digest: string -> string, texts: map<nat, string>, s: State, ids: set<nat>) {
    && |ids| == 16 && ids <= s.dirty && (forall id <- ids :: Idle(digest, texts, s, id))
    && forall id, other | id in ids && other in s.dirty && other !in ids :: id < other
  }

  // Whatever order the rows come in, a blocked batch is those pages.
  lemma BlockedBatch(digest: string -> string, texts: map<nat, string>, s: State, ids: set<nat>, rows: seq<Row>)
    requires Blocked(digest, texts, s, ids) && IsBatch(texts, s, rows)
    ensures Ids(rows) == ids
  {
    IdsSize(rows);
    hide Idle, DistinctIds;
    NoneOutside(ids, Ids(rows));
    NoneOutside(Ids(rows), ids);
    if !(ids <= Ids(rows)) {
      var missing := SomeElement(ids - Ids(rows));
      if Ids(rows) <= ids {
        SubsetOfSameSize(Ids(rows), ids);
      } else {
        var extra := SomeElement(Ids(rows) - ids);
      }
    }
    SizeGrows(ids, Ids(rows));
    SubsetOfSameSize(ids, Ids(rows));
  }

  /** A round over idle pages changes nothing, served or not. */
  lemma IdleRound(digest: string -> string, embed: string -> Vector, texts: map<nat, string>, s: State, rows: seq<Row>,
                  served: bool, fails: nat -> Failure)
    requires forall r <- rows :: r.id in texts && r.text == texts[r.id] && Idle(digest, texts, s, r.id)
    ensures Round(digest, embed, s, rows, served, fails).0 == s
  {
    RoundState(digest, embed, s, rows, served, fails);
    ToEmbedIff(digest, s, rows);
    hide Round, Written, Blank, ToEmbed;
    assert forall r <- rows :: !Unchanged(digest, s, r) && Blank(r.text);
  }

  // A state that rounds lead to, whatever the service and the failures do.
  ghost predicate IsRun(digest: string -> string, embed: string -> Vector, texts: map<nat, string>, states: seq<State>) {
    states != [] && forall k | 0 < k < |states| :: RoundLeads(digest, embed, texts, states[k - 1], states[k])
  }

  ghost predicate RoundLeads(digest: string -> string, embed: string -> Vector, texts: map<nat, string>, s: State, t: State) {
    exists rows: seq<Row>, served: bool, fails: nat -> Failure ::
      IsBatch(texts, s, rows) && t == Round(digest, embed, s, rows, served, fails).0
  }

  /** As long as no page is edited, a blocked state stays as it is whatever rounds follow: no
      page after the sixteen idle ones is ever indexed. */
  lemma {:induction false} BlockedForever(digest: string -> string, embed: string -> Vector, texts: map<nat, string>, states: seq<State>, ids: set<nat>)
    requires IsRun(digest, embed, texts, states) && Blocked(digest, texts, states[0], ids)
    ensures states[|states| - 1] == states[0]
  {
    hide Blocked, RoundLeads;
    if |states| > 1 {
      var n := |states| - 1;
      BlockedForever(digest, embed, texts, states[..n], ids);
      assert RoundLeads(digest, embed, texts, states[n - 1], states[n]);
      BlockedRound(digest, embed, texts, states[n - 1], states[n], ids);
    }
  }

  lemma BlockedRound(digest: string -> string, embed: string -> Vector, texts: map<nat, string>, s: State, t: State, ids: set<nat>)
    requires Blocked(digest, texts, s, ids) && RoundLeads(digest, embed, texts, s, t)
    ensures t == s
  {
    var rows: seq<Row>, served: bool, fails: nat -> Failure :|
      IsBatch(texts, s, rows) && t == Round(digest, embed, s, rows, served, fails).0;
    BlockedBatch(digest, texts, s, ids, rows);
    hide Round, Idle;
    assert forall r <- rows :: r.id in Ids(rows);
    IdleRound(digest, embed, texts, s, rows, served, fails);
  }

  /** With a service that answers and no failure, a round leaves the pages to index as they
      were if and only if every page it reads is idle. */
  lemma RoundMovesIff(digest: string -> string, embed: string -> Vector, texts: map<nat, string>, s: State, rows: seq<Row>, fails: nat -> Failure)
    requires IsBatch(texts, s, rows) && forall id :: fails(id) == NoFailure
    ensures Round(digest, embed, s, rows, true, fails).0.dirty == s.dirty <==> forall r <- rows :: Idle(digest, texts, s, r.id)
  {
    if forall r <- rows :: Idle(digest, texts, s, r.id) {
      IdleRound(digest, embed, texts, s, rows, true, fails);
    } else {
      var r :| r in rows && !Idle(digest, texts, s, r.id);
      StaysDirtyIff(digest, embed, s, rows, true, fails, r.id);
      hide Round, Blank;
      assert r.id in s.dirty && r.id !in Round(digest, embed, s, rows, true, fails).0.dirty;
    }
  }
}

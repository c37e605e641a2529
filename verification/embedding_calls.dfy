// Texts sent to the embedding service in batches, and its answers put back in order
// (oto_mcp/embeddings.py, `_batches` and `embed_texts`).

module EmbeddingCalls {
  import opened Embeddings

  type Vector = seq<real>

  function Caps(texts: seq<string>): (r: seq<string>)
    ensures |r| == |texts| && forall k | 0 <= k < |texts| :: r[k] == Cap(texts[k])
  {
    seq(|texts|, k requires 0 <= k < |texts| => Cap(texts[k]))
  }

  function Flat(batches: seq<seq<string>>): seq<string> {
    if batches == [] then [] else Flat(batches[..|batches| - 1]) + batches[|batches| - 1]
  }

  function Weight(batch: seq<string>): nat {
    if batch == [] then 0 else Weight(batch[..|batch| - 1]) + |batch[|batch| - 1]|
  }

  lemma FlatMore(batches: seq<seq<string>>, b: seq<string>)
    ensures Flat(batches + [b]) == Flat(batches) + b
  {
    assert (batches + [b])[..|batches|] == batches;
  }

  lemma WeightMore(b: seq<string>, t: string)
    ensures Weight(b + [t]) == Weight(b) + |t|
  {
    assert (b + [t])[..|b|] == b;
  }

  predicate FitsBudget(b: seq<string>) {
    b != [] && Weight(b) <= BUDGET
  }

  // The first text of the second batch does not fit in the first one.
  predicate Overflows(a: seq<string>, b: seq<string>) {
    b != [] && Weight(a) + |b[0]| > BUDGET
  }

  // A batch is closed only when the next text does not fit.
  predicate Greedy(batches: seq<seq<string>>) {
    forall j, k | 0 <= j < |batches| && k == j + 1 < |batches| :: Overflows(batches[j], batches[k])
  }

  // Closed batches and the current one, once `sent` was added.
  ghost predicate Batched(sent: seq<string>, batches: seq<seq<string>>, cur: seq<string>) {
    && Flat(batches) + cur == sent && Weight(cur) <= BUDGET
    && (forall k | 0 <= k < |batches| :: FitsBudget(batches[k]))
    && if cur == [] then batches == [] else Greedy(batches + [cur])
  }

  lemma CurrentGrows(sent: seq<string>, batches: seq<seq<string>>, cur: seq<string>, t: string)
    requires Batched(sent, batches, cur) && (cur == [] || Weight(cur) + |t| <= BUDGET) && |t| <= BUDGET
    ensures Batched(sent + [t], batches, cur + [t])
  {
    WeightMore(cur, t);
    assert Flat(batches) + (cur + [t]) == sent + [t];
    hide Flat, Weight, FitsBudget;
    if cur != [] {
      var all, more := batches + [cur], batches + [cur + [t]];
      forall j, k | 0 <= j < |more| && k == j + 1 < |more|
        ensures Overflows(more[j], more[k])
      {
        assert Overflows(all[j], all[k]);
      }
    }
  }

  lemma CurrentCloses(sent: seq<string>, batches: seq<seq<string>>, cur: seq<string>, t: string)
    requires Batched(sent, batches, cur) && cur != [] && Weight(cur) + |t| > BUDGET && |t| <= BUDGET
    ensures Batched(sent + [t], batches + [cur], [t])
  {
    FlatMore(batches, cur);
    assert [t][..0] == [] && Weight([t]) == |t|;
    assert FitsBudget(cur);
    hide Flat, Weight, FitsBudget;
    var all, more := batches + [cur], batches + [cur] + [[t]];
    forall j, k | 0 <= j < |more| && k == j + 1 < |more|
      ensures Overflows(more[j], more[k])
    {
      assert k < |all| ==> Overflows(all[j], all[k]);
    }
  }

  /** `_batches`: all the texts, as they are sent, in order; each batch within the budget;
      none closed before the next text overflows it. */
  method Batches(texts: seq<string>) returns (batches: seq<seq<string>>)
    ensures Flat(batches) == Caps(texts)
    ensures (forall k | 0 <= k < |batches| :: FitsBudget(batches[k])) && Greedy(batches)
    ensures forall k | 0 <= k < |batches| :: batches[k] != [] && Weight(batches[k]) <= 16000
    ensures forall j, k | 0 <= j < |batches| && k == j + 1 < |batches| :: batches[k] != [] && Weight(batches[j]) + |batches[k][0]| > 16000
  {
    batches := [];
    var cur: seq<string> := [];
    var size := 0;
    hide *;
    NothingBatched(texts);
    for k := 0 to |texts|
      invariant Batched(Caps(texts[..k]), batches, cur) && size == Weight(cur)
    {
      var ct := Cap(texts[k]);
      CapsMore(texts, k);
      batches, cur, size := AddText(Caps(texts[..k]), batches, cur, size, ct);
    }
    assert texts[..|texts|] == texts;
    AllBatched(Caps(texts), batches, cur);
    if cur != [] {
      batches := batches + [cur];
    }
    WithinBudget(batches);
  }

  lemma WithinBudget(batches: seq<seq<string>>)
    requires (forall k | 0 <= k < |batches| :: FitsBudget(batches[k])) && Greedy(batches)
    ensures forall k | 0 <= k < |batches| :: batches[k] != [] && Weight(batches[k]) <= 16000
    ensures forall j, k | 0 <= j < |batches| && k == j + 1 < |batches| :: batches[k] != [] && Weight(batches[j]) + |batches[k][0]| > 16000
  {
    assert forall j, k | 0 <= j < |batches| && k == j + 1 < |batches| :: Overflows(batches[j], batches[k]);
  }

  method AddText(ghost sent: seq<string>, batches: seq<seq<string>>, cur: seq<string>, size: nat, ct: string)
      returns (batches': seq<seq<string>>, cur': seq<string>, size': nat)
    requires Batched(sent, batches, cur) && size == Weight(cur) && |ct| <= BUDGET
    ensures Batched(sent + [ct], batches', cur') && size' == Weight(cur')
  {
    hide Batched;
    WeightMore(cur, ct);
    WeightMore([], ct);
    assert [] + [ct] == [ct] && Weight([]) == 0;
    batches', cur', size' := batches, cur, size;
    if cur != [] && size + |ct| > BUDGET {
      CurrentCloses(sent, batches, cur, ct);
      batches' := batches + [cur];
      cur', size' := [], 0;
    } else {
      assert cur == [] ==> Weight(cur) == 0;
      CurrentGrows(sent, batches, cur, ct);
    }
    cur' := cur' + [ct];
    size' := size' + |ct|;
  }

  lemma NothingBatched(texts: seq<string>)
    ensures Batched(Caps(texts[..0]), [], []) && Weight([]) == 0
  {
  }

  lemma AllBatched(sent: seq<string>, batches: seq<seq<string>>, cur: seq<string>)
    requires Batched(sent, batches, cur)
    ensures
      var all := if cur == [] then batches else batches + [cur];
      Flat(all) == sent && (forall k | 0 <= k < |all| :: FitsBudget(all[k])) && Greedy(all)
  {
    FlatMore(batches, cur);
  }

  lemma CapsMore(texts: seq<string>, k: nat)
    requires k < |texts|
    ensures Caps(texts[..k + 1]) == Caps(texts[..k]) + [Cap(texts[k])]
  {
  }

  // ---- the service

  datatype Item = Item(index: nat, vector: Vector)

  // The items of a batch, in the order of its texts.
  function Items(embed: string -> Vector, batch: seq<string>): (r: seq<Item>)
    ensures |r| == |batch| && forall k | 0 <= k < |batch| :: r[k] == Item(k, embed(batch[k]))
  {
    seq(|batch|, k requires 0 <= k < |batch| => Item(k, embed(batch[k])))
  }

  /** The service answers each batch with its items, in any order. */
  ghost predicate Faithful(reply: seq<string> -> seq<Item>, embed: string -> Vector) {
    forall b :: multiset(reply(b)) == multiset(Items(embed, b))
  }

  function Insert(x: Item, items: seq<Item>): (r: seq<Item>)
    ensures multiset(r) == multiset(items) + multiset{x}
  {
    if items == [] || x.index <= items[0].index then [x] + items
    else
      assert items == [items[0]] + items[1..];
      [items[0]] + Insert(x, items[1..])
  }

  function Sorted(items: seq<Item>): (r: seq<Item>)
    ensures multiset(r) == multiset(items)
  {
    if items == [] then []
    else
      assert items == [items[0]] + items[1..];
      Insert(items[0], Sorted(items[1..]))
  }

  predicate InOrder(items: seq<Item>) {
    forall j, k | 0 <= j < k < |items| :: items[j].index <= items[k].index
  }

  lemma {:induction false} InsertInOrder(x: Item, items: seq<Item>)
    requires InOrder(items)
    ensures InOrder(Insert(x, items))
  {
    if items != [] && x.index > items[0].index {
      var rest := Insert(x, items[1..]);
      InsertInOrder(x, items[1..]);
      forall i | i in rest
        ensures items[0].index <= i.index
      {
        assert i in multiset(rest);
        assert i in items[1..] || i == x;
      }
    }
  }

  lemma {:induction false} SortedInOrder(items: seq<Item>)
    ensures InOrder(Sorted(items))
  {
    if items != [] {
      SortedInOrder(items[1..]);
      InsertInOrder(items[0], Sorted(items[1..]));
    }
  }

  predicate DistinctIndices(items: seq<Item>) {
    forall j, k | 0 <= j < k < |items| :: items[j].index < items[k].index
  }

  // Two lists in order with the same items, no index twice, are the same list.
  lemma {:induction false} OneOrder(a: seq<Item>, b: seq<Item>)
    requires InOrder(a) && DistinctIndices(b) && multiset(a) == multiset(b)
    ensures a == b
  {
    SameItems(a, b);
    if a != [] {
      FirstOfBoth(a, b);
      WithoutFirst(a);
      WithoutFirst(b);
      hide InOrder, DistinctIndices;
      OrderOfRest(a, b);
      OneOrder(a[1..], b[1..]);
      assert a == [a[0]] + a[1..] && b == [b[0]] + b[1..];
    }
  }

  lemma SameItems<T>(a: seq<T>, b: seq<T>)
    requires multiset(a) == multiset(b)
    ensures |a| == |b| && forall x :: x in a <==> x in b
  {
    assert |multiset(a)| == |a| && |multiset(b)| == |b|;
    assert forall x :: x in a <==> x in multiset(a);
    assert forall x :: x in b <==> x in multiset(b);
  }

  lemma WithoutFirst<T>(a: seq<T>)
    requires a != []
    ensures multiset(a[1..]) == multiset(a) - multiset{a[0]}
  {
    assert a == [a[0]] + a[1..];
  }

  lemma OrderOfRest(a: seq<Item>, b: seq<Item>)
    requires InOrder(a) && DistinctIndices(b) && a != [] && b != []
    ensures InOrder(a[1..]) && DistinctIndices(b[1..])
  {
  }

  lemma FirstOfBoth(a: seq<Item>, b: seq<Item>)
    requires InOrder(a) && DistinctIndices(b) && a != [] && b != [] && a[0] in b && b[0] in a
    ensures a[0] == b[0]
  {
    var k :| 0 <= k < |b| && b[k] == a[0];
    var j :| 0 <= j < |a| && a[j] == b[0];
    assert a[0].index <= a[j].index && b[0].index <= b[k].index;
    assert b[0].index == b[k].index ==> k == 0;
  }

  function VectorsOf(embed: string -> Vector, texts: seq<string>): (r: seq<Vector>)
    ensures |r| == |texts| && forall k | 0 <= k < |texts| :: r[k] == embed(Cap(texts[k]))
  {
    seq(|texts|, k requires 0 <= k < |texts| => embed(Cap(texts[k])))
  }

  // The vectors of an answer, put back in the order of the batch.
  method Ordered(batch: seq<string>, answer: seq<Item>, ghost embed: string -> Vector) returns (out: seq<Vector>)
    requires multiset(answer) == multiset(Items(embed, batch))
    ensures |out| == |batch| && forall k | 0 <= k < |batch| :: out[k] == embed(batch[k])
  {
    var data := Sorted(answer);
    SortedInOrder(answer);
    OneOrder(data, Items(embed, batch));
    return seq(|data|, k requires 0 <= k < |data| => data[k].vector);
  }

  /** `embed_texts`, answered: one vector for each text, in the order of the texts. */
  method EmbedTexts(texts: seq<string>, reply: seq<string> -> seq<Item>, ghost embed: string -> Vector) returns (out: seq<Vector>)
    requires Faithful(reply, embed)
    ensures out == VectorsOf(embed, texts)
  {
    var batches := Batches(texts);
    out := [];
    hide Flat, Faithful, Caps, Greedy, FitsBudget;
    assert Flat(batches[..0]) == [] by {
      EmptyFlat(batches);
    }
    for k := 0 to |batches|
      invariant |out| == |Flat(batches[..k])|
      invariant forall j | 0 <= j < |out| :: out[j] == embed(Flat(batches[..k])[j])
    {
      assert batches[..k + 1] == batches[..k] + [batches[k]];
      FlatMore(batches[..k], batches[k]);
      FaithfulTo(reply, embed, batches[k]);
      var more := Ordered(batches[k], reply(batches[k]), embed);
      out := out + more;
    }
    assert batches[..|batches|] == batches;
    SentTexts(texts, embed, out);
  }

  lemma EmptyFlat(batches: seq<seq<string>>)
    ensures Flat(batches[..0]) == []
  {
  }

  lemma FaithfulTo(reply: seq<string> -> seq<Item>, embed: string -> Vector, batch: seq<string>)
    requires Faithful(reply, embed)
    ensures multiset(reply(batch)) == multiset(Items(embed, batch))
  {
  }

  lemma SentTexts(texts: seq<string>, embed: string -> Vector, out: seq<Vector>)
    requires |out| == |Caps(texts)| && forall j | 0 <= j < |out| :: out[j] == embed(Caps(texts)[j])
    ensures out == VectorsOf(embed, texts)
  {
  }
}

// Texts cut into chunks and sent by batches (oto_mcp/embeddings.py).

module Embeddings {
  import opened Texts

  const MAX_CHARS: nat := 16000
  const BUDGET: nat := 16000
  const WINDOW: nat := 200

  // ---- cutting a text

  // `rfind(" ", lo, hi)`.
  function LastSpace(t: string, lo: nat, hi: nat): (r: int)
    requires hi <= |t|
    ensures r == -1 || (lo <= r < hi && t[r] == ' ')
    ensures forall k | lo <= k < hi && r < k :: t[k] != ' '
    decreases hi
  {
    if hi <= lo then -1 else if t[hi - 1] == ' ' then hi - 1 else LastSpace(t, lo, hi - 1)
  }

  // A bound of a slice: a negative one counts from the end.
  function Bound(n: nat, k: int): nat {
    if k >= 0 then k else if k + n >= 0 then k + n else 0
  }

  // Where the slice that starts at `i` ends.
  function CutAt(t: string, size: nat, i: nat): (e: nat)
    requires 0 < size && i < |t|
    ensures i < e <= |t| && e - i <= size
  {
    if i + size >= |t| then |t|
    else
      var sp := LastSpace(t, Bound(|t|, i + size - WINDOW), i + size);
      if sp > i then sp else i + size
  }

  function Slices(t: string, size: nat, i: nat): seq<string>
    requires 0 < size && i <= |t|
    decreases |t| - i
  {
    if i == |t| then [] else [t[i..CutAt(t, size, i)]] + Slices(t, size, CutAt(t, size, i))
  }

  // Each slice stripped, the blank ones dropped.
  function Stripped(slices: seq<string>): seq<string> {
    if slices == [] then []
    else
      var last := Strip(slices[|slices| - 1]);
      Stripped(slices[..|slices| - 1]) + if last == "" then [] else [last]
  }

  function ChunksOf(text: string, size: nat): seq<string>
    requires 0 < size
  {
    Stripped(Slices(Strip(text), size, 0))
  }

  lemma {:induction false} SliceNext(t: string, size: nat, i: nat, done: seq<string>)
    requires 0 < size && i < |t|
    ensures done + Slices(t, size, i) == (done + [t[i..CutAt(t, size, i)]]) + Slices(t, size, CutAt(t, size, i))
  {
  }

  lemma OneSlice(t: string, size: nat)
    requires 0 < size && 0 < |t| <= size && Strip(t) == t
    ensures Stripped(Slices(t, size, 0)) == [t]
  {
    assert t[0..|t|] == t && Slices(t, size, |t|) == [];
    assert Slices(t, size, 0) == [t] && [t][..0] == [];
    assert Stripped([]) == [];
  }

  /** `chunks`. */
  method Chunks(text: string, size: nat) returns (out: seq<string>)
    requires 0 < size
    ensures out == ChunksOf(text, size)
  {
    var t := Strip(text);
    if t == "" {
      return [];
    }
    if |t| <= size {
      StripTwice(text);
      OneSlice(t, size);
      return [t];
    }
    var i := 0;
    out := [];
    ghost var slices: seq<string> := [];
    while i < |t|
      invariant i <= |t| && slices + Slices(t, size, i) == Slices(t, size, 0)
      invariant out == Stripped(slices)
    {
      var end := if i + size < |t| then i + size else |t|;
      if end < |t| {
        var sp := LastSpace(t, Bound(|t|, i + size - WINDOW), end);
        if sp > i {
          end := sp;
        }
      }
      SliceNext(t, size, i, slices);
      assert (slices + [t[i..end]])[..|slices|] == slices;
      var c := Strip(t[i..end]);
      if c != "" {
        out := out + [c];
      }
      slices := slices + [t[i..end]];
      i := end;
    }
    assert slices + [] == slices;
  }

  // ---- what cutting keeps

  function Joined(texts: seq<string>): string {
    if texts == [] then "" else texts[0] + Joined(texts[1..])
  }

  /** The slices, put together, are the text, and none is longer than `size`. */
  lemma {:induction false} SlicesAreTheText(t: string, size: nat, i: nat)
    requires 0 < size && i <= |t|
    ensures Joined(Slices(t, size, i)) == t[i..]
    ensures forall s <- Slices(t, size, i) :: 0 < |s| <= size
    decreases |t| - i
  {
    if i < |t| {
      var e := CutAt(t, size, i);
      SlicesAreTheText(t, size, e);
      assert Slices(t, size, i)[1..] == Slices(t, size, e);
      assert t[i..] == t[i..e] + t[e..];
    }
  }

  /** A cut falls on the last space there is between the bound of the search and the size asked, or
      it is made at the size asked when there is none. */
  lemma CutsBetweenWords(t: string, size: nat, i: nat)
    requires 0 < size && i < |t| && CutAt(t, size, i) < |t|
    ensures
      var e, bound := CutAt(t, size, i), Bound(|t|, i + size - 200);
      || (t[e] == ' ' && bound <= e < i + size && forall k | e < k < i + size :: t[k] != ' ')
      || (e == i + size && forall k | i < k < i + size && bound <= k :: t[k] != ' ')
  {
  }

  /** The bound is the window once the size has passed it. Before that it counts from the end of
      the text, and in a text longer than the window every such cut ignores the spaces. */
  lemma SmallSizesCutAnywhere(t: string, size: nat, i: nat)
    requires 0 < size && i < |t| && CutAt(t, size, i) < |t|
    ensures i + size >= 200 ==> Bound(|t|, i + size - 200) == i + size - 200
    ensures i + size < 200 <= |t| ==> CutAt(t, size, i) == i + size
  {
  }

  // The characters that are not blanks.
  function Ink(s: string): string {
    if s == "" then "" else (if IsSpace(s[0]) then "" else [s[0]]) + Ink(s[1..])
  }

  lemma {:induction false} InkJoins(a: string, b: string)
    ensures Ink(a + b) == Ink(a) + Ink(b)
  {
    if a == "" {
      assert a + b == b;
    } else {
      assert (a + b)[1..] == a[1..] + b;
      InkJoins(a[1..], b);
    }
  }

  lemma {:induction false} InkOfStripLeft(s: string)
    ensures Ink(StripLeft(s)) == Ink(s)
  {
    if s != "" && IsSpace(s[0]) {
      InkOfStripLeft(s[1..]);
    }
  }

  lemma {:induction false} InkOfStripRight(s: string)
    ensures Ink(StripRight(s)) == Ink(s)
  {
    if s != "" && IsSpace(s[|s| - 1]) {
      var init, last := s[..|s| - 1], [s[|s| - 1]];
      InkOfStripRight(init);
      InkJoins(init, last);
      assert s == init + last && last[1..] == "" && Ink(last) == "";
    }
  }

  lemma InkOfStrip(s: string)
    ensures Ink(Strip(s)) == Ink(s)
  {
    InkOfStripLeft(s);
    InkOfStripRight(StripLeft(s));
  }

  lemma {:induction false} JoinedMore(texts: seq<string>, t: string)
    ensures Joined(texts + [t]) == Joined(texts) + t
  {
    if texts == [] {
      assert [t][1..] == [];
    } else {
      assert (texts + [t])[1..] == texts[1..] + [t];
      JoinedMore(texts[1..], t);
    }
  }

  lemma {:induction false} InkOfStripped(slices: seq<string>)
    ensures Ink(Joined(Stripped(slices))) == Ink(Joined(slices))
  {
    if slices != [] {
      var before, last := slices[..|slices| - 1], slices[|slices| - 1];
      InkOfStripped(before);
      InkOfStrip(last);
      assert slices == before + [last];
      assert Stripped(slices) == Stripped(before) + if Strip(last) == "" then [] else [Strip(last)];
      InkMore(before, last);
      InkMore(Stripped(before), Strip(last));
      assert Ink("") == "" && Stripped(before) + [] == Stripped(before);
    }
  }

  lemma InkMore(texts: seq<string>, t: string)
    ensures Ink(Joined(texts + [t])) == Ink(Joined(texts)) + Ink(t)
  {
    JoinedMore(texts, t);
    InkJoins(Joined(texts), t);
  }

  /** Indexing a text by chunks loses nothing but blanks: the other characters are all in the
      chunks, in order. */
  lemma ChunksLoseOnlyBlanks(text: string, size: nat)
    requires 0 < size
    ensures Ink(Joined(ChunksOf(text, size))) == Ink(text)
  {
    var t := Strip(text);
    InkOfStrip(text);
    SlicesAreTheText(t, size, 0);
    assert t[0..] == t;
    InkOfStripped(Slices(t, size, 0));
  }

  // `_cap`.
  function Cap(text: string): (r: string)
    ensures r != "" && |r| <= MAX_CHARS
  {
    var t := Strip(text);
    if t == "" then " " else if |t| <= MAX_CHARS then t else t[..MAX_CHARS]
  }

  /** What the service is sent for a text: the text without its blanks at both ends, its first 16000
      characters if it is longer, and one space for a blank one. */
  lemma CapIs(text: string)
    ensures
      var t := Strip(text);
      && (t == "" ==> Cap(text) == " ")
      && (0 < |t| <= 16000 ==> Cap(text) == t)
      && (|t| > 16000 ==> |Cap(text)| == 16000 && Cap(text) <= t)
  {
  }

  lemma {:induction false} StrippedAreShort(slices: seq<string>, size: nat)
    requires forall s <- slices :: |s| <= size
    ensures forall c <- Stripped(slices) :: c != "" && |c| <= size && Strip(c) == c
  {
    if slices != [] {
      StrippedAreShort(slices[..|slices| - 1], size);
      var last := slices[|slices| - 1];
      assert last in slices;
      StripTwice(last);
      hide Strip;
    }
  }

  /** A chunk is neither blank nor longer than asked, and the service is sent it whole. */
  lemma ChunksAreSentWhole(text: string, size: nat)
    requires 0 < size <= 16000
    ensures forall c <- ChunksOf(text, size) :: c != "" && |c| <= size && Cap(c) == c
  {
    SlicesAreTheText(Strip(text), size, 0);
    StrippedAreShort(Slices(Strip(text), size, 0), size);
  }

  /** Only a blank text has no chunk. */
  lemma NoChunkIffBlank(text: string, size: nat)
    requires 0 < size
    ensures ChunksOf(text, size) == [] <==> Strip(text) == ""
  {
    ChunksLoseOnlyBlanks(text, size);
    InkOfStrip(text);
    StripTwice(text);
    StripLeftFront(text);
    var t := Strip(text);
    if t != "" {
      assert t[0] == StripLeft(text)[0];
      assert Ink(t) != "";
      assert Joined([]) == "";
    }
  }
}

// Path templates and their substitution, as the code does it on the text
// (oto_mcp/custom_ops.py: `placeholders`, and `str.replace` in `plan_call`).

module Templates {
  import opened Texts

  predicate Brace(c: char) {
    c == '{' || c == '}'
  }

  predicate NoBrace(s: string) {
    forall k | 0 <= k < |s| :: !Brace(s[k])
  }

  // The first brace from `i` on, or the end.
  function NextBrace(s: string, i: nat): (j: nat)
    requires i <= |s|
    ensures i <= j <= |s| && NoBrace(s[i..j]) && (j < |s| ==> Brace(s[j]))
    decreases |s| - i
  {
    if i == |s| || Brace(s[i]) then i else NextBrace(s, i + 1)
  }

  // All the `{name}` of a text, leftmost first, `name` without a brace.
  function Placeholders(s: string): seq<string>
    decreases |s|
  {
    if s == [] then []
    else if s[0] != '{' then Placeholders(s[1..])
    else
      var j := NextBrace(s, 1);
      if j < |s| && s[j] == '}' then [s[1..j]] + Placeholders(s[j + 1..]) else Placeholders(s[1..])
  }

  // Every occurrence of `what`, leftmost first, becomes `put`.
  function ReplaceAll(s: string, what: string, put: string): string
    requires what != []
    decreases |s|
  {
    if what <= s then put + ReplaceAll(s[|what|..], what, put)
    else if s == [] then []
    else [s[0]] + ReplaceAll(s[1..], what, put)
  }

  function Marked(name: string): (m: string)
    ensures m != []
  {
    "{" + name + "}"
  }

  // `{name}` occurs in the text.
  ghost predicate Cites(s: string, name: string) {
    exists i | 0 <= i <= |s| :: Marked(name) <= s[i..]
  }

  lemma CitesLater(s: string, name: string, n: nat)
    requires n <= |s| && forall i | 0 <= i < n :: !(Marked(name) <= s[i..])
    ensures Cites(s, name) <==> Cites(s[n..], name)
  {
    assert forall i | n <= i <= |s| :: s[n..][i - n..] == s[i..];
    assert forall i | 0 <= i <= |s| - n :: s[n..][i..] == s[i + n..];
  }

  lemma NotAt(s: string, name: string, i: nat)
    requires i < |s| && s[i] != '{'
    ensures !(Marked(name) <= s[i..])
  {
    assert Marked(name)[0] == '{' && s[i..][0] == s[i];
  }

  lemma CitedFirst(s: string, name: string)
    requires s != [] && s[0] == '{' && NoBrace(name)
    ensures
      var j := NextBrace(s, 1);
      Marked(name) <= s <==> j < |s| && s[j] == '}' && name == s[1..j]
  {
    var j, m := NextBrace(s, 1), Marked(name);
    assert m[|m| - 1] == '}' && forall k | 1 <= k <= |name| :: m[k] == name[k - 1];
    assert forall k | 1 <= k < j :: s[k] == s[1..j][k - 1];
    if m <= s {
      assert s[|name| + 1] == '}' && forall k | 1 <= k <= |name| :: !Brace(s[k]);
      assert j == |name| + 1;
      assert s[1..j] == m[1..j] == name;
    }
  }

  /** The placeholders of any text, whatever its other braces, are the names without a brace that it
      has between braces. */
  lemma {:induction false} PlaceholdersIff(s: string, name: string)
    ensures name in Placeholders(s) <==> NoBrace(name) && Cites(s, name)
    decreases |s|
  {
    if s == [] {
      assert !(Marked(name) <= s[0..]);
    } else if s[0] != '{' {
      PlaceholdersIff(s[1..], name);
      NotAt(s, name, 0);
      CitesLater(s, name, 1);
    } else {
      PlaceholdersAfterBrace(s, name);
    }
  }

  lemma {:induction false} PlaceholdersAfterBrace(s: string, name: string)
    requires s != [] && s[0] == '{'
    ensures name in Placeholders(s) <==> NoBrace(name) && Cites(s, name)
    decreases |s|, 0
  {
    var j := NextBrace(s, 1);
    assert s[0..] == s;
    if j < |s| && s[j] == '}' {
      PlaceholdersIff(s[j + 1..], name);
      assert Placeholders(s) == [s[1..j]] + Placeholders(s[j + 1..]);
      if NoBrace(name) {
        CitedFirst(s, name);
        forall i | 1 <= i <= j
          ensures !(Marked(name) <= s[i..])
        {
          assert i < j ==> s[i] == s[1..j][i - 1];
          NotAt(s, name, i);
        }
        if !(Marked(name) <= s) {
          CitesLater(s, name, j + 1);
        }
      }
    } else {
      PlaceholdersIff(s[1..], name);
      if NoBrace(name) {
        CitedFirst(s, name);
        CitesLater(s, name, 1);
      }
    }
  }

  // Every brace of the text belongs to a placeholder.
  predicate WellBraced(s: string)
    decreases |s|
  {
    s == [] ||
    if s[0] == '{' then
      var j := NextBrace(s, 1);
      j < |s| && s[j] == '}' && WellBraced(s[j + 1..])
    else s[0] != '}' && WellBraced(s[1..])
  }

  // ---- the pieces of a well-braced template

  datatype Piece = Char(c: char) | Hole(name: string)

  type Template = seq<Piece>

  predicate Clean(t: Template) {
    forall k | 0 <= k < |t| :: if t[k].Char? then !Brace(t[k].c) else NoBrace(t[k].name)
  }

  function PieceText(p: Piece): string {
    if p.Char? then [p.c] else Marked(p.name)
  }

  function Text(t: Template): string {
    if t == [] then [] else PieceText(t[0]) + Text(t[1..])
  }

  function Chars(s: string): (t: Template)
    ensures |t| == |s| && forall k | 0 <= k < |s| :: t[k] == Char(s[k])
  {
    seq(|s|, k requires 0 <= k < |s| => Char(s[k]))
  }

  function Parse(s: string): Template
    requires WellBraced(s)
    decreases |s|
  {
    if s == [] then []
    else if s[0] == '{' then
      var j := NextBrace(s, 1);
      [Hole(s[1..j])] + Parse(s[j + 1..])
    else [Char(s[0])] + Parse(s[1..])
  }

  function Holes(t: Template): seq<string> {
    if t == [] then [] else (if t[0].Hole? then [t[0].name] else []) + Holes(t[1..])
  }

  lemma Cons(p: Piece, t: Template)
    ensures Text([p] + t) == PieceText(p) + Text(t)
    ensures Holes([p] + t) == (if p.Hole? then [p.name] else []) + Holes(t)
  {
    assert ([p] + t)[1..] == t;
  }

  /** Reading a well-braced text into pieces loses nothing, and its holes are the
      placeholders the code finds in the text. */
  lemma {:induction false} ParseIsFaithful(s: string)
    requires WellBraced(s)
    ensures Clean(Parse(s)) && Text(Parse(s)) == s && Holes(Parse(s)) == Placeholders(s)
    decreases |s|
  {
    if s != [] {
      if s[0] == '{' {
        var j := NextBrace(s, 1);
        ParseIsFaithful(s[j + 1..]);
        Cons(Hole(s[1..j]), Parse(s[j + 1..]));
        SplitMarked(s, j);
        hide Text, Holes, Marked;
      } else {
        ParseIsFaithful(s[1..]);
        Cons(Char(s[0]), Parse(s[1..]));
        hide Text, Holes, Marked;
      }
    }
  }

  lemma SplitMarked(s: string, j: nat)
    requires 0 < j < |s| && s[0] == '{' && s[j] == '}'
    ensures s == Marked(s[1..j]) + s[j + 1..]
  {
  }

  // The template with one placeholder filled in.
  function Fill(t: Template, name: string, put: string): Template {
    if t == [] then []
    else (if t[0] == Hole(name) then Chars(put) else [t[0]]) + Fill(t[1..], name, put)
  }

  lemma {:induction false} TextConcat(a: Template, b: Template)
    ensures Text(a + b) == Text(a) + Text(b)
  {
    if a == [] {
      assert a + b == b;
    } else {
      assert (a + b)[1..] == a[1..] + b;
      TextConcat(a[1..], b);
    }
  }

  lemma {:induction false} TextOfChars(s: string)
    ensures Text(Chars(s)) == s
  {
    if s != [] {
      assert Chars(s)[1..] == Chars(s[1..]);
      TextOfChars(s[1..]);
    }
  }

  // A stretch without an opening brace is copied as it is.
  lemma {:induction false} ReplaceSkips(plain: string, rest: string, name: string, put: string)
    requires forall k | 0 <= k < |plain| :: plain[k] != '{'
    ensures ReplaceAll(plain + rest, Marked(name), put) == plain + ReplaceAll(rest, Marked(name), put)
  {
    var s := plain + rest;
    if plain == [] {
      assert s == rest;
    } else {
      assert s[1..] == plain[1..] + rest;
      assert !(Marked(name) <= s) by {
        assert Marked(name)[0] == '{' && s[0] != '{';
      }
      ReplaceSkips(plain[1..], rest, name, put);
    }
  }

  // A placeholder is recognised by its whole name.
  lemma MarkedPrefix(name: string, other: string, rest: string)
    requires NoBrace(name) && NoBrace(other)
    ensures Marked(name) <= Marked(other) + rest <==> name == other
  {
    var m, s := Marked(name), Marked(other) + rest;
    assert |name| < |other| ==> s[|name| + 1] == other[|name|] && m[|name| + 1] == '}';
    assert |other| < |name| ==> m[|other| + 1] == name[|other|] && s[|other| + 1] == '}';
    assert m[1..|name| + 1] == name && s[1..|other| + 1] == other;
    if m <= s {
      assert s[1..|name| + 1] == m[1..|name| + 1];
    }
  }

  /** Replacing a placeholder in the text is filling the holes of that name, as long as no
      literal and no name bears a brace. */
  lemma {:induction false} ReplaceIsFill(t: Template, name: string, put: string)
    requires Clean(t) && NoBrace(name)
    ensures ReplaceAll(Text(t), Marked(name), put) == Text(Fill(t, name, put))
    decreases |t|
  {
    if t != [] {
      ReplaceIsFill(t[1..], name, put);
      ReplaceFirst(t[0], Text(t[1..]), name, put);
      var first := if t[0] == Hole(name) then Chars(put) else [t[0]];
      TextConcat(first, Fill(t[1..], name, put));
      if t[0] == Hole(name) {
        TextOfChars(put);
      } else {
        assert Text([t[0]]) == PieceText(t[0]);
      }
    }
  }

  // What happens to the first piece.
  lemma ReplaceFirst(p: Piece, rest: string, name: string, put: string)
    requires NoBrace(name) && Clean([p])
    ensures ReplaceAll(PieceText(p) + rest, Marked(name), put)
         == (if p == Hole(name) then put else PieceText(p)) + ReplaceAll(rest, Marked(name), put)
  {
    assert [p][0] == p;
    if p.Char? {
      ReplaceSkips([p.c], rest, name, put);
    } else if p.name == name {
      assert (Marked(name) + rest)[|Marked(name)|..] == rest;
    } else {
      ReplaceOther(p.name, rest, name, put);
    }
  }

  lemma ReplaceOther(other: string, rest: string, name: string, put: string)
    requires NoBrace(name) && NoBrace(other) && name != other
    ensures ReplaceAll(Marked(other) + rest, Marked(name), put) == Marked(other) + ReplaceAll(rest, Marked(name), put)
  {
    MarkedPrefix(name, other, rest);
    ReplaceSkips(other + "}", rest, name, put);
    hide NoBrace;
    var s, tail := Marked(other) + rest, ReplaceAll(rest, Marked(name), put);
    assert s[0] == '{' && s[1..] == (other + "}") + rest;
    assert ReplaceAll(s, Marked(name), put) == ['{'] + ((other + "}") + tail);
    assert ['{'] + ((other + "}") + tail) == Marked(other) + tail;
  }

  lemma {:induction false} FillIsClean(t: Template, name: string, put: string)
    requires Clean(t) && NoBrace(put)
    ensures Clean(Fill(t, name, put))
  {
    if t != [] {
      FillIsClean(t[1..], name, put);
    }
  }

  // ---- filling all the holes at once

  // Each hole that `values` names becomes its value.
  function FillAll(t: Template, values: map<string, string>): Template {
    if t == [] then []
    else (if t[0].Hole? && t[0].name in values then Chars(values[t[0].name]) else [t[0]]) + FillAll(t[1..], values)
  }

  lemma {:induction false} FillChars(s: string, rest: Template, name: string, put: string)
    ensures Fill(Chars(s) + rest, name, put) == Chars(s) + Fill(rest, name, put)
  {
    if s == [] {
      assert Chars(s) + rest == rest;
    } else {
      CharsCons(s, rest);
      CharsCons(s, Fill(rest, name, put));
      FillCons(Char(s[0]), Chars(s[1..]) + rest, name, put);
      FillChars(s[1..], rest, name, put);
    }
  }

  lemma CharsCons(s: string, rest: Template)
    requires s != []
    ensures Chars(s) + rest == [Char(s[0])] + (Chars(s[1..]) + rest)
  {
  }

  lemma FillCons(p: Piece, t: Template, name: string, put: string)
    ensures Fill([p] + t, name, put) == (if p == Hole(name) then Chars(put) else [p]) + Fill(t, name, put)
  {
    assert ([p] + t)[1..] == t;
  }

  /** Filling one more name after others is filling them all: the order does not matter. */
  lemma {:induction false} FillAfterFillAll(t: Template, values: map<string, string>, name: string, put: string)
    requires name !in values
    ensures Fill(FillAll(t, values), name, put) == FillAll(t, values[name := put])
  {
    if t != [] {
      FillAfterFillAll(t[1..], values, name, put);
      var rest := FillAll(t[1..], values);
      if t[0].Hole? && t[0].name in values {
        FillChars(values[t[0].name], rest, name, put);
      } else {
        assert ([t[0]] + rest)[1..] == rest;
      }
    }
  }

  lemma {:induction false} NothingFilled(t: Template)
    ensures FillAll(t, map[]) == t
  {
    if t != [] {
      NothingFilled(t[1..]);
    }
  }

  lemma {:induction false} FillAllIsClean(t: Template, values: map<string, string>)
    requires Clean(t) && forall name <- values :: NoBrace(values[name])
    ensures Clean(FillAll(t, values))
  {
    if t != [] {
      FillAllIsClean(t[1..], values);
    }
  }

  lemma {:induction false} HolesLeft(t: Template, values: map<string, string>)
    requires forall name <- Holes(t) :: name in values
    ensures Holes(FillAll(t, values)) == [] && forall k | 0 <= k < |FillAll(t, values)| :: FillAll(t, values)[k].Char?
  {
    if t != [] {
      HolesLeft(t[1..], values);
      if t[0].Hole? {
        assert t[0].name in Holes(t);
        var s := values[t[0].name];
        HolesOfChars(s, FillAll(t[1..], values));
      } else {
        assert FillAll(t, values)[1..] == FillAll(t[1..], values);
      }
    }
  }

  lemma {:induction false} HolesOfChars(s: string, rest: Template)
    ensures Holes(Chars(s) + rest) == Holes(rest)
  {
    var t := Chars(s) + rest;
    if s == [] {
      assert t == rest;
    } else {
      assert t[1..] == Chars(s[1..]) + rest;
      HolesOfChars(s[1..], rest);
    }
  }

  // ---- segments

  // `split("/")`.
  function Segments(s: string): (r: seq<string>)
    ensures r != []
  {
    if s == [] then [[]]
    else
      var rest := Segments(s[1..]);
      if s[0] == '/' then [[]] + rest else [[s[0]] + rest[0]] + rest[1..]
  }

  function PieceSegments(t: Template): (r: seq<Template>)
    ensures r != []
  {
    if t == [] then [[]]
    else
      var rest := PieceSegments(t[1..]);
      if t[0] == Char('/') then [[]] + rest else [[t[0]] + rest[0]] + rest[1..]
  }

  lemma {:induction false} SegmentsSkip(s: string, rest: string)
    requires NoSlash(s)
    ensures Segments(s + rest) == [s + Segments(rest)[0]] + Segments(rest)[1..]
  {
    if s == [] {
      assert s + rest == rest && s + Segments(rest)[0] == Segments(rest)[0];
    } else {
      assert (s + rest)[1..] == s[1..] + rest;
      SegmentsSkip(s[1..], rest);
      assert Segments(s + rest) == [[s[0]] + Segments(s[1..] + rest)[0]] + Segments(s[1..] + rest)[1..];
      assert [s[0]] + (s[1..] + Segments(rest)[0]) == s + Segments(rest)[0];
    }
  }

  function FilledSegments(parts: seq<Template>, values: map<string, string>): (r: seq<string>)
    ensures |r| == |parts| && forall k | 0 <= k < |parts| :: r[k] == Text(FillAll(parts[k], values))
  {
    seq(|parts|, k requires 0 <= k < |parts| => Text(FillAll(parts[k], values)))
  }

  lemma FilledSegmentsCons(first: Template, parts: seq<Template>, values: map<string, string>)
    ensures FilledSegments([first] + parts, values) == [Text(FillAll(first, values))] + FilledSegments(parts, values)
  {
  }

  /** The segments of a filled path are the segments of the template, each filled: a value
      neither adds a segment nor removes one. */
  lemma {:induction false} SegmentsOfFilled(t: Template, values: map<string, string>)
    requires forall name <- values :: NoSlash(values[name])
    requires forall name <- Holes(t) :: NoSlash(name)
    ensures Segments(Text(FillAll(t, values))) == FilledSegments(PieceSegments(t), values)
  {
    if t != [] {
      var p, parts := t[0], PieceSegments(t[1..]);
      assert t == [p] + t[1..];
      assert p.Hole? ==> p.name in Holes(t);
      SegmentsOfFilled(t[1..], values);
      assert parts == [parts[0]] + parts[1..];
      FilledSegmentsCons(parts[0], parts[1..], values);
      if p == Char('/') {
        SlashSegment(t[1..], values);
        FilledSegmentsCons([], parts, values);
      } else {
        FirstSegment(p, t[1..], values);
        FillAllConsText(p, parts[0], values);
        FilledSegmentsCons([p] + parts[0], parts[1..], values);
      }
    }
  }

  lemma SlashSegment(t: Template, values: map<string, string>)
    ensures Segments(Text(FillAll([Char('/')] + t, values))) == [""] + Segments(Text(FillAll(t, values)))
    ensures Text(FillAll([], values)) == ""
  {
    FillAllConsText(Char('/'), t, values);
    assert Text([Char('/')]) == "/";
    assert ("/" + Text(FillAll(t, values)))[1..] == Text(FillAll(t, values));
  }

  // A piece that is no separator goes to the first segment.
  lemma FirstSegment(p: Piece, t: Template, values: map<string, string>)
    requires p != Char('/') && (p.Hole? ==> NoSlash(p.name)) && forall name <- values :: NoSlash(values[name])
    ensures
      var rest := Segments(Text(FillAll(t, values)));
      Segments(Text(FillAll([p] + t, values))) == [Text(FillPiece(p, values)) + rest[0]] + rest[1..]
  {
    FillPieceText(p, values);
    FillAllConsText(p, t, values);
    SegmentsSkip(Text(FillPiece(p, values)), Text(FillAll(t, values)));
  }

  lemma FillAllConsText(p: Piece, t: Template, values: map<string, string>)
    ensures Text(FillAll([p] + t, values)) == Text(FillPiece(p, values)) + Text(FillAll(t, values))
  {
    FillAllCons(p, t, values);
    TextConcat(FillPiece(p, values), FillAll(t, values));
  }

  function FillPiece(p: Piece, values: map<string, string>): Template {
    if p.Hole? && p.name in values then Chars(values[p.name]) else [p]
  }

  lemma FillAllCons(p: Piece, t: Template, values: map<string, string>)
    ensures FillAll([p] + t, values) == FillPiece(p, values) + FillAll(t, values)
  {
    assert ([p] + t)[1..] == t;
  }

  lemma FillPieceText(p: Piece, values: map<string, string>)
    requires p != Char('/') && (p.Hole? ==> NoSlash(p.name)) && forall name <- values :: NoSlash(values[name])
    ensures Text(FillPiece(p, values)) == (if p.Hole? && p.name in values then values[p.name] else PieceText(p))
    ensures NoSlash(Text(FillPiece(p, values)))
  {
    if p.Hole? && p.name in values {
      TextOfChars(values[p.name]);
    } else {
      assert Text([p]) == PieceText(p);
    }
  }
}

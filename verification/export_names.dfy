// The file names an export gives to pages (oto_mcp/doc_export.py: `_slug`, and the renaming
// of siblings in `walk`).

module ExportNames {
  import opened Texts
  import opened Decimal

  predicate Alphanumeric(c: char) {
    'a' <= c <= 'z' || '0' <= c <= '9'
  }

  predicate NameChar(c: char) {
    Alphanumeric(c) || c == '.' || c == '-'
  }

  /** A name holds neither `/` nor `_`, is not empty, and is neither `.` nor `..`. */
  predicate IsName(s: string) {
    && s != [] && Alphanumeric(s[0]) && Alphanumeric(s[|s| - 1])
    && forall k | 0 <= k < |s| :: NameChar(s[k])
  }

  function Kept(s: string): (r: string)
    ensures forall k | 0 <= k < |r| :: NameChar(r[k]) || IsSpace(r[k])
  {
    if s == [] then [] else (if NameChar(s[0]) || IsSpace(s[0]) then [s[0]] else []) + Kept(s[1..])
  }

  // Each run of blanks becomes one dash.
  function Dashed(s: string): (r: string)
    requires forall k | 0 <= k < |s| :: NameChar(s[k]) || IsSpace(s[k])
    ensures forall k | 0 <= k < |r| :: NameChar(r[k])
  {
    if s == [] then []
    else if !IsSpace(s[0]) then [s[0]] + Dashed(s[1..])
    else (if |s| > 1 && IsSpace(s[1]) then [] else ['-']) + Dashed(s[1..])
  }

  function TrimLeft(s: string): (r: string)
    requires forall k | 0 <= k < |s| :: NameChar(s[k])
    ensures forall k | 0 <= k < |r| :: NameChar(r[k])
    ensures r != [] ==> Alphanumeric(r[0])
  {
    if s != [] && !Alphanumeric(s[0]) then TrimLeft(s[1..]) else s
  }

  function TrimRight(s: string): (r: string)
    requires forall k | 0 <= k < |s| :: NameChar(s[k])
    ensures r <= s
    ensures r != [] ==> Alphanumeric(r[|r| - 1])
  {
    if s != [] && !Alphanumeric(s[|s| - 1]) then TrimRight(s[..|s| - 1]) else s
  }

  /** `_slug`, of a title already folded to lower case. */
  function Slug(title: string, id: nat): (r: string)
    ensures IsName(r)
  {
    var s := TrimRight(TrimLeft(Dashed(Kept(Strip(title)))));
    if s == [] then "page-" + Digits(id) else s
  }

  // The letters and digits of a text.
  function Letters(s: string): string {
    if s == [] then [] else (if Alphanumeric(s[0]) then [s[0]] else []) + Letters(s[1..])
  }

  lemma {:induction false} LettersLast(s: string, c: char)
    ensures Letters(s + [c]) == Letters(s) + if Alphanumeric(c) then [c] else []
  {
    if s == [] {
      LettersOne(c);
      assert s + [c] == [c];
    } else {
      LettersLast(s[1..], c);
      var rest := s[1..] + [c];
      assert s + [c] == [s[0]] + rest;
      LettersFirst(s[0], rest);
      LettersFirst(s[0], s[1..]);
      hide Letters;
      assert s == [s[0]] + s[1..];
    }
  }

  lemma LettersOne(c: char)
    ensures Letters([]) == [] && Letters([c]) == if Alphanumeric(c) then [c] else []
  {
    assert [c][1..] == [];
  }

  lemma LettersFirst(c: char, s: string)
    ensures Letters([c] + s) == (if Alphanumeric(c) then [c] else []) + Letters(s)
  {
    assert ([c] + s)[1..] == s;
  }

  lemma {:induction false} LettersLeft(s: string)
    ensures Letters(StripLeft(s)) == Letters(s)
    ensures (forall k | 0 <= k < |s| :: NameChar(s[k])) ==> Letters(TrimLeft(s)) == Letters(s)
  {
    if s != [] {
      LettersLeft(s[1..]);
    }
  }

  lemma {:induction false} LettersRight(s: string)
    ensures Letters(StripRight(s)) == Letters(s)
    ensures (forall k | 0 <= k < |s| :: NameChar(s[k])) ==> Letters(TrimRight(s)) == Letters(s)
  {
    if s != [] {
      var init, last := s[..|s| - 1], s[|s| - 1];
      assert s == init + [last];
      LettersRight(init);
      LettersLast(init, last);
    }
  }

  lemma {:induction false} LettersKept(s: string)
    ensures Letters(Kept(s)) == Letters(s)
    ensures Letters(Dashed(Kept(s))) == Letters(Kept(s))
  {
    LettersInKept(s);
    LettersDashed(Kept(s));
  }

  lemma {:induction false} LettersInKept(s: string)
    ensures Letters(Kept(s)) == Letters(s)
  {
    if s != [] {
      LettersInKept(s[1..]);
      var rest := Kept(s[1..]);
      assert [s[0]] + rest == Kept(s) || rest == Kept(s);
      assert ([s[0]] + rest)[1..] == rest;
    }
  }

  lemma {:induction false} LettersDashed(s: string)
    requires forall k | 0 <= k < |s| :: NameChar(s[k]) || IsSpace(s[k])
    ensures Letters(Dashed(s)) == Letters(s)
  {
    if s != [] {
      LettersDashed(s[1..]);
      var rest := Dashed(s[1..]);
      assert Dashed(s) == [s[0]] + rest || (IsSpace(s[0]) && (Dashed(s) == rest || Dashed(s) == ['-'] + rest));
      assert ([s[0]] + rest)[1..] == rest && (['-'] + rest)[1..] == rest;
    }
  }

  /** A slug keeps the letters and digits of its title, in order; it is `page-` and the number of
      the page exactly for a title that has none. */
  lemma SlugKeepsTheLetters(title: string, id: nat)
    ensures if Letters(title) != [] then Letters(Slug(title, id)) == Letters(title) else Slug(title, id) == "page-" + Digits(id)
  {
    var kept := Kept(Strip(title));
    var dashed := Dashed(kept);
    LettersRight(StripLeft(title));
    LettersLeft(title);
    LettersKept(Strip(title));
    LettersLeft(dashed);
    LettersRight(TrimLeft(dashed));
    var s := TrimRight(TrimLeft(dashed));
    assert s != [] ==> Alphanumeric(s[0]);
    assert s != [] ==> Letters(s) != [];
  }

  lemma {:induction false} PlainKept(s: string)
    requires forall k | 0 <= k < |s| :: NameChar(s[k])
    ensures Kept(s) == s && Dashed(s) == s
  {
    if s != [] {
      PlainKept(s[1..]);
      assert s == [s[0]] + s[1..];
    }
  }

  lemma PlainSlug(s: string, id: nat)
    requires IsName(s)
    ensures Slug(s, id) == s
  {
    PlainKept(s);
    hide Kept, Dashed;
    assert StripLeft(s) == s && StripRight(s) == s;
    assert TrimLeft(s) == s && TrimRight(s) == s;
  }

  lemma {:induction false} KeptAll(s: string)
    requires forall k | 0 <= k < |s| :: NameChar(s[k]) || IsSpace(s[k])
    ensures Kept(s) == s
  {
    if s != [] {
      KeptAll(s[1..]);
      assert s == [s[0]] + s[1..];
    }
  }

  lemma {:induction false} DashedBlanks(blanks: string, b: string)
    requires blanks != [] && (forall k | 0 <= k < |blanks| :: IsSpace(blanks[k])) && IsName(b)
    ensures forall k | 0 <= k < |blanks + b| :: NameChar((blanks + b)[k]) || IsSpace((blanks + b)[k])
    ensures Dashed(blanks + b) == "-" + b
    decreases |blanks|
  {
    var s := blanks + b;
    PlainKept(b);
    if |blanks| == 1 {
      assert s[1..] == b && s[1] == b[0];
    } else {
      DashedBlanks(blanks[1..], b);
      assert s[1..] == blanks[1..] + b && s[1] == blanks[1];
    }
  }

  lemma {:induction false} DashedWord(a: string, rest: string)
    requires (forall k | 0 <= k < |a| :: NameChar(a[k])) && forall k | 0 <= k < |rest| :: NameChar(rest[k]) || IsSpace(rest[k])
    ensures forall k | 0 <= k < |a + rest| :: NameChar((a + rest)[k]) || IsSpace((a + rest)[k])
    ensures Dashed(a + rest) == a + Dashed(rest)
  {
    if a == [] {
      assert a + rest == rest && a + Dashed(rest) == Dashed(rest);
    } else {
      assert (a + rest)[1..] == a[1..] + rest;
      DashedWord(a[1..], rest);
      assert a == [a[0]] + a[1..];
      assert [a[0]] + (a[1..] + Dashed(rest)) == a + Dashed(rest);
    }
  }

  /** Words set apart by blanks, of any number, are set apart by one dash. */
  lemma SlugOfTwoWords(a: string, blanks: string, b: string, id: nat)
    requires IsName(a) && IsName(b) && blanks != [] && forall k | 0 <= k < |blanks| :: IsSpace(blanks[k])
    ensures Slug(a + (blanks + b), id) == a + ("-" + b)
  {
    var title, slug := a + (blanks + b), a + ("-" + b);
    DashedBlanks(blanks, b);
    DashedWord(a, blanks + b);
    KeptAll(title);
    hide Kept, Dashed;
    assert title[0] == a[0] && title[|title| - 1] == b[|b| - 1];
    assert StripLeft(title) == title && StripRight(title) == title;
    assert slug[0] == a[0] && slug[|slug| - 1] == b[|b| - 1];
    assert TrimLeft(slug) == slug && TrimRight(slug) == slug;
  }

  // ---- siblings of the same title

  function Numbered(base: string, n: nat): string {
    base + "-" + Digits(n)
  }

  lemma NumberedIsName(base: string, n: nat)
    requires IsName(base)
    ensures IsName(Numbered(base, n))
  {
  }

  lemma NumberedInjective(base: string, a: nat, b: nat)
    requires Numbered(base, a) == Numbered(base, b)
    ensures a == b
  {
    assert Numbered(base, a)[|base| + 1..] == Digits(a) && Numbered(base, b)[|base| + 1..] == Digits(b);
    DigitsInjective(a, b);
  }

  // The first number, from `n` on, whose name is free.
  function FirstFree(base: string, used: set<string>, n: nat): (m: nat)
    ensures n <= m && Numbered(base, m) !in used
    ensures forall k | n <= k < m :: Numbered(base, k) in used
    decreases |used|
  {
    var name := Numbered(base, n);
    if name in used then
      var m := FirstFree(base, used - {name}, n + 1);
      assert Numbered(base, m) !in used by {
        if Numbered(base, m) == name {
          NumberedInjective(base, m, n);
        }
      }
      m
    else n
  }

  function NameAmong(base: string, used: set<string>): string {
    if base in used then Numbered(base, FirstFree(base, used, 2)) else base
  }

  lemma NameFromTitle(base: string, used: set<string>)
    ensures NameAmong(base, used) == base || exists n: nat :: n >= 2 && NameAmong(base, used) == base + "-" + Digits(n)
  {
    assert Numbered(base, FirstFree(base, used, 2)) == base + "-" + Digits(FirstFree(base, used, 2));
  }

  method FreeName(base: string, used: set<string>) returns (slug: string)
    ensures slug == NameAmong(base, used)
    ensures base !in used ==> slug == base
    ensures base in used ==> exists n: nat ::
              n >= 2 && slug == base + "-" + Digits(n) && slug !in used
              && forall k: nat | 2 <= k < n :: base + "-" + Digits(k) in used
  {
    slug := base;
    var n := 2;
    ghost var m := FirstFree(base, used, 2);
    while slug in used
      invariant 2 <= n <= m + 1
      invariant slug == if n == 2 then base else Numbered(base, n - 1)
      invariant n > 2 ==> base in used
      decreases m + 1 - n
    {
      slug := Numbered(base, n);
      n := n + 1;
    }
    assert forall k: nat :: Numbered(base, k) == base + "-" + Digits(k);
    assert base in used ==> slug == base + "-" + Digits(m) && m >= 2;
  }

  // ---- file names

  predicate AllNames(names: seq<string>) {
    forall k | 0 <= k < |names| :: IsName(names[k])
  }

  function Folder(names: seq<string>): string {
    if names == [] then "" else names[0] + "/" + Folder(names[1..])
  }

  // The file of a page whose ancestors, and itself, bear `names`.
  function FileName(names: seq<string>, folder: bool): string
    requires names != []
  {
    if |names| == 1 then names[0] + (if folder then "/_index.md" else ".md")
    else names[0] + "/" + FileName(names[1..], folder)
  }

  lemma {:induction false} FolderMore(names: seq<string>, name: string, folder: bool)
    ensures Folder(names + [name]) == Folder(names) + name + "/"
    ensures FileName(names + [name], folder) == Folder(names) + name + (if folder then "/_index.md" else ".md")
  {
    if names == [] {
      assert [name][1..] == [];
    } else {
      assert (names + [name])[1..] == names[1..] + [name];
      FolderMore(names[1..], name, folder);
      var first, end := names[0], if folder then "/_index.md" else ".md";
      assert Folder(names) == first + "/" + Folder(names[1..]);
      assert Folder(names + [name]) == first + "/" + Folder(names[1..] + [name]);
      assert FileName(names + [name], folder) == first + "/" + FileName(names[1..] + [name], folder);
      hide *;
    }
  }

  // What follows the first name: the end of a leaf's file, or what is inside a folder.
  datatype Tail = Leaf | Inside(text: string)

  function After(t: Tail): string {
    if t.Leaf? then ".md" else "/" + t.text
  }

  function TailOf(names: seq<string>, folder: bool): (t: Tail)
    requires names != []
    ensures FileName(names, folder) == names[0] + After(t)
    ensures t.Leaf? <==> |names| == 1 && !folder
  {
    if |names| > 1 then Inside(FileName(names[1..], folder))
    else if folder then assert After(Inside("_index.md")) == "/_index.md"; Inside("_index.md") else Leaf
  }

  lemma CutAtSlash(a: string, x: string, b: string, y: string)
    requires NoSlash(a) && NoSlash(b) && a + "/" + x == b + "/" + y
    ensures a == b && x == y
  {
    CutAtFirst('/', a, x, b, y);
  }

  lemma NoSlashInFile(a: string, s: string)
    requires NoSlash(a)
    ensures s == a + ".md" ==> NoSlash(s)
    ensures forall b: string, y: string :: NoSlash(b) && s == b + "/" + y ==> !NoSlash(s)
  {
    forall b: string, y: string | NoSlash(b) && s == b + "/" + y
      ensures !NoSlash(s)
    {
      assert s[|b|] == '/';
    }
  }

  lemma SameCut(a: string, x: Tail, b: string, y: Tail)
    requires NoSlash(a) && NoSlash(b) && a + After(x) == b + After(y)
    ensures a == b && x == y
  {
    NoSlashInFile(a, a + After(x));
    NoSlashInFile(b, a + After(x));
    hide NoSlash;
    assert x.Inside? ==> a + After(x) == a + "/" + x.text;
    assert y.Inside? ==> b + After(y) == b + "/" + y.text;
    if x.Inside? && y.Inside? {
      CutAtSlash(a, x.text, b, y.text);
    } else {
      assert a == (a + ".md")[..|a|] && b == (b + ".md")[..|b|];
    }
  }

  lemma InsideIsNotTheIndex(names: seq<string>, folder: bool)
    requires AllNames(names) && names != []
    ensures FileName(names, folder) != [] && FileName(names, folder)[0] != '_'
  {
    assert IsName(names[0]);
    assert FileName(names, folder)[0] == names[0][0];
  }

  /** A file name tells the names it is made of: no child collides with `_index.md`. */
  lemma {:induction false} SameFileName(a: seq<string>, f: bool, b: seq<string>, g: bool)
    requires AllNames(a) && AllNames(b) && a != [] && b != [] && FileName(a, f) == FileName(b, g)
    ensures a == b && f == g
  {
    assert IsName(a[0]) && IsName(b[0]);
    var x, y := TailOf(a, f), TailOf(b, g);
    SameCut(a[0], x, b[0], y);
    if |a| > 1 && |b| > 1 {
      SameFileName(a[1..], f, b[1..], g);
      assert a == [a[0]] + a[1..] && b == [b[0]] + b[1..];
    } else if |a| > 1 {
      InsideIsNotTheIndex(a[1..], f);
    } else if |b| > 1 {
      InsideIsNotTheIndex(b[1..], g);
    }
  }

  // What is cut at a separator is a folder and what is inside it.
  lemma CutInside(first: string, x: string, b: string, y: Tail)
    requires NoSlash(first) && NoSlash(b) && first + "/" + x == b + After(y)
    ensures y == Inside(x) && b == first
  {
    var t := b + After(y);
    NoSlashInFile(b, t);
    NoSlashInFile(first, t);
    hide NoSlash;
    assert y.Inside?;
    assert t == b + "/" + y.text;
    CutAtSlash(first, x, b, y.text);
  }

  // A first text and a separator open a second one.
  lemma OpensCut(a: string, x: Tail, b: string, y: Tail)
    requires NoSlash(a) && NoSlash(b)
    ensures a + After(x) + "/" <= b + After(y)
            <==> y.Inside? && if x.Leaf? then b == a + ".md" else b == a && x.text + "/" <= y.text
  {
    var first, inner := if x.Leaf? then a + ".md" else a, if x.Leaf? then "" else x.text + "/";
    assert NoSlash(first);
    assert a + After(x) + "/" == first + "/" + inner;
    hide NoSlash;
    OpensHead(first, inner, b, y);
    hide After;
    assert x.Leaf? && y.Inside? ==> inner <= y.text;
  }

  lemma OpensHead(first: string, inner: string, b: string, y: Tail)
    requires NoSlash(first) && NoSlash(b)
    ensures first + "/" + inner <= b + After(y) <==> y.Inside? && b == first && inner <= y.text
  {
    hide NoSlash;
    var s, t := first + "/" + inner, b + After(y);
    if s <= t {
      var rest := t[|s|..];
      assert t == first + "/" + (inner + rest);
      CutInside(first, inner + rest, b, y);
    }
    if y.Inside? && b == first && inner <= y.text {
      OpensMore(first, inner, y.text);
    }
  }

  lemma OpensMore(first: string, inner: string, text: string)
    requires inner <= text
    ensures first + "/" + inner <= first + ("/" + text)
  {
    assert text == inner + text[|inner|..];
    assert first + ("/" + text) == first + "/" + inner + text[|inner|..];
  }

  // A leaf of the first file, and a folder of the second one named after that file.
  predicate LeafInTheWay(a: seq<string>, f: bool, b: seq<string>, g: bool)
    requires a != []
  {
    var n := |a| - 1;
    !f && |a| <= |b| && a[..n] == b[..n] && b[n] == a[n] + ".md" && (|a| < |b| || g)
  }

  lemma LeafInTheWayBelow(a: seq<string>, f: bool, b: seq<string>, g: bool)
    requires |a| > 1 && b != []
    ensures LeafInTheWay(a, f, b, g) <==> a[0] == b[0] && LeafInTheWay(a[1..], f, b[1..], g)
  {
    var n := |a| - 1;
    if |a| <= |b| {
      assert a[..n] == [a[0]] + a[1..][..n - 1] && b[..n] == [b[0]] + b[1..][..n - 1];
      assert a[..n] == b[..n] <==> a[0] == b[0] && a[1..][..n - 1] == b[1..][..n - 1] by {
        assert a[..n][1..] == a[1..][..n - 1] && b[..n][1..] == b[1..][..n - 1];
      }
      assert a[1..][n - 1] == a[n] && b[1..][n - 1] == b[n];
    }
  }

  lemma TailIs(names: seq<string>, folder: bool)
    requires names != []
    ensures TailOf(names, folder)
         == if |names| > 1 then Inside(FileName(names[1..], folder)) else if folder then Inside("_index.md") else Leaf
  {
  }

  lemma OtherFirst(x: string, y: string)
    requires x != [] && y != [] && x[0] != y[0]
    ensures !(x + "/" <= y)
  {
    assert (x + "/")[0] == x[0];
  }

  lemma NothingInLeaf(a: seq<string>, f: bool, b: seq<string>, g: bool)
    requires |a| == 1 && b != []
    ensures LeafInTheWay(a, f, b, g) <==> !f && b[0] == a[0] + ".md" && (|b| > 1 || g)
  {
    assert a[..0] == b[..0];
  }

  /** A file name and a separator open another file name exactly when a leaf stands in the
      way of a folder. */
  lemma {:induction false} OpensFileName(a: seq<string>, f: bool, b: seq<string>, g: bool)
    requires AllNames(a) && AllNames(b) && a != [] && b != []
    ensures FileName(a, f) + "/" <= FileName(b, g) <==> LeafInTheWay(a, f, b, g)
  {
    assert IsName(a[0]) && IsName(b[0]);
    var x, y := TailOf(a, f), TailOf(b, g);
    OpensCut(a[0], x, b[0], y);
    TailIs(a, f);
    TailIs(b, g);
    if |a| == 1 {
      NothingInLeaf(a, f, b, g);
      if |b| > 1 {
        InsideIsNotTheIndex(b[1..], g);
        OtherFirst("_index.md", FileName(b[1..], g));
      } else {
        assert !("_index.md" + "/" <= "_index.md");
      }
      hide FileName, TailOf, LeafInTheWay, IsName, AllNames, After;
    } else {
      LeafInTheWayBelow(a, f, b, g);
      InsideIsNotTheIndex(a[1..], f);
      if |b| > 1 {
        OpensFileName(a[1..], f, b[1..], g);
      } else {
        OtherFirst(FileName(a[1..], f), "_index.md");
        assert !LeafInTheWay(a, f, b, g);
      }
      hide FileName, TailOf, LeafInTheWay, IsName, AllNames, After;
    }
  }
}

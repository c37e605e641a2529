// What is in a patched page, line by line, and what a refusal names.

module DocPatchPages {
  import opened Options
  import opened DocPatch
  import opened DocPatchLaws

  // ---- sections

  // The heading of a section, and the lines up to the next heading that is not deeper.
  predicate IsSection(page: Page, key: string, i: nat, level: nat, j: nat) {
    && i < j <= |page| && page[i].Heading? && page[i].level == level
    && (forall k | 0 <= k < |page| :: page[k].Heading? && page[k].key == key <==> k == i)
    && (forall k | i < k < j && page[k].Heading? :: page[k].level > level)
    && (j < |page| ==> page[j].Heading? && page[j].level <= level)
  }

  /** A section is found exactly when one heading bears its title, however it is written, and it
      goes up to the next heading that is not deeper. */
  lemma FoundIff(page: Page, key: string, i: nat, level: nat, j: nat)
    ensures Locate(page, key) == At(i, level, j) <==> IsSection(page, key, i, level, j)
  {
    LocatedIff(page, key, i, level, j);
    hide Locate;
  }

  lemma {:induction false} HeadingsOfInit(lines: seq<Line>)
    requires lines != []
    ensures Headings(lines) == Headings(lines[..|lines| - 1]) + if lines[|lines| - 1].Heading? then [lines[|lines| - 1].text] else []
  {
    var init, last := lines[..|lines| - 1], [lines[|lines| - 1]];
    HeadingsConcat(init, last);
    assert last[1..] == [];
    assert Headings(last) == if last[0].Heading? then [last[0].text] else [];
    hide Headings;
    assert lines == init + last;
  }

  lemma {:induction false} HeadingsAt(lines: seq<Line>)
    ensures |Headings(lines)| == |HeadingIndices(lines)|
    ensures forall k | 0 <= k < |Headings(lines)| :: Headings(lines)[k] == lines[HeadingIndices(lines)[k]].text
  {
    if lines != [] {
      HeadingsAt(lines[..|lines| - 1]);
      HeadingsOfInit(lines);
    }
  }

  /** The titles a page is said to have are those of its plan, in order. */
  lemma HeadingsAreThePlan(lines: seq<Line>)
    ensures |Headings(lines)| == |Outline(lines)|
    ensures forall k | 0 <= k < |Headings(lines)| :: Headings(lines)[k] == Outline(lines)[k].text
  {
    HeadingsAt(lines);
    OutlineAgrees(lines);
    hide Headings, HeadingIndices;
  }

  // ---- refusals

  lemma HitsWhere(lines: seq<Line>, key: string, matches: seq<Match>)
    requires matches == MatchesOf(lines, Hits(lines, key))
    ensures AllThatBear(lines, key, matches)
  {
    var hits := Hits(lines, key);
    hide Hits;
    forall i | 0 <= i < |lines| && lines[i].Heading? && lines[i].key == key
      ensures Match(i + 1, lines[i].level, lines[i].text) in matches
    {
      assert Answers(lines[i], key);
      var k :| 0 <= k < |hits| && hits[k] == i;
      assert matches[k] in matches;
    }
  }

  /** What a refused patch says: a wrong mode, a content where there should be none or none where
      there should be one; else the titles the page has, when none is the one asked for; else all
      the lines that bear it. Nothing else is refused. */
  lemma PatchRefusesIff(page: Page, key: string, body: Option<Page>, mode: Mode)
    ensures mode == Unknown ==> Patch(page, key, body, mode) == Refused(BadMode)
    ensures mode == Delete && body.Some? ==> Patch(page, key, body, mode) == Refused(ContentGiven)
    ensures (mode == Replace || mode == Append || mode == Prepend) && body.None? ==> Patch(page, key, body, mode) == Refused(ContentMissing)
    ensures mode != Unknown && (mode == Delete <==> body.None?) ==>
              var r := Patch(page, key, body, mode);
              && (r.Ok? ==> exists i, level, j :: IsSection(page, key, i, level, j))
              && (r.Refused? ==> r.why.NotFound? || r.why.Ambiguous?)
              && (r.Refused? && r.why.NotFound? ==>
                    r.why.available == Headings(page) && forall line <- page :: !(line.Heading? && line.key == key))
              && (r.Refused? && r.why.Ambiguous? ==> |r.why.matches| > 1 && AllThatBear(page, key, r.why.matches))
  {
    LocateMeans(page, key);
    hide Locate, PatchAt;
  }

  ghost predicate AllThatBear(page: seq<Line>, key: string, matches: seq<Match>) {
    && (forall m :: m in matches <==>
          exists i | 0 <= i < |page| ::
            page[i].Heading? && page[i].key == key && m == Match(i + 1, page[i].level, page[i].text))
    && forall j, k | 0 <= j < k < |matches| :: matches[j].line < matches[k].line
  }

  lemma LocateMeans(page: Page, key: string)
    ensures
      var found := Locate(page, key);
      && (found.At? ==> IsSection(page, key, found.start, found.level, found.end))
      && (found.Nowhere? ==> forall line <- page :: !(line.Heading? && line.key == key))
      && (found.Many? ==> |found.matches| > 1 && AllThatBear(page, key, found.matches))
  {
    var found := Locate(page, key);
    if found.At? {
      FoundIff(page, key, found.start, found.level, found.end);
    } else if found.Nowhere? {
      LocatedIff(page, key, 0, 0, 0);
      forall line | line in page
        ensures !(line.Heading? && line.key == key)
      {
        var k :| 0 <= k < |page| && page[k] == line;
        assert !Answers(page[k], key);
      }
    } else {
      HitsWhere(page, key, found.matches);
    }
  }

  // ---- the title a body repeats

  // The first line of a body that is not blank bears the title.
  predicate RepeatsTitle(body: Page, key: string, n: nat) {
    && n < |body| && body[n].Heading? && body[n].key == key
    && forall k | 0 <= k < n :: body[k].Blank?
  }

  // What is left of it: all that follows from the first line that is not blank, or one empty line.
  predicate Remains(body: Page, n: nat, rest: seq<Line>) {
    exists m | n < m <= |body| ::
      && (forall k | n < k < m :: body[k].Blank?) && (m < |body| ==> !body[m].Blank?)
      && rest == if m < |body| then body[m..] else [Blank("")]
  }

  ghost predicate Absorbed(body: Page, key: string, added: seq<Line>) {
    && ((forall n :: !RepeatsTitle(body, key, n)) ==> added == body)
    && forall n | RepeatsTitle(body, key, n) :: Remains(body, n, added)
  }

  lemma {:induction false} DropLeadingIs(lines: seq<Line>) returns (m: nat)
    ensures m <= |lines| && DropLeading(lines) == lines[m..]
    ensures (forall k | 0 <= k < m :: lines[k].Blank?) && (m < |lines| ==> !lines[m].Blank?)
  {
    if lines != [] && lines[0].Blank? {
      var rest := DropLeadingIs(lines[1..]);
      m := rest + 1;
    } else {
      m := 0;
    }
  }

  /** The title of the section is absorbed when the body opens with it, with the blank lines that
      follow; any other body is taken as it is. */
  lemma OwnTitleIsAbsorbed(body: Page, key: string)
    ensures Absorbed(body, key, StripOwn(body, key))
  {
    var n := DropLeadingIs(body);
    assert forall other | RepeatsTitle(body, key, other) :: other == n;
    if RepeatsTitle(body, key, n) {
      var rest := DropLeading(body)[1..];
      assert rest == body[n + 1..];
      var m := DropLeadingIs(rest);
      assert rest[m..] == body[n + 1 + m..];
      assert StripOwn(body, key) == Rejoin(rest[m..]);
      assert forall k | n < k < n + 1 + m :: body[k] == rest[k - (n + 1)];
    }
  }

  // ---- patched pages

  // The lines without the blank ones at their end.
  predicate Stripped(lines: seq<Line>, kept: seq<Line>) {
    && kept <= lines && (forall k | |kept| <= k < |lines| :: lines[k].Blank?)
    && (kept != [] ==> !kept[|kept| - 1].Blank?)
  }

  lemma DropTrailingIs(lines: seq<Line>)
    ensures Stripped(lines, DropTrailing(lines))
  {
    DropTrailingKeeps(lines);
    hide DropTrailing;
    BlankFrom(lines, |DropTrailing(lines)|);
  }

  lemma BlankFrom(lines: seq<Line>, d: nat)
    requires d <= |lines| && AllBlank(lines[d..])
    ensures forall k | d <= k < |lines| :: lines[k].Blank?
  {
    forall k | d <= k < |lines|
      ensures lines[k].Blank?
    {
      assert lines[k] == lines[d..][k - d];
    }
  }

  // A page with `added` in its section: in place of what was there, after it, or before it.
  predicate Written(page: Page, i: nat, j: nat, mode: Mode, added: seq<Line>, kept: seq<Line>, now: seq<Line>)
    requires i < j <= |page|
  {
    var blank, close := [Blank("")], if j < |page| then [Blank("")] else [];
    match mode
    case Replace => now == page[..i + 1] + (blank + added + close) + page[j..]
    case Append => Stripped(page[i + 1..j], kept) && now == page[..i + 1] + (kept + blank + added + close) + page[j..]
    case Prepend => now == page[..i + 1] + (blank + added + blank + page[i + 1..j]) + page[j..]
    case _ => false
  }

  /** A patch with a content, line by line: the title it may repeat is absorbed, and the rest stands
      in the section where the mode says, set off by one empty line on each side that has lines. */
  lemma PatchedPageIs(page: Page, key: string, body: Page, mode: Mode, i: nat, level: nat, j: nat)
    returns (added: seq<Line>, kept: seq<Line>)
    requires IsSection(page, key, i, level, j) && (mode == Replace || mode == Append || mode == Prepend)
    ensures Absorbed(body, key, added)
    ensures Patch(page, key, Some(body), mode).Ok?
    ensures Written(page, i, j, mode, added, kept, Patch(page, key, Some(body), mode).value)
  {
    added, kept := StripOwn(body, key), DropTrailing(page[i + 1..j]);
    OwnTitleIsAbsorbed(body, key);
    DropTrailingIs(page[i + 1..j]);
    FoundIff(page, key, i, level, j);
    WrittenBy(page, i, j, key, body, mode);
    hide Locate, StripOwn, Absorbed, DropTrailing, IsSection, Stripped, PatchAt, Written;
  }

  lemma WrittenBy(page: Page, i: nat, j: nat, key: string, body: Page, mode: Mode)
    requires i < j <= |page| && (mode == Replace || mode == Append || mode == Prepend)
    requires Stripped(page[i + 1..j], DropTrailing(page[i + 1..j]))
    ensures Written(page, i, j, mode, StripOwn(body, key), DropTrailing(page[i + 1..j]), PatchAt(page, i, j, key, Some(body), mode))
  {
    hide StripOwn, DropTrailing, Stripped;
    assert |page[j..]| == |page| - j;
    var section := NewInner(page[i + 1..j], StripOwn(body, key), mode, page[j..] != []);
    assert PatchAt(page, i, j, key, Some(body), mode) == page[..i + 1] + section + page[j..];
    hide PatchAt;
  }

  /** And a deletion: the section goes with its title and the blank lines before it, an empty line
      stands between what is left on both sides. */
  lemma DeletedPageIs(page: Page, key: string, i: nat, level: nat, j: nat) returns (kept: seq<Line>)
    requires IsSection(page, key, i, level, j)
    ensures Stripped(page[..i], kept)
    ensures Patch(page, key, None, Delete).Ok?
    ensures
      var now := (if kept != [] then kept + [Blank("")] else []) + page[j..];
      Patch(page, key, None, Delete).value == if now == [] then [Blank("")] else now
  {
    kept := DropTrailing(page[..i]);
    DropTrailingIs(page[..i]);
    FoundIff(page, key, i, level, j);
    hide Locate, DropTrailing, IsSection, Stripped;
  }

  /** A body that opens with the title of the section, and bears it nowhere else, leaves a section
      that is found again at its line; a body that bears it elsewhere leaves a page where the title
      is ambiguous. */
  lemma RepeatedTitleIsFoundAgain(page: Page, key: string, body: Page, i: nat, level: nat, j: nat, n: nat)
    requires IsSection(page, key, i, level, j) && RepeatsTitle(body, key, n)
    ensures Patch(page, key, Some(body), Replace).Ok?
    ensures
      var found := Locate(Patch(page, key, Some(body), Replace).value, key);
      if exists k | n < k < |body| :: body[k].Heading? && body[k].key == key then found.Many?
      else found.At? && found.start == i && found.level == level
  {
    FoundIff(page, key, i, level, j);
    ReplacedIsFoundAgain(page, key, body, i, level, j);
    OwnTitleIsAbsorbed(body, key);
    var added := StripOwn(body, key);
    hide Locate, Patch, StripOwn, Replaced, HasCloser;
    LeftOfTitle(body, key, n, added);
  }

  lemma LeftOfTitle(body: Page, key: string, n: nat, added: seq<Line>)
    requires n < |body| && Remains(body, n, added)
    ensures HasKey(added, key) <==> exists k | n < k < |body| :: body[k].Heading? && body[k].key == key
  {
    var m :| n < m <= |body| && (forall k | n < k < m :: body[k].Blank?) && added == if m < |body| then body[m..] else [Blank("")];
    if k :| n < k < |body| && body[k].Heading? && body[k].key == key {
      assert Answers(added[k - m], key);
    }
  }

  /** The announced extent of a replacement or a deletion names the subtitles that go: the titles of
      the page are those before it, the section's own when it goes too, these, and those after. */
  lemma ExtentNamesWhatGoes(page: Page, key: string, i: nat, level: nat, j: nat, mode: Mode)
    requires IsSection(page, key, i, level, j) && (mode == Replace || mode == Delete)
    ensures ExtentOf(page, Some(key), mode).Ok? && ExtentOf(page, Some(key), mode).value.Some?
    ensures
      var e := ExtentOf(page, Some(key), mode).value.value;
      && e.start == (if mode == Delete then i else i + 1) && e.end == j
      && Headings(page) == Headings(page[..e.start]) + (if mode == Delete then [page[i].text] else []) + e.subsections + Headings(page[e.end..])
  {
    FoundIff(page, key, i, level, j);
    HeadingsCut(page, i, j);
    hide Headings, Locate, IsSection;
  }

  lemma HeadingsCut(lines: seq<Line>, i: nat, j: nat)
    requires i < j <= |lines| && lines[i].Heading?
    ensures Headings(lines) == Headings(lines[..i + 1]) + [] + Headings(lines[i + 1..j]) + Headings(lines[j..])
    ensures Headings(lines) == Headings(lines[..i]) + [lines[i].text] + Headings(lines[i + 1..j]) + Headings(lines[j..])
  {
    HeadingsOfInit(lines[..i + 1]);
    hide *;
    HeadingsSplit(lines, j);
    HeadingsSplit(lines[..j], i + 1);
    SlicesCut(lines, i, j);
    var upTo := Headings(lines[..i + 1]);
    assert upTo + [] == upTo;
  }

  lemma SlicesCut(lines: seq<Line>, i: nat, j: nat)
    requires i < j <= |lines|
    ensures lines[..i + 1][..i] == lines[..i] && lines[..i + 1][i] == lines[i]
    ensures lines[..j][..i + 1] == lines[..i + 1] && lines[..j][i + 1..] == lines[i + 1..j]
  {
  }

  lemma HeadingsSplit(lines: seq<Line>, k: nat)
    requires k <= |lines|
    ensures Headings(lines) == Headings(lines[..k]) + Headings(lines[k..])
  {
    HeadingsConcat(lines[..k], lines[k..]);
    hide Headings;
    assert lines == lines[..k] + lines[k..];
  }

  // ---- the preamble

  // The lines before the first heading.
  predicate IsPreamble(page: Page, k: nat) {
    k <= |page| && (forall i | 0 <= i < k :: !page[i].Heading?) && (k < |page| ==> page[k].Heading?)
  }

  predicate NoneButBlank(lines: seq<Line>) {
    forall k | 0 <= k < |lines| :: lines[k].Blank?
  }

  /** A patch of the preamble with a content, line by line: nothing of the rest of the page changes,
      an addition keeps what was there unless it was blank, and the content opens the page in the
      other modes. */
  lemma PreamblePageIs(page: Page, body: Page, mode: Mode, k: nat) returns (kept: seq<Line>)
    requires IsPreamble(page, k) && (mode == Replace || mode == Append || mode == Prepend)
    ensures PatchPreamble(page, Some(body), mode).Ok? <==> forall line <- body :: !line.Heading?
    ensures Stripped(page[..k], kept)
    ensures PatchPreamble(page, Some(body), mode).Ok? ==>
              var blank, close := [Blank("")], if k < |page| then [Blank("")] else [];
              PatchPreamble(page, Some(body), mode).value
              == (if mode == Replace || NoneButBlank(page[..k]) then body + close
                  else if mode == Append then kept + blank + body + close
                  else body + blank + page[..k])
                 + page[k..]
  {
    kept := DropTrailing(page[..k]);
    hide *;
    DropTrailingIs(page[..k]);
    BodyHasNoHeading(body);
    PreambleEnds(page, k);
    PreambleBy(page[..k], body, mode, k < |page|);
    PatchPreambleIs(page, body, mode);
  }

  lemma PreambleEnds(page: Page, k: nat)
    requires IsPreamble(page, k)
    ensures k <= |page| && FirstHeading(page) == k && (page[k..] != [] <==> k < |page|)
  {
  }

  lemma PatchPreambleIs(page: Page, body: Page, mode: Mode)
    requires mode == Replace || mode == Append || mode == Prepend
    ensures
      var k := FirstHeading(page);
      PatchPreamble(page, Some(body), mode)
      == if Headings(body) != [] then Refused(HeadingInPreamble(Headings(body)))
         else Ok(NewPreamble(page[..k], body, mode, page[k..] != []) + page[k..])
  {
    hide Headings, FirstHeading, NewPreamble;
  }

  lemma PreambleBy(inner: seq<Line>, body: Page, mode: Mode, followed: bool)
    requires Stripped(inner, DropTrailing(inner)) && (mode == Replace || mode == Append || mode == Prepend)
    ensures
      var blank, close := [Blank("")], if followed then [Blank("")] else [];
      NewPreamble(inner, body, mode, followed)
      == if mode == Replace || NoneButBlank(inner) then body + close
         else if mode == Append then DropTrailing(inner) + blank + body + close
         else body + blank + inner
  {
    KeptIsBlank(inner, DropTrailing(inner));
    hide AllBlank, NoneButBlank, DropTrailing, Stripped;
    assert [] + body == body;
    assert body + ([EMPTY] + inner) == body + [EMPTY] + inner;
  }

  /** What a refused patch of the preamble says: a wrong mode or content as above, a page without a
      heading or without a preamble for a deletion, the headings of the content otherwise. */
  lemma PreambleRefusesIff(page: Page, body: Option<Page>, mode: Mode, k: nat)
    requires IsPreamble(page, k)
    ensures mode == Unknown ==> PatchPreamble(page, body, mode) == Refused(BadMode)
    ensures mode == Delete && body.Some? ==> PatchPreamble(page, body, mode) == Refused(ContentGiven)
    ensures (mode == Replace || mode == Append || mode == Prepend) && body.None? ==> PatchPreamble(page, body, mode) == Refused(ContentMissing)
    ensures mode == Delete && body.None? ==>
              PatchPreamble(page, body, mode)
              == if k == |page| then Refused(PreambleIsWholePage)
                 else if NoneButBlank(page[..k]) then Refused(PreambleAbsent)
                 else Ok(page[k..])
    ensures (mode == Replace || mode == Append || mode == Prepend) && body.Some? && PatchPreamble(page, body, mode).Refused? ==>
              PatchPreamble(page, body, mode) == Refused(HeadingInPreamble(Headings(body.value)))
  {
    assert FirstHeading(page) == k;
    assert AllBlank(page[..k]) <==> NoneButBlank(page[..k]);
    assert DropTrailing([]) == [] && [] + page[k..] == page[k..];
    hide Headings, FirstHeading, AllBlank, NoneButBlank, IsPreamble, NewPreamble;
  }

  lemma BodyHasNoHeading(body: Page)
    ensures Headings(body) == [] <==> forall line <- body :: !line.Heading?
  {
    NoHeadings(body);
  }

  lemma KeptIsBlank(inner: seq<Line>, kept: seq<Line>)
    requires Stripped(inner, kept)
    ensures AllBlank(kept) <==> NoneButBlank(inner)
    ensures AllBlank(inner) <==> NoneButBlank(inner)
  {
  }
}

// Partial editing of a markdown page (oto_mcp/doc_patch.py): where a section is, what a
// patch takes away, and the patch itself.

module DocPatch {
  import opened Options

  /** A line of a page. A heading carries its level, its text, and the text normalised for
      comparison (`key`); `raw` is the line as it is written. */
  datatype Line = Blank(raw: string) | Plain(raw: string) | Heading(level: nat, text: string, key: string, raw: string)

  const EMPTY: Line := Blank("")

  // A page is split on line ends: never without a line.
  type Page = lines: seq<Line> | |lines| > 0 witness [Blank("")]

  // Joining no line at all gives the empty text, which is one empty line.
  function Rejoin(lines: seq<Line>): Page {
    if lines == [] then [EMPTY] else lines
  }

  datatype Mode = Replace | Append | Prepend | Delete | Unknown

  /** A heading that answers to a requested section: its line (from 1), level and text. */
  datatype Match = Match(line: nat, level: nat, text: string)

  datatype Refusal =
    | BadMode | ContentGiven | ContentMissing
    | NotFound(available: seq<string>) | Ambiguous(matches: seq<Match>)
    | HeadingInPreamble(found: seq<string>) | PreambleAbsent | PreambleIsWholePage

  datatype Result<+T> = Ok(value: T) | Refused(why: Refusal)

  // ---- headings and sections

  predicate Answers(line: Line, key: string) {
    line.Heading? && line.key == key
  }

  predicate Closes(line: Line, level: nat) {
    line.Heading? && line.level <= level
  }

  function Headings(lines: seq<Line>): seq<string> {
    if lines == [] then []
    else (if lines[0].Heading? then [lines[0].text] else []) + Headings(lines[1..])
  }

  predicate HasKey(lines: seq<Line>, key: string) {
    exists k | 0 <= k < |lines| :: Answers(lines[k], key)
  }

  predicate HasCloser(lines: seq<Line>, level: nat) {
    exists k | 0 <= k < |lines| :: Closes(lines[k], level)
  }

  // The lines whose heading answers to `key`, in order.
  function Hits(lines: seq<Line>, key: string): (hits: seq<nat>)
    ensures forall k | 0 <= k < |hits| :: hits[k] < |lines| && Answers(lines[hits[k]], key)
    ensures forall i | 0 <= i < |lines| && Answers(lines[i], key) :: i in hits
    ensures forall j, k | 0 <= j < k < |hits| :: hits[j] < hits[k]
  {
    if lines == [] then []
    else
      var last := |lines| - 1;
      Hits(lines[..last], key) + if Answers(lines[last], key) then [last] else []
  }

  // The first line from `i` on that closes a section of that level, or the end of the page.
  function EndOf(lines: seq<Line>, i: nat, level: nat): (j: nat)
    requires i <= |lines|
    ensures i <= j <= |lines|
    ensures forall k | i <= k < j :: !Closes(lines[k], level)
    ensures j < |lines| ==> Closes(lines[j], level)
    decreases |lines| - i
  {
    if i == |lines| || Closes(lines[i], level) then i else EndOf(lines, i + 1, level)
  }

  datatype Located = Nowhere | Many(matches: seq<Match>) | At(start: nat, level: nat, end: nat)

  function MatchesOf(lines: seq<Line>, hits: seq<nat>): (r: seq<Match>)
    requires forall k | 0 <= k < |hits| :: hits[k] < |lines| && lines[hits[k]].Heading?
    ensures |r| == |hits|
  {
    seq(|hits|, k requires 0 <= k < |hits| => Match(hits[k] + 1, lines[hits[k]].level, lines[hits[k]].text))
  }

  // The section of a normalised title: one heading answers, up to the next that closes it.
  function Locate(lines: seq<Line>, key: string): (found: Located) {
    var hits := Hits(lines, key);
    if hits == [] then Nowhere
    else if |hits| > 1 then Many(MatchesOf(lines, hits))
    else At(hits[0], lines[hits[0]].level, EndOf(lines, hits[0] + 1, lines[hits[0]].level))
  }

  // `i` is the only line whose heading answers to `key`.
  predicate OnlyAt(lines: seq<Line>, key: string, i: nat) {
    i < |lines| && forall k | 0 <= k < |lines| :: Answers(lines[k], key) <==> k == i
  }

  /** A section is found exactly when one heading answers, and its extent is then the lines
      up to the first heading of the same level or above. */
  lemma LocatedIff(lines: seq<Line>, key: string, i: nat, level: nat, j: nat)
    ensures Locate(lines, key) == At(i, level, j) <==>
            && OnlyAt(lines, key, i) && level == lines[i].level && i < j <= |lines|
            && (forall k | i < k < j :: !Closes(lines[k], level)) && (j < |lines| ==> Closes(lines[j], level))
    ensures Locate(lines, key) == Nowhere <==> !HasKey(lines, key)
  {
    var hits := Hits(lines, key);
    if OnlyAt(lines, key, i) {
      assert i in hits;
      assert forall k | 0 <= k < |hits| :: hits[k] == i;
      assert hits[|hits| - 1] == i && hits[0] == i;
    }
    if |hits| == 1 && hits[0] == i {
      assert forall k | 0 <= k < |lines| && Answers(lines[k], key) :: k in hits;
    }
  }

  // ---- plan, reading and extent

  /** One line of the plan of a page, numbered from 1. */
  datatype PlanLine = PlanLine(text: string, level: nat, line: nat, toLine: nat)

  function HeadingIndices(lines: seq<Line>): (r: seq<nat>)
    ensures forall k | 0 <= k < |r| :: r[k] < |lines| && lines[r[k]].Heading?
    ensures forall i | 0 <= i < |lines| && lines[i].Heading? :: i in r
    ensures forall j, k | 0 <= j < k < |r| :: r[j] < r[k]
  {
    if lines == [] then []
    else
      var last := |lines| - 1;
      HeadingIndices(lines[..last]) + if lines[last].Heading? then [last] else []
  }

  // The end `outline` gives: the next heading of the list that is not deeper.
  function NextNotDeeper(lines: seq<Line>, rest: seq<nat>, level: nat): nat
    requires forall k | 0 <= k < |rest| :: rest[k] < |lines| && lines[rest[k]].Heading?
  {
    if rest == [] then |lines|
    else if lines[rest[0]].level <= level then rest[0]
    else NextNotDeeper(lines, rest[1..], level)
  }

  function Outline(lines: seq<Line>): (plan: seq<PlanLine>)
    ensures |plan| == |HeadingIndices(lines)|
  {
    var at := HeadingIndices(lines);
    seq(|at|, k requires 0 <= k < |at| =>
      PlanLine(lines[at[k]].text, lines[at[k]].level, at[k] + 1, NextNotDeeper(lines, at[k + 1..], lines[at[k]].level)))
  }

  lemma {:induction false} NextNotDeeperIsEnd(lines: seq<Line>, rest: seq<nat>, i: nat, level: nat)
    requires i <= |lines|
    requires forall k | 0 <= k < |rest| :: i <= rest[k] < |lines| && lines[rest[k]].Heading?
    requires forall k | i <= k < |lines| && lines[k].Heading? :: k in rest
    requires forall j, k | 0 <= j < k < |rest| :: rest[j] < rest[k]
    ensures NextNotDeeper(lines, rest, level) == EndOf(lines, i, level)
    decreases |rest|
  {
    if rest != [] && lines[rest[0]].level > level {
      forall k | rest[0] < k < |lines| && lines[k].Heading?
        ensures k in rest[1..]
      {
        assert k in rest;
      }
      NextNotDeeperIsEnd(lines, rest[1..], rest[0] + 1, level);
    }
    var e := EndOf(lines, i, level);
    assert e < |lines| ==> e in rest;
  }

  // The plan line of a heading, with the extent the search gives its section.
  function PlanLineOf(lines: seq<Line>, i: nat): PlanLine
    requires i < |lines| && lines[i].Heading?
  {
    PlanLine(lines[i].text, lines[i].level, i + 1, EndOf(lines, i + 1, lines[i].level))
  }

  lemma PlanLineAgrees(lines: seq<Line>, k: nat)
    requires k < |Outline(lines)|
    ensures Outline(lines)[k] == PlanLineOf(lines, HeadingIndices(lines)[k])
  {
    hide HeadingIndices, EndOf;
    var at := HeadingIndices(lines);
    forall i | at[k] < i < |lines| && lines[i].Heading?
      ensures i in at[k + 1..]
    {
      assert i in at;
    }
    NextNotDeeperIsEnd(lines, at[k + 1..], at[k] + 1, lines[at[k]].level);
  }

  /** The plan and the search agree: each heading has its plan line, whose extent is the one
      the search gives it, in the order of the page, and the plan has no other line. */
  lemma OutlineAgrees(lines: seq<Line>)
    ensures forall k | 0 <= k < |Outline(lines)| :: Outline(lines)[k] == PlanLineOf(lines, HeadingIndices(lines)[k])
    ensures forall i | 0 <= i < |lines| && lines[i].Heading? :: PlanLineOf(lines, i) in Outline(lines)
  {
    hide EndOf, PlanLineOf, HeadingIndices, Outline;
    forall k | 0 <= k < |Outline(lines)|
      ensures Outline(lines)[k] == PlanLineOf(lines, HeadingIndices(lines)[k])
    {
      PlanLineAgrees(lines, k);
    }
    forall i | 0 <= i < |lines| && lines[i].Heading?
      ensures PlanLineOf(lines, i) in Outline(lines)
    {
      var k :| 0 <= k < |HeadingIndices(lines)| && HeadingIndices(lines)[k] == i;
      assert Outline(lines)[k] in Outline(lines);
    }
  }

  /** A section that is found is read with the extent its plan line gives. */
  lemma LocatedInOutline(page: Page, key: string, i: nat, level: nat, j: nat)
    requires Locate(page, key) == At(i, level, j)
    ensures i < j <= |page| && page[i].Heading?
    ensures PlanLine(page[i].text, level, i + 1, j) in Outline(page)
    ensures ReadSection(page, key)
         == Ok(Reading(page[i].text, level, i + 1, j, page[i..j], Headings(page[i + 1..j])))
  {
    LocatedIff(page, key, i, level, j);
    OutlineAgrees(page);
    hide Outline;
    assert PlanLineOf(page, i) == PlanLine(page[i].text, level, i + 1, j);
  }

  /** Sections are laminar: of two headings, the later one's section is after the earlier
      one's, or inside it. */
  lemma SectionsAreLaminar(lines: seq<Line>, i: nat, k: nat)
    requires i < k < |lines| && lines[i].Heading? && lines[k].Heading?
    ensures
      var endI, endK := EndOf(lines, i + 1, lines[i].level), EndOf(lines, k + 1, lines[k].level);
      endI <= k || endK <= endI
  {
  }

  function RefusalOf(lines: seq<Line>, found: Located): Refusal
    requires !found.At?
  {
    if found.Nowhere? then NotFound(Headings(lines)) else Ambiguous(found.matches)
  }

  /** `read_section`: the section with its title and all it contains. */
  datatype Reading = Reading(text: string, level: nat, fromLine: nat, toLine: nat, body: Page, subsections: seq<string>)

  function ReadSection(page: Page, key: string): Result<Reading> {
    match Locate(page, key)
    case At(i, level, j) =>
      LocatedIff(page, key, i, level, j);
      Ok(Reading(page[i].text, level, i + 1, j, page[i..j], Headings(page[i + 1..j])))
    case found => Refused(RefusalOf(page, found))
  }

  /** `emprise`: the lines a patch takes away, as a half-open range counted from 0. */
  datatype Extent = Extent(start: nat, end: nat, subsections: seq<string>)

  function FirstHeading(lines: seq<Line>): (k: nat)
    ensures k <= |lines| && (forall i | 0 <= i < k :: !lines[i].Heading?) && (k < |lines| ==> lines[k].Heading?)
  {
    if lines == [] || lines[0].Heading? then 0 else 1 + FirstHeading(lines[1..])
  }

  // `None` as a section is the preamble; `Ok(None)` says the mode takes nothing away.
  function ExtentOf(page: Page, section: Option<string>, mode: Mode): Result<Option<Extent>> {
    if mode == Unknown then Refused(BadMode)
    else if mode != Replace && mode != Delete then Ok(None)
    else if section.None? then Ok(Some(Extent(0, FirstHeading(page), [])))
    else
      match Locate(page, section.value)
      case At(i, level, j) =>
        LocatedIff(page, section.value, i, level, j);
        Ok(Some(Extent(if mode == Delete then i else i + 1, j, Headings(page[i + 1..j]))))
      case found => Refused(RefusalOf(page, found))
  }

  // ---- the patch, as a function

  function DropLeading(lines: seq<Line>): seq<Line> {
    if lines != [] && lines[0].Blank? then DropLeading(lines[1..]) else lines
  }

  function DropTrailing(lines: seq<Line>): seq<Line> {
    if lines != [] && lines[|lines| - 1].Blank? then DropTrailing(lines[..|lines| - 1]) else lines
  }

  // The body of a section does not repeat the title of the section: it is absorbed.
  function StripOwn(body: Page, key: string): Page {
    var rest := DropLeading(body);
    if rest != [] && Answers(rest[0], key) then Rejoin(DropLeading(rest[1..])) else body
  }

  function Recolle(kept: seq<Line>, tail: seq<Line>): Page {
    var trimmed := DropTrailing(kept);
    Rejoin((if trimmed != [] then trimmed + [EMPTY] else []) + tail)
  }

  function ModeRefusal(mode: Mode, body: Option<Page>): Option<Refusal> {
    if mode == Unknown then Some(BadMode)
    else if mode == Delete then (if body.Some? then Some(ContentGiven) else None)
    else if body.None? then Some(ContentMissing) else None
  }

  function NewInner(inner: seq<Line>, added: seq<Line>, mode: Mode, followed: bool): seq<Line> {
    var close := if followed then [EMPTY] else [];
    if mode == Replace then [EMPTY] + added + close
    else if mode == Append then DropTrailing(inner) + [EMPTY] + added + close
    else [EMPTY] + added + [EMPTY] + inner
  }

  function PatchAt(page: Page, i: nat, j: nat, key: string, body: Option<Page>, mode: Mode): Page
    requires i < j <= |page| && ModeRefusal(mode, body).None?
  {
    if mode == Delete then Recolle(page[..i], page[j..])
    else page[..i + 1] + NewInner(page[i + 1..j], StripOwn(body.value, key), mode, page[j..] != []) + page[j..]
  }

  function Patch(page: Page, key: string, body: Option<Page>, mode: Mode): Result<Page> {
    if ModeRefusal(mode, body).Some? then Refused(ModeRefusal(mode, body).value)
    else
      match Locate(page, key)
      case At(i, level, j) =>
        LocatedIff(page, key, i, level, j);
        Ok(PatchAt(page, i, j, key, body, mode))
      case found => Refused(RefusalOf(page, found))
  }

  predicate AllBlank(lines: seq<Line>) {
    forall k | 0 <= k < |lines| :: lines[k].Blank?
  }

  // What a patch of the preamble puts before the first heading, in place of `inner`.
  function NewPreamble(inner: seq<Line>, body: Page, mode: Mode, followed: bool): (r: seq<Line>)
    ensures r != []
  {
    var close := if followed then [EMPTY] else [];
    if mode == Replace then body + close
    else if mode == Append then
      var kept := DropTrailing(inner);
      (if AllBlank(kept) then [] else kept + [EMPTY]) + body + close
    else body + if AllBlank(inner) then close else [EMPTY] + inner
  }

  function PatchPreamble(page: Page, body: Option<Page>, mode: Mode): Result<Page> {
    if ModeRefusal(mode, body).Some? then Refused(ModeRefusal(mode, body).value)
    else
      var k := FirstHeading(page);
      var inner, tail := page[..k], page[k..];
      if mode == Delete then
        if tail == [] then Refused(PreambleIsWholePage)
        else if AllBlank(inner) then Refused(PreambleAbsent)
        else Ok(Recolle([], tail))
      else if Headings(body.value) != [] then Refused(HeadingInPreamble(Headings(body.value)))
      else Ok(NewPreamble(inner, body.value, mode, tail != []) + tail)
  }

  // ---- the loops of the module

  method FirstHeadingIndex(lines: seq<Line>) returns (k: nat)
    ensures k == FirstHeading(lines)
  {
    for i := 0 to |lines|
      invariant forall n | 0 <= n < i :: !lines[n].Heading?
    {
      if lines[i].Heading? {
        return i;
      }
    }
    return |lines|;
  }

  method LocateSection(lines: seq<Line>, key: string) returns (found: Located)
    ensures found == Locate(lines, key)
  {
    var hits := FindHits(lines, key);
    if hits == [] {
      return Nowhere;
    }
    if |hits| > 1 {
      return Many(MatchesOf(lines, hits));
    }
    var i := hits[0];
    var j := SectionEnd(lines, i + 1, lines[i].level);
    return At(i, lines[i].level, j);
  }

  // The first heading from a line on that closes the section, or the end.
  method SectionEnd(lines: seq<Line>, from: nat, level: nat) returns (j: nat)
    requires from <= |lines|
    ensures j == EndOf(lines, from, level)
  {
    j := from;
    while j < |lines|
      invariant j <= |lines| && EndOf(lines, from, level) == EndOf(lines, j, level)
    {
      if Closes(lines[j], level) {
        break;
      }
      j := j + 1;
    }
  }

  // The lines whose heading answers to a key, in order.
  method FindHits(lines: seq<Line>, key: string) returns (hits: seq<nat>)
    ensures hits == Hits(lines, key)
  {
    hits := [];
    for n := 0 to |lines|
      invariant hits == Hits(lines[..n], key)
    {
      assert lines[..n + 1][..n] == lines[..n];
      if Answers(lines[n], key) {
        hits := hits + [n];
      }
    }
    assert lines[..|lines|] == lines;
  }

  method StripOwnHeading(body: Page, key: string) returns (r: Page)
    ensures r == StripOwn(body, key)
  {
    var i := 0;
    while i < |body| && body[i].Blank?
      invariant i <= |body| && DropLeading(body) == DropLeading(body[i..])
    {
      i := i + 1;
    }
    if i >= |body| || !Answers(body[i], key) {
      return body;
    }
    var rest := body[i + 1..];
    ghost var all := rest;
    while rest != [] && rest[0].Blank?
      invariant DropLeading(rest) == DropLeading(all)
      decreases |rest|
    {
      rest := rest[1..];
    }
    assert DropLeading(body)[1..] == all;
    return Rejoin(rest);
  }

  method PopTrailingBlanks(lines: seq<Line>) returns (kept: seq<Line>)
    ensures kept == DropTrailing(lines)
  {
    kept := lines;
    while kept != [] && kept[|kept| - 1].Blank?
      invariant DropTrailing(kept) == DropTrailing(lines)
      decreases |kept|
    {
      kept := kept[..|kept| - 1];
    }
  }

  method PatchSection(page: Page, key: string, body: Option<Page>, mode: Mode) returns (r: Result<Page>)
    ensures r == Patch(page, key, body, mode)
  {
    var refusal := ModeRefusal(mode, body);
    if refusal.Some? {
      return Refused(refusal.value);
    }
    var found := LocateSection(page, key);
    if !found.At? {
      return Refused(RefusalOf(page, found));
    }
    LocatedIff(page, key, found.start, found.level, found.end);
    hide Locate, StripOwn, DropTrailing, EndOf, Rejoin;
    var i, j := found.start, found.end;
    var head, inner, tail := page[..i + 1], page[i + 1..j], page[j..];
    if mode == Delete {
      var kept := PopTrailingBlanks(page[..i]);
      return Ok(Rejoin((if kept != [] then kept + [EMPTY] else []) + tail));
    }
    var section := NewSection(inner, body.value, key, mode, tail != []);
    return Ok(head + section + tail);
  }

  // What a patch puts under the title, in place of `inner`.
  method NewSection(inner: seq<Line>, body: Page, key: string, mode: Mode, followed: bool) returns (section: seq<Line>)
    requires mode == Replace || mode == Append || mode == Prepend
    ensures section == NewInner(inner, StripOwn(body, key), mode, followed)
  {
    var added := StripOwnHeading(body, key);
    var close := if followed then [EMPTY] else [];
    if mode == Replace {
      section := [EMPTY] + added + close;
    } else if mode == Append {
      var kept := PopTrailingBlanks(inner);
      section := kept + [EMPTY] + added + close;
    } else {
      section := [EMPTY] + added + [EMPTY] + inner;
    }
  }

  method PatchPreambleOf(page: Page, body: Option<Page>, mode: Mode) returns (r: Result<Page>)
    ensures r == PatchPreamble(page, body, mode)
  {
    var refusal := ModeRefusal(mode, body);
    if refusal.Some? {
      return Refused(refusal.value);
    }
    var k := FirstHeadingIndex(page);
    var inner, tail := page[..k], page[k..];
    if mode == Delete {
      if tail == [] {
        return Refused(PreambleIsWholePage);
      }
      if AllBlank(inner) {
        return Refused(PreambleAbsent);
      }
      return Ok(Recolle([], tail));
    }
    if Headings(body.value) != [] {
      return Refused(HeadingInPreamble(Headings(body.value)));
    }
    var close := if tail != [] then [EMPTY] else [];
    if mode == Replace {
      return Ok(body.value + close + tail);
    }
    if mode == Append {
      inner := PopTrailingBlanks(inner);
      return Ok((if AllBlank(inner) then [] else inner + [EMPTY]) + body.value + close + tail);
    }
    return Ok(body.value + (if AllBlank(inner) then close else [EMPTY] + inner) + tail);
  }
}

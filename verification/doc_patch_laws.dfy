// What a patch keeps and what two patches make of each other.

module DocPatchLaws {
  import opened Options
  import opened DocPatch

  // ---- refusals and extents

  /** For the two modes that take lines away, the announced extent is refused exactly when
      the patch is, and for the same reason, once the content goes with the mode. */
  lemma ExtentRefusesAsPatch(page: Page, key: string, body: Option<Page>, mode: Mode)
    requires ModeRefusal(mode, body).None? && (mode == Replace || mode == Delete)
    ensures ExtentOf(page, Some(key), mode).Refused? <==> Patch(page, key, body, mode).Refused?
    ensures ExtentOf(page, Some(key), mode).Refused? ==>
              ExtentOf(page, Some(key), mode).why == Patch(page, key, body, mode).why
  {
  }

  /** For the two others the extent is never refused, even where the patch is. */
  lemma ExtentNeverRefusesAdditions(page: Page, key: string, body: Page, mode: Mode)
    requires mode == Append || mode == Prepend
    ensures ExtentOf(page, Some(key), mode) == Ok(None)
    ensures Patch(page, key, Some(body), mode).Refused? <==> !Locate(page, key).At?
  {
  }

  /** For the preamble the extent is never refused either. The patch is: a deletion, exactly when
      the page has no heading or nothing but blanks before it; a replacement, exactly when its
      content bears a heading. */
  lemma PreambleExtentRefusesNothing(page: Page, body: Option<Page>, mode: Mode)
    requires ModeRefusal(mode, body).None? && (mode == Replace || mode == Delete)
    ensures ExtentOf(page, None, mode) == Ok(Some(Extent(0, FirstHeading(page), [])))
    ensures PatchPreamble(page, body, mode).Refused?
            <==> if mode == Delete then Headings(page) == [] || AllBlank(page[..FirstHeading(page)]) else Headings(body.value) != []
    ensures mode == Delete && Headings(page) == [] ==> PatchPreamble(page, body, mode) == Refused(PreambleIsWholePage)
    ensures mode == Delete && Headings(page) != [] && AllBlank(page[..FirstHeading(page)]) ==>
              PatchPreamble(page, body, mode) == Refused(PreambleAbsent)
  {
    NoHeadingIffNoneFound(page);
  }

  lemma {:induction false} NoHeadingIffNoneFound(page: seq<Line>)
    ensures Headings(page) == [] <==> FirstHeading(page) == |page|
  {
    if page != [] && !page[0].Heading? {
      NoHeadingIffNoneFound(page[1..]);
    }
  }

  /** Where the patch of the preamble is accepted, the lines after the announced extent stay. */
  lemma PreamblePatchIsLocal(page: Page, body: Option<Page>, mode: Mode) returns (added: seq<Line>)
    requires (mode == Replace || mode == Delete) && PatchPreamble(page, body, mode).Ok?
    ensures ExtentOf(page, None, mode).Ok? && ExtentOf(page, None, mode).value.Some?
    ensures
      var e := ExtentOf(page, None, mode).value.value;
      && e.start == 0 && e.end <= |page| && PatchPreamble(page, body, mode).value == added + page[e.end..]
      && added == if mode == Delete then [] else body.value + if e.end < |page| then [EMPTY] else []
  {
    var r := PatchPreamble(page, body, mode).value;
    PreamblePatchKeepsTheRest(page, body, mode);
    added := r[..FirstHeading(r)];
    assert r == r[..FirstHeading(r)] + r[FirstHeading(r)..];
  }

  /** A `replace` leaves every line outside the announced extent as it is, byte for byte. */
  lemma ReplaceIsLocal(page: Page, key: string, body: Page)
    requires Patch(page, key, Some(body), Replace).Ok?
    ensures ExtentOf(page, Some(key), Replace).Ok? && ExtentOf(page, Some(key), Replace).value.Some?
    ensures
      var e, r := ExtentOf(page, Some(key), Replace).value.value, Patch(page, key, Some(body), Replace).value;
      && e.start <= e.end <= |page|
      && r == page[..e.start]
              + ([EMPTY] + StripOwn(body, key) + if e.end < |page| then [EMPTY] else [])
              + page[e.end..]
  {
    var At(i, level, j) := Locate(page, key);
    LocatedIff(page, key, i, level, j);
  }

  lemma {:induction false} DropTrailingKeeps(lines: seq<Line>)
    ensures DropTrailing(lines) <= lines && AllBlank(lines[|DropTrailing(lines)|..])
    ensures DropTrailing(lines) == [] <==> AllBlank(lines)
    ensures DropTrailing(lines) != [] ==> !DropTrailing(lines)[|DropTrailing(lines)| - 1].Blank?
  {
    if lines != [] && lines[|lines| - 1].Blank? {
      var init := lines[..|lines| - 1];
      DropTrailingKeeps(init);
      var d := |DropTrailing(init)|;
      assert lines[d..] == init[d..] + [lines[|lines| - 1]];
    }
  }

  lemma {:induction false} DropTrailingHeadings(lines: seq<Line>)
    ensures Headings(DropTrailing(lines)) == Headings(lines)
  {
    if lines != [] && lines[|lines| - 1].Blank? {
      var init, last := lines[..|lines| - 1], [lines[|lines| - 1]];
      DropTrailingHeadings(init);
      HeadingsConcat(init, last);
      assert Headings(last) == [] by {
        assert last[1..] == [];
      }
      assert DropTrailing(lines) == DropTrailing(init);
      hide *;
      assert lines == init + last;
    }
  }

  lemma {:induction false} HeadingsConcat(a: seq<Line>, b: seq<Line>)
    ensures Headings(a + b) == Headings(a) + Headings(b)
  {
    if a == [] {
      assert a + b == b;
    } else {
      assert (a + b)[1..] == a[1..] + b;
      HeadingsConcat(a[1..], b);
    }
  }

  // Gluing back keeps the tail, and the kept lines up to the blank ones at their end.
  lemma RecolleKeeps(before: seq<Line>, tail: seq<Line>) returns (kept: seq<Line>)
    ensures kept <= before && AllBlank(before[|kept|..])
    ensures Recolle(before, tail) == Rejoin((if kept != [] then kept + [EMPTY] else []) + tail)
    ensures Headings(Recolle(before, tail)) == Headings(before) + Headings(tail)
  {
    kept := DropTrailing(before);
    DropTrailingKeeps(before);
    DropTrailingHeadings(before);
    var front := if kept != [] then kept + [EMPTY] else [];
    assert Headings([EMPTY]) == [];
    HeadingsConcat(kept, [EMPTY]);
    HeadingsConcat(front, tail);
  }

  /** A `delete` keeps the lines outside the extent too, but for the blank lines just before
      it, and takes away the headings of the section alone. */
  lemma DeleteIsLocal(page: Page, key: string) returns (kept: seq<Line>)
    requires Patch(page, key, None, Delete).Ok?
    ensures ExtentOf(page, Some(key), Delete).Ok? && ExtentOf(page, Some(key), Delete).value.Some?
    ensures
      var e, r := ExtentOf(page, Some(key), Delete).value.value, Patch(page, key, None, Delete).value;
      && e.start < e.end <= |page|
      && kept <= page[..e.start] && AllBlank(page[..e.start][|kept|..])
      && r == Rejoin((if kept != [] then kept + [EMPTY] else []) + page[e.end..])
      && Headings(r) == Headings(page[..e.start]) + Headings(page[e.end..])
  {
    var At(i, level, j) := Locate(page, key);
    LocatedIff(page, key, i, level, j);
    hide Locate, Headings, Recolle;
    kept := RecolleKeeps(page[..i], page[j..]);
  }

  /** An `append` or a `prepend` keeps every line of the section that is not blank, in order,
      and every line outside the section. */
  lemma AdditionsKeepTheSection(page: Page, key: string, body: Page, mode: Mode, i: nat, level: nat, j: nat)
    returns (kept: seq<Line>)
    requires (mode == Append || mode == Prepend) && Locate(page, key) == At(i, level, j)
    ensures i < j <= |page| && kept <= page[i + 1..j] && AllBlank(page[i + 1..j][|kept|..])
    ensures
      var added := StripOwn(body, key);
      Patch(page, key, Some(body), mode)
      == Ok(page[..i + 1]
            + (if mode == Append then kept + [EMPTY] + added + (if j < |page| then [EMPTY] else [])
               else [EMPTY] + added + [EMPTY] + kept)
            + page[j..])
  {
    LocatedIff(page, key, i, level, j);
    hide Locate, StripOwn;
    DropTrailingKeeps(page[i + 1..j]);
    kept := if mode == Append then DropTrailing(page[i + 1..j]) else page[i + 1..j];
  }

  // ---- how one patch moves the sections

  // The page once the body of the section at `i` is `added`.
  function Replaced(page: Page, i: nat, j: nat, added: seq<Line>): Page
    requires i < j <= |page|
  {
    page[..i + 1] + ([EMPTY] + added + if j < |page| then [EMPTY] else []) + page[j..]
  }

  lemma ReplaceResult(page: Page, key: string, body: Page, i: nat, level: nat, j: nat)
    requires Locate(page, key) == At(i, level, j)
    ensures i < j <= |page|
    ensures Patch(page, key, Some(body), Replace) == Ok(Replaced(page, i, j, StripOwn(body, key)))
  {
    LocatedIff(page, key, i, level, j);
  }

  // Where each line of the patched page comes from.
  function LineOf(page: Page, i: nat, j: nat, added: seq<Line>, k: nat): Line
    requires i < j <= |page| && k < |Replaced(page, i, j, added)|
  {
    var shift := |Replaced(page, i, j, added)| - |page|;
    if k <= i then page[k]
    else if i + 2 <= k < i + 2 + |added| then added[k - (i + 2)]
    else if k >= j + shift then page[k - shift]
    else EMPTY
  }

  lemma ReplacedLines(page: Page, i: nat, j: nat, added: seq<Line>)
    requires i < j <= |page|
    ensures |Replaced(page, i, j, added)| == i + 2 + |added| + (if j < |page| then 1 else 0) + (|page| - j)
    ensures forall k | 0 <= k < |Replaced(page, i, j, added)| ::
              Replaced(page, i, j, added)[k] == LineOf(page, i, j, added, k)
  {
  }

  lemma TwoHits(lines: seq<Line>, key: string, j: nat, k: nat)
    requires j < k < |lines| && Answers(lines[j], key) && Answers(lines[k], key)
    ensures Locate(lines, key).Many?
  {
    var hits := Hits(lines, key);
    var a :| 0 <= a < |hits| && hits[a] == j;
    var b :| 0 <= b < |hits| && hits[b] == k;
    assert a != b;
  }

  // A new body that bears a title found elsewhere in what is kept makes it ambiguous.
  lemma TitleTakenTwice(page: Page, i: nat, j: nat, added: seq<Line>, key: string, i': nat)
    requires i < j <= |page| && (i' <= i || j <= i' < |page|) && Answers(page[i'], key) && HasKey(added, key)
    ensures Locate(Replaced(page, i, j, added), key).Many?
  {
    ReplacedLines(page, i, j, added);
    var r, shift := Replaced(page, i, j, added), |Replaced(page, i, j, added)| - |page|;
    hide Replaced, Locate;
    var k :| 0 <= k < |added| && Answers(added[k], key);
    assert r[i + 2 + k] == added[k];
    if i' <= i {
      assert r[i'] == page[i'];
      TwoHits(r, key, i', i + 2 + k);
    } else {
      assert r[i' + shift] == page[i'];
      TwoHits(r, key, i + 2 + k, i' + shift);
    }
  }

  // The lines of a later section are found as a block, a shift away.
  lemma SectionMoved(page: Page, i: nat, j: nat, added: seq<Line>, key: string, i': nat, level': nat, j': nat)
    requires i < j <= i' < j' <= |page| && OnlyAt(page, key, i') && !HasKey(added, key)
    requires (forall k | i' < k < j' :: !Closes(page[k], level')) && (j' < |page| ==> Closes(page[j'], level'))
    ensures
      var r, shift := Replaced(page, i, j, added), |Replaced(page, i, j, added)| - |page|;
      && i' + shift > i && j' + shift <= |r| && OnlyAt(r, key, i' + shift)
      && r[i' + shift] == page[i']
      && (forall k | i' + shift < k < j' + shift :: !Closes(r[k], level')) && (j' + shift < |r| ==> Closes(r[j' + shift], level'))
  {
    ReplacedLines(page, i, j, added);
    hide Replaced;
  }

  // Patching an earlier section moves a later one as a block, unless the new body bears
  // the later title.
  lemma LaterSectionMoves(page: Page, i: nat, j: nat, added: seq<Line>, key: string, i': nat, level': nat, j': nat)
    requires i < j <= i' && Locate(page, key) == At(i', level', j') && j <= |page|
    ensures
      var r, shift := Replaced(page, i, j, added), |Replaced(page, i, j, added)| - |page|;
      if HasKey(added, key) then Locate(r, key).Many?
      else i' + shift >= 0 && j' + shift >= 0 && Locate(r, key) == At(i' + shift, level', j' + shift)
  {
    hide Locate, Replaced, HasKey;
    LocatedIff(page, key, i', level', j');
    if HasKey(added, key) {
      TitleTakenTwice(page, i, j, added, key, i');
    } else {
      var r, shift := Replaced(page, i, j, added), |Replaced(page, i, j, added)| - |page|;
      SectionMoved(page, i, j, added, key, i', level', j');
      LocatedIff(r, key, i' + shift, level', j' + shift);
    }
  }

  // Patching a later section leaves an earlier one in place, unless the new body bears the
  // earlier title.
  lemma EarlierSectionStays(page: Page, i: nat, j: nat, added: seq<Line>, key: string, i': nat, level': nat, j': nat)
    requires j' <= i < j <= |page| && Locate(page, key) == At(i', level', j')
    ensures
      var r := Replaced(page, i, j, added);
      if HasKey(added, key) then Locate(r, key).Many? else Locate(r, key) == At(i', level', j')
  {
    LocatedIff(page, key, i', level', j');
    if HasKey(added, key) {
      TitleTakenTwice(page, i, j, added, key, i');
    } else {
      ReplacedLines(page, i, j, added);
      var r := Replaced(page, i, j, added);
      hide Replaced, Locate;
      LocatedIff(r, key, i', level', j');
    }
  }

  // ---- commutation

  function Then(r: Result<Page>, key: string, body: Page): Result<Page> {
    if r.Ok? then Patch(r.value, key, Some(body), Replace) else r
  }

  // The second replacement on a page where the first one left its section in place, or not.
  lemma SecondReplace(page: Page, key: string, body: Page, i: nat, level: nat, j: nat, found: bool)
    requires if found then Locate(page, key) == At(i, level, j) else Locate(page, key).Many?
    ensures
      var r := Then(Ok(page), key, body);
      if found then i < j <= |page| && r == Ok(Replaced(page, i, j, StripOwn(body, key))) else r.Refused?
  {
    if found {
      hide Locate, Patch, StripOwn;
      ReplaceResult(page, key, body, i, level, j);
    }
  }

  /** Two replacements of disjoint sections commute, byte for byte, exactly when neither new
      body (its own title absorbed) bears the title of the other section; otherwise the
      order that writes such a body first is refused. */
  lemma DisjointReplacesCommute(page: Page, a: string, b: string, bodyA: Page, bodyB: Page,
                                i: nat, level: nat, j: nat, i': nat, level': nat, j': nat)
    requires Locate(page, a) == At(i, level, j) && Locate(page, b) == At(i', level', j') && j <= i'
    ensures
      var ab := Then(Patch(page, a, Some(bodyA), Replace), b, bodyB);
      var ba := Then(Patch(page, b, Some(bodyB), Replace), a, bodyA);
      && (ab.Ok? <==> !HasKey(StripOwn(bodyA, a), b))
      && (ba.Ok? <==> !HasKey(StripOwn(bodyB, b), a))
      && (ab.Ok? && ba.Ok? ==> ab == ba)
  {
    var addedA, addedB := StripOwn(bodyA, a), StripOwn(bodyB, b);
    hide Replaced, Locate, HasKey, StripOwn, Patch, Then;
    ReplaceResult(page, a, bodyA, i, level, j);
    ReplaceResult(page, b, bodyB, i', level', j');
    var pa, pb := Replaced(page, i, j, addedA), Replaced(page, i', j', addedB);
    var shift := |pa| - |page|;
    LocatedIff(page, b, i', level', j');
    LaterSectionMoves(page, i, j, addedA, b, i', level', j');
    EarlierSectionStays(page, i', j', addedB, a, i, level, j);
    SameBothWays(page, i, j, addedA, i', j', addedB);
    SecondReplace(pa, b, bodyB, i' + shift, level', j' + shift, !HasKey(addedA, b));
    SecondReplace(pb, a, bodyA, i, level, j, !HasKey(addedB, a));
  }

  lemma SameBothWays(page: Page, i: nat, j: nat, added: seq<Line>, i': nat, j': nat, added': seq<Line>)
    requires i < j <= i' < j' <= |page|
    ensures
      var pa, pb := Replaced(page, i, j, added), Replaced(page, i', j', added');
      var shift := |pa| - |page|;
      && i' + shift >= 0 && i' + shift < j' + shift <= |pa|
      && Replaced(pa, i' + shift, j' + shift, added') == Replaced(pb, i, j, added)
  {
    var pa, pb := Replaced(page, i, j, added), Replaced(page, i', j', added');
    var shift := |pa| - |page|;
    ReplacedLines(page, i, j, added);
    ReplacedLines(page, i', j', added');
    var front, middle, back := page[..i + 1] + ([EMPTY] + added + [EMPTY]), page[j..i' + 1], page[j'..];
    var second := [EMPTY] + added' + if j' < |page| then [EMPTY] else [];
    assert pa == front + page[j..];
    assert pa[..i' + shift + 1] == front + middle && pa[j' + shift..] == back;
    assert Replaced(pa, i' + shift, j' + shift, added') == front + middle + second + back;
    assert pb[..i + 1] == page[..i + 1] && pb[j..] == middle + second + back;
    assert Replaced(pb, i, j, added) == front + (middle + second + back);
  }

  // ---- repetition

  /** After a replacement the section is found again, at the same line, exactly when the new
      body does not bear its title; and reading it gives back what was written exactly when
      the body does not close it either. */
  lemma ReplacedIsFoundAgain(page: Page, key: string, body: Page, i: nat, level: nat, j: nat)
    requires Locate(page, key) == At(i, level, j)
    ensures i < j <= |page|
    ensures
      var added := StripOwn(body, key);
      var r := Replaced(page, i, j, added);
      && Patch(page, key, Some(body), Replace) == Ok(r)
      && (if HasKey(added, key) then Locate(r, key).Many?
          else if HasCloser(added, level) then
            exists end | i < end < i + 2 + |added| :: Locate(r, key) == At(i, level, end)
          else Locate(r, key) == At(i, level, |r| - (|page| - j)))
  {
    LocatedIff(page, key, i, level, j);
    ReplaceResult(page, key, body, i, level, j);
    var added := StripOwn(body, key);
    ReplacedLines(page, i, j, added);
    var r, shift := Replaced(page, i, j, added), |Replaced(page, i, j, added)| - |page|;
    hide Replaced, Locate, StripOwn, Patch;
    if HasKey(added, key) {
      TitleTakenTwice(page, i, j, added, key, i);
    } else if k :| 0 <= k < |added| && Closes(added[k], level) {
      assert r[i + 2 + k] == added[k];
      var end := EndOf(r, i + 1, level);
      LocatedIff(r, key, i, level, end);
      assert i < end < i + 2 + |added|;
    } else {
      LocatedIff(r, key, i, level, j + shift);
    }
  }

  /** What was written is what is read back, when the new body does not close the section. */
  lemma ReadAfterReplace(page: Page, key: string, body: Page, i: nat, level: nat, j: nat)
    requires Locate(page, key) == At(i, level, j)
    requires !HasKey(StripOwn(body, key), key) && !HasCloser(StripOwn(body, key), level)
    ensures i < j <= |page| && Patch(page, key, Some(body), Replace).Ok?
    ensures
      var r, reading := Patch(page, key, Some(body), Replace).value, ReadSection(Patch(page, key, Some(body), Replace).value, key);
      && reading.Ok? && reading.value.fromLine == i + 1
      && reading.value.body == [page[i], EMPTY] + StripOwn(body, key) + if j < |page| then [EMPTY] else []
  {
    ReplacedIsFoundAgain(page, key, body, i, level, j);
    var added := StripOwn(body, key);
    var r := Replaced(page, i, j, added);
    assert r[i..|r| - (|page| - j)] == [page[i], EMPTY] + added + if j < |page| then [EMPTY] else [];
  }

  /** Repeating a replacement changes nothing exactly when the new body bears neither the
      title of the section nor a heading that closes it. */
  lemma ReplaceTwiceIsOnce(page: Page, key: string, body: Page, i: nat, level: nat, j: nat)
    requires Locate(page, key) == At(i, level, j)
    ensures
      var once := Patch(page, key, Some(body), Replace);
      Then(once, key, body) == once
      <==> !HasKey(StripOwn(body, key), key) && !HasCloser(StripOwn(body, key), level)
  {
    ReplacedIsFoundAgain(page, key, body, i, level, j);
    var added := StripOwn(body, key);
    var r := Replaced(page, i, j, added);
    if !HasKey(added, key) {
      var end := Locate(r, key).end;
      ReplaceResult(r, key, body, i, level, end);
      ReplacedTwice(page, i, j, added, end);
    }
  }

  lemma ReplacedTwice(page: Page, i: nat, j: nat, added: seq<Line>, end: nat)
    requires i < j <= |page| && i < end <= |Replaced(page, i, j, added)|
    ensures
      var r := Replaced(page, i, j, added);
      && (end == |r| - (|page| - j) ==> Replaced(r, i, end, added) == r)
      && (end < i + 2 + |added| ==> |Replaced(r, i, end, added)| > |r|)
  {
    var r := Replaced(page, i, j, added);
    if end == |r| - (|page| - j) {
      assert r[..i + 1] == page[..i + 1] && r[end..] == page[j..];
    }
  }

  // ---- the preamble

  lemma {:induction false} NoHeadings(lines: seq<Line>)
    ensures Headings(lines) == [] <==> forall k | 0 <= k < |lines| :: !lines[k].Heading?
  {
    if lines != [] {
      NoHeadings(lines[1..]);
      assert forall k | 1 <= k < |lines| :: lines[k] == lines[1..][k - 1];
      assert Headings(lines) == [] ==> !lines[0].Heading?;
    }
  }

  predicate HeadingFree(lines: seq<Line>) {
    forall k | 0 <= k < |lines| :: !lines[k].Heading?
  }

  lemma NewPreambleIsHeadingFree(inner: seq<Line>, body: Page, mode: Mode, followed: bool)
    requires HeadingFree(inner) && Headings(body) == []
    ensures HeadingFree(NewPreamble(inner, body, mode, followed))
  {
    NoHeadings(body);
    DropTrailingKeeps(inner);
    hide DropTrailing, Headings;
  }

  /** A patch of the preamble leaves every line from the first heading on as it is, and what
      it puts before has no heading: the preamble is still the preamble. */
  lemma PreamblePatchKeepsTheRest(page: Page, body: Option<Page>, mode: Mode)
    requires PatchPreamble(page, body, mode).Ok?
    ensures
      var k, r := FirstHeading(page), PatchPreamble(page, body, mode).value;
      && r[FirstHeading(r)..] == page[k..]
      && r[..FirstHeading(r)] == if mode == Delete then [] else NewPreamble(page[..k], body.value, mode, page[k..] != [])
  {
    var k := FirstHeading(page);
    var tail := page[k..];
    if mode == Delete {
      assert DropTrailing([]) == [] && Recolle([], tail) == [] + tail;
      SplitAtFirstHeading([], tail);
    } else {
      var region := NewPreamble(page[..k], body.value, mode, tail != []);
      NewPreambleIsHeadingFree(page[..k], body.value, mode, tail != []);
      SplitAtFirstHeading(region, tail);
    }
  }

  lemma SplitAtFirstHeading(region: seq<Line>, tail: seq<Line>)
    requires HeadingFree(region) && (tail != [] ==> tail[0].Heading?)
    ensures FirstHeading(region + tail) == |region|
    ensures (region + tail)[..|region|] == region && (region + tail)[|region|..] == tail
  {
    var r := region + tail;
    assert forall k | 0 <= k < |region| :: r[k] == region[k];
    assert tail != [] ==> r[|region|] == tail[0];
  }

  /** Refreshing a preamble twice is refreshing it once. */
  lemma PreambleReplaceTwiceIsOnce(page: Page, body: Page)
    requires PatchPreamble(page, Some(body), Replace).Ok?
    ensures
      var once := PatchPreamble(page, Some(body), Replace);
      PatchPreamble(once.value, Some(body), Replace) == once
  {
    PreamblePatchKeepsTheRest(page, Some(body), Replace);
  }
}

// Two operations the validator accepts whose templates break what the others keep
// (oto_mcp/custom_ops.py).

module CustomOpsExamples {
  import opened Options
  import opened Percent
  import opened Templates
  import opened Texts
  import opened CustomOps
  import opened CustomOpsDecoding

  // ---- a brace that belongs to no placeholder

  // A text with a marked name inside braces, then another one.
  function Stray(x: string, y: string): string {
    "/" + ("{" + (Marked(x) + ("}" + (Marked(y) + ""))))
  }

  const STRAY_PATH: string := Stray("x", "y")

  lemma StrayText()
    ensures STRAY_PATH == "/" + "{{x}}{y}"
  {
    assert Marked("x") == "{x}" && Marked("y") == "{y}";
  }

  lemma StrayPlaceholders()
    ensures Placeholders(STRAY_PATH) == ["x", "y"] && !WellBraced(STRAY_PATH)
  {
    var p1, p2, p3, p4 := "{{x}}{y}", "{x}}{y}", "}{y}", "{y}";
    StrayText();
    assert STRAY_PATH[1..] == p1 && p1[1..] == p2;
    assert p2[3..] == p3 && p2[1..2] == "x";
    assert p3[1..] == p4;
    assert p4[3..] == "" && p4[1..2] == "y";
    assert NextBrace(p1, 1) == 1;
    assert NextBrace(p2, 2) == 2 && NextBrace(p2, 1) == 2;
    assert NextBrace(p4, 2) == 2 && NextBrace(p4, 1) == 2;
    assert Placeholders(p4) == ["y"];
    assert Placeholders(p3) == ["y"];
    assert Placeholders(p2) == ["x", "y"];
    assert Placeholders(p1) == ["x", "y"];
  }

  lemma StraySegments()
    ensures Segments(STRAY_PATH) == ["", "{{x}}{y}"] && !DotSegment("{{x}}{y}") && Unquote(STRAY_PATH) == STRAY_PATH
  {
    StrayText();
    hide Segments, Unquote, Stray, STRAY_PATH;
    OneSegment("{{x}}{y}");
    NothingEncoded("/" + "{{x}}{y}");
  }

  lemma NothingEncoded(s: string)
    requires s == "/" + "{{x}}{y}"
    ensures Unquote(s) == s
  {
    hide Unquote;
    PlainText(s);
  }

  lemma OneSegment(rest: string)
    requires NoSlash(rest)
    ensures Segments("/" + rest) == ["", rest]
  {
    assert ("/" + rest)[1..] == rest;
    SegmentsSkip(rest, []);
    assert rest + [] == rest && Segments([]) == [[]];
  }

  lemma {:induction false} PlainText(s: string)
    requires forall k | 0 <= k < |s| :: s[k] != '%'
    ensures Unquote(s) == s
  {
    if s != [] {
      PlainText(s[1..]);
      UnquotePlain(s[0], s[1..]);
      assert s == [s[0]] + s[1..];
    }
  }

  lemma StrayPathAccepted()
    ensures PathAccepted(STRAY_PATH)
  {
    hide *;
    StrayPlaceholders();
    StraySegments();
    StrayCharacters(STRAY_PATH);
    LettersAreNames();
    AcceptedPath(STRAY_PATH, "x", "y", "{{x}}{y}");
  }

  lemma LettersAreNames()
    ensures ArgName("x") && ArgName("y") && NoBrace("x")
  {
    assert ArgNameProper("x") && ArgNameProper("y");
  }

  lemma AcceptedPath(path: string, x: string, y: string, segment: string)
    requires |path| > 1 && path[0] == '/' && path[1] != '/'
    requires forall k | 0 <= k < |path| :: path[k] != '.' && path[k] != ':' && path[k] != '?' && path[k] != '#' && !IsSpace(path[k])
    requires Segments(path) == ["", segment] && !DotSegment(segment) && Unquote(path) == path
    requires Placeholders(path) == [x, y] && ArgName(x) && ArgName(y)
    ensures PathAccepted(path)
  {
    NoneOfIt(path, "..");
    NoneOfIt(path, "://");
    hide Placeholders, Segments, Unquote, Contains, ArgName, IsSpace;
  }

  lemma StrayCharacters(path: string)
    requires path == STRAY_PATH
    ensures |path| > 1 && path[0] == '/' && path[1] == '{'
    ensures forall k | 0 <= k < |path| :: path[k] != '.' && path[k] != ':' && path[k] != '?' && path[k] != '#' && !IsSpace(path[k])
  {
  }

  lemma NoneOfIt(s: string, what: string)
    requires what != [] && forall k | 0 <= k < |s| :: s[k] != what[0]
    ensures !Contains(s, what)
  {
    forall k | 0 <= k <= |s|
      ensures !(what <= s[k..])
    {
      assert k < |s| ==> s[k..][0] == s[k];
    }
  }

  function StrayOperation(): Operation {
    Operation("f", "d", "POST", STRAY_PATH, map["x" := [], "y" := []], ["x", "y"], map[])
  }

  lemma StrayAccepted()
    ensures Accepted(StrayOperation())
    ensures Location(StrayOperation(), "x") == "path" && Location(StrayOperation(), "y") == "path"
  {
    StrayPlaceholders();
    StrayPathAccepted();
    hide PathAccepted, Placeholders;
    assert SnakeProper("f") && OpName("f");
    assert Strip("d") == "d" by {
      assert !IsSpace("d"[0]) && StripLeft("d") == "d" && StripRight("d") == "d";
    }
    assert Upper("POST") == "POST" && ArgNameProper("x") && ArgNameProper("y");
  }

  // The marked name at the head of a text is replaced.
  lemma Replaced(name: string, after: string, put: string)
    ensures ReplaceAll(Marked(name) + after, Marked(name), put) == put + ReplaceAll(after, Marked(name), put)
  {
    assert (Marked(name) + after)[|Marked(name)|..] == after;
  }

  // A brace just before a marked name opens nothing.
  lemma BraceCopied(name: string, inner: string, after: string, put: string)
    requires name != [] && NoBrace(name)
    ensures ReplaceAll("{" + (Marked(inner) + after), Marked(name), put) == "{" + ReplaceAll(Marked(inner) + after, Marked(name), put)
  {
    var s := "{" + (Marked(inner) + after);
    assert s[1..] == Marked(inner) + after && s[1] == '{' && Marked(name)[1] == name[0];
  }

  lemma StrayFacts(name: string, put: string, after: string)
    ensures ReplaceAll("", Marked(name), put) == ""
    ensures "{" + (name + ("}" + after)) == Marked(name) + after
  {
  }

  // `x` first: its value completes a second `{y}`.
  lemma FirstX(x: string, y: string, v: string)
    requires x != [] && y != [] && x != y && NoBrace(x) && NoBrace(y) && NoBrace(v)
    ensures ReplaceAll(ReplaceAll(Stray(x, y), Marked(x), y), Marked(y), v) == "/" + (v + (v + ""))
  {
    hide ReplaceAll, Marked, NoBrace;
    var tail := Marked(y) + "";
    StrayFacts(x, y, "");
    StrayFacts(y, v, tail);
    ReplaceSkips("/", "{" + (Marked(x) + ("}" + tail)), x, y);
    BraceCopied(x, x, "}" + tail, y);
    Replaced(x, "}" + tail, y);
    ReplaceSkips("}", tail, x, y);
    ReplaceOther(y, "", x, y);
    assert ReplaceAll(Stray(x, y), Marked(x), y) == "/" + (Marked(y) + tail);
    ReplaceSkips("/", Marked(y) + tail, y, v);
    Replaced(y, tail, v);
    Replaced(y, "", v);
  }

  // `y` first: the name that the value of `x` completes stays as it is.
  lemma FirstY(x: string, y: string, v: string)
    requires x != [] && y != [] && x != y && NoBrace(x) && NoBrace(y) && NoBrace(v)
    ensures ReplaceAll(ReplaceAll(Stray(x, y), Marked(y), v), Marked(x), y) == "/" + (Marked(y) + v)
  {
    BeforeY(x, y, v);
    AfterY(x, y, v);
  }

  lemma BeforeY(x: string, y: string, v: string)
    requires x != [] && y != [] && x != y && NoBrace(x) && NoBrace(y)
    ensures ReplaceAll(Stray(x, y), Marked(y), v) == "/" + ("{" + (Marked(x) + ("}" + (v + ""))))
  {
    hide ReplaceAll, Marked, NoBrace;
    var tail := Marked(y) + "";
    StrayFacts(y, v, "");
    ReplaceSkips("/", "{" + (Marked(x) + ("}" + tail)), y, v);
    BraceCopied(y, x, "}" + tail, v);
    ReplaceOther(x, "}" + tail, y, v);
    ReplaceSkips("}", tail, y, v);
    Replaced(y, "", v);
  }

  lemma AfterY(x: string, y: string, v: string)
    requires x != [] && NoBrace(x) && NoBrace(v)
    ensures ReplaceAll("/" + ("{" + (Marked(x) + ("}" + (v + "")))), Marked(x), y) == "/" + (Marked(y) + v)
  {
    assert v + "" == v;
    ReplaceSkips(v, "", x, y);
    hide ReplaceAll, Marked, NoBrace;
    StrayFacts(x, y, "");
    StrayFacts(y, v, v);
    ReplaceSkips("/", "{" + (Marked(x) + ("}" + v)), x, y);
    BraceCopied(x, x, "}" + v, y);
    Replaced(x, "}" + v, y);
    ReplaceSkips("}", v, x, y);
  }

  /** A template with a brace of its own can be accepted, and then the order counts: in
      `/{{x}}{y}` the value of `x` can write the name of `y`. */
  lemma StrayBracesMakeOrderCount() returns (op: Operation, args: Args, other: Args)
    ensures Accepted(op) && !WellBraced(op.path) && DistinctArgs(args) && DistinctArgs(other)
    ensures OctetArgs(args) && OctetArgs(other) && AsMap(args) == AsMap(other)
    ensures PathAfter(op, args) == "/" + ("v" + ("v" + "")) && PathAfter(op, other) == "/" + (Marked("y") + "v")
  {
    op := StrayOperation();
    StrayPlaceholders();
    StrayAccepted();
    LetterValue('y');
    LetterValue('v');
    args, other := TwoOrders(op, "x", "y", "v");
  }

  lemma TwoOrders(op: Operation, x: string, y: string, v: string) returns (args: Args, other: Args)
    requires op.path == Stray(x, y) && Location(op, x) == "path" && Location(op, y) == "path"
    requires x != [] && y != [] && x != y && NoBrace(x) && NoBrace(y) && NoBrace(v)
    requires OctetValue(Str(y)) && PathValue(Str(y)) == Some(y)
    requires OctetValue(Str(v)) && PathValue(Str(v)) == Some(v)
    ensures DistinctArgs(args) && DistinctArgs(other) && OctetArgs(args) && OctetArgs(other) && AsMap(args) == AsMap(other)
    ensures PathAfter(op, args) == "/" + (v + (v + "")) && PathAfter(op, other) == "/" + (Marked(y) + v)
  {
    var first, second := Arg(x, Str(y)), Arg(y, Str(v));
    args, other := [first, second], [second, first];
    hide *;
    FirstX(x, y, v);
    FirstY(x, y, v);
    TwoArgs(op, first, second);
    TwoArgs(op, second, first);
  }

  lemma TwoArgs(op: Operation, first: Arg, second: Arg)
    requires first.name != second.name
    requires OctetValue(first.value) && PathValue(first.value).Some? && Location(op, first.name) == "path"
    requires OctetValue(second.value) && PathValue(second.value).Some? && Location(op, second.name) == "path"
    ensures DistinctArgs([first, second]) && OctetArgs([first, second])
    ensures AsMap([first, second]) == map[first.name := first.value, second.name := second.value]
    ensures PathAfter(op, [first, second])
         == ReplaceAll(ReplaceAll(op.path, Marked(first.name), PathValue(first.value).value), Marked(second.name), PathValue(second.value).value)
  {
    hide Location, PathValue, ReplaceAll, Marked;
    assert [first, second][..1] == [first] && [first][..0] == [];
    assert AsMap([first]) == map[first.name := first.value];
    assert PathAfter(op, []) == op.path;
    assert PathAfter(op, [first]) == ReplaceAll(op.path, Marked(first.name), PathValue(first.value).value);
  }

  // ---- an escape that placeholders finish

  // The text of a template where a name follows an open escape, twice.
  function Escaped(x: string): string {
    "/%2" + (Marked(x) + ("%2" + (Marked(x) + "")))
  }

  lemma EscapedText()
    ensures Escaped("x") == "/" + "%2{x}%2{x}"
  {
    assert Marked("x") == "{x}";
  }

  lemma SkipsTo(skipped: string, rest: string)
    requires NoBrace(skipped)
    ensures Placeholders(skipped + rest) == Placeholders(rest)
    ensures WellBraced(skipped + rest) <==> WellBraced(rest)
  {
    if skipped == [] {
      assert skipped + rest == rest;
    } else {
      assert (skipped + rest)[1..] == skipped[1..] + rest;
      SkipsTo(skipped[1..], rest);
    }
  }

  lemma MarkedFirst(name: string, rest: string)
    requires NoBrace(name)
    ensures Placeholders(Marked(name) + rest) == [name] + Placeholders(rest)
    ensures WellBraced(Marked(name) + rest) <==> WellBraced(rest)
  {
    var s := Marked(name) + rest;
    var j := NextBrace(s, 1);
    assert s[|name| + 1] == '}' && s[1..|name| + 1] == name;
    assert forall k | 1 <= k < |name| + 1 :: s[k] == name[k - 1];
    assert s[j] == '}' && j == |name| + 1;
    assert s[j + 1..] == rest;
  }

  lemma EscapedPlaceholders(x: string)
    requires NoBrace(x)
    ensures Placeholders(Escaped(x)) == [x, x] && WellBraced(Escaped(x))
  {
    hide Marked;
    assert Placeholders("") == [] && WellBraced("");
    hide Placeholders, WellBraced, NoBrace;
    MarkedFirst(x, "");
    PlainPieces();
    SkipsTo("%2", Marked(x) + "");
    MarkedFirst(x, "%2" + (Marked(x) + ""));
    SkipsTo("/%2", Marked(x) + ("%2" + (Marked(x) + "")));
  }

  lemma PlainPieces()
    ensures NoBrace("%2") && NoBrace("/%2")
  {
  }

  lemma {:induction false} NothingEscaped(s: string)
    requires forall k | 0 <= k < |s| :: !StartsEscape(s[k..])
    ensures Unquote(s) == s
  {
    if s != [] {
      assert s[0..] == s;
      assert forall k | 0 <= k < |s| - 1 :: s[1..][k..] == s[k + 1..];
      NothingEscaped(s[1..]);
      assert s == [s[0]] + s[1..];
    }
  }

  lemma EscapedSegments()
    ensures Segments(Escaped("x")) == ["", "%2{x}%2{x}"] && !DotSegment("%2{x}%2{x}")
  {
    EscapedText();
    OneSegment("%2{x}%2{x}");
  }

  lemma EscapedIsItsOwn()
    ensures Unquote(Escaped("x")) == Escaped("x")
  {
    EscapedText();
    BracesAfterPercent(Escaped("x"));
    NothingEscaped(Escaped("x"));
  }

  lemma BracesAfterPercent(s: string)
    requires s == "/" + "%2{x}%2{x}"
    ensures forall k | 0 <= k < |s| :: !StartsEscape(s[k..])
  {
    forall k | 0 <= k < |s|
      ensures !StartsEscape(s[k..])
    {
      assert s[k..][0] == s[k];
      if s[k] == '%' {
        assert s[k..][2] == s[k + 2] == '{';
      }
    }
  }

  function EscapedOperation(): Operation {
    Operation("f", "d", "POST", Escaped("x"), map["x" := []], ["x"], map[])
  }

  lemma EscapedPathAccepted()
    ensures PathAccepted(Escaped("x")) && WellBraced(Escaped("x")) && Placeholders(Escaped("x")) == ["x", "x"]
  {
    hide *;
    LettersAreNames();
    EscapedPlaceholders("x");
    EscapedSegments();
    EscapedIsItsOwn();
    EscapedCharacters(Escaped("x"));
    AcceptedPath(Escaped("x"), "x", "x", "%2{x}%2{x}");
  }

  lemma EscapedCharacters(path: string)
    requires path == Escaped("x")
    ensures |path| > 1 && path[0] == '/' && path[1] == '%'
    ensures forall k | 0 <= k < |path| :: path[k] != '.' && path[k] != ':' && path[k] != '?' && path[k] != '#' && !IsSpace(path[k])
  {
    EscapedText();
  }

  lemma EscapedAccepted()
    ensures Accepted(EscapedOperation()) && Location(EscapedOperation(), "x") == "path"
    ensures WellBraced(EscapedOperation().path)
  {
    EscapedPathAccepted();
    hide PathAccepted, Placeholders, WellBraced, Escaped;
    assert SnakeProper("f") && OpName("f");
    assert Strip("d") == "d" by {
      assert !IsSpace("d"[0]) && StripLeft("d") == "d" && StripRight("d") == "d";
    }
    assert Upper("POST") == "POST" && ArgNameProper("x");
  }

  // Both placeholders at once.
  lemma BothReplaced(x: string, v: string)
    requires NoBrace(x)
    ensures ReplaceAll(Escaped(x), Marked(x), v) == "/%2" + (v + ("%2" + (v + "")))
  {
    PlainPieces();
    hide ReplaceAll, Marked, NoBrace;
    StrayFacts(x, v, "");
    ReplaceSkips("/%2", Marked(x) + ("%2" + (Marked(x) + "")), x, v);
    Replaced(x, "%2" + (Marked(x) + ""), v);
    ReplaceSkips("%2", Marked(x) + "", x, v);
    Replaced(x, "", v);
  }

  lemma DecodesToDots()
    ensures Unquote("/%2" + ("e" + ("%2" + ("e" + "")))) == "/.."
  {
    var dot := "%2" + ("e" + "");
    assert "/%2" + ("e" + dot) == ['/'] + (['%'] + (['2'] + (['e'] + dot)));
    assert dot == ['%'] + (['2'] + (['e'] + ""));
    UnquotePlain('/', ['%'] + (['2'] + (['e'] + dot)));
    UnquoteEscape('2', 'e', dot);
    UnquoteEscape('2', 'e', "");
    assert Unquote("") == "";
    assert (16 * HexValue('2') + HexValue('e')) as char == '.';
    hide Unquote;
    assert "/.." == ['/'] + (['.'] + (['.'] + ""));
  }

  /** An accepted operation and a call it accepts whose path decodes to `/..`: in
      `/%2{x}%2{x}`, the value `e` finishes two escapes. */
  lemma FinishedEscapesLeaveTheTemplate() returns (op: Operation, args: Args)
    ensures Accepted(op) && WellBraced(op.path) && Fitting(op, args)
    ensures Unquote(PathAfter(op, args)) == "/.."
  {
    op, args := EscapedOperation(), [Arg("x", Str(['e']))];
    EscapedAccepted();
    LetterValue('e');
    assert NoBrace("x");
    BothReplaced("x", "e");
    DecodesToDots();
    hide Accepted, WellBraced, Location, PathValue, ReplaceAll, Escaped, Marked, Unquote, NoBrace;
    OneArgFits(op, "x", Str(['e']));
    OneArg(op, "x", Str(['e']));
  }

  lemma LetterValue(c: char)
    requires 'a' <= c <= 'z'
    ensures OctetValue(Str([c])) && PathValue(Str([c])) == Some([c])
  {
    QuotePlain([c]);
  }

  lemma OneArgFits(op: Operation, a: string, v: Value)
    requires op.props == map[a := []] && op.required == [a] && Location(op, a) == "path"
    requires OctetValue(v) && PathValue(v).Some? && !v.Obj?
    ensures Fitting(op, [Arg(a, v)])
  {
    hide Location, PathValue;
    var args := [Arg(a, v)];
    assert args[..0] == [] && AsMap([]) == map[];
    assert AsMap(args) == map[a := v];
  }

  lemma OneArg(op: Operation, a: string, v: Value)
    requires OctetValue(v) && PathValue(v).Some? && Location(op, a) == "path"
    ensures OctetArgs([Arg(a, v)]) && PathAfter(op, [Arg(a, v)]) == ReplaceAll(op.path, Marked(a), PathValue(v).value)
  {
    hide Location, PathValue, ReplaceAll, Marked;
    assert [Arg(a, v)][..0] == [] && PathAfter(op, []) == op.path;
  }
}

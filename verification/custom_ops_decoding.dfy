// The planned path once decoded, as a server reads it (oto_mcp/custom_ops.py, `_path_value`).

module CustomOpsDecoding {
  import opened Percent
  import opened Templates
  import opened CustomOps
  import opened CustomOpsPlan
  import opened CustomOpsLaws
  import opened FiniteSets

  // ---- escapes in a template

  predicate HexPiece(p: Piece) {
    p.Char? && IsHex(p.c)
  }

  // The template begins with an escape written out.
  predicate EscapeAt(t: Template) {
    |t| >= 3 && t[0] == Char('%') && HexPiece(t[1]) && HexPiece(t[2])
  }

  // The template begins with a `%` whose escape a placeholder would finish.
  predicate OpensAt(t: Template) {
    |t| >= 2 && t[0] == Char('%') && (t[1].Hole? || (|t| >= 3 && HexPiece(t[1]) && t[2].Hole?))
  }

  /** Some placeholder falls within an escape that a `%` of the template opens. */
  predicate OpenEscape(t: Template) {
    t != [] && (OpensAt(t) || OpenEscape(t[1..]))
  }

  // The template with its own escapes decoded.
  function Decoded(t: Template): Template {
    if t == [] then []
    else if EscapeAt(t) then [Char((16 * HexValue(t[1].c) + HexValue(t[2].c)) as char)] + Decoded(t[3..])
    else [t[0]] + Decoded(t[1..])
  }

  lemma EscapeIsClosed(t: Template)
    requires EscapeAt(t)
    ensures OpenEscape(t) <==> OpenEscape(t[3..])
  {
    assert t[1..][0] == t[1] && t[1..][1..] == t[2..] && t[2..][0] == t[2] && t[2..][1..] == t[3..];
    assert OpenEscape(t[1..]) <==> OpenEscape(t[2..]);
    assert OpenEscape(t[2..]) <==> OpenEscape(t[3..]);
  }

  // ---- filled templates

  function Filled(t: Template, values: map<string, string>): string {
    Text(FillAll(t, values))
  }

  function PieceValue(p: Piece, values: map<string, string>): string
    requires p.Hole? ==> p.name in values
  {
    if p.Hole? then values[p.name] else [p.c]
  }

  lemma FilledHead(t: Template, values: map<string, string>)
    requires t != [] && (t[0].Hole? ==> t[0].name in values)
    ensures Filled(t, values) == PieceValue(t[0], values) + Filled(t[1..], values)
  {
    assert t == [t[0]] + t[1..];
    FillAllConsText(t[0], t[1..], values);
    if t[0].Hole? {
      TextOfChars(values[t[0].name]);
    } else {
      assert Text([t[0]]) == [t[0].c];
    }
  }

  ghost predicate Covers(t: Template, values: map<string, string>) {
    forall k | 0 <= k < |t| && t[k].Hole? :: t[k].name in values
  }

  lemma HeadIs(p: Piece, t: Template, values: map<string, string>)
    requires p.Hole? ==> p.name in values
    ensures Filled([p] + t, values) == PieceValue(p, values) + Filled(t, values)
  {
    assert ([p] + t)[1..] == t;
    FilledHead([p] + t, values);
  }

  lemma UnquoteOther(c: char, rest: string)
    requires !StartsEscape([c] + rest)
    ensures Unquote([c] + rest) == [c] + Unquote(rest)
  {
    assert ([c] + rest)[1..] == rest;
  }

  lemma UnquoteEscape(a: char, b: char, rest: string)
    requires IsHex(a) && IsHex(b)
    ensures Unquote(['%'] + ([a] + ([b] + rest))) == [(16 * HexValue(a) + HexValue(b)) as char] + Unquote(rest)
  {
    var s := ['%'] + ([a] + ([b] + rest));
    assert s[1] == a && s[2] == b && s[3..] == rest;
  }

  // A `%` that opens no escape in the template opens none once filled.
  lemma NoEscapeOpened(t: Template, values: map<string, string>)
    requires t != [] && Covers(t, values) && t[0].Char? && !EscapeAt(t) && !OpensAt(t)
    ensures !StartsEscape([t[0].c] + Filled(t[1..], values))
  {
    var s := [t[0].c] + Filled(t[1..], values);
    if t[0].c == '%' && |t| > 1 {
      assert t[1].Char?;
      FilledHead(t[1..], values);
      assert s[1] == t[1].c;
      assert t[1..][1..] == t[2..];
      if IsHex(t[1].c) && |t| > 2 {
        assert t[2].Char?;
        FilledHead(t[2..], values);
        assert s[2] == t[2].c;
      } else if |t| == 2 {
        assert Filled(t[2..], values) == "";
      }
    } else if |t| == 1 {
      assert Filled(t[1..], values) == "";
    }
  }

  /** Decoding a filled template gives the decoded template filled with the values as they
      were, when no placeholder falls within an escape. */
  lemma {:induction false} DecodeFilled(t: Template, quoted: map<string, string>, raw: map<string, string>)
    requires !OpenEscape(t) && quoted.Keys == raw.Keys && Covers(t, raw)
    requires forall a <- raw :: Octets(raw[a]) && quoted[a] == Quote(raw[a])
    ensures Unquote(Filled(t, quoted)) == Filled(Decoded(t), raw)
    decreases |t|
  {
    if t != [] {
      if EscapeAt(t) {
        EscapeIsClosed(t);
        DecodeFilled(t[3..], quoted, raw);
        DecodeEscape(t, quoted, raw);
      } else {
        DecodeFilled(t[1..], quoted, raw);
        DecodeHead(t, quoted, raw);
      }
    }
  }

  lemma DecodeEscape(t: Template, quoted: map<string, string>, raw: map<string, string>)
    requires EscapeAt(t) && Unquote(Filled(t[3..], quoted)) == Filled(Decoded(t[3..]), raw)
    ensures Unquote(Filled(t, quoted)) == Filled(Decoded(t), raw)
  {
    hide Filled, Unquote;
    FilledEscape(t, quoted);
    UnquoteEscape(t[1].c, t[2].c, Filled(t[3..], quoted));
    HeadIs(Decoded(t)[0], Decoded(t[3..]), raw);
  }

  lemma DecodeHead(t: Template, quoted: map<string, string>, raw: map<string, string>)
    requires t != [] && !EscapeAt(t) && !OpensAt(t) && quoted.Keys == raw.Keys && Covers(t, raw)
    requires forall a <- raw :: Octets(raw[a]) && quoted[a] == Quote(raw[a])
    requires Unquote(Filled(t[1..], quoted)) == Filled(Decoded(t[1..]), raw)
    ensures Unquote(Filled(t, quoted)) == Filled(Decoded(t), raw)
  {
    assert Decoded(t) == [t[0]] + Decoded(t[1..]);
    hide Filled, Unquote, Decoded, Quote;
    FilledHead(t, quoted);
    HeadIs(t[0], Decoded(t[1..]), raw);
    if t[0].Hole? {
      UnquoteAfterQuote(raw[t[0].name], Filled(t[1..], quoted));
    } else {
      NoEscapeOpened(t, quoted);
      UnquoteOther(t[0].c, Filled(t[1..], quoted));
    }
  }

  lemma FilledEscape(t: Template, values: map<string, string>)
    requires EscapeAt(t)
    ensures Filled(t, values) == ['%'] + ([t[1].c] + ([t[2].c] + Filled(t[3..], values)))
  {
    assert t[1..][1..] == t[2..] && t[2..][1..] == t[3..];
    FilledHead(t, values);
    FilledHead(t[1..], values);
    FilledHead(t[2..], values);
  }

  // ---- values that finish an escape

  // A value that is its own encoding and begins with two hexadecimal digits.
  predicate Finishes(s: string) {
    |s| >= 2 && IsHex(s[0]) && IsHex(s[1]) && forall k | 0 <= k < |s| :: s[k] != '%'
  }

  lemma {:induction false} UnquotePlainText(s: string, rest: string)
    requires forall k | 0 <= k < |s| :: s[k] != '%'
    ensures Unquote(s + rest) == s + Unquote(rest)
  {
    if s == [] {
      assert s + rest == rest && s + Unquote(rest) == Unquote(rest);
    } else {
      UnquotePlainText(s[1..], rest);
      UnquotePlain(s[0], s[1..] + rest);
      hide Unquote;
      assert s + rest == [s[0]] + (s[1..] + rest);
      assert s + Unquote(rest) == [s[0]] + (s[1..] + Unquote(rest));
    }
  }

  ghost predicate AllFinish(t: Template, values: map<string, string>) {
    Covers(t, values) && forall a <- values :: Finishes(values[a])
  }

  /** With such values the decoded text is never longer than the values call for, and is
      shorter as soon as a placeholder finishes an escape. */
  lemma {:induction false} EscapesShorten(t: Template, values: map<string, string>)
    requires AllFinish(t, values)
    ensures |Unquote(Filled(t, values))| <= |Filled(Decoded(t), values)|
    ensures OpenEscape(t) ==> |Unquote(Filled(t, values))| < |Filled(Decoded(t), values)|
    decreases |t|
  {
    if t != [] {
      if EscapeAt(t) {
        EscapeIsClosed(t);
        FilledEscape(t, values);
        EscapesShorten(t[3..], values);
        UnquoteEscape(t[1].c, t[2].c, Filled(t[3..], values));
        HeadIs(Decoded(t)[0], Decoded(t[3..]), values);
      } else if OpensAt(t) && t[1].Hole? {
        EscapesShorten(t[2..], values);
        FinishedAtOnce(t, values);
      } else if OpensAt(t) {
        EscapesShorten(t[3..], values);
        FinishedAfterOne(t, values);
      } else {
        EscapesShorten(t[1..], values);
        HeadKept(t, values);
      }
    }
  }

  lemma HeadKept(t: Template, values: map<string, string>)
    requires AllFinish(t, values) && t != [] && !EscapeAt(t) && !OpensAt(t)
    ensures |Unquote(Filled(t, values))| - |Unquote(Filled(t[1..], values))| == |Filled(Decoded(t), values)| - |Filled(Decoded(t[1..]), values)|
  {
    FilledHead(t, values);
    HeadIs(t[0], Decoded(t[1..]), values);
    if t[0].Hole? {
      UnquotePlainText(values[t[0].name], Filled(t[1..], values));
    } else {
      NoEscapeOpened(t, values);
      UnquoteOther(t[0].c, Filled(t[1..], values));
    }
  }

  lemma FinishedByTwo(v: string, rest: string)
    requires Finishes(v)
    ensures |Unquote(['%'] + (v + rest))| == |v| - 1 + |Unquote(rest)|
  {
    UnquoteEscape(v[0], v[1], v[2..] + rest);
    UnquotePlainText(v[2..], rest);
    hide Unquote;
    assert ['%'] + (v + rest) == ['%'] + ([v[0]] + ([v[1]] + (v[2..] + rest)));
  }

  lemma FinishedByOne(digit: char, v: string, rest: string)
    requires Finishes(v) && IsHex(digit)
    ensures |Unquote(['%'] + ([digit] + (v + rest)))| == |v| + |Unquote(rest)|
  {
    UnquoteEscape(digit, v[0], v[1..] + rest);
    UnquotePlainText(v[1..], rest);
    hide Unquote;
    assert ['%'] + ([digit] + (v + rest)) == ['%'] + ([digit] + ([v[0]] + (v[1..] + rest)));
  }

  // `%` and a placeholder.
  lemma FinishedAtOnce(t: Template, values: map<string, string>)
    requires AllFinish(t, values) && OpensAt(t) && t[1].Hole?
    ensures |Unquote(Filled(t, values))| - |Unquote(Filled(t[2..], values))| < |Filled(Decoded(t), values)| - |Filled(Decoded(t[2..]), values)|
  {
    assert t[1..][1..] == t[2..];
    assert Decoded(t) == [t[0]] + Decoded(t[1..]) && Decoded(t[1..]) == [t[1]] + Decoded(t[2..]);
    hide Filled, Unquote, Decoded, Finishes;
    FilledHead(t, values);
    FilledHead(t[1..], values);
    FinishedByTwo(values[t[1].name], Filled(t[2..], values));
    HeadIs(t[0], Decoded(t[1..]), values);
    HeadIs(t[1], Decoded(t[2..]), values);
  }

  // `%`, a digit and a placeholder.
  lemma FinishedAfterOne(t: Template, values: map<string, string>)
    requires AllFinish(t, values) && OpensAt(t) && t[1].Char?
    ensures |Unquote(Filled(t, values))| - |Unquote(Filled(t[3..], values))| < |Filled(Decoded(t), values)| - |Filled(Decoded(t[3..]), values)|
  {
    assert t[1..][1..] == t[2..] && t[2..][1..] == t[3..];
    assert Decoded(t) == [t[0]] + Decoded(t[1..]) && Decoded(t[1..]) == [t[1]] + Decoded(t[2..]) && Decoded(t[2..]) == [t[2]] + Decoded(t[3..]);
    hide Filled, Unquote, Decoded, Finishes;
    FilledHead(t, values);
    FilledHead(t[1..], values);
    FilledHead(t[2..], values);
    FinishedByOne(t[1].c, values[t[2].name], Filled(t[3..], values));
    HeadIs(t[0], Decoded(t[1..]), values);
    HeadIs(t[1], Decoded(t[2..]), values);
    HeadIs(t[2], Decoded(t[3..]), values);
  }

  // ---- planned paths

  // The values of the path arguments, as they were passed.
  function RawValues(op: Operation, args: map<string, Value>): map<string, string>
    requires OctetMap(args)
  {
    map a | a in args && Location(op, a) == "path" && PathValue(args[a]).Some? :: RawText(args[a]).value
  }

  ghost predicate Fitting(op: Operation, args: Args) {
    DistinctArgs(args) && OctetArgs(args) && OctetMap(AsMap(args)) && CallFits(op, AsMap(args))
  }

  // Decoding the path of the call gives the decoded template with the values as passed.
  ghost predicate DecodesToTheValues(op: Operation, args: Args)
    requires Accepted(op) && WellBraced(op.path) && Fitting(op, args)
  {
    Unquote(PathAfter(op, args)) == Filled(Decoded(Parse(op.path)), RawValues(op, AsMap(args)))
  }

  lemma {:induction false} HolesCovered(t: Template, values: map<string, string>)
    ensures Covers(t, values) <==> forall name <- Holes(t) :: name in values
  {
    if t != [] {
      HolesCovered(t[1..], values);
      assert t == [t[0]] + t[1..];
      assert Holes(t) == (if t[0].Hole? then [t[0].name] else []) + Holes(t[1..]);
      hide Holes;
      assert forall k | 1 <= k < |t| :: t[k] == t[1..][k - 1];
      assert forall k | 0 <= k < |t| - 1 :: t[1..][k] == t[k + 1];
    }
  }

  lemma ValuesAreQuoted(op: Operation, args: Args)
    requires Accepted(op) && WellBraced(op.path) && Fitting(op, args)
    ensures
      var quoted, raw := PathValues(op, AsMap(args)), RawValues(op, AsMap(args));
      && PathAfter(op, args) == Filled(Parse(op.path), quoted)
      && quoted.Keys == raw.Keys && Covers(Parse(op.path), raw) && Covers(Parse(op.path), quoted)
      && forall a <- raw :: Octets(raw[a]) && quoted[a] == Quote(raw[a]) && StaysInSegment(raw[a])
  {
    PathIsFilled(op, args);
    EveryHoleHasAValue(op, AsMap(args));
    HolesCovered(Parse(op.path), PathValues(op, AsMap(args)));
    hide Location, Parse, Accepted, WellBraced, CallFits, Quote, Unquote, PathAfter, Text, FillAll;
  }

  /** Templates without an open escape: every call decodes to its values. */
  lemma ClosedTemplateDecodes(op: Operation, args: Args)
    requires Accepted(op) && WellBraced(op.path) && Fitting(op, args) && !OpenEscape(Parse(op.path))
    ensures DecodesToTheValues(op, args)
  {
    ValuesAreQuoted(op, args);
    hide Filled, Unquote, Quote, Parse, Accepted, Fitting, Location, PathValues, RawValues;
    DecodeFilled(Parse(op.path), PathValues(op, AsMap(args)), RawValues(op, AsMap(args)));
  }

  // ---- when an escape stays open

  // A value of the same type that finishes an escape.
  function Harmful(v: Value): Value {
    match v
    case Str(_) => Str("41")
    case Int(_) => Int("41")
    case Real(_) => Real("41.0")
    case Bool(_) => Bool(false)
    case _ => v
  }

  function HarmfulArgs(op: Operation, args: Args): (r: Args)
    ensures |r| == |args|
    ensures forall k | 0 <= k < |args| ::
              r[k] == Arg(args[k].name, if Location(op, args[k].name) == "path" then Harmful(args[k].value) else args[k].value)
  {
    seq(|args|, k requires 0 <= k < |args| =>
      Arg(args[k].name, if Location(op, args[k].name) == "path" then Harmful(args[k].value) else args[k].value))
  }

  lemma {:induction false} QuotePlain(s: string)
    requires forall k | 0 <= k < |s| :: Unreserved(s[k])
    ensures Octets(s) && Quote(s) == s && Unquote(s) == s
  {
    if s != [] {
      QuotePlain(s[1..]);
      assert Octets(s) by {
        assert forall k | 1 <= k < |s| :: s[k] == s[1..][k - 1];
      }
      assert Quote(s) == QuoteOctet(s[0]) + Quote(s[1..]) == [s[0]] + s[1..];
      UnquotePlain(s[0], s[1..]);
      assert s == [s[0]] + s[1..];
    }
  }

  predicate PlainText(s: string) {
    |s| >= 2 && IsHex(s[0]) && IsHex(s[1]) && forall k | 0 <= k < |s| :: Unreserved(s[k])
  }

  lemma PlainTextStays(s: string)
    requires PlainText(s)
    ensures Octets(s) && Quote(s) == s && Unquote(s) == s && Finishes(s) && StaysInSegment(s)
  {
    QuotePlain(s);
    hide Quote, Unquote;
    assert !DotSegment(s) by {
      assert s[0] != '.';
    }
  }

  lemma HarmfulTexts()
    ensures PlainText("41") && PlainText("41.0") && PlainText("false")
  {
  }

  lemma HarmfulValue(v: Value)
    requires OctetValue(v) && PathValue(v).Some?
    ensures OctetValue(Harmful(v)) && RawText(Harmful(v)).Some? && Finishes(RawText(Harmful(v)).value)
    ensures PathValue(Harmful(v)) == RawText(Harmful(v))
    ensures forall t :: Fits(Harmful(v), t) <==> Fits(v, t)
    ensures !Harmful(v).Obj? && !v.Obj?
  {
    hide PlainText, Harmful, Fits;
    HarmfulIsPlain(v);
    PlainTextStays(RawText(Harmful(v)).value);
    hide Quote, Unquote, StaysInSegment, Octets, Finishes;
  }

  lemma HarmfulIsPlain(v: Value)
    requires RawText(v).Some?
    ensures RawText(Harmful(v)).Some? && PlainText(RawText(Harmful(v)).value)
    ensures !Harmful(v).Obj? && !v.Obj? && forall t :: Fits(Harmful(v), t) <==> Fits(v, t)
  {
    HarmfulTexts();
    hide PlainText;
  }

  // The same call, with such values in the path, is accepted too.
  lemma HarmfulFits(op: Operation, args: Args)
    requires Accepted(op) && WellBraced(op.path) && Fitting(op, args)
    ensures Fitting(op, HarmfulArgs(op, args))
  {
    var harmful := HarmfulArgs(op, args);
    CallFitsIff(op, args);
    assert forall k | 0 <= k < |args| :: TypeFits(op, args[k]) && PlaceFits(op, args[k]);
    forall k | 0 <= k < |args|
      ensures OctetValue(harmful[k].value) && TypeFits(op, harmful[k]) && PlaceFits(op, harmful[k])
    {
      if Location(op, args[k].name) == "path" {
        HarmfulValue(args[k].value);
      }
    }
    hide TypeFits, PlaceFits, CallFits, AsMap, Location, OctetValue, PathValue;
    SameNamesInBoth(args, harmful);
    CallFitsIff(op, harmful);
  }

  lemma SameNamesInBoth(a: Args, b: Args)
    requires |a| == |b| && forall k | 0 <= k < |a| :: a[k].name == b[k].name
    ensures Names(a) == Names(b)
    ensures DistinctArgs(a) <==> DistinctArgs(b)
  {
    forall n | n in Names(a)
      ensures n in Names(b)
    {
      var k :| 0 <= k < |a| && a[k].name == n;
      assert b[k] in b;
    }
    forall n | n in Names(b)
      ensures n in Names(a)
    {
      var k :| 0 <= k < |b| && b[k].name == n;
      assert a[k] in a;
    }
  }

  // The argument behind a path value of the harmful call, and what it was in the first one.
  lemma HarmfulArg(op: Operation, args: Args, a: string) returns (k: nat)
    requires Fitting(op, args) && Fitting(op, HarmfulArgs(op, args))
    requires a in AsMap(HarmfulArgs(op, args)) && Location(op, a) == "path"
    ensures k < |args| && PathValue(args[k].value).Some? && AsMap(HarmfulArgs(op, args))[a] == Harmful(args[k].value)
  {
    CallFitsIff(op, args);
    hide CallFits, AsMap, PathValue, Fits, TypeFits, Location, Harmful, OctetValue;
    var harmful := HarmfulArgs(op, args);
    assert Arg(a, AsMap(harmful)[a]) in harmful;
    k :| 0 <= k < |harmful| && harmful[k] == Arg(a, AsMap(harmful)[a]);
    assert PlaceFits(op, args[k]);
  }

  lemma PathArgs(op: Operation, m: map<string, Value>, a: string)
    requires OctetMap(m)
    ensures a in RawValues(op, m) <==> a in m && Location(op, a) == "path" && PathValue(m[a]).Some?
    ensures a in PathValues(op, m) <==> a in m && Location(op, a) == "path" && PathValue(m[a]).Some?
    ensures a in RawValues(op, m) ==> RawValues(op, m)[a] == RawText(m[a]).value && PathValues(op, m)[a] == PathValue(m[a]).value
  {
    hide Location, PathValue;
  }

  lemma HarmfulFinish(op: Operation, args: Args)
    requires Accepted(op) && WellBraced(op.path) && Fitting(op, args) && Fitting(op, HarmfulArgs(op, args))
    ensures
      var m := AsMap(HarmfulArgs(op, args));
      AllFinish(Parse(op.path), RawValues(op, m)) && PathValues(op, m) == RawValues(op, m)
  {
    var m := AsMap(HarmfulArgs(op, args));
    ValuesAreQuoted(op, HarmfulArgs(op, args));
    hide Accepted, WellBraced, Parse, CallFits, AsMap, HarmfulArgs, PathValue, PathValues, RawValues, Location, Finishes, Harmful;
    forall a | a in RawValues(op, m)
      ensures Finishes(RawValues(op, m)[a]) && PathValues(op, m)[a] == RawValues(op, m)[a]
    {
      PathArgs(op, m, a);
      var k := HarmfulArg(op, args, a);
      HarmfulValue(args[k].value);
    }
    SameMap(PathValues(op, m), RawValues(op, m));
  }

  /** The values passed are what the path decodes to, for every call the operation accepts, if
      and only if no placeholder falls within an escape that the template opens (or the
      operation accepts no call at all). */
  lemma DecodedPathIff(op: Operation)
    requires Accepted(op) && WellBraced(op.path)
    ensures (forall args: Args | Fitting(op, args) :: DecodesToTheValues(op, args))
            <==> !OpenEscape(Parse(op.path)) || !exists args: Args :: Fitting(op, args)
  {
    hide Accepted, WellBraced, Parse, Fitting, DecodesToTheValues;
    if !OpenEscape(Parse(op.path)) {
      forall args: Args | Fitting(op, args)
        ensures DecodesToTheValues(op, args)
      {
        ClosedTemplateDecodes(op, args);
      }
    } else if exists args: Args :: Fitting(op, args) {
      var args: Args :| Fitting(op, args);
      OpenTemplateMisleads(op, args);
    }
  }

  /** With an open escape, some values of the same types decode to something else. */
  lemma OpenTemplateMisleads(op: Operation, args: Args)
    requires Accepted(op) && WellBraced(op.path) && Fitting(op, args) && OpenEscape(Parse(op.path))
    ensures Fitting(op, HarmfulArgs(op, args)) && !DecodesToTheValues(op, HarmfulArgs(op, args))
  {
    HarmfulFits(op, args);
    HarmfulFinish(op, args);
    ValuesAreQuoted(op, HarmfulArgs(op, args));
    hide Filled, Unquote, Decoded, Parse, AllFinish, PathValues, RawValues, Fitting, Accepted, WellBraced, HarmfulArgs, OpenEscape;
    EscapesShorten(Parse(op.path), RawValues(op, AsMap(HarmfulArgs(op, args))));
  }
}

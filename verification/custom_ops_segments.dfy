// What leaves its segment once the planned path is decoded, and what does not
// (oto_mcp/custom_ops.py, `_path_value`).

module CustomOpsSegments {
  import opened Percent
  import opened Templates
  import opened Texts
  import opened CustomOps
  import opened CustomOpsPlan
  import opened CustomOpsLaws
  import opened CustomOpsDecoding
  import opened FiniteSets

  // ---- segments of a template and of a text

  predicate SafeText(s: string) {
    s != "" && !DotSegment(s)
  }

  // A segment without a placeholder is the template's; one with a placeholder is neither empty
  // nor dots.
  predicate KeptOne(part: Template, segment: string) {
    NoSlash(segment) && if HasHole(part) then SafeText(segment) else segment == Text(part)
  }

  /** A text has the segments of a template. */
  predicate Kept(parts: seq<Template>, segments: seq<string>) {
    |parts| == |segments| && forall k | 0 <= k < |parts| :: KeptOne(parts[k], segments[k])
  }

  lemma JoinedBefore(u: string, s: string)
    requires NoSlash(u) && NoSlash(s) && SafeText(s)
    ensures SafeText(u + s) && NoSlash(u + s)
  {
    assert |u| == 0 ==> u + s == s;
    assert |u| == 1 && |s| == 1 ==> u == [(u + s)[0]] && s == [(u + s)[1]];
  }

  lemma JoinedOne(part: Template, u: string, p: Template, s: string)
    requires KeptOne(p, s) && KeptOne(part, u)
    ensures KeptOne(part + p, u + s)
  {
    HoleInEither(part, p);
    if HasHole(part) {
      Joined(u, s);
    } else if HasHole(p) {
      JoinedBefore(u, s);
    } else {
      TextConcat(part, p);
    }
  }

  lemma HoleInEither(a: Template, b: Template)
    ensures HasHole(a + b) <==> HasHole(a) || HasHole(b)
  {
    if k :| 0 <= k < |a| && a[k].Hole? {
      assert (a + b)[k].Hole?;
    }
    if k :| 0 <= k < |b| && b[k].Hole? {
      assert (a + b)[|a| + k].Hole?;
    }
  }

  predicate NoSeparator(t: Template) {
    forall k | 0 <= k < |t| :: t[k] != Char('/')
  }

  lemma {:induction false} PiecesHead(part: Template, t: Template)
    requires NoSeparator(part)
    ensures PieceSegments(part + t) == [part + PieceSegments(t)[0]] + PieceSegments(t)[1..]
  {
    if part == [] {
      assert part + t == t && part + PieceSegments(t)[0] == PieceSegments(t)[0];
    } else {
      assert (part + t)[1..] == part[1..] + t && (part + t)[0] == part[0];
      PiecesHead(part[1..], t);
      assert PieceSegments(part + t) == [[part[0]] + PieceSegments(part[1..] + t)[0]] + PieceSegments(part[1..] + t)[1..];
      hide PieceSegments;
      assert [part[0]] + (part[1..] + PieceSegments(t)[0]) == part + PieceSegments(t)[0];
    }
  }

  // Pieces without a separator, and what they decode to, go to the first segment.
  lemma HeadKept(part: Template, u: string, t: Template, s: string)
    requires NoSeparator(part) && KeptOne(part, u) && Kept(PieceSegments(t), Segments(s))
    ensures Kept(PieceSegments(part + t), Segments(u + s))
    ensures |PieceSegments(part + t)| == |PieceSegments(t)| && |Segments(u + s)| == |Segments(s)|
  {
    hide PieceSegments, Segments;
    PiecesHead(part, t);
    SegmentsSkip(u, s);
    hide KeptOne;
    JoinedOne(part, u, PieceSegments(t)[0], Segments(s)[0]);
    KeptHead(PieceSegments(t), Segments(s), part + PieceSegments(t)[0], u + Segments(s)[0]);
  }

  lemma KeptHead(parts: seq<Template>, segments: seq<string>, part: Template, segment: string)
    requires parts != [] && Kept(parts, segments) && KeptOne(part, segment)
    ensures Kept([part] + parts[1..], [segment] + segments[1..])
  {
    hide KeptOne;
  }

  lemma CharKept(c: char, t: Template, s: string)
    requires Kept(PieceSegments(t), Segments(s))
    ensures Kept(PieceSegments([Char(c)] + t), Segments([c] + s))
  {
    if c == '/' {
      NewSegment(t, s);
      hide PieceSegments, Segments;
      assert KeptOne([], "");
    } else {
      assert Text([Char(c)]) == [c];
      HeadKept([Char(c)], [c], t, s);
    }
  }

  lemma NewSegment(t: Template, s: string)
    ensures PieceSegments([Char('/')] + t) == [[]] + PieceSegments(t) && Segments(['/'] + s) == [[]] + Segments(s)
  {
    assert ([Char('/')] + t)[1..] == t && (['/'] + s)[1..] == s;
  }

  // ---- placeholders within an escape

  // What stands before the value in the escape: nothing, or a first digit.
  function OpenLead(t: Template): string
    requires OpensAt(t)
  {
    if t[1].Hole? then "" else [t[1].c]
  }

  function OpenPart(t: Template): (part: Template)
    requires OpensAt(t)
    ensures part <= t && |part| >= 2 && part[|part| - 1].Hole? && NoSeparator(part)
  {
    if t[1].Hole? then t[..2] else t[..3]
  }

  function OpenName(t: Template): string
    requires OpensAt(t)
  {
    OpenPart(t)[|OpenPart(t)| - 1].name
  }

  function OpenRest(t: Template): Template
    requires OpensAt(t)
  {
    t[|OpenPart(t)|..]
  }

  lemma OpenDecoded(t: Template)
    requires OpensAt(t)
    ensures Decoded(t) == OpenPart(t) + Decoded(OpenRest(t))
  {
    assert t[1..][1..] == t[2..];
    assert Decoded(t) == [t[0]] + Decoded(t[1..]) && Decoded(t[1..]) == [t[1]] + Decoded(t[2..]);
    if t[1].Char? {
      assert t[2..][1..] == t[3..];
      assert Decoded(t[2..]) == [t[2]] + Decoded(t[3..]);
    }
  }

  lemma OpenFilled(t: Template, values: map<string, string>)
    requires OpensAt(t) && OpenName(t) in values
    ensures Filled(t, values) == ['%'] + ((OpenLead(t) + values[OpenName(t)]) + Filled(OpenRest(t), values))
  {
    var v, rest := values[OpenName(t)], Filled(OpenRest(t), values);
    hide Filled, IsHex;
    FilledHead(t, values);
    OpenFilledTail(t, values);
    Regroup(OpenLead(t), v, rest);
  }

  lemma OpenFilledTail(t: Template, values: map<string, string>)
    requires OpensAt(t) && OpenName(t) in values
    ensures Filled(t[1..], values) == OpenLead(t) + (values[OpenName(t)] + Filled(OpenRest(t), values))
  {
    assert t[1..][1..] == t[2..];
    hide Filled, IsHex;
    FilledHead(t[1..], values);
    if t[1].Hole? {
      Regroup("", values[OpenName(t)], Filled(OpenRest(t), values));
    } else {
      assert t[2..][1..] == t[3..];
      FilledHead(t[2..], values);
    }
  }

  lemma Regroup(a: string, b: string, c: string)
    ensures (a + b) + c == a + (b + c) && "" + b == b
  {
  }

  // ---- values that keep the segments

  // After `%`: two digits that make a separator or a dot, or one digit that what follows could
  // complete.
  predicate Threatens(v: string) {
    v != "" && IsHex(v[0]) && (|v| == 1 || (v[0] == '2' && (v[1] == 'F' || v[1] == 'f' || v[1] == 'E' || v[1] == 'e')))
  }

  predicate ThreatAt(t: Template, raw: map<string, string>) {
    OpensAt(t) && OpenName(t) in raw && Threatens(OpenLead(t) + raw[OpenName(t)])
  }

  /** Some value completes, or may complete, an escape as a separator or a dot. */
  predicate Threat(t: Template, raw: map<string, string>) {
    exists k | 0 <= k < |t| :: ThreatAt(t[k..], raw)
  }

  lemma NoThreatLater(t: Template, raw: map<string, string>, n: nat)
    requires !Threat(t, raw) && n <= |t|
    ensures !Threat(t[n..], raw)
  {
    forall k | 0 <= k < |t| - n
      ensures !ThreatAt(t[n..][k..], raw)
    {
      assert t[n..][k..] == t[n + k..];
    }
  }

  lemma ByteIs(a: char, b: char)
    requires IsHex(a) && IsHex(b)
    ensures 16 * HexValue(a) + HexValue(b) == '/' as int <==> a == '2' && (b == 'F' || b == 'f')
    ensures 16 * HexValue(a) + HexValue(b) == '.' as int <==> a == '2' && (b == 'E' || b == 'e')
  {
  }

  // What comes after `%` decodes to a text that is no separator and no dots.
  lemma DecodedAfterPercent(v: string, rest: string) returns (u: string)
    requires Octets(v) && v != "" && NoSlash(v) && !Threatens(v)
    ensures Unquote(['%'] + (Quote(v) + rest)) == u + Unquote(rest) && SafeText(u) && NoSlash(u)
  {
    hide Quote, Unquote;
    if IsHex(v[0]) && IsHex(v[1]) {
      ByteIs(v[0], v[1]);
      var byte := (16 * HexValue(v[0]) + HexValue(v[1])) as char;
      u := [byte] + v[2..];
      FinishedByValue(v, rest);
      assert u[0] == byte;
    } else {
      u := ['%'] + v;
      NotFinished(v, rest);
      assert u[0] == '%';
    }
  }

  lemma FirstTwo(v: string)
    requires Octets(v) && |v| >= 2 && IsHex(v[0]) && IsHex(v[1])
    ensures Quote(v) == [v[0]] + ([v[1]] + Quote(v[2..]))
  {
    assert v[1..][1..] == v[2..];
    assert QuoteOctet(v[0]) == [v[0]] && QuoteOctet(v[1]) == [v[1]];
    hide QuoteOctet;
    QuoteParts(v);
    QuoteParts(v[1..]);
  }

  lemma FinishedByValue(v: string, rest: string)
    requires Octets(v) && |v| >= 2 && IsHex(v[0]) && IsHex(v[1])
    ensures Unquote(['%'] + (Quote(v) + rest)) == ([(16 * HexValue(v[0]) + HexValue(v[1])) as char] + v[2..]) + Unquote(rest)
  {
    FirstTwo(v);
    hide Quote, Unquote;
    UnquoteEscape(v[0], v[1], Quote(v[2..]) + rest);
    UnquoteAfterQuote(v[2..], rest);
    hide HexValue, IsHex;
    var byte := (16 * HexValue(v[0]) + HexValue(v[1])) as char;
    Regroup([v[0]], [v[1]] + Quote(v[2..]), rest);
    Regroup([v[1]], Quote(v[2..]), rest);
    Regroup([byte], v[2..], Unquote(rest));
  }

  lemma NotFinished(v: string, rest: string)
    requires Octets(v) && v != [] && !(IsHex(v[0]) && (|v| == 1 || IsHex(v[1])))
    ensures Unquote(['%'] + (Quote(v) + rest)) == (['%'] + v) + Unquote(rest)
  {
    FirstOfQuoted(v);
    hide Quote, Unquote;
    UnquoteOther('%', Quote(v) + rest);
    UnquoteAfterQuote(v, rest);
  }

  lemma FirstOfQuoted(v: string)
    requires Octets(v) && v != [] && !(IsHex(v[0]) && (|v| == 1 || IsHex(v[1])))
    ensures Quote(v) != [] && !(IsHex(Quote(v)[0]) && (|Quote(v)| == 1 || IsHex(Quote(v)[1])))
  {
    QuoteParts(v);
    if IsHex(v[0]) {
      QuoteParts(v[1..]);
      assert Quote(v)[1] == QuoteOctet(v[1])[0];
    }
  }

  /** The decoded path has the segments of the decoded template as long as no value completes an
      escape as a separator or a dot. */
  lemma {:induction false} ShapeKept(t: Template, quoted: map<string, string>, raw: map<string, string>)
    requires !Threat(t, raw) && quoted.Keys == raw.Keys && Covers(t, raw)
    requires forall a <- raw :: Octets(raw[a]) && quoted[a] == Quote(raw[a]) && StaysInSegment(raw[a])
    ensures Kept(PieceSegments(Decoded(t)), Segments(Unquote(Filled(t, quoted))))
    decreases |t|
  {
    hide Threat, Kept, PieceSegments, Segments, Unquote, Filled, Quote, Decoded, StaysInSegment, Octets;
    if t == [] {
      NothingKept(quoted);
    } else if EscapeAt(t) {
      NoThreatLater(t, raw, 3);
      ShapeKept(t[3..], quoted, raw);
      EscapeKept(t, quoted);
    } else if OpensAt(t) {
      NoThreatLater(t, raw, |OpenPart(t)|);
      ShapeKept(OpenRest(t), quoted, raw);
      OpenKept(t, quoted, raw);
    } else {
      NoThreatLater(t, raw, 1);
      ShapeKept(t[1..], quoted, raw);
      PieceKept(t, quoted, raw);
    }
  }

  lemma NothingKept(values: map<string, string>)
    ensures Kept(PieceSegments(Decoded([])), Segments(Unquote(Filled([], values))))
    ensures |PieceSegments(Decoded([]))| == |Segments(Unquote(Filled([], values)))|
  {
    assert Segments("") == [""] && PieceSegments([]) == [[]] && Filled([], values) == "" && Unquote("") == "";
  }

  lemma EscapeKept(t: Template, quoted: map<string, string>)
    requires EscapeAt(t) && Kept(PieceSegments(Decoded(t[3..])), Segments(Unquote(Filled(t[3..], quoted))))
    ensures Kept(PieceSegments(Decoded(t)), Segments(Unquote(Filled(t, quoted))))
  {
    hide Kept, PieceSegments, Segments, Unquote, Filled;
    FilledEscape(t, quoted);
    UnquoteEscape(t[1].c, t[2].c, Filled(t[3..], quoted));
    CharKept(Decoded(t)[0].c, Decoded(t[3..]), Unquote(Filled(t[3..], quoted)));
  }

  lemma OpenKept(t: Template, quoted: map<string, string>, raw: map<string, string>)
    requires OpensAt(t) && !Threat(t, raw) && quoted.Keys == raw.Keys && Covers(t, raw)
    requires forall a <- raw :: Octets(raw[a]) && quoted[a] == Quote(raw[a]) && StaysInSegment(raw[a])
    requires Kept(PieceSegments(Decoded(OpenRest(t))), Segments(Unquote(Filled(OpenRest(t), quoted))))
    ensures Kept(PieceSegments(Decoded(t)), Segments(Unquote(Filled(t, quoted))))
  {
    var v, rest := OpenLead(t) + raw[OpenName(t)], Filled(OpenRest(t), quoted);
    assert t[0..] == t && !ThreatAt(t[0..], raw);
    LeadIsQuoted(t, raw[OpenName(t)]);
    assert NoSlash(v);
    hide Threat, ThreatAt, Threatens, Kept, PieceSegments, Segments, Unquote, Filled, Quote, Decoded, StaysInSegment, OpenLead;
    OpenFilled(t, quoted);
    OpenDecoded(t);
    var u := DecodedAfterPercent(v, rest);
    HoleText(OpenPart(t), u);
    HeadKept(OpenPart(t), u, Decoded(OpenRest(t)), Unquote(rest));
  }

  lemma LeadIsQuoted(t: Template, v: string)
    requires OpensAt(t) && Octets(v) && v != ""
    ensures Octets(OpenLead(t) + v) && Quote(OpenLead(t) + v) == OpenLead(t) + Quote(v)
  {
    if t[1].Hole? {
      assert OpenLead(t) + v == v && OpenLead(t) + Quote(v) == Quote(v);
    } else {
      QuoteParts([t[1].c] + v);
      assert ([t[1].c] + v)[1..] == v;
    }
  }

  lemma HoleText(part: Template, u: string)
    requires |part| >= 1 && part[|part| - 1].Hole? && SafeText(u) && NoSlash(u)
    ensures KeptOne(part, u)
  {
  }

  lemma PieceKept(t: Template, quoted: map<string, string>, raw: map<string, string>)
    requires t != [] && !EscapeAt(t) && !OpensAt(t) && quoted.Keys == raw.Keys && Covers(t, raw)
    requires forall a <- raw :: Octets(raw[a]) && quoted[a] == Quote(raw[a]) && StaysInSegment(raw[a])
    requires Kept(PieceSegments(Decoded(t[1..])), Segments(Unquote(Filled(t[1..], quoted))))
    ensures Kept(PieceSegments(Decoded(t)), Segments(Unquote(Filled(t, quoted))))
  {
    var rest := Filled(t[1..], quoted);
    assert Decoded(t) == [t[0]] + Decoded(t[1..]);
    hide Kept, PieceSegments, Segments, Unquote, Filled, Quote, Decoded;
    FilledHead(t, quoted);
    if t[0].Hole? {
      var v := raw[t[0].name];
      UnquoteAfterQuote(v, rest);
      HoleText([t[0]], v);
      HeadKept([t[0]], v, Decoded(t[1..]), Unquote(rest));
    } else {
      NoEscapeOpened(t, quoted);
      UnquoteOther(t[0].c, rest);
      CharKept(t[0].c, Decoded(t[1..]), Unquote(rest));
    }
  }

  // ---- values that add a segment

  ghost predicate AllPlain(t: Template, values: map<string, string>) {
    Covers(t, values) && forall a <- values :: PlainText(values[a])
  }

  predicate SeparatesAt(t: Template, values: map<string, string>) {
    OpensAt(t) && OpenName(t) in values && "2f" <= OpenLead(t) + values[OpenName(t)]
  }

  /** Some value completes an escape as a separator. */
  predicate Separates(t: Template, values: map<string, string>) {
    exists k | 0 <= k < |t| :: SeparatesAt(t[k..], values)
  }

  // A separator completed later than at the head is completed in the rest.
  lemma SeparatesLater(t: Template, values: map<string, string>, n: nat)
    requires Separates(t, values) && !SeparatesAt(t, values) && 1 <= n <= |t|
    requires forall k | 1 <= k < n :: !OpensAt(t[k..])
    ensures Separates(t[n..], values)
  {
    var k :| 0 <= k < |t| && SeparatesAt(t[k..], values);
    assert t[0..] == t;
    assert t[n..][k - n..] == t[k..];
  }

  lemma CharCounts(c: char, t: Template, s: string)
    ensures |PieceSegments([Char(c)] + t)| - |PieceSegments(t)| == |Segments([c] + s)| - |Segments(s)|
  {
    if c == '/' {
      NewSegment(t, s);
    } else {
      PartCounts([Char(c)], t);
      TextCounts([c], s);
    }
  }

  lemma PartCounts(part: Template, t: Template)
    requires NoSeparator(part)
    ensures |PieceSegments(part + t)| == |PieceSegments(t)|
  {
    PiecesHead(part, t);
  }

  lemma TextCounts(u: string, s: string)
    requires NoSlash(u)
    ensures |Segments(u + s)| == |Segments(s)|
  {
    SegmentsSkip(u, s);
  }

  // A piece that opens no escape counts alike before and after.
  lemma HeadCounts(t: Template, values: map<string, string>)
    requires AllPlain(t, values) && t != [] && !EscapeAt(t) && !OpensAt(t)
    ensures |PieceSegments(Decoded(t))| - |PieceSegments(Decoded(t[1..]))|
         == |Segments(Unquote(Filled(t, values)))| - |Segments(Unquote(Filled(t[1..], values)))|
  {
    var rest := Filled(t[1..], values);
    assert Decoded(t) == [t[0]] + Decoded(t[1..]);
    hide PieceSegments, Segments, Unquote, Filled, Decoded, IsHex;
    FilledHead(t, values);
    if t[0].Hole? {
      var v := values[t[0].name];
      UnquotePlainText(v, rest);
      TextCounts(v, Unquote(rest));
      PartCounts([t[0]], Decoded(t[1..]));
    } else {
      NoEscapeOpened(t, values);
      UnquoteOther(t[0].c, rest);
      CharCounts(t[0].c, Decoded(t[1..]), Unquote(rest));
    }
  }

  lemma EscapeCounts(t: Template, values: map<string, string>)
    requires EscapeAt(t)
    ensures |PieceSegments(Decoded(t))| - |PieceSegments(Decoded(t[3..]))|
         == |Segments(Unquote(Filled(t, values)))| - |Segments(Unquote(Filled(t[3..], values)))|
  {
    hide PieceSegments, Segments, Unquote, Filled;
    FilledEscape(t, values);
    UnquoteEscape(t[1].c, t[2].c, Filled(t[3..], values));
    CharCounts(Decoded(t)[0].c, Decoded(t[3..]), Unquote(Filled(t[3..], values)));
  }

  // A completed escape is a separator or one character of the segment.
  lemma CompletedCounts(v: string, rest: string)
    requires |v| >= 2 && IsHex(v[0]) && IsHex(v[1]) && forall k | 0 <= k < |v| :: Unreserved(v[k])
    ensures |Segments(Unquote(['%'] + (v + rest)))| == |Segments(Unquote(rest))| + if v[0] == '2' && (v[1] == 'F' || v[1] == 'f') then 1 else 0
  {
    ByteIs(v[0], v[1]);
    var byte := (16 * HexValue(v[0]) + HexValue(v[1])) as char;
    var decoded := v[2..] + Unquote(rest);
    assert v + rest == [v[0]] + ([v[1]] + (v[2..] + rest));
    hide Segments, Unquote, HexValue;
    UnquoteEscape(v[0], v[1], v[2..] + rest);
    hide IsHex;
    UnquotePlainText(v[2..], rest);
    TextCounts(v[2..], Unquote(rest));
    if byte == '/' {
      NewSegment([], decoded);
    } else {
      TextCounts([byte], decoded);
    }
  }

  lemma OpenCounts(t: Template, values: map<string, string>)
    requires AllPlain(t, values) && OpensAt(t)
    ensures |PieceSegments(Decoded(t))| == |PieceSegments(Decoded(OpenRest(t)))|
    ensures |Segments(Unquote(Filled(t, values)))|
         >= |Segments(Unquote(Filled(OpenRest(t), values)))| + if SeparatesAt(t, values) then 1 else 0
  {
    assert PlainText(values[OpenName(t)]);
    var v := OpenLead(t) + values[OpenName(t)];
    hide Segments, PieceSegments, Unquote, Filled, Decoded;
    OpenFilled(t, values);
    OpenDecoded(t);
    PartCounts(OpenPart(t), Decoded(OpenRest(t)));
    CompletedCounts(v, Filled(OpenRest(t), values));
    assert "2f" <= v ==> v[0] == "2f"[0] && v[1] == "2f"[1];
  }

  /** With values that begin with two digits no segment is lost, and one is gained where a value
      completes a separator. */
  lemma {:induction false} SeparatorAddsASegment(t: Template, values: map<string, string>)
    requires AllPlain(t, values)
    ensures |Segments(Unquote(Filled(t, values)))| >= |PieceSegments(Decoded(t))|
    ensures Separates(t, values) ==> |Segments(Unquote(Filled(t, values)))| > |PieceSegments(Decoded(t))|
    decreases |t|
  {
    hide Separates, PieceSegments, Segments, Unquote, Filled, Decoded, PlainText;
    if t == [] {
      NothingKept(values);
      NothingSeparates(values);
    } else if EscapeAt(t) {
      SeparatorAddsASegment(t[3..], values);
      EscapeCounts(t, values);
      if Separates(t, values) {
        SeparatesLater(t, values, 3);
      }
    } else if OpensAt(t) {
      SeparatorAddsASegment(OpenRest(t), values);
      OpenCounts(t, values);
      if Separates(t, values) && !SeparatesAt(t, values) {
        SeparatesLater(t, values, |OpenPart(t)|);
      }
    } else {
      SeparatorAddsASegment(t[1..], values);
      HeadCounts(t, values);
      if Separates(t, values) {
        SeparatesLater(t, values, 1);
      }
    }
  }

  lemma NothingSeparates(values: map<string, string>)
    ensures !Separates([], values)
  {
  }

  // ---- planned paths

  // The decoded path has the segments of the decoded template: those without a placeholder as
  // they are, the others neither empty, nor dots, nor split.
  ghost predicate KeepsItsShape(op: Operation, args: Args)
    requires Accepted(op) && WellBraced(op.path) && Fitting(op, args)
  {
    Kept(PieceSegments(Decoded(Parse(op.path))), Segments(Unquote(PathAfter(op, args))))
  }

  /** One call: it keeps its shape when none of its values completes an escape as a separator or
      a dot. */
  lemma DecodedPathKeepsItsShape(op: Operation, args: Args)
    requires Accepted(op) && WellBraced(op.path) && Fitting(op, args)
    requires !Threat(Parse(op.path), RawValues(op, AsMap(args)))
    ensures
      var parts, segments := PieceSegments(Decoded(Parse(op.path))), Segments(Unquote(PathAfter(op, args)));
      && |parts| == |segments|
      && forall k | 0 <= k < |parts| ::
           NoSlash(segments[k])
           && if HasHole(parts[k]) then segments[k] != "" && !DotSegment(segments[k]) else segments[k] == Text(parts[k])
    ensures KeepsItsShape(op, args)
  {
    ValuesAreQuoted(op, args);
    hide Filled, Unquote, Quote, Parse, Accepted, Fitting, Location, PathValues, RawValues, Decoded, Threat, PieceSegments, Segments;
    ShapeKept(Parse(op.path), PathValues(op, AsMap(args)), RawValues(op, AsMap(args)));
  }

  predicate TakesText(op: Operation, a: string) {
    a in op.props && (op.props[a] == [] || JString in op.props[a])
  }

  predicate TakesBoolean(op: Operation, a: string) {
    a in op.props && (op.props[a] == [] || JBoolean in op.props[a])
  }

  predicate TakesNumber(op: Operation, a: string) {
    a in op.props && (op.props[a] == [] || JInteger in op.props[a] || JNumber in op.props[a])
  }

  predicate ExposedAt(op: Operation, t: Template) {
    OpensAt(t) && (TakesText(op, OpenName(t)) || TakesBoolean(op, OpenName(t))) && if t[1].Hole? then TakesText(op, OpenName(t)) else t[1].c == '2'
  }

  /** A placeholder that takes texts comes just after `%`, or one that takes texts or booleans
      just after `%2`. */
  predicate Exposed(op: Operation, t: Template) {
    exists k | 0 <= k < |t| :: ExposedAt(op, t[k..])
  }

  predicate NumberAt(op: Operation, t: Template) {
    OpensAt(t) && t[1].Hole? && TakesNumber(op, OpenName(t)) && !TakesText(op, OpenName(t))
  }

  // A placeholder that takes numbers and no text comes just after `%`.
  predicate NumberInEscape(op: Operation, t: Template) {
    exists k | 0 <= k < |t| :: NumberAt(op, t[k..])
  }

  // A number as it is printed: digits, a sign, `inf` or `nan`.
  predicate Numeral(s: string) {
    s != "" && ('0' <= s[0] <= '9' || s[0] == '-' || s[0] == 'i' || s[0] == 'n')
  }

  predicate Printed(v: Value) {
    (v.Int? || v.Real?) ==> Numeral(v.text)
  }

  ghost predicate Call(op: Operation, args: Args) {
    Fitting(op, args) && forall k | 0 <= k < |args| :: Printed(args[k].value)
  }

  // A text among the values of the path is that of an argument of one of the declared types.
  lemma ArgBehind(op: Operation, args: Args, a: string) returns (v: Value)
    requires Call(op, args) && a in RawValues(op, AsMap(args))
    ensures RawText(v).Some? && RawText(v).value != "" && RawValues(op, AsMap(args))[a] == RawText(v).value && Printed(v)
    ensures a in op.props && (op.props[a] == [] || exists t <- op.props[a] :: Fits(v, t))
  {
    hide Printed, Fits, Location, Unquote, Quote;
    v := AsMap(args)[a];
    assert Arg(a, v) in args;
  }

  // The value of a placeholder that is not exposed, in an escape.
  lemma HarmlessValue(op: Operation, t: Template, v: Value)
    requires OpensAt(t) && !ExposedAt(op, t) && !NumberAt(op, t) && RawText(v).Some? && RawText(v).value != "" && Printed(v)
    requires var a := OpenName(t); a in op.props && (op.props[a] == [] || exists t <- op.props[a] :: Fits(v, t))
    ensures !Threatens(OpenLead(t) + RawText(v).value)
  {
    var a := OpenName(t);
    hide OpenPart, OpenName;
    var text := RawText(v).value;
    if t[1].Hole? {
      assert OpenLead(t) + text == text;
      assert v.Bool?;
    } else {
      assert (OpenLead(t) + text)[0] == t[1].c && (OpenLead(t) + text)[1] == text[0];
      assert t[1].c == '2' ==> v.Int? || v.Real?;
    }
  }

  lemma NotExposed(op: Operation, args: Args, t: Template)
    requires Call(op, args) && !ExposedAt(op, t) && !NumberAt(op, t)
    ensures !ThreatAt(t, RawValues(op, AsMap(args)))
  {
    if OpensAt(t) && OpenName(t) in RawValues(op, AsMap(args)) {
      hide *;
      var v := ArgBehind(op, args, OpenName(t));
      HarmlessValue(op, t, v);
    }
  }

  // ---- a call that leaves its segments

  // A value of a declared type whose text begins with two digits: a text where one may be given.
  function Word(op: Operation, a: string, v: Value, w: string): Value {
    if TakesText(op, a) then Str(w) else if TakesBoolean(op, a) then Bool(false) else Harmful(v)
  }

  function WithWords(op: Operation, args: Args, w: string): (r: Args)
    ensures |r| == |args|
    ensures forall k | 0 <= k < |args| ::
              r[k] == Arg(args[k].name, if Location(op, args[k].name) == "path" then Word(op, args[k].name, args[k].value, w) else args[k].value)
  {
    seq(|args|, k requires 0 <= k < |args| =>
      Arg(args[k].name, if Location(op, args[k].name) == "path" then Word(op, args[k].name, args[k].value, w) else args[k].value))
  }

  lemma WordIsPlain(op: Operation, arg: Arg, w: string)
    requires TypeFits(op, arg) && RawText(arg.value).Some? && PlainText(w)
    ensures
      var word := Word(op, arg.name, arg.value, w);
      RawText(word).Some? && PlainText(RawText(word).value) && TypeFits(op, Arg(arg.name, word)) && !word.Obj? && Printed(word)
  {
    HarmfulTexts();
    hide PlainText;
    HarmfulIsPlain(arg.value);
    assert Fits(Str(w), JString) && Fits(Bool(false), JBoolean);
  }

  lemma WordFits(op: Operation, arg: Arg, w: string)
    requires OctetValue(arg.value) && TypeFits(op, arg) && PathValue(arg.value).Some? && PlainText(w)
    ensures
      var word := Word(op, arg.name, arg.value, w);
      && OctetValue(word) && RawText(word).Some? && PlainText(RawText(word).value) && PathValue(word) == RawText(word)
      && TypeFits(op, Arg(arg.name, word)) && !word.Obj? && Printed(word)
  {
    hide PlainText, Word, TypeFits, Printed;
    WordIsPlain(op, arg, w);
    PlainTextStays(RawText(Word(op, arg.name, arg.value, w)).value);
    hide Quote, Unquote, StaysInSegment, Octets, Finishes;
  }

  // The same call with such words in the path is accepted too.
  lemma WordsFit(op: Operation, args: Args, w: string)
    requires Call(op, args) && PlainText(w)
    ensures Call(op, WithWords(op, args, w))
  {
    var words := WithWords(op, args, w);
    CallFitsIff(op, args);
    hide PlainText, TypeFits, CallFits, AsMap, Location, OctetValue, PathValue, Word, Printed;
    assert forall k | 0 <= k < |args| :: TypeFits(op, args[k]) && PlaceFits(op, args[k]);
    forall k | 0 <= k < |args|
      ensures OctetValue(words[k].value) && TypeFits(op, words[k]) && PlaceFits(op, words[k]) && Printed(words[k].value)
    {
      if Location(op, args[k].name) == "path" {
        WordFits(op, args[k], w);
      }
    }
    SameNamesInBoth(args, words);
    CallFitsIff(op, words);
  }

  // The argument behind a word of the path, and what it was in the first call.
  lemma WordBehind(op: Operation, args: Args, w: string, a: string) returns (arg: Arg)
    requires Call(op, args) && Call(op, WithWords(op, args, w))
    requires a in AsMap(WithWords(op, args, w)) && Location(op, a) == "path"
    ensures arg.name == a && OctetValue(arg.value) && TypeFits(op, arg) && PathValue(arg.value).Some?
    ensures AsMap(WithWords(op, args, w))[a] == Word(op, a, arg.value, w)
  {
    CallFitsIff(op, args);
    hide CallFits, AsMap, PathValue, Fits, TypeFits, Location, Word, OctetValue;
    var words := WithWords(op, args, w);
    assert Arg(a, AsMap(words)[a]) in words;
    var k :| 0 <= k < |words| && words[k] == Arg(a, AsMap(words)[a]);
    assert PlaceFits(op, args[k]);
    arg := args[k];
  }

  predicate Worded(op: Operation, a: string, text: string, w: string) {
    && (TakesText(op, a) ==> text == w)
    && (!TakesText(op, a) && TakesBoolean(op, a) ==> text == "false")
  }

  // What the path of that call is filled with.
  lemma WordsInThePath(op: Operation, args: Args, w: string)
    requires Accepted(op) && WellBraced(op.path) && Call(op, args) && Call(op, WithWords(op, args, w)) && PlainText(w)
    ensures
      var m := AsMap(WithWords(op, args, w));
      && AllPlain(Parse(op.path), RawValues(op, m)) && PathValues(op, m) == RawValues(op, m)
      && forall a <- RawValues(op, m) :: Worded(op, a, RawValues(op, m)[a], w)
  {
    var m := AsMap(WithWords(op, args, w));
    hide Accepted, WellBraced, Parse, CallFits, AsMap, WithWords, PathValue, PathValues, RawValues, Location, PlainText, Harmful, TypeFits,
         Unquote, Quote, Filled, StaysInSegment, PathAfter, Octets;
    ValuesAreQuoted(op, WithWords(op, args, w));
    forall a | a in RawValues(op, m)
      ensures PlainText(RawValues(op, m)[a]) && PathValues(op, m)[a] == RawValues(op, m)[a]
      ensures Worded(op, a, RawValues(op, m)[a], w)
    {
      PathArgs(op, m, a);
      var arg := WordBehind(op, args, w, a);
      WordFits(op, arg, w);
    }
    SameMap(PathValues(op, m), RawValues(op, m));
  }

  lemma SeparatingWords()
    ensures PlainText("2f") && PlainText("ff")
  {
  }

  /** An exposed operation that accepts some call accepts one of the same shape whose path has
      more segments than the template. */
  lemma ExposedLeavesItsSegment(op: Operation, args: Args) returns (w: string)
    requires Accepted(op) && WellBraced(op.path) && Call(op, args) && Exposed(op, Parse(op.path))
    ensures Call(op, WithWords(op, args, w)) && !KeepsItsShape(op, WithWords(op, args, w))
  {
    var t := Parse(op.path);
    var k :| 0 <= k < |t| && ExposedAt(op, t[k..]);
    w := if t[k..][1].Hole? then "2f" else "ff";
    hide ExposedAt, Exposed;
    SeparatingWords();
    hide PlainText;
    WordsFit(op, args, w);
    WordsInThePath(op, args, w);
    ValuesAreQuoted(op, WithWords(op, args, w));
    ExposedIsSeparated(op, t, k, RawValues(op, AsMap(WithWords(op, args, w))), w);
    SeparatorAddsASegment(t, RawValues(op, AsMap(WithWords(op, args, w))));
  }

  lemma ExposedIsSeparated(op: Operation, t: Template, k: nat, values: map<string, string>, w: string)
    requires k < |t| && ExposedAt(op, t[k..]) && w == (if t[k..][1].Hole? then "2f" else "ff") && Covers(t, values)
    requires forall a <- values :: Worded(op, a, values[a], w)
    ensures Separates(t, values)
  {
    var tail := t[k..];
    var n := |OpenPart(tail)| - 1;
    assert tail[n] == t[k + n] && OpenPart(tail)[n] == tail[n];
    assert OpenName(tail) in values;
    hide TakesText, TakesBoolean;
    assert SeparatesAt(tail, values);
  }

  /** Every call keeps its shape if and only if the operation is not exposed (or accepts no call
      at all), when no placeholder just after `%` takes numbers and no text. */
  lemma DecodedPathStaysIff(op: Operation)
    requires Accepted(op) && WellBraced(op.path) && !NumberInEscape(op, Parse(op.path))
    ensures (forall args: Args | Call(op, args) :: KeepsItsShape(op, args))
            <==> !Exposed(op, Parse(op.path)) || !exists args: Args :: Call(op, args)
  {
    hide Accepted, WellBraced, Parse, KeepsItsShape, Fitting;
    if !Exposed(op, Parse(op.path)) {
      forall args: Args | Call(op, args)
        ensures KeepsItsShape(op, args)
      {
        UnexposedStays(op, args);
      }
    } else if exists args: Args :: Call(op, args) {
      var args: Args :| Call(op, args);
      var w := ExposedLeavesItsSegment(op, args);
    }
  }

  lemma UnexposedStays(op: Operation, args: Args)
    requires Accepted(op) && WellBraced(op.path) && Call(op, args)
    requires !NumberInEscape(op, Parse(op.path)) && !Exposed(op, Parse(op.path))
    ensures KeepsItsShape(op, args)
  {
    var t := Parse(op.path);
    hide Accepted, WellBraced, Parse, KeepsItsShape, ExposedAt, NumberAt, ThreatAt;
    forall k | 0 <= k < |t|
      ensures !ThreatAt(t[k..], RawValues(op, AsMap(args)))
    {
      NotExposed(op, args, t[k..]);
    }
    DecodedPathKeepsItsShape(op, args);
  }
}

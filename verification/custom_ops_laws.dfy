// What an accepted operation guarantees of every call it plans (oto_mcp/custom_ops.py).

module CustomOpsLaws {
  import opened Options
  import opened Percent
  import opened Templates
  import opened CustomOps
  import opened CustomOpsPlan
  import opened FiniteSets
  import opened Texts

  // The encoded values of the arguments that go in the path.
  function PathValues(op: Operation, args: map<string, Value>): map<string, string>
    requires OctetMap(args)
  {
    map a | a in args && Location(op, a) == "path" && PathValue(args[a]).Some? :: PathValue(args[a]).value
  }

  lemma ArgNameIsPlain(s: string)
    requires ArgName(s)
    ensures NoBrace(s) && NoSlash(s) && s != []
  {
    if !ArgNameProper(s) {
      assert s == s[..|s| - 1] + [s[|s| - 1]];
    }
  }

  lemma PathValueIsSafe(v: Value)
    requires OctetValue(v) && PathValue(v).Some?
    ensures
      var text := PathValue(v).value;
      NoBrace(text) && NoSlash(text) && StaysInSegment(text)
  {
    var raw := RawText(v).value;
    QuoteIsSafe(raw);
    hide Quote, Unquote;
    assert |Quote(raw)| >= 1;
  }

  // An argument that goes in the path is one of its placeholders, and conversely.
  lemma PathArgsArePlaceholders(op: Operation, a: string)
    requires Accepted(op)
    ensures Location(op, a) == "path" <==> a in Placeholders(op.path)
    ensures a in Placeholders(op.path) ==> ArgName(a) && a in op.required && a in op.props
  {
  }

  /** The substitutions, made one after the other on the text, fill the template with the
      values of the arguments, whatever their order. */
  lemma {:induction false} PathIsFilled(op: Operation, args: Args)
    requires Accepted(op) && WellBraced(op.path) && DistinctArgs(args) && OctetArgs(args)
    ensures OctetMap(AsMap(args))
    ensures PathAfter(op, args) == Text(FillAll(Parse(op.path), PathValues(op, AsMap(args))))
  {
    AsMapFacts(args);
    ParseIsFaithful(op.path);
    if args == [] {
      NothingFilled(Parse(op.path));
      assert PathValues(op, AsMap(args)) == map[];
    } else {
      var last := |args| - 1;
      var Arg(a, v) := args[last];
      PathIsFilled(op, args[..last]);
      AsMapLast(args);
      PathStep(op, AsMap(args[..last]), a, v);
    }
  }

  // One more argument, for the values of the path.
  lemma ValuesStep(op: Operation, args: map<string, Value>, a: string, v: Value)
    requires OctetMap(args) && OctetValue(v) && a !in args
    ensures OctetMap(args[a := v]) && a !in PathValues(op, args)
    ensures PathValues(op, args[a := v])
         == if Location(op, a) == "path" && PathValue(v).Some? then PathValues(op, args)[a := PathValue(v).value] else PathValues(op, args)
  {
    hide Location, PathValue;
  }

  lemma PathStep(op: Operation, args: map<string, Value>, a: string, v: Value)
    requires Accepted(op) && WellBraced(op.path) && OctetMap(args) && OctetValue(v) && a !in args
    ensures OctetMap(args[a := v])
    ensures
      var before := Text(FillAll(Parse(op.path), PathValues(op, args)));
      Text(FillAll(Parse(op.path), PathValues(op, args[a := v])))
      == if Location(op, a) == "path" && PathValue(v).Some? then ReplaceAll(before, Marked(a), PathValue(v).value) else before
  {
    var t, values := Parse(op.path), PathValues(op, args);
    ValuesStep(op, args, a, v);
    if Location(op, a) == "path" && PathValue(v).Some? {
      ParseIsFaithful(op.path);
      ValuesAreSafe(op, args);
      FillAllIsClean(t, values);
      PathArgsArePlaceholders(op, a);
      ArgNameIsPlain(a);
      hide *;
      hide Accepted, WellBraced, Location, PathValue, PathValues, NoBrace, OctetMap, OctetValue, NoSlash;
      ReplaceIsFill(FillAll(t, values), a, PathValue(v).value);
      FillAfterFillAll(t, values, a, PathValue(v).value);
    }
  }

  lemma ValuesAreSafe(op: Operation, args: map<string, Value>)
    requires OctetMap(args)
    ensures
      var values := PathValues(op, args);
      forall a <- values :: NoBrace(values[a]) && NoSlash(values[a]) && StaysInSegment(values[a])
  {
    forall a | a in PathValues(op, args) {
      PathValueIsSafe(args[a]);
    }
  }

  /** Two orders of the same arguments plan the same call. */
  lemma OrderDoesNotMatter(op: Operation, args: Args, other: Args)
    requires Accepted(op) && WellBraced(op.path)
    requires DistinctArgs(args) && OctetArgs(args) && DistinctArgs(other) && OctetArgs(other)
    requires AsMap(args) == AsMap(other)
    ensures OctetMap(AsMap(args)) && (CallFits(op, AsMap(args)) <==> CallFits(op, AsMap(other)))
    ensures PlanOf(op, args) == PlanOf(op, other)
  {
    PathIsFilled(op, args);
    PathIsFilled(op, other);
  }

  ghost predicate SamePairs(args: Args, other: Args) {
    forall p :: p in args <==> p in other
  }

  lemma InMap(args: Args, p: Arg)
    requires DistinctArgs(args)
    ensures p in args <==> p.name in AsMap(args) && AsMap(args)[p.name] == p.value
  {
    AsMapFacts(args);
    hide AsMap, Names;
  }

  // As a map and as a set of pairs, a list of arguments says the same.
  lemma SameMapIsSamePairs(args: Args, other: Args)
    requires DistinctArgs(args) && DistinctArgs(other)
    ensures AsMap(args) == AsMap(other) ==> SamePairs(args, other)
  {
    forall p: Arg
      ensures p in args <==> p.name in AsMap(args) && AsMap(args)[p.name] == p.value
      ensures p in other <==> p.name in AsMap(other) && AsMap(other)[p.name] == p.value
    {
      InMap(args, p);
      InMap(other, p);
    }
    hide AsMap;
  }

  lemma SamePairsIsSameMap(args: Args, other: Args)
    requires DistinctArgs(args) && DistinctArgs(other) && SamePairs(args, other)
    ensures AsMap(args) == AsMap(other)
  {
    AsMapWithin(args, other);
    AsMapWithin(other, args);
    SameMap(AsMap(args), AsMap(other));
  }

  lemma AsMapWithin(args: Args, other: Args)
    requires DistinctArgs(args) && DistinctArgs(other) && SamePairs(args, other)
    ensures forall a <- AsMap(args) :: a in AsMap(other) && AsMap(other)[a] == AsMap(args)[a]
  {
    forall a | a in AsMap(args)
      ensures a in AsMap(other) && AsMap(other)[a] == AsMap(args)[a]
    {
      var p := Arg(a, AsMap(args)[a]);
      assert p in args;
      InMap(other, p);
    }
  }

  lemma SameNames(args: Args, other: Args)
    requires SamePairs(args, other)
    ensures Names(args) == Names(other)
  {
  }

  lemma {:induction false} VariablesInAnyOrder(op: Operation, args: Args, other: Args, variables: Args)
    requires SamePairs(args, other)
    ensures SamePairs(WithVariables(op, args, variables), WithVariables(op, other, variables))
    decreases |variables|
  {
    if variables != [] {
      SameNames(args, other);
      hide Names;
      var Arg(name, v) := variables[0];
      var fills := name in op.props && name !in Names(args) && v != Null && v != Str("");
      assert SamePairs(args + [variables[0]], other + [variables[0]]);
      hide SamePairs;
      VariablesInAnyOrder(op, if fills then args + [variables[0]] else args,
                          if fills then other + [variables[0]] else other, variables[1..]);
    }
  }

  /** Whatever order the caller gives its arguments in, the call is accepted or refused alike,
      and the plan is the same, saved variables included. */
  lemma CallDoesNotDependOnOrder(op: Operation, args: Args, other: Args, variables: Args)
    requires Accepted(op) && WellBraced(op.path) && OctetArgs(variables)
    requires DistinctArgs(args) && OctetArgs(args) && DistinctArgs(other) && OctetArgs(other)
    requires AsMap(args) == AsMap(other)
    ensures OctetArgs(Effective(op, args, variables)) && OctetArgs(Effective(op, other, variables))
    ensures AsMap(Effective(op, args, variables)) == AsMap(Effective(op, other, variables))
    ensures OctetMap(AsMap(Effective(op, args, variables))) && OctetMap(AsMap(Effective(op, other, variables)))
    ensures CallFits(op, AsMap(Effective(op, args, variables))) <==> CallFits(op, AsMap(Effective(op, other, variables)))
    ensures PlanOf(op, Effective(op, args, variables)) == PlanOf(op, Effective(op, other, variables))
  {
    SameMapIsSamePairs(args, other);
    WithoutNullsFacts(args);
    WithoutNullsFacts(other);
    WithVariablesFacts(op, WithoutNulls(args), variables);
    WithVariablesFacts(op, WithoutNulls(other), variables);
    VariablesInAnyOrder(op, WithoutNulls(args), WithoutNulls(other), variables);
    SamePairsIsSameMap(Effective(op, args, variables), Effective(op, other, variables));
    hide Accepted, WellBraced, AsMap, DistinctArgs, OctetArgs, PlanOf;
    OrderDoesNotMatter(op, Effective(op, args, variables), Effective(op, other, variables));
  }

  // The values every placeholder has once the call is accepted.
  lemma EveryHoleHasAValue(op: Operation, args: map<string, Value>)
    requires Accepted(op) && WellBraced(op.path) && OctetMap(args) && CallFits(op, args)
    ensures forall name <- Holes(Parse(op.path)) :: name in PathValues(op, args) && NoSlash(name)
  {
    ParseIsFaithful(op.path);
    forall name | name in Holes(Parse(op.path))
      ensures name in PathValues(op, args) && NoSlash(name)
    {
      PathArgsArePlaceholders(op, name);
      ArgNameIsPlain(name);
    }
  }

  predicate HasHole(t: Template) {
    exists k | 0 <= k < |t| :: t[k].Hole?
  }

  /** Every placeholder is filled: no brace is left. The path has the segments of the
      template, so the same number of `/`; a segment without a placeholder is the
      template's, one with a placeholder is neither empty nor `.` nor `..`. */
  lemma PlannedPathKeepsItsShape(op: Operation, args: Args)
    requires Accepted(op) && WellBraced(op.path) && DistinctArgs(args) && OctetArgs(args)
    requires OctetMap(AsMap(args)) && CallFits(op, AsMap(args))
    ensures NoBrace(PathAfter(op, args))
    ensures
      var parts, segments := PieceSegments(Parse(op.path)), Segments(PathAfter(op, args));
      && |segments| == |parts| == |Segments(op.path)|
      && forall k | 0 <= k < |parts| ::
           if HasHole(parts[k]) then segments[k] != "" && !DotSegment(segments[k]) && NoSlash(segments[k])
           else segments[k] == Segments(op.path)[k]
  {
    var t, values := Parse(op.path), PathValues(op, AsMap(args));
    PathIsFilled(op, args);
    ParseIsFaithful(op.path);
    EveryHoleHasAValue(op, AsMap(args));
    ValuesAreSafe(op, AsMap(args));
    SegmentsOfFilled(t, values);
    SegmentsOfFilled(t, map[]);
    NothingFilled(t);
    HolesLeft(t, values);
    FillAllIsClean(t, values);
    NoBraceLeft(FillAll(t, values));
    var parts := PieceSegments(t);
    forall k | 0 <= k < |parts|
      ensures
        if HasHole(parts[k]) then
          Text(FillAll(parts[k], values)) != "" && !DotSegment(Text(FillAll(parts[k], values))) && NoSlash(Text(FillAll(parts[k], values)))
        else Text(FillAll(parts[k], values)) == Text(FillAll(parts[k], map[]))
    {
      PartsOf(t, k);
      if HasHole(parts[k]) {
        FilledSegmentIsSafe(parts[k], values);
      } else {
        NoHoleNoChange(parts[k], values);
        NoHoleNoChange(parts[k], map[]);
      }
    }
  }

  lemma {:induction false} NoBraceLeft(t: Template)
    requires Clean(t) && forall k | 0 <= k < |t| :: t[k].Char?
    ensures NoBrace(Text(t))
  {
    if t != [] {
      NoBraceLeft(t[1..]);
    }
  }

  lemma {:induction false} NoHoleNoChange(t: Template, values: map<string, string>)
    requires !HasHole(t)
    ensures FillAll(t, values) == t
  {
    if t != [] {
      assert !t[0].Hole?;
      NoHoleNoChange(t[1..], values);
    }
  }

  // The pieces of a segment are pieces of the template, none of them a separator.
  lemma {:induction false} PartsOf(t: Template, k: nat)
    requires k < |PieceSegments(t)|
    ensures forall p <- PieceSegments(t)[k] :: p in t && p != Char('/')
    ensures forall name <- Holes(PieceSegments(t)[k]) :: name in Holes(t)
  {
    if t != [] {
      var rest := PieceSegments(t[1..]);
      assert t == [t[0]] + t[1..];
      if t[0] == Char('/') {
        if k > 0 {
          PartsOf(t[1..], k - 1);
        }
      } else if k == 0 {
        PartsOf(t[1..], 0);
        Cons(t[0], rest[0]);
      } else {
        PartsOf(t[1..], k);
      }
    }
  }

  // A filled segment is at least as long as each of its values.
  lemma {:induction false} FilledSegmentIsSafe(t: Template, values: map<string, string>)
    requires HasHole(t) && (forall p <- t :: p != Char('/'))
    requires forall name <- Holes(t) :: name in values
    requires forall a <- values :: StaysInSegment(values[a])
    ensures
      var s := Text(FillAll(t, values));
      s != "" && !DotSegment(s) && NoSlash(s)
  {
    var p, rest := t[0], t[1..];
    assert t == [p] + rest;
    assert p in t && forall q <- rest :: q in t;
    FillAllConsText(p, rest, values);
    Cons(p, rest);
    if p.Hole? {
      assert p.name in Holes(t);
      TextOfChars(values[p.name]);
    } else {
      assert Text([p]) == [p.c];
    }
    if HasHole(rest) {
      FilledSegmentIsSafe(rest, values);
    } else {
      NoHoleNoChange(rest, values);
      CharsOnly(rest);
    }
    Joined(Text(FillPiece(p, values)), Text(FillAll(rest, values)));
  }

  // Joining to a text that is no dot segment does not make one.
  lemma Joined(s: string, r: string)
    requires NoSlash(s) && NoSlash(r)
    requires (s != "" && !DotSegment(s)) || (|s| == 1 && r != "" && !DotSegment(r))
    ensures s + r != "" && !DotSegment(s + r) && NoSlash(s + r)
  {
    assert r == "" ==> s + r == s;
    assert |s| == 1 && |r| == 1 ==> r == [(s + r)[1]] && s == [(s + r)[0]];
  }

  lemma {:induction false} CharsOnly(t: Template)
    requires !HasHole(t) && (forall p <- t :: p != Char('/'))
    ensures NoSlash(Text(t))
  {
    if t != [] {
      assert t[0] in t && !t[0].Hole?;
      assert forall q <- t[1..] :: q in t;
      CharsOnly(t[1..]);
    }
  }

  // Where each argument goes, and that none with a value for the path is without one.
  lemma PlaceOfEach(op: Operation, args: map<string, Value>, a: string)
    requires Accepted(op) && OctetMap(args) && CallFits(op, args)
    ensures a in PathValues(op, args) <==> a in args && Location(op, a) == "path"
    ensures a in PathValues(op, args) <==> a in Placeholders(op.path)
  {
    PathArgsArePlaceholders(op, a);
    hide Location, Accepted, PathValue, Placeholders;
    assert a in op.required ==> a in args;
  }

  /** Each argument lands in exactly one of the path, the query and the body. */
  lemma EachArgumentOnce(op: Operation, args: map<string, Value>)
    requires Accepted(op) && OctetMap(args) && CallFits(op, args)
    ensures
      var inPath, query, body := PathValues(op, args).Keys, Routed(op, args, "query").Keys, BodyArgs(op, args).Keys;
      && inPath + query + body == args.Keys
      && inPath !! query && inPath !! body && query !! body
      && inPath == set p | p in Placeholders(op.path)
  {
    hide Location, Accepted, PathValue, Placeholders, PathValues, CallFits;
    forall a: string
      ensures a in PathValues(op, args) <==> a in args && Location(op, a) == "path"
      ensures a in PathValues(op, args) <==> a in Placeholders(op.path)
    {
      PlaceOfEach(op, args, a);
    }
  }

  lemma OnePlace(op: Operation, a: string)
    requires Accepted(op)
    ensures Location(op, a) == "path" || Location(op, a) == "query" || Location(op, a) == "body"
  {
    hide Placeholders, PathAccepted;
  }

  /** A GET carries no body. */
  lemma GetHasNoBody(op: Operation, args: Args)
    requires Accepted(op) && op.verb == "GET" && OctetArgs(args)
    requires forall a <- AsMap(args) :: a in op.props
    ensures PlanOf(op, args).body == None
  {
    assert Upper("GET") == "GET";
    forall a | a in AsMap(args)
      ensures !BodyArg(op, a)
    {
      assert Location(op, a) != "body";
      OnePlace(op, a);
    }
    assert BodyArgs(op, AsMap(args)) == map[];
  }
}

// The plan of a call (oto_mcp/custom_ops.py, `plan_call`), and what it guarantees for an
// operation the validator accepted.

module CustomOpsPlan {
  import opened Options
  import opened Percent
  import opened Templates
  import opened CustomOps

  lemma {:induction false} AsMapHolds(args: Args, k: nat)
    requires DistinctArgs(args) && k < |args|
    ensures args[k].name in AsMap(args) && AsMap(args)[args[k].name] == args[k].value
  {
    var last := |args| - 1;
    if k < last {
      assert args[k].name != args[last].name && args[..last][k] == args[k];
      AsMapHolds(args[..last], k);
    }
  }

  lemma AsMapFacts(args: Args)
    requires DistinctArgs(args)
    ensures forall k | 0 <= k < |args| :: args[k].name in AsMap(args) && AsMap(args)[args[k].name] == args[k].value
    ensures forall a <- AsMap(args) :: a in Names(args)
  {
    forall k | 0 <= k < |args| {
      AsMapHolds(args, k);
    }
    hide AsMap;
    forall a | a in AsMap(args)
      ensures a in Names(args)
    {
      assert Arg(a, AsMap(args)[a]) in args;
    }
  }

  lemma AsMapLast(args: Args)
    requires args != []
    ensures AsMap(args) == AsMap(args[..|args| - 1])[args[|args| - 1].name := args[|args| - 1].value]
  {
  }

  lemma {:induction false} WithoutNullsFacts(args: Args)
    requires DistinctArgs(args) && OctetArgs(args)
    ensures DistinctArgs(WithoutNulls(args)) && OctetArgs(WithoutNulls(args))
    ensures forall p :: p in WithoutNulls(args) <==> p in args && p.value != Null
  {
    if args != [] {
      WithoutNullsFacts(args[1..]);
      var rest := WithoutNulls(args[1..]);
      assert forall k | 0 <= k < |rest| :: rest[k] in rest && rest[k] in args[1..];
      assert WithoutNulls(args) == (if args[0].value == Null then [] else [args[0]]) + rest;
    }
  }

  lemma {:induction false} WithVariablesFacts(op: Operation, args: Args, variables: Args)
    requires DistinctArgs(args) && OctetArgs(args) && OctetArgs(variables)
    ensures DistinctArgs(WithVariables(op, args, variables)) && OctetArgs(WithVariables(op, args, variables))
    decreases |variables|
  {
    if variables != [] {
      var Arg(name, v) := variables[0];
      assert forall k | 0 <= k < |args| :: args[k] in args && args[k].name in Names(args);
      WithVariablesFacts(op,
        if name in op.props && name !in Names(args) && v != Null && v != Str("") then args + [variables[0]] else args,
        variables[1..]);
    }
  }

  // What is checked of an argument before anything is routed.
  predicate TypeFits(op: Operation, arg: Arg) {
    arg.name in op.props && (op.props[arg.name] == [] || exists t <- op.props[arg.name] :: Fits(arg.value, t))
  }

  // What routing demands of an argument.
  predicate PlaceFits(op: Operation, arg: Arg)
    requires OctetValue(arg.value)
  {
    && (Location(op, arg.name) == "path" ==> PathValue(arg.value).Some?)
    && (Location(op, arg.name) == "query" ==> !arg.value.Obj?)
  }

  lemma CallFitsIff(op: Operation, args: Args)
    requires DistinctArgs(args) && OctetArgs(args)
    ensures OctetMap(AsMap(args))
    ensures CallFits(op, AsMap(args))
            <==> (forall k | 0 <= k < |args| :: TypeFits(op, args[k]) && PlaceFits(op, args[k]))
                 && (forall r <- op.required :: r in Names(args))
  {
    AsMapFacts(args);
    hide PathValue, Location, Fits;
    assert forall a <- AsMap(args) :: Arg(a, AsMap(args)[a]) in args;
  }

  method CheckArgs(op: Operation, args: Args) returns (ok: bool)
    ensures ok <==> (forall k | 0 <= k < |args| :: TypeFits(op, args[k])) && (forall r <- op.required :: r in Names(args))
  {
    if exists a <- args :: a.name !in op.props {
      return false;
    }
    if exists r <- op.required :: r !in Names(args) {
      return false;
    }
    for k := 0 to |args|
      invariant forall j | 0 <= j < k :: TypeFits(op, args[j])
    {
      if !TypeFits(op, args[k]) {
        return false;
      }
    }
    return true;
  }

  // The query and the body once some arguments are routed.
  predicate RoutedUpTo(op: Operation, args: Args, query: map<string, Value>, body: map<string, Value>) {
    && query == Routed(op, AsMap(args), "query") && body == BodyArgs(op, AsMap(args))
  }

  lemma RouteOne(op: Operation, args: Args, query: map<string, Value>, body: map<string, Value>)
    requires args != [] && RoutedUpTo(op, args[..|args| - 1], query, body)
    requires args[|args| - 1].name !in AsMap(args[..|args| - 1])
    ensures
      var Arg(a, v) := args[|args| - 1];
      RoutedUpTo(op, args, if Location(op, a) == "query" then query[a := v] else query,
                 if BodyArg(op, a) then body[a := v] else body)
  {
    var Arg(a, v) := args[|args| - 1];
    AsMapLast(args);
    hide Location, AsMap;
    var m := AsMap(args[..|args| - 1]);
    RouteMore(op, m, a, v);
  }

  lemma RouteMore(op: Operation, m: map<string, Value>, a: string, v: Value)
    requires a !in m
    ensures Routed(op, m[a := v], "query") == if Location(op, a) == "query" then Routed(op, m, "query")[a := v] else Routed(op, m, "query")
    ensures BodyArgs(op, m[a := v]) == if BodyArg(op, a) then BodyArgs(op, m)[a := v] else BodyArgs(op, m)
  {
    hide Location;
  }

  lemma RouteNext(op: Operation, args: Args, k: nat, query: map<string, Value>, body: map<string, Value>)
    requires DistinctArgs(args) && OctetArgs(args) && k < |args| && RoutedUpTo(op, args[..k], query, body)
    ensures
      var Arg(a, v) := args[k];
      && RoutedUpTo(op, args[..k + 1], if Location(op, a) == "query" then query[a := v] else query,
                    if BodyArg(op, a) then body[a := v] else body)
      && PathAfter(op, args[..k + 1])
         == if Location(op, a) == "path" && PathValue(v).Some? then ReplaceAll(PathAfter(op, args[..k]), Marked(a), PathValue(v).value)
            else PathAfter(op, args[..k])
  {
    var some := args[..k + 1];
    assert some[..|some| - 1] == args[..k] && some[|some| - 1] == args[k];
    AsMapFacts(args[..k]);
    hide RoutedUpTo, Location, AsMap, PathValue, PathAfter, ReplaceAll, Marked;
    assert args[k].name !in AsMap(args[..k]);
    RouteOne(op, some, query, body);
    PathOne(op, some);
  }

  lemma PathOne(op: Operation, args: Args)
    requires args != [] && OctetArgs(args)
    ensures
      var Arg(a, v) := args[|args| - 1];
      var before := PathAfter(op, args[..|args| - 1]);
      PathAfter(op, args)
      == if Location(op, a) == "path" && PathValue(v).Some? then ReplaceAll(before, Marked(a), PathValue(v).value) else before
  {
  }

  method RouteArgs(op: Operation, args: Args) returns (ok: bool, path: string, query: map<string, Value>, body: map<string, Value>)
    requires DistinctArgs(args) && OctetArgs(args)
    ensures ok <==> forall k | 0 <= k < |args| :: PlaceFits(op, args[k])
    ensures ok ==> path == PathAfter(op, args) && RoutedUpTo(op, args, query, body)
  {
    path, query, body := op.path, map[], map[];
    assert RoutedUpTo(op, [], query, body) && PathAfter(op, []) == path;
    hide RoutedUpTo, Location, AsMap, PathValue, PathAfter, PlaceFits, BodyArg;
    for k := 0 to |args|
      invariant path == PathAfter(op, args[..k]) && RoutedUpTo(op, args[..k], query, body)
      invariant forall j | 0 <= j < k :: PlaceFits(op, args[j])
    {
      RouteNext(op, args, k, query, body);
      assert OctetValue(args[k].value) && OctetArgs(args[..k + 1]);
      hide OctetValue;
      ok, path, query, body := RouteArg(op, args[k], path, query, body);
      if !ok {
        return;
      }
    }
    assert args[..|args|] == args;
    ok := true;
  }

  // One argument, added to the path, the query or the body.
  method RouteArg(op: Operation, arg: Arg, path: string, query: map<string, Value>, body: map<string, Value>)
    returns (ok: bool, path': string, query': map<string, Value>, body': map<string, Value>)
    requires OctetValue(arg.value)
    ensures ok <==> PlaceFits(op, arg)
    ensures ok ==> path' == if Location(op, arg.name) == "path" && PathValue(arg.value).Some?
                            then ReplaceAll(path, Marked(arg.name), PathValue(arg.value).value) else path
    ensures ok ==> query' == if Location(op, arg.name) == "query" then query[arg.name := arg.value] else query
    ensures ok ==> body' == if BodyArg(op, arg.name) then body[arg.name := arg.value] else body
  {
    hide Location, PathValue, ReplaceAll, Marked;
    ok, path', query', body' := true, path, query, body;
    var place := Location(op, arg.name);
    if place == "path" {
      var text := PathValue(arg.value);
      if text.None? {
        return false, path, query, body;
      }
      path' := ReplaceAll(path, Marked(arg.name), text.value);
    } else if place == "query" {
      if arg.value.Obj? {
        return false, path, query, body;
      }
      query' := query[arg.name := arg.value];
    } else {
      body' := body[arg.name := arg.value];
    }
  }

  // ---- what a plan holds, from what the caller and the saved variables give

  // An argument the caller gives a value, or a declared one that it does not and that a saved
  // variable fills.
  predicate Given(op: Operation, args: Args, variables: Args, p: Arg) {
    && p.value != Null
    && (p in args
        || (p in variables && p.name in op.props && p.value != Str("") && forall q <- args | q.name == p.name :: q.value == Null))
  }

  lemma {:induction false} WithVariablesIs(op: Operation, args: Args, variables: Args, p: Arg)
    requires DistinctArgs(variables)
    ensures p in WithVariables(op, args, variables)
            <==> p in args
                 || (p in variables && p.name in op.props && p.value != Null && p.value != Str("") && forall q <- args :: q.name != p.name)
    decreases |variables|
  {
    if variables != [] {
      var first, rest := variables[0], variables[1..];
      var fills := first.name in op.props && first.name !in Names(args) && first.value != Null && first.value != Str("");
      var more := if fills then args + [first] else args;
      assert forall q <- rest :: q.name != first.name;
      assert first.name in Names(args) <==> exists q <- args :: q.name == first.name;
      WithVariablesIs(op, more, rest, p);
      assert p in variables <==> p == first || p in rest;
    }
  }

  /** What a call is made of. */
  lemma EffectiveIs(op: Operation, args: Args, variables: Args, p: Arg)
    requires DistinctArgs(args) && OctetArgs(args) && DistinctArgs(variables)
    ensures p in Effective(op, args, variables) <==> Given(op, args, variables, p)
  {
    WithoutNullsFacts(args);
    WithVariablesIs(op, WithoutNulls(args), variables, p);
    hide WithoutNulls, WithVariables;
    assert forall q <- args :: q.value == Null || q in WithoutNulls(args);
  }

  // Sent in the query: routed there, or routed nowhere on a verb that carries no body.
  predicate ToQuery(op: Operation, a: string) {
    if a in op.routes then op.routes[a] == "query" else Upper(op.verb) == "GET" || Upper(op.verb) == "DELETE"
  }

  // One argument in the plan: a placeholder of the path, or in the query, or in the body, with its
  // value, and in one of the three only.
  predicate PlacedOnce(op: Operation, plan: Plan, p: Arg) {
    var inBody := plan.body.Some? && p.name in plan.body.value;
    if p.name in Placeholders(op.path) then p.name !in plan.query && !inBody
    else if ToQuery(op, p.name) then p.name in plan.query && plan.query[p.name] == p.value && !inBody
    else inBody && plan.body.value[p.name] == p.value && p.name !in plan.query
  }

  // Every argument given is in the plan, once, and nothing else is.
  ghost predicate PlanHolds(op: Operation, args: Args, variables: Args, plan: Plan) {
    && plan.verb == op.verb
    && (forall p | Given(op, args, variables, p) :: PlacedOnce(op, plan, p))
    && (forall a <- plan.query :: Given(op, args, variables, Arg(a, plan.query[a])))
    && (plan.body.Some? ==> forall a <- plan.body.value :: Given(op, args, variables, Arg(a, plan.body.value[a])))
    && (plan.body.None? ==> op.verb == "GET" || op.verb == "DELETE")
    && (plan.body == Some(map[]) ==> op.verb != "GET" && op.verb != "DELETE")
  }

  lemma LocationIs(op: Operation, a: string)
    requires Accepted(op)
    ensures Location(op, a) == if a in Placeholders(op.path) then "path" else if ToQuery(op, a) then "query" else "body"
  {
    hide PathAccepted, ArgName, Placeholders, Upper;
  }

  lemma PlanPlacesOne(op: Operation, args: Args, p: Arg)
    requires Accepted(op) && DistinctArgs(args) && OctetArgs(args) && p in args
    ensures PlacedOnce(op, PlanOf(op, args), p)
  {
    AsMapFacts(args);
    var k :| 0 <= k < |args| && args[k] == p;
    var plan, m := PlanOf(op, args), AsMap(args);
    assert plan.query == Routed(op, m, "query");
    assert plan.body.Some? ==> plan.body.value == BodyArgs(op, m);
    assert plan.body.None? ==> BodyArgs(op, m) == map[];
    hide PlanOf, AsMap, Accepted;
    PlacedFromMap(op, plan, m, p);
  }

  lemma PlacedFromMap(op: Operation, plan: Plan, m: map<string, Value>, p: Arg)
    requires Accepted(op) && p.name in m && m[p.name] == p.value && plan.query == Routed(op, m, "query")
    requires if plan.body.Some? then plan.body.value == BodyArgs(op, m) else BodyArgs(op, m) == map[]
    ensures PlacedOnce(op, plan, p)
  {
    LocationIs(op, p.name);
    hide Accepted, Location, Placeholders, ToQuery;
    assert p.name in Routed(op, m, "query") <==> Location(op, p.name) == "query";
    assert p.name in BodyArgs(op, m) <==> BodyArg(op, p.name);
  }

  lemma PlanHoldsOnly(op: Operation, args: Args)
    requires OctetArgs(args)
    ensures
      var plan := PlanOf(op, args);
      && (forall a <- plan.query :: Arg(a, plan.query[a]) in args)
      && (plan.body.Some? ==> forall a <- plan.body.value :: Arg(a, plan.body.value[a]) in args)
      && (plan.body.None? ==> op.verb == "GET" || op.verb == "DELETE")
      && (plan.body == Some(map[]) ==> op.verb != "GET" && op.verb != "DELETE")
  {
    hide Location;
  }

  /** The plan of an accepted operation holds each argument given once, and nothing else. */
  lemma PlanIsComplete(op: Operation, args: Args, variables: Args)
    requires Accepted(op) && DistinctArgs(args) && OctetArgs(args) && OctetArgs(variables) && DistinctArgs(variables)
    ensures DistinctArgs(Effective(op, args, variables)) && OctetArgs(Effective(op, args, variables))
    ensures PlanHolds(op, args, variables, PlanOf(op, Effective(op, args, variables)))
  {
    WithoutNullsFacts(args);
    WithVariablesFacts(op, WithoutNulls(args), variables);
    var all := Effective(op, args, variables);
    var plan := PlanOf(op, all);
    PlanHoldsOnly(op, all);
    assert plan.verb == op.verb;
    hide *;
    forall p: Arg
      ensures p in all <==> Given(op, args, variables, p)
      ensures p in all ==> PlacedOnce(op, plan, p)
    {
      EffectiveIs(op, args, variables, p);
      if p in all {
        PlanPlacesOne(op, all, p);
      }
    }
    PlanHeld(op, args, variables, all, plan);
  }

  lemma PlanHeld(op: Operation, args: Args, variables: Args, all: Args, plan: Plan)
    requires forall p: Arg :: p in all <==> Given(op, args, variables, p)
    requires forall p: Arg | p in all :: PlacedOnce(op, plan, p)
    requires plan.verb == op.verb && forall a <- plan.query :: Arg(a, plan.query[a]) in all
    requires plan.body.Some? ==> forall a <- plan.body.value :: Arg(a, plan.body.value[a]) in all
    requires plan.body.None? ==> op.verb == "GET" || op.verb == "DELETE"
    requires plan.body == Some(map[]) ==> op.verb != "GET" && op.verb != "DELETE"
    ensures PlanHolds(op, args, variables, plan)
  {
    hide Given, PlacedOnce;
  }

  // ---- what a call is refused for

  // The types a value is of.
  function TypesOf(v: Value): set<JsonType> {
    match v
    case Null => {JNull}
    case Str(_) => {JString}
    case Int(_) => {JInteger, JNumber}
    case Real(_) => {JNumber}
    case Bool(_) => {JBoolean}
    case Arr(_) => {JArray}
    case Obj(_) => {JObject}
  }

  // A text that stays one segment of a path.
  predicate OneSegment(s: string) {
    s != "" && s != "." && s != ".." && forall c <- s :: c != '/' && c != '\\'
  }

  // The text a value has in a path.
  predicate HasText(v: Value, text: string) {
    v == Str(text) || v == Int(text) || v == Real(text) || (v == Bool(true) && text == "true") || (v == Bool(false) && text == "false")
  }

  // An argument that the operation declares, of a type it lists if it lists any, and fit for its
  // place: one segment once decoded too in the path, no object in the query.
  ghost predicate Admissible(op: Operation, p: Arg) {
    && p.name in op.props
    && (op.props[p.name] == [] || exists t <- op.props[p.name] :: t in TypesOf(p.value))
    && if p.name in Placeholders(op.path) then exists text :: HasText(p.value, text) && OneSegment(text) && OneSegment(Unquote(text))
       else ToQuery(op, p.name) ==> !p.value.Obj?
  }

  lemma AdmissibleIff(op: Operation, p: Arg)
    requires Accepted(op) && OctetValue(p.value)
    ensures Admissible(op, p) <==> TypeFits(op, p) && PlaceFits(op, p)
  {
    LocationIs(op, p.name);
    assert forall t :: Fits(p.value, t) <==> t in TypesOf(p.value);
    PathTextIff(p.value);
    hide Accepted, Location, Placeholders, ToQuery, Fits, TypesOf, PathValue, HasText, OneSegment;
  }

  lemma OneSegmentIff(s: string)
    ensures OneSegment(s) <==> StaysInSegment(s)
  {
    assert forall k | 0 <= k < |s| :: s[k] in s;
  }

  lemma PathTextIff(v: Value)
    requires OctetValue(v)
    ensures PathValue(v).Some? <==> exists text :: HasText(v, text) && OneSegment(text) && OneSegment(Unquote(text))
    ensures forall text | HasText(v, text) && PathValue(v).Some? :: Octets(text) && PathValue(v).value == Quote(text)
  {
    assert forall text :: HasText(v, text) <==> RawText(v) == Some(text);
    forall s: string {
      OneSegmentIff(s);
    }
    hide HasText, OneSegment, StaysInSegment, Unquote, Quote;
  }

  lemma CallFitsWhen(op: Operation, args: Args, variables: Args)
    requires Accepted(op) && DistinctArgs(args) && OctetArgs(args) && OctetArgs(variables) && DistinctArgs(variables)
    ensures DistinctArgs(Effective(op, args, variables)) && OctetArgs(Effective(op, args, variables))
    ensures OctetMap(AsMap(Effective(op, args, variables)))
    ensures CallFits(op, AsMap(Effective(op, args, variables)))
            <==> && (forall p | Given(op, args, variables, p) :: Admissible(op, p))
                 && forall a <- op.required :: exists v :: Given(op, args, variables, Arg(a, v))
  {
    WithoutNullsFacts(args);
    WithVariablesFacts(op, WithoutNulls(args), variables);
    var all := Effective(op, args, variables);
    CallFitsIff(op, all);
    hide Accepted, Effective, WithoutNulls, WithVariables, CallFits, AsMap, Given, TypeFits, PlaceFits, Admissible, OctetValue;
    forall p: Arg
      ensures p in all <==> Given(op, args, variables, p)
    {
      EffectiveIs(op, args, variables, p);
    }
    AllAdmissible(op, all);
    NamesGiven(all);
  }

  lemma AllAdmissible(op: Operation, all: Args)
    requires Accepted(op) && OctetArgs(all)
    ensures (forall k | 0 <= k < |all| :: TypeFits(op, all[k]) && PlaceFits(op, all[k])) <==> forall p | p in all :: Admissible(op, p)
  {
    forall k | 0 <= k < |all|
      ensures all[k] in all && (Admissible(op, all[k]) <==> TypeFits(op, all[k]) && PlaceFits(op, all[k]))
    {
      AdmissibleIff(op, all[k]);
    }
    hide Admissible, TypeFits, PlaceFits, OctetValue, Accepted;
  }

  lemma NamesGiven(all: Args)
    ensures forall a: string :: a in Names(all) <==> exists v :: Arg(a, v) in all
  {
    forall a: string
      ensures a in Names(all) <==> exists v :: Arg(a, v) in all
    {
      if a in Names(all) {
        var p :| p in all && p.name == a;
        assert Arg(a, p.value) in all;
      }
    }
  }

  /** `plan_call`: refused exactly when the arguments do not fit; otherwise each one goes
      where `location` says, and the path is rewritten one argument after the other. For an
      accepted operation: a call is refused exactly when an argument given is not admissible or a
      required one is not given, and its plan holds each argument given once, and nothing else. */
  method PlanCall(op: Operation, args: Args, variables: Args) returns (r: Result<Plan, ()>)
    requires DistinctArgs(args) && OctetArgs(args) && OctetArgs(variables)
    ensures DistinctArgs(Effective(op, args, variables)) && OctetArgs(Effective(op, args, variables))
    ensures OctetMap(AsMap(Effective(op, args, variables)))
    ensures r.Ok? <==> CallFits(op, AsMap(Effective(op, args, variables)))
    ensures r.Ok? ==> r.value == PlanOf(op, Effective(op, args, variables))
    ensures Accepted(op) && DistinctArgs(variables) && r.Ok? ==> PlanHolds(op, args, variables, r.value)
    ensures Accepted(op) && DistinctArgs(variables) ==>
              (r.Ok? <==> && (forall p | Given(op, args, variables, p) :: Admissible(op, p))
                          && forall a <- op.required :: exists v :: Given(op, args, variables, Arg(a, v)))
  {
    if Accepted(op) && DistinctArgs(variables) {
      PlanIsComplete(op, args, variables);
      CallFitsWhen(op, args, variables);
    }
    hide Given, PlanHolds, Admissible, Accepted;
    WithoutNullsFacts(args);
    WithVariablesFacts(op, WithoutNulls(args), variables);
    var all := Effective(op, args, variables);
    CallFitsIff(op, all);
    hide CallFits, AsMap, PathAfter, TypeFits, PlaceFits, Effective;
    var ok := CheckArgs(op, all);
    if !ok {
      return Refused(());
    }
    var path, query, body;
    ok, path, query, body := RouteArgs(op, all);
    if !ok {
      return Refused(());
    }
    return Ok(Plan(op.verb, path, query, if body != map[] || (op.verb != "GET" && op.verb != "DELETE") then Some(body) else None));
  }

  function PlanOf(op: Operation, args: Args): Plan
    requires OctetArgs(args)
  {
    var body := BodyArgs(op, AsMap(args));
    Plan(op.verb, PathAfter(op, args), Routed(op, AsMap(args), "query"),
         if body != map[] || (op.verb != "GET" && op.verb != "DELETE") then Some(body) else None)
  }
}

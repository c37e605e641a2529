// Operations described in data (oto_mcp/custom_ops.py): the validator, where an argument
// goes, and the plan of a call.

module CustomOps {
  import opened Options
  import opened Percent
  import opened Templates
  import opened Texts

  // ---- texts

  function UpperChar(c: char): char {
    if 'a' <= c <= 'z' then (c as int - 32) as char else c
  }

  function Upper(s: string): (r: string)
    ensures |r| == |s| && forall k | 0 <= k < |s| :: r[k] == UpperChar(s[k])
  {
    seq(|s|, k requires 0 <= k < |s| => UpperChar(s[k]))
  }

  predicate Contains(s: string, what: string) {
    exists k | 0 <= k <= |s| :: what <= s[k..]
  }

  // ---- operations

  datatype JsonType = JString | JInteger | JNumber | JBoolean | JArray | JObject | JNull

  /** An operation whose JSON shapes are right: what the validator goes on to check. The
      types of an argument are those its schema lists, none when it lists none. */
  datatype Operation = Operation(name: string, description: string, verb: string, path: string,
                                 props: map<string, seq<JsonType>>, required: seq<string>, routes: map<string, string>)

  const VERBS: set<string> := {"GET", "POST", "PUT", "PATCH", "DELETE"}
  const MAX_DESCRIPTION: nat := 1000

  predicate Letter(c: char) {
    'A' <= c <= 'Z' || 'a' <= c <= 'z'
  }

  predicate ArgChar(c: char) {
    Letter(c) || '0' <= c <= '9' || c == '_' || c == '.' || c == '-' || c == '[' || c == ']'
  }

  predicate ArgNameProper(s: string) {
    1 <= |s| <= 64 && Letter(s[0]) && forall k | 0 <= k < |s| :: ArgChar(s[k])
  }

  // The pattern ends with `$`, which lets one line end follow.
  predicate ArgName(s: string) {
    ArgNameProper(s) || (s != [] && s[|s| - 1] == '\n' && ArgNameProper(s[..|s| - 1]))
  }

  predicate SnakeProper(s: string) {
    && 1 <= |s| <= 63 && 'a' <= s[0] <= 'z'
    && forall k | 0 <= k < |s| :: 'a' <= s[k] <= 'z' || '0' <= s[k] <= '9' || s[k] == '_'
  }

  predicate OpName(s: string) {
    SnakeProper(s) || (s != [] && s[|s| - 1] == '\n' && SnakeProper(s[..|s| - 1]))
  }

  // `location`: the declared route, else the path when the template cites the argument,
  // else the query for GET and DELETE and the body for the rest.
  function Location(op: Operation, arg: string): string {
    if arg in op.routes && op.routes[arg] != "" then op.routes[arg]
    else if arg in Placeholders(op.path) then "path"
    else if Upper(op.verb) == "GET" || Upper(op.verb) == "DELETE" then "query" else "body"
  }

  predicate DotSegment(s: string) {
    s == "." || s == ".."
  }

  predicate PathAccepted(path: string) {
    && path != [] && path[0] == '/'
    && !("//" <= path) && !Contains(path, "://")
    && (forall k | 0 <= k < |path| :: path[k] != '?' && path[k] != '#' && !IsSpace(path[k]))
    && (forall s <- Segments(path) :: !DotSegment(s)) && !Contains(Unquote(path), "..")
    && (forall p <- Placeholders(path) :: ArgName(p))
  }

  // What the first checks demand: each part of the operation, taken alone.
  predicate PartsAccepted(op: Operation) {
    && OpName(op.name) && Strip(op.description) != [] && |op.description| <= MAX_DESCRIPTION
    && Upper(op.verb) in VERBS && PathAccepted(op.path)
    && (forall a <- op.props :: ArgName(a)) && (forall r <- op.required :: r in op.props)
  }

  // What the next ones demand: the template, the arguments and their routes together.
  predicate RoutesAccepted(op: Operation) {
    && (forall p <- Placeholders(op.path) ::
          p in op.props && p in op.required && (p in op.routes ==> op.routes[p] == "path"))
    && (forall a <- op.routes ::
          && a in op.props && (op.routes[a] == "path" || op.routes[a] == "query" || op.routes[a] == "body")
          && (op.routes[a] == "path" ==> a in Placeholders(op.path)))
    && (Upper(op.verb) == "GET" ==> forall a <- op.props :: Location(op, a) != "body")
  }

  // Everything the validator demands of one operation.
  predicate Accepted(op: Operation) {
    PartsAccepted(op) && RoutesAccepted(op)
  }

  datatype Problem =
    | BadName | NoDescription | LongDescription | BadVerb | BadPath | BadArgument | BadRequired
    | UnknownParam(arg: string) | ParamNotRequired(arg: string) | ParamElsewhere(arg: string)
    | BadRoute | GetWithBody
    | DuplicateName(name: string) | TooMany | TooHeavy

  function ParamProblem(op: Operation, p: string): seq<Problem> {
    if p !in op.props then [UnknownParam(p)]
    else if p !in op.required then [ParamNotRequired(p)]
    else if p in op.routes && op.routes[p] != "path" then [ParamElsewhere(p)]
    else []
  }

  function RouteProblem(op: Operation, a: string): seq<Problem>
    requires a in op.routes
  {
    if a !in op.props then [BadRoute]
    else if op.routes[a] != "path" && op.routes[a] != "query" && op.routes[a] != "body" then [BadRoute]
    else if op.routes[a] == "path" && a !in Placeholders(op.path) then [BadRoute]
    else []
  }

  method ValidateParts(op: Operation) returns (problems: seq<Problem>)
    ensures problems == [] <==> PartsAccepted(op)
  {
    problems := [];
    if !OpName(op.name) {
      problems := problems + [BadName];
    }
    if Strip(op.description) == [] {
      problems := problems + [NoDescription];
    } else if |op.description| > MAX_DESCRIPTION {
      problems := problems + [LongDescription];
    }
    if Upper(op.verb) !in VERBS {
      problems := problems + [BadVerb];
    }
    if !PathAccepted(op.path) {
      problems := problems + [BadPath];
    }
    if exists a <- op.props :: !ArgName(a) {
      problems := problems + [BadArgument];
    }
    if exists r <- op.required :: r !in op.props {
      problems := problems + [BadRequired];
    }
  }

  method ValidateRoutes(op: Operation) returns (problems: seq<Problem>)
    ensures problems == [] <==> RoutesAccepted(op)
  {
    problems := [];
    var params := Placeholders(op.path);
    for k := 0 to |params|
      invariant problems == [] <==> forall j | 0 <= j < k :: ParamProblem(op, params[j]) == []
    {
      problems := problems + ParamProblem(op, params[k]);
    }
    assert problems == [] <==> forall p <- params :: ParamProblem(op, p) == [];
    hide Placeholders, Location;
    if exists a <- op.routes :: RouteProblem(op, a) != [] {
      problems := problems + [BadRoute];
    }
    if Upper(op.verb) == "GET" && exists a <- op.props :: Location(op, a) == "body" {
      problems := problems + [GetWithBody];
    }
  }

  /** `_validate_one`: no problem is named exactly when the operation is accepted. */
  method ValidateOne(op: Operation) returns (problems: seq<Problem>)
    ensures problems == [] <==> Accepted(op)
  {
    problems := ValidateParts(op);
    if problems == [] {
      problems := ValidateRoutes(op);
    }
  }

  // ---- what acceptance says, character by character

  // The length of a name, without the line end that may follow.
  function NameLength(s: string): nat {
    if s != [] && s[|s| - 1] == '\n' then |s| - 1 else |s|
  }

  // A letter, then letters, digits and `_ . - [ ]`: 64 at most.
  predicate IsArgName(s: string) {
    && 1 <= NameLength(s) <= 64 && ('A' <= s[0] <= 'Z' || 'a' <= s[0] <= 'z')
    && forall k | 0 <= k < NameLength(s) ::
         'A' <= s[k] <= 'Z' || 'a' <= s[k] <= 'z' || '0' <= s[k] <= '9' || s[k] in {'_', '.', '-', '[', ']'}
  }

  // A small letter, then small letters, digits and `_`: 63 at most.
  predicate IsOpName(s: string) {
    && 1 <= NameLength(s) <= 63 && 'a' <= s[0] <= 'z'
    && forall k | 0 <= k < NameLength(s) :: 'a' <= s[k] <= 'z' || '0' <= s[k] <= '9' || s[k] == '_'
  }

  // A path of the service itself: no host, no scheme, no query, no blank, and no `..` even once
  // decoded.
  predicate IsRelative(path: string) {
    && path != "" && path[0] == '/' && (|path| > 1 ==> path[1] != '/')
    && (forall k | 0 <= k < |path| - 2 :: !(path[k] == ':' && path[k + 1] == '/' && path[k + 2] == '/'))
    && (forall k | 0 <= k < |path| :: path[k] != '?' && path[k] != '#' && !IsSpace(path[k]))
    && (forall s <- Segments(path) :: s != "." && s != "..")
    && (forall k | 0 <= k < |Unquote(path)| - 1 :: !(Unquote(path)[k] == '.' && Unquote(path)[k + 1] == '.'))
  }

  lemma ArgNameIff(s: string)
    ensures ArgName(s) <==> IsArgName(s)
  {
    if s != [] && s[|s| - 1] == '\n' {
      assert !ArgChar(s[|s| - 1]);
      assert forall k | 0 <= k < |s| - 1 :: s[..|s| - 1][k] == s[k];
    }
  }

  lemma OpNameIff(s: string)
    ensures OpName(s) <==> IsOpName(s)
  {
    if s != [] && s[|s| - 1] == '\n' {
      assert forall k | 0 <= k < |s| - 1 :: s[..|s| - 1][k] == s[k];
    }
  }

  lemma ContainsTwo(s: string, a: char, b: char)
    ensures Contains(s, [a, b]) <==> exists k | 0 <= k < |s| - 1 :: s[k] == a && s[k + 1] == b
  {
    if k :| 0 <= k <= |s| && [a, b] <= s[k..] {
      assert s[k] == s[k..][0] && s[k + 1] == s[k..][1];
    }
    if k :| 0 <= k < |s| - 1 && s[k] == a && s[k + 1] == b {
      assert [a, b] <= s[k..];
    }
  }

  lemma ContainsThree(s: string, a: char, b: char, c: char)
    ensures Contains(s, [a, b, c]) <==> exists k | 0 <= k < |s| - 2 :: s[k] == a && s[k + 1] == b && s[k + 2] == c
  {
    if k :| 0 <= k <= |s| && [a, b, c] <= s[k..] {
      assert s[k] == s[k..][0] && s[k + 1] == s[k..][1] && s[k + 2] == s[k..][2];
    }
    if k :| 0 <= k < |s| - 2 && s[k] == a && s[k + 1] == b && s[k + 2] == c {
      assert [a, b, c] <= s[k..];
    }
  }

  lemma PathAcceptedIff(path: string)
    ensures PathAccepted(path) <==> IsRelative(path) && forall p <- Placeholders(path) :: IsArgName(p)
  {
    ContainsThree(path, ':', '/', '/');
    ContainsTwo(Unquote(path), '.', '.');
    assert "://" == [':', '/', '/'] && ".." == ['.', '.'];
    assert path != "" && path[0] == '/' ==> ("//" <= path <==> |path| > 1 && path[1] == '/');
    forall p: string {
      ArgNameIff(p);
    }
    hide Contains, Unquote, Segments, ArgName, IsArgName, Placeholders, IsSpace;
  }

  /** What an accepted operation is: its name and its verb, a description that is not blank, a
      relative path whose placeholders are required arguments that go nowhere else, routes of
      declared arguments, to the path for placeholders only, and no body for a GET. */
  lemma AcceptedIff(op: Operation)
    ensures Accepted(op) <==>
      && IsOpName(op.name) && |op.description| <= 1000 && (exists k | 0 <= k < |op.description| :: !IsSpace(op.description[k]))
      && Upper(op.verb) in {"GET", "POST", "PUT", "PATCH", "DELETE"}
      && IsRelative(op.path) && (forall a | a in op.props || a in Placeholders(op.path) :: IsArgName(a))
      && (forall a <- op.required :: a in op.props)
      && (forall a <- Placeholders(op.path) :: a in op.props && a in op.required && (a in op.routes ==> op.routes[a] == "path"))
      && (forall a <- op.routes :: a in op.props && op.routes[a] in {"path", "query", "body"} && (op.routes[a] == "path" ==> a in Placeholders(op.path)))
      && (Upper(op.verb) == "GET" ==> forall a <- op.props :: a in Placeholders(op.path) || (a in op.routes ==> op.routes[a] == "query"))
  {
    OpNameIff(op.name);
    PathAcceptedIff(op.path);
    forall a: string {
      ArgNameIff(a);
    }
    NotBlank(op.description);
    hide OpName, PathAccepted, ArgName, IsArgName, IsOpName, IsRelative, Placeholders, Strip, Upper, IsSpace;
  }

  lemma NotBlank(s: string)
    ensures Strip(s) != [] <==> exists k | 0 <= k < |s| :: !IsSpace(s[k])
  {
    StripLeftFront(s);
  }

  function Normalized(op: Operation): Operation {
    op.(description := Strip(op.description), verb := Upper(op.verb))
  }

  // Where an argument goes does not depend on the description nor on the case of the verb.
  lemma NormalizedRoutes(op: Operation)
    ensures Upper(Upper(op.verb)) == Upper(op.verb)
    ensures forall a :: Location(Normalized(op), a) == Location(op, a)
  {
    assert Upper(Upper(op.verb)) == Upper(op.verb);
  }

  /** What validation accepts, it still accepts once normalised, and routes the same way. */
  lemma NormalizedStaysAccepted(op: Operation)
    requires Accepted(op)
    ensures Accepted(Normalized(op))
    ensures forall a :: Location(Normalized(op), a) == Location(op, a)
  {
    NormalizedRoutes(op);
    StripTwice(op.description);
    hide Upper, Strip, PathAccepted, ArgName, OpName, Placeholders, Location;
    assert PartsAccepted(Normalized(op)) by {
      hide RoutesAccepted;
    }
    assert RoutesAccepted(Normalized(op)) by {
      hide PartsAccepted;
    }
  }

  datatype Result<+T, +E> = Ok(value: T) | Refused(why: E)

  predicate DistinctNames(ops: seq<Operation>) {
    forall j, k | 0 <= j < k < |ops| :: ops[j].name != ops[k].name
  }

  /** `validate_operations`; `weight` is the size of the serialised list. */
  method ValidateOperations(ops: seq<Operation>, weight: nat) returns (r: Result<seq<Operation>, seq<Problem>>)
    ensures r.Ok? <==> |ops| <= 100 && weight <= 256 * 1024 && DistinctNames(ops) && forall op <- ops :: Accepted(op)
    ensures r.Ok? ==> |r.value| == |ops| && forall k | 0 <= k < |ops| :: r.value[k] == Normalized(ops[k])
    ensures r.Ok? ==> DistinctNames(r.value) && forall op <- r.value :: Accepted(op)
  {
    hide Accepted;
    var problems := [];
    if |ops| > 100 {
      problems := [TooMany];
    }
    var seen: set<string> := {};
    for k := 0 to |ops|
      invariant forall n :: n in seen <==> exists j | 0 <= j < k :: ops[j].name == n
      invariant problems == [] <==> |ops| <= 100 && DistinctNames(ops[..k]) && forall j | 0 <= j < k :: Accepted(ops[j])
    {
      var one := ValidateOne(ops[k]);
      problems := problems + one;
      if ops[k].name in seen {
        problems := problems + [DuplicateName(ops[k].name)];
      }
      seen := seen + {ops[k].name};
    }
    assert ops[..|ops|] == ops;
    if problems == [] && weight > 256 * 1024 {
      problems := [TooHeavy];
    }
    if problems != [] {
      return Refused(problems);
    }
    forall k | 0 <= k < |ops| {
      NormalizedStaysAccepted(ops[k]);
    }
    return Ok(seq(|ops|, k requires 0 <= k < |ops| => Normalized(ops[k])));
  }

  // ---- the plan of a call

  /** A JSON value. Numbers carry their text; lists and objects, an arbitrary content. */
  datatype Value = Null | Str(s: string) | Int(text: string) | Real(text: string) | Bool(b: bool) | Arr(n: int) | Obj(n: int)

  predicate Fits(v: Value, t: JsonType) {
    match t
    case JString => v.Str?
    case JInteger => v.Int?
    case JNumber => v.Int? || v.Real?
    case JBoolean => v.Bool?
    case JArray => v.Arr?
    case JObject => v.Obj?
    case JNull => v.Null?
  }

  function RawText(v: Value): Option<string> {
    match v
    case Bool(b) => Some(if b then "true" else "false")
    case Str(s) => Some(s)
    case Int(text) => Some(text)
    case Real(text) => Some(text)
    case _ => None
  }

  predicate StaysInSegment(s: string) {
    s != "" && !DotSegment(s) && forall k | 0 <= k < |s| :: s[k] != '/' && s[k] != '\\'
  }

  // The texts of a call are UTF-8 octets.
  predicate OctetValue(v: Value) {
    RawText(v).Some? ==> Octets(RawText(v).value)
  }

  // `_path_value`.
  function PathValue(v: Value): Option<string>
    requires OctetValue(v)
  {
    var raw := RawText(v);
    if raw.None? || !StaysInSegment(raw.value) || !StaysInSegment(Unquote(raw.value)) then None
    else Some(Quote(raw.value))
  }

  datatype Arg = Arg(name: string, value: Value)
  type Args = seq<Arg>

  predicate OctetArgs(args: Args) {
    forall k | 0 <= k < |args| :: OctetValue(args[k].value)
  }

  predicate DistinctArgs(args: Args) {
    forall j, k | 0 <= j < k < |args| :: args[j].name != args[k].name
  }

  function Names(args: Args): set<string> {
    set a | a in args :: a.name
  }

  function AsMap(args: Args): (m: map<string, Value>)
    ensures forall a <- m :: Arg(a, m[a]) in args
  {
    if args == [] then map[] else AsMap(args[..|args| - 1])[args[|args| - 1].name := args[|args| - 1].value]
  }

  datatype Plan = Plan(verb: string, path: string, query: map<string, Value>, body: Option<map<string, Value>>)

  predicate OctetMap(args: map<string, Value>) {
    forall a <- args :: OctetValue(args[a])
  }

  // The arguments the call accepts: known, none missing, of the right type, and each fit
  // for where it goes.
  predicate CallFits(op: Operation, args: map<string, Value>)
    requires OctetMap(args)
  {
    && (forall a <- args :: a in op.props)
    && (forall r <- op.required :: r in args)
    && (forall a <- args :: op.props[a] == [] || exists t <- op.props[a] :: Fits(args[a], t))
    && (forall a <- args :: Location(op, a) == "path" ==> PathValue(args[a]).Some?)
    && (forall a <- args :: Location(op, a) == "query" ==> !args[a].Obj?)
  }

  // The arguments that go to one place.
  function Routed(op: Operation, args: map<string, Value>, place: string): map<string, Value> {
    map a | a in args && Location(op, a) == place :: args[a]
  }

  predicate BodyArg(op: Operation, a: string) {
    Location(op, a) != "path" && Location(op, a) != "query"
  }

  function BodyArgs(op: Operation, args: map<string, Value>): map<string, Value> {
    map a | a in args && BodyArg(op, a) :: args[a]
  }

  // The substitutions, one argument after the other, on the text of the path.
  function PathAfter(op: Operation, args: Args): string
    requires OctetArgs(args)
  {
    if args == [] then op.path
    else
      var Arg(a, v) := args[|args| - 1];
      var before := PathAfter(op, args[..|args| - 1]);
      if Location(op, a) == "path" && PathValue(v).Some? then ReplaceAll(before, Marked(a), PathValue(v).value) else before
  }

  // The arguments of the call: those given, without the null ones, then the saved variables
  // that fill a declared argument nobody passed.
  function WithVariables(op: Operation, args: Args, variables: Args): Args
    decreases |variables|
  {
    if variables == [] then args
    else
      var Arg(name, v) := variables[0];
      WithVariables(op,
        if name in op.props && name !in Names(args) && v != Null && v != Str("") then args + [variables[0]] else args,
        variables[1..])
  }

  function WithoutNulls(args: Args): Args {
    if args == [] then [] else (if args[0].value == Null then [] else [args[0]]) + WithoutNulls(args[1..])
  }

  function Effective(op: Operation, args: Args, variables: Args): Args {
    WithVariables(op, WithoutNulls(args), variables)
  }
}

// The walk over a lock file that computes what it prescribes (oto_mcp/empreinte_deps.py,
// `prescrits`).

module LockWalk {
  import opened Options
  import opened FiniteSets
  import opened LockClosure

  datatype Result<+T> = Ok(value: T) | Unreadable

  // What `vus` remembers of a node: the name, the version and the demanded extras.
  datatype Mark = Mark(name: string, version: Version, extras: set<string>)

  function MarkOf(lock: Lock, n: Node): Mark
    requires n.index < |lock|
  {
    Mark(lock[n.index].name, VersionOf(lock[n.index]), n.extras)
  }

  lemma MarkIdentifies(lock: Lock, a: Node, b: Node)
    requires Identified(lock) && a.index < |lock| && b.index < |lock| && MarkOf(lock, a) == MarkOf(lock, b)
    ensures a == b
  {
  }

  // Every mark the walk can make: a bound on its length.
  function AllMarks(lock: Lock): set<Mark> {
    set i, j, d | 0 <= i < |lock| && 0 <= j < |lock| && d in DepsOf(lock[j]) ::
      Mark(lock[i].name, VersionOf(lock[i]), d.extras)
  }

  // The target of a reference: the one package that answers to it.
  method Target(lock: Lock, dep: Dep) returns (k: Option<nat>)
    ensures k.Some? ==> OnlyIndex(lock, k.value, dep)
    ensures k.None? ==> forall j :: !OnlyIndex(lock, j, dep)
    ensures k.Some? ==> forall j | 0 <= j < |lock| ::
              j == k.value
              <==> && lock[j].name == dep.name
                   && (dep.version.Some? ==> lock[j].version == dep.version)
                   && (dep.source.Some? ==> lock[j].source == dep.source.value)
  {
    var candidates: seq<nat> := [];
    for i := 0 to |lock|
      invariant forall a | 0 <= a < |candidates| :: candidates[a] < i && Candidate(lock[candidates[a]], dep)
      invariant forall j | 0 <= j < i && Candidate(lock[j], dep) :: j in candidates
      invariant forall a, b | 0 <= a < b < |candidates| :: candidates[a] < candidates[b]
    {
      if Candidate(lock[i], dep) {
        candidates := candidates + [i];
      }
    }
    if |candidates| != 1 {
      forall j: nat
        ensures !OnlyIndex(lock, j, dep)
      {
        if j < |lock| && Candidate(lock[j], dep) {
          var a :| 0 <= a < |candidates| && candidates[a] == j;
          var b := if a == 0 then 1 else 0;
          assert candidates[b] != j;
        }
      }
      return None;
    }
    return Some(candidates[0]);
  }

  // The references of a package that its extras bring in, markers not looked at yet.
  method Gather(p: Package, extras: set<string>) returns (deps: seq<Dep>)
    ensures forall d :: d in deps <==> d in p.deps || exists e <- extras :: e in p.optional && d in p.optional[e]
    ensures forall d <- deps :: d in DepsOf(p)
  {
    deps := p.deps;
    var todo := extras;
    ghost var done := {};
    while todo != {}
      invariant Split(extras, todo, done)
      invariant forall d :: d in deps <==> d in p.deps || exists e <- done :: e in p.optional && d in p.optional[e]
      decreases todo
    {
      ghost var some := SomeElement(todo);
      var extra :| extra in todo;
      SplitStep(extras, todo, done, extra);
      if extra in p.optional {
        deps := deps + p.optional[extra];
      }
      todo, done := todo - {extra}, done + {extra};
    }
    SplitEnd(extras, done);
  }

  // The state of the walk: what was popped, what is on the stack, and the marks of both.
  ghost predicate Walking(lock: Lock, root: Node, done: set<Node>, stack: seq<Node>, seen: set<Mark>) {
    && root.index < |lock|
    && (root in done || root in stack)
    && (forall n | n in done || n in stack :: Reachable(lock, root, n) && n.index < |lock|)
    && (forall m <- seen :: exists n: Node :: (n in done || n in stack) && n.index < |lock| && MarkOf(lock, n) == m)
    && seen <= AllMarks(lock)
  }

  // What follows a popped node is on its way, once marks tell packages apart.
  ghost predicate Followed(lock: Lock, done: set<Node>, stack: seq<Node>) {
    Identified(lock) ==> forall a: Node, b: Node | a in done && Edge(lock, a, b) :: b in done || b in stack
  }

  // The same while `node` is popped and not yet followed.
  ghost predicate FollowedBut(lock: Lock, done: set<Node>, node: Node, stack: seq<Node>) {
    Identified(lock) ==> forall a: Node, b: Node | a in done && Edge(lock, a, b) :: b in done + {node} || b in stack
  }

  lemma EdgeTo(lock: Lock, node: Node, dep: Dep, k: nat)
    requires node.index < |lock| && dep in DepsOf(lock[node.index]) && OnlyIndex(lock, k, dep)
    requires Demands(lock[node.index], node.extras, dep)
    ensures Edge(lock, node, Node(k, dep.extras)) && MarkOf(lock, Node(k, dep.extras)) in AllMarks(lock)
  {
  }

  lemma SeenIsThere(lock: Lock, root: Node, done: set<Node>, stack: seq<Node>, seen: set<Mark>, n: Node)
    requires Identified(lock) && Walking(lock, root, done, stack, seen) && n.index < |lock| && MarkOf(lock, n) in seen
    ensures n in done || n in stack
  {
    var m: Node :| (m in done || m in stack) && m.index < |lock| && MarkOf(lock, m) == MarkOf(lock, n);
    MarkIdentifies(lock, m, n);
  }

  // The reference has one target, and that node is on its way.
  ghost predicate OnItsWay(lock: Lock, done: set<Node>, stack: seq<Node>, dep: Dep) {
    exists k :: OnlyIndex(lock, k, dep) && (Identified(lock) ==> Node(k, dep.extras) in done || Node(k, dep.extras) in stack)
  }

  ghost predicate AllOnTheirWay(lock: Lock, node: Node, done: set<Node>, stack: seq<Node>)
    requires node.index < |lock|
  {
    forall dep | Demands(lock[node.index], node.extras, dep) :: OnItsWay(lock, done, stack, dep)
  }

  lemma Walked(lock: Lock, root: Node, done: set<Node>, stack: seq<Node>, seen: set<Mark>, node: Node)
    requires Walking(lock, root, done, stack, seen) && (node in done || node in stack)
    ensures node.index < |lock| && Reachable(lock, root, node) && forall n <- done :: Reachable(lock, root, n)
    ensures seen <= AllMarks(lock)
  {
  }

  lemma DanglingFound(lock: Lock, root: Node, node: Node, dep: Dep)
    requires Reachable(lock, root, node) && node.index < |lock| && Demands(lock[node.index], node.extras, dep)
    requires forall k :: !OnlyIndex(lock, k, dep)
    ensures Dangling(lock, root)
  {
  }

  // One reference of a popped package, its marker true.
  method PushTarget(lock: Lock, ghost root: Node, ghost node: Node, dep: Dep, ghost done: set<Node>, stack: seq<Node>,
                    seen: set<Mark>)
    returns (ok: bool, stack': seq<Node>, seen': set<Mark>)
    requires Walking(lock, root, done, stack, seen) && node in done
    requires node.index < |lock| && Demands(lock[node.index], node.extras, dep) && dep in DepsOf(lock[node.index])
    ensures !ok ==> Dangling(lock, root)
    ensures ok ==> Walking(lock, root, done, stack', seen') && OnItsWay(lock, done, stack', dep)
    ensures ok ==> stack <= stack' && seen <= seen' && |stack'| - |stack| == |seen'| - |seen|
  {
    hide Walking, Demands, DepsOf, AllMarks, Edge, Dangling, OnlyIndex, Identified;
    var target := Target(lock, dep);
    Walked(lock, root, done, stack, seen, node);
    if target.None? {
      DanglingFound(lock, root, node, dep);
      return false, stack, seen;
    }
    var next := Node(target.value, dep.extras);
    EdgeTo(lock, node, dep, target.value);
    ReachableStep(lock, root, node, next);
    var mark := MarkOf(lock, next);
    if mark in seen {
      if Identified(lock) {
        SeenIsThere(lock, root, done, stack, seen, next);
      }
      return true, stack, seen;
    }
    PushKeeps(lock, root, done, stack, seen, next);
    stack', seen' := stack + [next], seen + {mark};
    assert next in stack';
    return true, stack', seen';
  }

  // The loop over the references of one popped package.
  method PushTargets(lock: Lock, ghost root: Node, node: Node, ghost done: set<Node>, stack: seq<Node>, seen: set<Mark>)
    returns (ok: bool, stack': seq<Node>, seen': set<Mark>)
    requires Walking(lock, root, done, stack, seen) && node in done && node.index < |lock|
    ensures !ok ==> Dangling(lock, root)
    ensures ok ==> Walking(lock, root, done, stack', seen') && stack <= stack'
    ensures ok ==> AllOnTheirWay(lock, node, done, stack')
    ensures ok ==> seen <= seen' && |stack'| - |stack| == |seen'| - |seen|
  {
    var p := lock[node.index];
    var deps := Gather(p, node.extras);
    assert forall dep <- deps | dep.marker :: Demands(p, node.extras, dep);
    assert forall dep | Demands(p, node.extras, dep) :: dep in deps && dep.marker;
    stack', seen' := stack, seen;
    hide Walking, Demands, Dangling, OnItsWay;
    for i := 0 to |deps|
      invariant Walking(lock, root, done, stack', seen') && stack <= stack'
      invariant seen <= seen' && |stack'| - |stack| == |seen'| - |seen|
      invariant forall j | 0 <= j < i && deps[j].marker :: OnItsWay(lock, done, stack', deps[j])
    {
      if deps[i].marker {
        assert deps[i] in deps;
        ghost var before := stack';
        ok, stack', seen' := PushTarget(lock, root, node, deps[i], done, stack', seen');
        if !ok {
          return;
        }
        forall j | 0 <= j < i && deps[j].marker
          ensures OnItsWay(lock, done, stack', deps[j])
        {
          StillOnItsWay(lock, done, before, stack', deps[j]);
        }
      }
    }
    ok := true;
  }

  lemma StillOnItsWay(lock: Lock, done: set<Node>, stack: seq<Node>, stack': seq<Node>, dep: Dep)
    requires OnItsWay(lock, done, stack, dep) && stack <= stack'
    ensures OnItsWay(lock, done, stack', dep)
  {
    assert forall n <- stack :: n in stack';
  }

  // The references of the popped node are all on their way, so are those popped before.
  lemma FollowedOn(lock: Lock, done: set<Node>, node: Node, stack: seq<Node>, stack': seq<Node>)
    requires node.index < |lock| && stack <= stack'
    requires FollowedBut(lock, done, node, stack) && AllOnTheirWay(lock, node, done + {node}, stack')
    ensures Followed(lock, done + {node}, stack')
    ensures NoneDangling(lock, done) ==> NoneDangling(lock, done + {node})
  {
    assert forall n <- stack :: n in stack';
    hide Identified;
    forall b: Node | Edge(lock, node, b)
      ensures Identified(lock) ==> b in done + {node} || b in stack'
    {
      var dep :| dep in DepsOf(lock[node.index]) && Demands(lock[node.index], node.extras, dep)
                 && OnlyIndex(lock, b.index, dep) && b.extras == dep.extras;
      var k: nat :| OnlyIndex(lock, k, dep)
        && (Identified(lock) ==> Node(k, dep.extras) in done + {node} || Node(k, dep.extras) in stack');
      assert Candidate(lock[k], dep);
    }
  }

  lemma PushKeeps(lock: Lock, root: Node, done: set<Node>, stack: seq<Node>, seen: set<Mark>, next: Node)
    requires Walking(lock, root, done, stack, seen) && Reachable(lock, root, next) && next.index < |lock|
    requires MarkOf(lock, next) in AllMarks(lock)
    ensures Walking(lock, root, done, stack + [next], seen + {MarkOf(lock, next)})
  {
    var stack', seen' := stack + [next], seen + {MarkOf(lock, next)};
    assert next in stack' && forall n <- stack :: n in stack';
    forall m | m in seen'
      ensures exists n: Node :: (n in done || n in stack') && n.index < |lock| && MarkOf(lock, n) == m
    {
      if m in seen {
        var n: Node :| (n in done || n in stack) && n.index < |lock| && MarkOf(lock, n) == m;
        assert n in done || n in stack';
      } else {
        assert MarkOf(lock, next) == m;
      }
    }
  }

  lemma PopKeeps(lock: Lock, root: Node, done: set<Node>, stack: seq<Node>, seen: set<Mark>)
    requires Walking(lock, root, done, stack, seen) && stack != []
    ensures Walking(lock, root, done + {stack[|stack| - 1]}, stack[..|stack| - 1], seen)
    ensures Followed(lock, done, stack) ==> FollowedBut(lock, done, stack[|stack| - 1], stack[..|stack| - 1])
  {
    var done', stack' := done + {stack[|stack| - 1]}, stack[..|stack| - 1];
    assert stack == stack' + [stack[|stack| - 1]];
    assert forall n <- stack :: n in done' || n in stack';
    forall m | m in seen
      ensures exists n: Node :: (n in done' || n in stack') && n.index < |lock| && MarkOf(lock, n) == m
    {
      var n: Node :| (n in done || n in stack) && n.index < |lock| && MarkOf(lock, n) == m;
      assert n in done' || n in stack';
    }
  }

  // The names of what was popped, and their versions.
  ghost predicate Records(lock: Lock, done: set<Node>, out: map<string, Version>) {
    && (forall n <- done :: n.index < |lock| && lock[n.index].name in out
                            && out[lock[n.index].name] == VersionOf(lock[n.index]))
    && (forall name <- out :: exists n <- done :: n.index < |lock| && lock[n.index].name == name)
  }

  ghost predicate NoneDangling(lock: Lock, done: set<Node>) {
    forall n, dep | n in done && n.index < |lock| && Demands(lock[n.index], n.extras, dep) :: exists k :: OnlyIndex(lock, k, dep)
  }

  // Every name listed is that of a reachable package, with its version.
  ghost predicate OnlyReachable(lock: Lock, root: Node, out: map<string, Version>) {
    forall name <- out :: exists n: Node ::
      Reachable(lock, root, n) && n.index < |lock| && lock[n.index].name == name && VersionOf(lock[n.index]) == out[name]
  }

  // Some reference of the lock, its marker true, is to that name, and a package that bears it, of
  // the version and the source the reference asks for, has that version.
  ghost predicate Referenced(lock: Lock, name: string, version: Version) {
    exists p, dep, target | p in lock && target in lock ::
      && dep in AllDeps(p) && dep.marker && dep.name == name && target.name == name
      && (dep.version.Some? ==> target.version == dep.version)
      && (dep.source.Some? ==> target.source == dep.source.value)
      && version == if target.version.Some? then target.version.value else Version("", None)
  }

  function AllDeps(p: Package): set<Dep> {
    (set d | d in p.deps) + (set e, d | e in p.optional && d in p.optional[e] :: d)
  }

  lemma ListedIsReferenced(lock: Lock, root: Node, out: map<string, Version>, name: string)
    requires OnlyReachable(lock, root, out) && name in out && root.index < |lock| && name != lock[root.index].name
    ensures Referenced(lock, name, out[name])
  {
    var n: Node :| Reachable(lock, root, n) && n.index < |lock| && lock[n.index].name == name && VersionOf(lock[n.index]) == out[name];
    hide Reachable;
    ReachedIff(lock, root, n);
    var a, dep :| Reachable(lock, root, a) && Leads(lock, a, dep, n);
    assert lock[a.index] in lock && lock[n.index] in lock;
  }

  /** `prescrits`, from the root. On every lock it ends, refuses only inconsistent ones and lists
      only what is reachable, each name but the project's one that a reference with a true marker asks
      for; where name and version identify a package, it refuses exactly the
      inconsistent locks, and otherwise returns the closure. */
  method Prescribed(lock: Lock, index: nat, extras: set<string>) returns (r: Result<map<string, Version>>)
    requires index < |lock|
    ensures r.Unreadable? ==> !Consistent(lock, Node(index, extras))
    ensures r.Ok? ==> OnlyReachable(lock, Node(index, extras), r.value)
    ensures Identified(lock) ==> (r.Ok? <==> Consistent(lock, Node(index, extras)))
    ensures Identified(lock) && r.Ok? ==> IsClosure(lock, Node(index, extras), r.value)
    ensures r.Ok? ==> forall name <- r.value :: name == lock[index].name || Referenced(lock, name, r.value[name])
  {
    ghost var root := Node(index, extras);
    ReachableRoot(lock, root);
    var out: map<string, Version> := map[];
    var seen: set<Mark> := {};
    var stack := [Node(index, extras)];
    ghost var done: set<Node> := {};
    WalkStarts(lock, root);
    hide *;
    while stack != []
      invariant OnWalk(lock, root, done, stack, seen, out)
      decreases |AllMarks(lock) - seen|, |stack|
    {
      var ok;
      ok, done, stack, seen, out := WalkOne(lock, root, done, stack, seen, out);
      if !ok {
        return Unreadable;
      }
    }
    WalkEnds(lock, root, done, seen, out);
    forall name | name in out && name != lock[index].name
      ensures Referenced(lock, name, out[name])
    {
      ListedIsReferenced(lock, root, out, name);
    }
    return Ok(out);
  }

  // One package popped, recorded and followed.
  method WalkOne(lock: Lock, ghost root: Node, ghost done: set<Node>, stack: seq<Node>, seen: set<Mark>, out: map<string, Version>)
    returns (ok: bool, ghost done': set<Node>, stack': seq<Node>, seen': set<Mark>, out': map<string, Version>)
    requires OnWalk(lock, root, done, stack, seen, out) && stack != []
    ensures !ok ==> !Consistent(lock, root)
    ensures ok ==> OnWalk(lock, root, done', stack', seen', out')
    ensures ok ==> |AllMarks(lock) - seen'| < |AllMarks(lock) - seen| || (|AllMarks(lock) - seen'| == |AllMarks(lock) - seen| && |stack'| < |stack|)
  {
    hide Walking, Followed, FollowedBut, AllOnTheirWay, Records, NoneDangling, AllMarks, Consistent, Dangling, Clashing, Reachable, Identified;
    var node := stack[|stack| - 1];
    assert node in stack;
    PopKeeps(lock, root, done, stack, seen);
    Walked(lock, root, done, stack, seen, node);
    var p := lock[node.index];
    stack', seen', out', done' := stack[..|stack| - 1], seen, out, done + {node};
    if p.name in out && out[p.name] != VersionOf(p) {
      ClashFound(lock, root, done, out, node);
      Inconsistent(lock, root);
      ok := false;
      return;
    }
    RecordsOn(lock, done, out, node);
    out' := out[p.name := VersionOf(p)];
    ghost var before := stack';
    ok, stack', seen' := PushTargets(lock, root, node, done', stack', seen');
    if !ok {
      Inconsistent(lock, root);
      return;
    }
    FollowedOn(lock, done, node, before, stack');
    MarksBounded(lock, root, done', stack', seen');
    SeenGrows(AllMarks(lock), seen, seen');
  }

  // What every step of the walk keeps.
  ghost predicate OnWalk(lock: Lock, root: Node, done: set<Node>, stack: seq<Node>, seen: set<Mark>, out: map<string, Version>) {
    Walking(lock, root, done, stack, seen) && Followed(lock, done, stack) && Records(lock, done, out) && NoneDangling(lock, done)
  }

  lemma WalkEnds(lock: Lock, root: Node, done: set<Node>, seen: set<Mark>, out: map<string, Version>)
    requires OnWalk(lock, root, done, [], seen, out)
    ensures OnlyReachable(lock, root, out)
    ensures Identified(lock) ==> Consistent(lock, root) && IsClosure(lock, root, out)
  {
    ListedAreReachable(lock, root, done, seen, out);
    if Identified(lock) {
      WalkComplete(lock, root, done, seen, out);
    }
  }

  lemma MarksBounded(lock: Lock, root: Node, done: set<Node>, stack: seq<Node>, seen: set<Mark>)
    requires Walking(lock, root, done, stack, seen)
    ensures seen <= AllMarks(lock)
  {
  }

  lemma WalkStarts(lock: Lock, root: Node)
    requires Reachable(lock, root, root) && root.index < |lock|
    ensures OnWalk(lock, root, {}, [root], {}, map[])
  {
  }

  lemma Inconsistent(lock: Lock, root: Node)
    requires Dangling(lock, root) || Clashing(lock, root)
    ensures !Consistent(lock, root)
  {
  }

  lemma RecordsOn(lock: Lock, done: set<Node>, out: map<string, Version>, node: Node)
    requires Records(lock, done, out) && node.index < |lock|
    requires lock[node.index].name in out ==> out[lock[node.index].name] == VersionOf(lock[node.index])
    ensures Records(lock, done + {node}, out[lock[node.index].name := VersionOf(lock[node.index])])
  {
    var out' := out[lock[node.index].name := VersionOf(lock[node.index])];
    forall name | name in out'
      ensures exists n :: n in done + {node} && n.index < |lock| && lock[n.index].name == name
    {
      if name in out {
        var n :| n in done && n.index < |lock| && lock[n.index].name == name;
        assert n in done + {node};
      } else {
        assert node in done + {node};
      }
    }
  }

  lemma SeenGrows(all: set<Mark>, before: set<Mark>, after: set<Mark>)
    requires before <= after <= all
    ensures |all - after| == |all| - |after| && |all - before| == |all| - |before|
    ensures |before| <= |after| && |all - after| <= |all - before|
  {
    SizeGrows(before, after);
    assert all == after + (all - after) && all == before + (all - before);
  }

  lemma ClashFound(lock: Lock, root: Node, done: set<Node>, out: map<string, Version>, node: Node)
    requires Records(lock, done, out) && (forall n <- done :: Reachable(lock, root, n))
    requires Reachable(lock, root, node) && node.index < |lock|
    requires lock[node.index].name in out && out[lock[node.index].name] != VersionOf(lock[node.index])
    ensures Clashing(lock, root)
  {
    var other :| other in done && other.index < |lock| && lock[other.index].name == lock[node.index].name;
  }

  lemma ListedAreReachable(lock: Lock, root: Node, done: set<Node>, seen: set<Mark>, out: map<string, Version>)
    requires Walking(lock, root, done, [], seen) && Records(lock, done, out)
    ensures OnlyReachable(lock, root, out)
  {
    hide Reachable;
    forall name | name in out
      ensures exists n: Node :: Reachable(lock, root, n) && n.index < |lock| && lock[n.index].name == name && VersionOf(lock[n.index]) == out[name]
    {
      var n :| n in done && n.index < |lock| && lock[n.index].name == name;
    }
  }

  // Nothing is left on the stack: what was popped is what is reachable.
  lemma WalkComplete(lock: Lock, root: Node, done: set<Node>, seen: set<Mark>, out: map<string, Version>)
    requires Identified(lock) && Walking(lock, root, done, [], seen)
    requires Followed(lock, done, []) && Records(lock, done, out) && NoneDangling(lock, done)
    ensures Consistent(lock, root) && IsClosure(lock, root, out)
  {
    forall n: Node | Reachable(lock, root, n)
      ensures n in done
    {
      var path: seq<Node> :| IsPath(lock, root, path, n);
      ClosedHoldsPath(lock, root, done, path, |path| - 1);
    }
  }

  method FindRoot(lock: Lock) returns (k: Option<nat>)
    ensures k.Some? ==> OnlyRoot(lock, k.value)
    ensures k.None? ==> forall j :: !OnlyRoot(lock, j)
    ensures k.Some? ==> forall j | 0 <= j < |lock| ::
              j == k.value <==> lock[j].source == Editable(".") || lock[j].source == Virtual(".")
  {
    var roots: seq<nat> := [];
    for i := 0 to |lock|
      invariant forall a | 0 <= a < |roots| :: roots[a] < i && IsRoot(lock[roots[a]])
      invariant forall j | 0 <= j < i && IsRoot(lock[j]) :: j in roots
      invariant forall a, b | 0 <= a < b < |roots| :: roots[a] < roots[b]
    {
      if IsRoot(lock[i]) {
        roots := roots + [i];
      }
    }
    if |roots| == 1 {
      return Some(roots[0]);
    }
    forall j: nat
      ensures !OnlyRoot(lock, j)
    {
      if j < |lock| && IsRoot(lock[j]) {
        var a :| 0 <= a < |roots| && roots[a] == j;
        var b := if a == 0 then 1 else 0;
        assert roots[b] != j;
      }
    }
    return None;
  }

  /** `prescrits` as a whole: one package is the project, and the walk starts from it. */
  method ReadLock(lock: Lock, extras: set<string>) returns (r: Result<map<string, Version>>)
    ensures r.Unreadable? ==> !exists k :: OnlyRoot(lock, k) && Consistent(lock, Node(k, extras))
    ensures r.Ok? ==> exists k :: OnlyRoot(lock, k) && OnlyReachable(lock, Node(k, extras), r.value)
    ensures Identified(lock) ==> (r.Ok? <==> exists k :: OnlyRoot(lock, k) && Consistent(lock, Node(k, extras)))
    ensures Identified(lock) && r.Ok? ==> exists k :: OnlyRoot(lock, k) && IsClosure(lock, Node(k, extras), r.value)
  {
    var root := FindRoot(lock);
    if root.None? {
      return Unreadable;
    }
    forall k: nat | OnlyRoot(lock, k)
      ensures k == root.value
    {
      assert IsRoot(lock[k]);
    }
    r := Prescribed(lock, root.value, extras);
  }
}

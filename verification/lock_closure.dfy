// What a lock file prescribes (oto_mcp/empreinte_deps.py): the closure of the project over
// packages and extras.

module LockClosure {
  import opened Options

  /** A version as it is written, and what it reads as under PEP 440 when it does. */
  datatype Version = Version(text: string, parsed: Option<seq<int>>)

  datatype Source = Unset | Registry(url: string) | Git(url: string) | Editable(path: string) | Virtual(path: string)

  /** A reference to a package. `marker` is the value of its marker for this interpreter;
      names are canonical. */
  datatype Dep = Dep(name: string, version: Option<Version>, source: Option<Source>, extras: set<string>, marker: bool)

  datatype Package = Package(name: string, version: Option<Version>, source: Source, deps: seq<Dep>,
                             optional: map<string, seq<Dep>>)

  type Lock = seq<Package>

  function VersionOf(p: Package): Version {
    if p.version.Some? then p.version.value else Version("", None)
  }

  predicate IsRoot(p: Package) {
    p.source == Editable(".") || p.source == Virtual(".")
  }

  predicate Candidate(p: Package, dep: Dep) {
    && p.name == dep.name
    && (dep.version.Some? ==> p.version == dep.version)
    && (dep.source.Some? ==> p.source == dep.source.value)
  }

  predicate OnlyIndex(lock: Lock, k: nat, dep: Dep) {
    k < |lock| && forall j | 0 <= j < |lock| :: Candidate(lock[j], dep) <==> j == k
  }

  predicate OnlyRoot(lock: Lock, k: nat) {
    k < |lock| && forall j | 0 <= j < |lock| :: IsRoot(lock[j]) <==> j == k
  }

  // A name and a version identify a package of the lock.
  predicate Identified(lock: Lock) {
    forall j, k | 0 <= j < k < |lock| :: lock[j].name != lock[k].name || VersionOf(lock[j]) != VersionOf(lock[k])
  }

  // ---- reachability, as it is meant

  /** A package to install, with the extras demanded of it. */
  datatype Node = Node(index: nat, extras: set<string>)

  // `dep` counts for the package under these extras.
  predicate Demands(p: Package, extras: set<string>, dep: Dep) {
    dep.marker && (dep in p.deps || exists e <- extras :: e in p.optional && dep in p.optional[e])
  }

  predicate Edge(lock: Lock, a: Node, b: Node) {
    && a.index < |lock|
    && exists dep <- DepsOf(lock[a.index]) ::
         Demands(lock[a.index], a.extras, dep) && OnlyIndex(lock, b.index, dep) && b.extras == dep.extras
  }

  function DepsOf(p: Package): set<Dep> {
    (set d | d in p.deps) + (set e, d | e in p.optional && d in p.optional[e] :: d)
  }

  predicate IsPath(lock: Lock, root: Node, path: seq<Node>, node: Node) {
    && path != [] && path[0] == root && path[|path| - 1] == node
    && root.index < |lock|
    && forall k | 0 <= k < |path| - 1 :: Edge(lock, path[k], path[k + 1])
  }

  ghost predicate Reachable(lock: Lock, root: Node, node: Node) {
    exists path :: IsPath(lock, root, path, node)
  }

  // A reachable reference that no package of the lock, or several, answer to.
  ghost predicate Dangling(lock: Lock, root: Node) {
    exists node: Node, dep: Dep ::
      Reachable(lock, root, node) && node.index < |lock| && Demands(lock[node.index], node.extras, dep)
      && forall k :: !OnlyIndex(lock, k, dep)
  }

  // A name reached in two versions.
  ghost predicate Clashing(lock: Lock, root: Node) {
    exists a: Node, b: Node ::
      Reachable(lock, root, a) && Reachable(lock, root, b) && a.index < |lock| && b.index < |lock|
      && lock[a.index].name == lock[b.index].name && VersionOf(lock[a.index]) != VersionOf(lock[b.index])
  }

  ghost predicate Consistent(lock: Lock, root: Node) {
    !Dangling(lock, root) && !Clashing(lock, root)
  }

  // The versions of the reachable packages, by name, and nothing else.
  ghost predicate IsClosure(lock: Lock, root: Node, out: map<string, Version>) {
    && (forall node: Node | Reachable(lock, root, node) ::
          node.index < |lock| && lock[node.index].name in out
          && out[lock[node.index].name] == VersionOf(lock[node.index]))
    && (forall name <- out :: exists node: Node ::
          Reachable(lock, root, node) && node.index < |lock| && lock[node.index].name == name)
  }

  lemma PathIndices(lock: Lock, root: Node, path: seq<Node>, node: Node)
    requires IsPath(lock, root, path, node)
    ensures forall k | 0 <= k < |path| :: path[k].index < |lock|
  {
    forall k | 0 <= k < |path|
      ensures path[k].index < |lock|
    {
      if k > 0 {
        assert Edge(lock, path[k - 1], path[k]);
      }
    }
  }

  lemma ReachableRoot(lock: Lock, root: Node)
    requires root.index < |lock|
    ensures Reachable(lock, root, root)
  {
    assert IsPath(lock, root, [root], root);
  }

  lemma ReachableStep(lock: Lock, root: Node, a: Node, b: Node)
    requires Reachable(lock, root, a) && Edge(lock, a, b)
    ensures Reachable(lock, root, b)
  {
    var path: seq<Node> :| IsPath(lock, root, path, a);
    assert IsPath(lock, root, path + [b], b);
  }

  // A set closed under the edges that holds the root holds what is reachable.
  lemma {:induction false} ClosedHoldsPath(lock: Lock, root: Node, done: set<Node>, path: seq<Node>, k: nat)
    requires path != [] && path[0] == root && root in done && k < |path|
    requires forall i | 0 <= i < |path| - 1 :: Edge(lock, path[i], path[i + 1])
    requires forall a: Node, b: Node | a in done && Edge(lock, a, b) :: b in done
    ensures path[k] in done
  {
    if k > 0 {
      ClosedHoldsPath(lock, root, done, path, k - 1);
    }
  }

  /** More extras, more packages: a reading that succeeds with some extras succeeds with
      fewer, and prescribes the same versions for what those reach. */
  lemma ClosureIsMonotone(lock: Lock, index: nat, few: set<string>, many: set<string>)
    requires index < |lock| && few <= many && Consistent(lock, Node(index, many))
    ensures Consistent(lock, Node(index, few))
    ensures forall small, big | IsClosure(lock, Node(index, few), small) && IsClosure(lock, Node(index, many), big) ::
              forall name <- small :: name in big && big[name] == small[name]
  {
    var a, b := Node(index, few), Node(index, many);
    ReachableRoot(lock, b);
    forall node: Node | Reachable(lock, a, node)
      ensures node.index < |lock| && exists up: Node :: Reachable(lock, b, up) && up.index == node.index && node.extras <= up.extras
    {
      var up := ReachableWithMore(lock, index, few, many, node);
    }
    forall node: Node, dep: Dep, up: Node | node.index < |lock| && up.index == node.index && node.extras <= up.extras
                                            && Demands(lock[node.index], node.extras, dep)
      ensures Demands(lock[up.index], up.extras, dep)
    {
    }
  }

  // ---- reachability, from the references alone

  // One reference of a package, its marker true, taken under the extras demanded of it, that one
  // package alone answers to.
  predicate Leads(lock: Lock, a: Node, dep: Dep, b: Node) {
    && a.index < |lock| && b.index < |lock| && b.extras == dep.extras && dep.marker
    && (dep in lock[a.index].deps || exists e <- a.extras :: e in lock[a.index].optional && dep in lock[a.index].optional[e])
    && forall j | 0 <= j < |lock| ::
         j == b.index
         <==> && lock[j].name == dep.name
              && (dep.version.Some? ==> lock[j].version == dep.version)
              && (dep.source.Some? ==> lock[j].source == dep.source.value)
  }

  lemma EdgeIffLeads(lock: Lock, a: Node, b: Node)
    ensures Edge(lock, a, b) <==> exists dep :: Leads(lock, a, dep, b)
  {
    if dep :| Leads(lock, a, dep, b) {
      assert Demands(lock[a.index], a.extras, dep) && OnlyIndex(lock, b.index, dep) && dep in DepsOf(lock[a.index]);
    }
    if Edge(lock, a, b) {
      var dep :| dep in DepsOf(lock[a.index]) && Demands(lock[a.index], a.extras, dep) && OnlyIndex(lock, b.index, dep) && b.extras == dep.extras;
      assert Leads(lock, a, dep, b);
    }
  }

  /** What is reached: the project with its extras, and from what is reached, the one package a
      reference leads to, with the extras it asks for. Nothing else. */
  lemma ReachedIff(lock: Lock, root: Node, n: Node)
    requires root.index < |lock|
    ensures Reachable(lock, root, n) <==> n == root || exists a, dep :: Reachable(lock, root, a) && Leads(lock, a, dep, n)
  {
    hide Edge, Leads;
    forall a: Node
      ensures Edge(lock, a, n) <==> exists dep :: Leads(lock, a, dep, n)
    {
      EdgeIffLeads(lock, a, n);
    }
    ReachableRoot(lock, root);
    if a, dep :| Reachable(lock, root, a) && Leads(lock, a, dep, n) {
      ReachableStep(lock, root, a, n);
    }
    if Reachable(lock, root, n) && n != root {
      var path: seq<Node> :| IsPath(lock, root, path, n);
      var before := path[..|path| - 1];
      assert IsPath(lock, root, before, before[|before| - 1]);
      assert Edge(lock, path[|path| - 2], path[|path| - 1]);
    }
  }

  // The references whose marker is true.
  function Marked(deps: seq<Dep>): (r: seq<Dep>)
    ensures forall dep :: dep in r <==> dep in deps && dep.marker
  {
    if deps == [] then [] else (if deps[0].marker then [deps[0]] else []) + Marked(deps[1..])
  }

  // The lock without the references whose marker is false.
  function Trimmed(lock: Lock): (r: Lock)
    ensures |r| == |lock|
    ensures forall k | 0 <= k < |lock| ::
              r[k] == lock[k].(deps := Marked(lock[k].deps), optional := map e | e in lock[k].optional :: Marked(lock[k].optional[e]))
  {
    seq(|lock|, k requires 0 <= k < |lock| =>
      lock[k].(deps := Marked(lock[k].deps), optional := map e | e in lock[k].optional :: Marked(lock[k].optional[e])))
  }

  lemma TrimmedLeads(lock: Lock, a: Node, dep: Dep, b: Node)
    ensures Leads(lock, a, dep, b) <==> Leads(Trimmed(lock), a, dep, b)
  {
    if a.index < |lock| {
      var p, q := lock[a.index], Trimmed(lock)[a.index];
      assert forall e :: e in p.optional <==> e in q.optional;
      assert forall e | e in p.optional && dep.marker :: dep in p.optional[e] <==> dep in q.optional[e];
    }
  }

  lemma TrimmedEdge(lock: Lock, a: Node, b: Node)
    ensures Edge(lock, a, b) <==> Edge(Trimmed(lock), a, b)
  {
    EdgeIffLeads(lock, a, b);
    EdgeIffLeads(Trimmed(lock), a, b);
    forall dep {
      TrimmedLeads(lock, a, dep, b);
    }
  }

  lemma TrimmedPath(lock: Lock, root: Node, path: seq<Node>, n: Node)
    ensures IsPath(lock, root, path, n) <==> IsPath(Trimmed(lock), root, path, n)
  {
    forall k | 0 <= k < |path| - 1
      ensures Edge(lock, path[k], path[k + 1]) <==> Edge(Trimmed(lock), path[k], path[k + 1])
    {
      TrimmedEdge(lock, path[k], path[k + 1]);
    }
  }

  lemma TrimmedReach(lock: Lock, root: Node, n: Node)
    ensures Reachable(lock, root, n) <==> Reachable(Trimmed(lock), root, n)
  {
    hide IsPath;
    forall path: seq<Node> {
      TrimmedPath(lock, root, path, n);
    }
  }

  lemma TrimmedDemands(lock: Lock, n: Node, dep: Dep)
    requires n.index < |lock|
    ensures Demands(lock[n.index], n.extras, dep) <==> Demands(Trimmed(lock)[n.index], n.extras, dep)
    ensures forall k :: OnlyIndex(lock, k, dep) <==> OnlyIndex(Trimmed(lock), k, dep)
  {
    var p, q := lock[n.index], Trimmed(lock)[n.index];
    assert forall e :: e in p.optional <==> e in q.optional;
    assert forall j | 0 <= j < |lock| :: Candidate(lock[j], dep) <==> Candidate(Trimmed(lock)[j], dep);
  }

  lemma TrimmedDangles(lock: Lock, root: Node)
    ensures Dangling(lock, root) <==> Dangling(Trimmed(lock), root)
  {
    hide Reachable, Demands, OnlyIndex;
    forall n: Node {
      TrimmedReach(lock, root, n);
    }
    forall n: Node, dep: Dep | n.index < |lock| {
      TrimmedDemands(lock, n, dep);
    }
  }

  lemma TrimmedConsistent(lock: Lock, root: Node)
    ensures Dangling(lock, root) || Clashing(lock, root) <==> !Consistent(lock, root)
    ensures Dangling(Trimmed(lock), root) || Clashing(Trimmed(lock), root) <==> !Consistent(Trimmed(lock), root)
  {
  }

  lemma TrimmedClashes(lock: Lock, root: Node)
    ensures Clashing(lock, root) <==> Clashing(Trimmed(lock), root)
  {
    hide Reachable;
    forall n: Node {
      TrimmedReach(lock, root, n);
    }
    TrimmedNames(lock);
    hide VersionOf, Trimmed;
  }

  lemma TrimmedCloses(lock: Lock, root: Node, out: map<string, Version>)
    ensures IsClosure(lock, root, out) <==> IsClosure(Trimmed(lock), root, out)
  {
    hide Reachable;
    forall n: Node {
      TrimmedReach(lock, root, n);
    }
    TrimmedNames(lock);
    hide VersionOf, Trimmed;
  }

  /** A reference whose marker is false counts for nothing: without these the same is reached, as
      consistently, with the same closure. */
  lemma FalseMarkersCountForNothing(lock: Lock, root: Node, out: map<string, Version>)
    ensures forall n: Node :: Reachable(lock, root, n) <==> Reachable(Trimmed(lock), root, n)
    ensures Consistent(lock, root) <==> Consistent(Trimmed(lock), root)
    ensures IsClosure(lock, root, out) <==> IsClosure(Trimmed(lock), root, out)
  {
    hide *;
    forall n: Node {
      TrimmedReach(lock, root, n);
    }
    TrimmedDangles(lock, root);
    TrimmedClashes(lock, root);
    TrimmedConsistent(lock, root);
    TrimmedCloses(lock, root, out);
  }

  lemma TrimmedNames(lock: Lock)
    ensures forall k | 0 <= k < |lock| :: Trimmed(lock)[k].name == lock[k].name && VersionOf(Trimmed(lock)[k]) == VersionOf(lock[k])
  {
  }

  lemma ReachableWithMore(lock: Lock, index: nat, few: set<string>, many: set<string>, node: Node) returns (up: Node)
    requires index < |lock| && few <= many && Reachable(lock, Node(index, few), node)
    ensures Reachable(lock, Node(index, many), up) && up.index == node.index && node.extras <= up.extras && node.index < |lock|
  {
    var a, b := Node(index, few), Node(index, many);
    var path: seq<Node> :| IsPath(lock, a, path, node);
    PathIndices(lock, a, path, node);
    if |path| == 1 {
      ReachableRoot(lock, b);
      up := b;
    } else {
      var dep :| dep in DepsOf(lock[index]) && Demands(lock[index], few, dep) && OnlyIndex(lock, path[1].index, dep)
                 && path[1].extras == dep.extras;
      assert Demands(lock[index], many, dep);
      assert Edge(lock, b, path[1]);
      var more := [b] + path[1..];
      forall k | 0 <= k < |more| - 1
        ensures Edge(lock, more[k], more[k + 1])
      {
        assert k > 0 ==> more[k] == path[k] && more[k + 1] == path[k + 1];
      }
      assert IsPath(lock, b, more, node);
      up := node;
    }
  }
}

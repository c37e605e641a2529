// Is what is installed exactly what the lock prescribes, for one set of the project's
// extras? (oto_mcp/empreinte_deps.py: `ecarts`, `_jeux`, `conformite`.)

module LockConformity {
  import opened Options
  import opened FiniteSets
  import opened LockClosure
  import opened LockWalk

  type Installed = map<string, set<Version>>

  // The packages a virtual environment starts with.
  const BOOTSTRAP: set<string> := {"pip", "setuptools", "wheel"}

  predicate SameVersion(a: Version, b: Version) {
    if a.parsed.Some? && b.parsed.Some? then a.parsed == b.parsed else a.text == b.text
  }

  /** The commits of what comes from git: installed, and taken by the lock. */
  datatype Commits = Commits(installed: map<string, set<string>>, locked: map<string, string>)

  // ---- one comparison

  datatype Deviation =
    | Missing(name: string, expected: Version)
    | NotLocked(name: string, found: set<Version>)
    | WrongVersion(name: string, found: set<Version>, expected: Version)
    | WrongCommit(name: string, commits: set<string>, commit: string)

  // What is meant by "exactly what the lock prescribes".
  predicate Matches(installed: Installed, prescribed: map<string, Version>, commits: Commits) {
    && (forall name <- prescribed ::
          && name in installed
          && (exists v <- installed[name] :: installed[name] == {v} && SameVersion(v, prescribed[name]))
          && (name in commits.locked ==>
                name in commits.installed && commits.installed[name] == {commits.locked[name]}))
    && (forall name <- installed :: name in prescribed || name in BOOTSTRAP)
  }

  predicate RightVersion(found: set<Version>, expected: Version) {
    |found| == 1 && forall v <- found :: SameVersion(v, expected)
  }

  function DeviationOf(name: string, installed: Installed, prescribed: map<string, Version>, commits: Commits)
    : Option<Deviation>
    requires name in installed || name in prescribed
  {
    if name !in installed then Some(Missing(name, prescribed[name]))
    else if name !in prescribed then
      if name in BOOTSTRAP then None else Some(NotLocked(name, installed[name]))
    else if !RightVersion(installed[name], prescribed[name]) then
      Some(WrongVersion(name, installed[name], prescribed[name]))
    else if name in commits.locked
            && !(name in commits.installed && commits.installed[name] == {commits.locked[name]}) then
      Some(WrongCommit(name, if name in commits.installed then commits.installed[name] else {}, commits.locked[name]))
    else None
  }

  lemma RightVersionIff(found: set<Version>, expected: Version)
    ensures RightVersion(found, expected) <==> exists v <- found :: found == {v} && SameVersion(v, expected)
  {
    if |found| == 1 {
      var v := SomeElement(found);
      SubsetOfSameSize({v}, found);
    }
  }

  /** No deviation, for any name, exactly when the installed set is the prescribed one. */
  lemma NoDeviationIff(installed: Installed, prescribed: map<string, Version>, commits: Commits)
    ensures Matches(installed, prescribed, commits)
            <==> forall name | name in installed.Keys + prescribed.Keys ::
                   DeviationOf(name, installed, prescribed, commits).None?
  {
    forall name | name in installed && name in prescribed {
      RightVersionIff(installed[name], prescribed[name]);
    }
    if forall name | name in installed.Keys + prescribed.Keys :: DeviationOf(name, installed, prescribed, commits).None? {
      forall name | name in prescribed
        ensures name in installed
        ensures RightVersion(installed[name], prescribed[name])
        ensures name in commits.locked ==> name in commits.installed && commits.installed[name] == {commits.locked[name]}
      {
        assert name in installed.Keys + prescribed.Keys;
      }
      forall name | name in installed
        ensures name in prescribed || name in BOOTSTRAP
      {
        assert name in installed.Keys + prescribed.Keys;
      }
    }
  }

  /** `ecarts`: each name that deviates is reported, with its deviation, and nothing else. */
  method Deviations(installed: Installed, prescribed: map<string, Version>, commits: Commits) returns (out: seq<Deviation>)
    ensures forall d :: d in out <==> exists name | name in installed.Keys + prescribed.Keys ::
                                        DeviationOf(name, installed, prescribed, commits) == Some(d)
    ensures out == [] <==> Matches(installed, prescribed, commits)
    ensures forall d :: d in out <==> Deviates(installed, prescribed, commits, d)
  {
    out := [];
    var todo := installed.Keys + prescribed.Keys;
    ghost var all, done := todo, {};
    while todo != {}
      invariant Split(all, todo, done)
      invariant forall d :: d in out <==> exists name <- done ::
                              name in all && DeviationOf(name, installed, prescribed, commits) == Some(d)
      decreases todo
    {
      ghost var some := SomeElement(todo);
      var name :| name in todo;
      SplitStep(all, todo, done, name);
      var d := DeviationOf(name, installed, prescribed, commits);
      if d.Some? {
        out := out + [d.value];
      }
      todo, done := todo - {name}, done + {name};
    }
    SplitEnd(all, done);
    NoDeviationIff(installed, prescribed, commits);
    if out != [] {
      assert out[0] in out;
    }
    forall d: Deviation
      ensures d in out <==> Deviates(installed, prescribed, commits, d)
    {
      DeviationIff(installed, prescribed, commits, d);
    }
    hide DeviationOf, Matches, SameVersion, RightVersion;
  }

  // One version under PEP 440 when both read, else one text.
  predicate IsVersion(a: Version, b: Version) {
    (a.parsed.Some? && b.parsed.Some? && a.parsed == b.parsed) || ((a.parsed.None? || b.parsed.None?) && a.text == b.text)
  }

  // What each deviation says of the two lists.
  ghost predicate Deviates(installed: Installed, prescribed: map<string, Version>, commits: Commits, d: Deviation) {
    match d
    case Missing(name, v) => name in prescribed && name !in installed && v == prescribed[name]
    case NotLocked(name, found) =>
      && name in installed && name !in prescribed && found == installed[name]
      && name != "pip" && name != "setuptools" && name != "wheel"
    case WrongVersion(name, found, v) =>
      && name in installed && name in prescribed && found == installed[name] && v == prescribed[name]
      && !exists w <- found :: found == {w} && IsVersion(w, v)
    case WrongCommit(name, found, commit) =>
      && name in installed && name in prescribed && name in commits.locked && commit == commits.locked[name]
      && (exists w <- installed[name] :: installed[name] == {w} && IsVersion(w, prescribed[name]))
      && found == (if name in commits.installed then commits.installed[name] else {}) && found != {commit}
  }

  lemma DeviationIff(installed: Installed, prescribed: map<string, Version>, commits: Commits, d: Deviation)
    ensures (exists name | name in installed.Keys + prescribed.Keys :: DeviationOf(name, installed, prescribed, commits) == Some(d))
            <==> Deviates(installed, prescribed, commits, d)
  {
    var name := d.name;
    if name in installed && name in prescribed {
      RightVersionIff(installed[name], prescribed[name]);
    }
    assert forall a, b :: SameVersion(a, b) <==> IsVersion(a, b);
    hide SameVersion, IsVersion;
    assert Deviates(installed, prescribed, commits, d) ==>
        name in installed.Keys + prescribed.Keys && DeviationOf(name, installed, prescribed, commits) == Some(d);
  }

  // ---- the sets of extras

  // `itertools.combinations`: the subsets of `n` of the extras, in order.
  function Combinations(extras: seq<string>, n: nat): seq<set<string>> {
    if n == 0 then [{}]
    else if extras == [] then []
    else WithEach(extras[0], Combinations(extras[1..], n - 1)) + Combinations(extras[1..], n)
  }

  function WithEach(extra: string, sets: seq<set<string>>): (r: seq<set<string>>)
    ensures |r| == |sets| && forall k | 0 <= k < |sets| :: r[k] == sets[k] + {extra}
  {
    seq(|sets|, k requires 0 <= k < |sets| => sets[k] + {extra})
  }

  // All of them, the smaller first.
  function SetsUpTo(extras: seq<string>, n: nat): seq<set<string>> {
    (if n == 0 then [] else SetsUpTo(extras, n - 1)) + Combinations(extras, n)
  }

  function AllSets(extras: seq<string>): seq<set<string>> {
    SetsUpTo(extras, |extras|)
  }

  predicate Distinct(extras: seq<string>) {
    forall j, k | 0 <= j < k < |extras| :: extras[j] != extras[k]
  }

  function Elements(extras: seq<string>): set<string> {
    set e | e in extras
  }

  lemma {:induction false} CombinationsExact(extras: seq<string>, n: nat, j: set<string>)
    requires Distinct(extras)
    ensures j in Combinations(extras, n) <==> j <= Elements(extras) && |j| == n
  {
    if n == 0 {
      assert Combinations(extras, n) == [{}];
    } else if extras == [] {
      assert j <= {} ==> j == {};
    } else {
      var first, rest := extras[0], extras[1..];
      var smaller := Combinations(rest, n - 1);
      CombinationsExact(rest, n, j);
      CombinationsExact(rest, n - 1, j - {first});
      assert first !in Elements(rest);
      assert Combinations(extras, n) == WithEach(first, smaller) + Combinations(rest, n);
      WithFirst(extras, n, j);
      hide Combinations, WithEach, Elements, Distinct;
      forall k | 0 <= k < |smaller|
        ensures first !in smaller[k]
      {
        CombinationsExact(rest, n - 1, smaller[k]);
      }
      WithEachExact(first, smaller, j);
    }
  }

  lemma WithEachExact(extra: string, sets: seq<set<string>>, j: set<string>)
    requires forall k | 0 <= k < |sets| :: extra !in sets[k]
    ensures j in WithEach(extra, sets) <==> extra in j && j - {extra} in sets
  {
    var with := WithEach(extra, sets);
    if k :| 0 <= k < |with| && with[k] == j {
      assert j - {extra} == sets[k];
    }
    if extra in j && j - {extra} in sets {
      var k :| 0 <= k < |sets| && sets[k] == j - {extra};
      assert with[k] == j;
    }
  }

  // A subset of the extras, by whether it holds the first of them.
  lemma WithFirst(extras: seq<string>, n: nat, j: set<string>)
    requires Distinct(extras) && extras != [] && n > 0
    ensures
      var first, rest := extras[0], Elements(extras[1..]);
      j <= Elements(extras) && |j| == n
      <==> if first in j then j - {first} <= rest && |j - {first}| == n - 1 else j <= rest && |j| == n
    ensures extras[0] in j ==> !(j <= Elements(extras[1..]))
  {
    assert Elements(extras) == Elements(extras[1..]) + {extras[0]};
    assert extras[0] !in Elements(extras[1..]);
  }

  lemma {:induction false} SetsUpToExact(extras: seq<string>, n: nat, j: set<string>)
    requires Distinct(extras)
    ensures j in SetsUpTo(extras, n) <==> j <= Elements(extras) && |j| <= n
  {
    CombinationsExact(extras, n, j);
    if n > 0 {
      SetsUpToExact(extras, n - 1, j);
    }
  }

  /** `_jeux` lists every set of declared extras, and nothing else. */
  lemma AllSetsAreTheSubsets(extras: seq<string>, j: set<string>)
    requires Distinct(extras)
    ensures j in AllSets(extras) <==> j <= Elements(extras)
  {
    SetsUpToExact(extras, |extras|, j);
    ElementsCount(extras);
    if j <= Elements(extras) {
      SizeGrows(j, Elements(extras));
    }
  }

  /** And lists them from the smallest up, starting with none. */
  lemma AllSetsGrow(extras: seq<string>)
    requires Distinct(extras)
    ensures |AllSets(extras)| > 0 && AllSets(extras)[0] == {}
    ensures forall j, k | 0 <= j < k < |AllSets(extras)| :: |AllSets(extras)[j]| <= |AllSets(extras)[k]|
  {
    NoExtraIsFirst(extras);
    SetsUpToGrow(extras, |extras|);
  }

  lemma {:induction false} NoExtraFirst(extras: seq<string>, n: nat)
    ensures |SetsUpTo(extras, n)| > 0 && SetsUpTo(extras, n)[0] == {}
  {
    if n > 0 {
      NoExtraFirst(extras, n - 1);
    }
  }

  lemma {:induction false} SetsUpToGrow(extras: seq<string>, n: nat)
    requires Distinct(extras)
    ensures forall j, k | 0 <= j < k < |SetsUpTo(extras, n)| :: |SetsUpTo(extras, n)[j]| <= |SetsUpTo(extras, n)[k]| <= n
  {
    var sets, last := if n == 0 then [] else SetsUpTo(extras, n - 1), Combinations(extras, n);
    if n > 0 {
      SetsUpToGrow(extras, n - 1);
    }
    var all := SetsUpTo(extras, n);
    assert all == sets + last;
    forall k | 0 <= k < |all|
      ensures |all[k]| <= n && (|sets| <= k ==> |all[k]| == n)
    {
      if k < |sets| {
        assert all[k] in sets;
        SetsUpToExact(extras, n - 1, all[k]);
      } else {
        assert all[k] in last;
        CombinationsExact(extras, n, all[k]);
      }
    }
  }

  lemma {:induction false} ElementsCount(extras: seq<string>)
    ensures |Elements(extras)| <= |extras|
  {
    if extras != [] {
      ElementsCount(extras[1..]);
      assert Elements(extras) == Elements(extras[1..]) + {extras[0]};
    }
  }

  // ---- the verdict

  // The lock reads with these extras, and what is installed is its closure.
  ghost predicate Conforms(lock: Lock, index: nat, extras: set<string>, installed: Installed, commits: Commits) {
    exists out :: Consistent(lock, Node(index, extras)) && IsClosure(lock, Node(index, extras), out)
                  && Matches(installed, out, commits)
  }

  lemma OneClosure(lock: Lock, root: Node, a: map<string, Version>, b: map<string, Version>)
    requires IsClosure(lock, root, a) && IsClosure(lock, root, b)
    ensures a == b
  {
    assert forall name <- a :: name in b && a[name] == b[name];
    assert forall name <- b :: name in a;
    SameMap(a, b);
  }

  datatype Verdict = Verdict(conforms: bool, deviations: seq<Deviation>)

  // Some set conforms, and those before it all read.
  ghost predicate SaysConforming(lock: Lock, index: nat, extras: seq<string>, installed: Installed, commits: Commits) {
    exists k | 0 <= k < |AllSets(extras)| ::
      && Conforms(lock, index, AllSets(extras)[k], installed, commits)
      && forall j | 0 <= j < k :: Consistent(lock, Node(index, AllSets(extras)[j]))
  }

  // Some set does not read, and those before it all read without conforming.
  ghost predicate SaysUnreadable(lock: Lock, index: nat, extras: seq<string>, installed: Installed, commits: Commits) {
    exists k | 0 <= k < |AllSets(extras)| :: FirstUnreadable(lock, index, extras, installed, commits, k)
  }

  ghost predicate FirstUnreadable(lock: Lock, index: nat, extras: seq<string>, installed: Installed, commits: Commits, k: nat)
    requires k < |AllSets(extras)|
  {
    && !Consistent(lock, Node(index, AllSets(extras)[k]))
    && forall j | 0 <= j < k ::
         Consistent(lock, Node(index, AllSets(extras)[j])) && !Conforms(lock, index, AllSets(extras)[j], installed, commits)
  }

  // The deviations of what is installed from one list of prescribed packages.
  ghost predicate AreDeviations(prescribed: map<string, Version>, installed: Installed, commits: Commits, out: seq<Deviation>) {
    forall d :: d in out <==> exists name | name in installed.Keys + prescribed.Keys ::
                                DeviationOf(name, installed, prescribed, commits) == Some(d)
  }

  // Those from the closure for these extras.
  ghost predicate DeviationsFor(lock: Lock, index: nat, extras: set<string>, installed: Installed, commits: Commits, out: seq<Deviation>) {
    exists prescribed :: IsClosure(lock, Node(index, extras), prescribed) && AreDeviations(prescribed, installed, commits, out)
  }

  // Those from a list of packages reachable with these extras.
  ghost predicate DeviationsAmong(lock: Lock, index: nat, extras: set<string>, installed: Installed, commits: Commits, out: seq<Deviation>) {
    exists prescribed :: OnlyReachable(lock, Node(index, extras), prescribed) && AreDeviations(prescribed, installed, commits, out)
  }

  // What is installed matches a list of packages reachable with one of the sets.
  ghost predicate MatchesSome(lock: Lock, index: nat, extras: seq<string>, installed: Installed, commits: Commits) {
    exists k, prescribed | 0 <= k < |AllSets(extras)| ::
      OnlyReachable(lock, Node(index, AllSets(extras)[k]), prescribed) && Matches(installed, prescribed, commits)
  }

  /** `conformite`: the sets of extras are tried in order; a set whose reading fails ends the
      whole call, unless an earlier one conforms; and a call that finds none reports the
      deviations of the set without extra. On a lock where name and version do not identify a
      package, an error still means a set that does not read, and the rest is about lists of
      reachable packages. */
  method Conformity(lock: Lock, index: nat, extras: seq<string>, installed: Installed, commits: Commits)
    returns (r: Result<Verdict>)
    requires index < |lock|
    ensures r.Ok? && r.value.conforms ==> r.value.deviations == [] && MatchesSome(lock, index, extras, installed, commits)
    ensures r.Ok? && !r.value.conforms ==>
              r.value.deviations != [] && DeviationsAmong(lock, index, {}, installed, commits, r.value.deviations)
    ensures r.Unreadable? ==> exists k | 0 <= k < |AllSets(extras)| :: !Consistent(lock, Node(index, AllSets(extras)[k]))
    ensures Identified(lock) ==> (r.Ok? && r.value.conforms <==> SaysConforming(lock, index, extras, installed, commits))
    ensures Identified(lock) ==> (r.Unreadable? <==> SaysUnreadable(lock, index, extras, installed, commits))
    ensures Identified(lock) && r.Ok? && !r.value.conforms ==>
              DeviationsFor(lock, index, {}, installed, commits, r.value.deviations)
  {
    hide *;
    var sets := AllSets(extras);
    var first: Option<seq<Deviation>> := None;
    NoExtraIsFirst(extras);
    NoneTried(lock, index, extras, installed, commits);
    for k := 0 to |sets|
      invariant Identified(lock) ==> NoneBefore(lock, index, extras, installed, commits, k)
      invariant first.None? <==> k == 0
      invariant first.Some? ==> first.value != [] && DeviationsAmong(lock, index, {}, installed, commits, first.value)
      invariant first.Some? && Identified(lock) ==> DeviationsFor(lock, index, {}, installed, commits, first.value)
    {
      var prescribed := Prescribed(lock, index, sets[k]);
      if prescribed.Unreadable? {
        if Identified(lock) {
          UnreadableAt(lock, index, extras, installed, commits, k);
        }
        return Unreadable;
      }
      var deviations := Deviations(installed, prescribed.value, commits);
      DeviationsAre(lock, index, extras, k, installed, commits, prescribed.value, deviations);
      if deviations == [] {
        if Identified(lock) {
          ConformingAt(lock, index, extras, installed, commits, k);
        }
        return Ok(Verdict(true, []));
      }
      if Identified(lock) {
        OneMoreTried(lock, index, extras, installed, commits, k);
      }
      if first.None? {
        first := Some(deviations);
      }
    }
    if Identified(lock) {
      NeitherVerdict(lock, index, extras, installed, commits);
    }
    return Ok(Verdict(false, first.value));
  }

  // The sets tried so far all read, and none conforms.
  ghost predicate NoneBefore(lock: Lock, index: nat, extras: seq<string>, installed: Installed, commits: Commits, k: nat)
    requires k <= |AllSets(extras)|
  {
    forall j | 0 <= j < k ::
      Consistent(lock, Node(index, AllSets(extras)[j])) && !Conforms(lock, index, AllSets(extras)[j], installed, commits)
  }

  lemma NoExtraIsFirst(extras: seq<string>)
    ensures |AllSets(extras)| > 0 && AllSets(extras)[0] == {}
  {
    NoExtraFirst(extras, |extras|);
  }

  // What the deviations computed for one set say.
  lemma DeviationsAre(lock: Lock, index: nat, extras: seq<string>, k: nat, installed: Installed, commits: Commits,
                      prescribed: map<string, Version>, out: seq<Deviation>)
    requires k < |AllSets(extras)| && OnlyReachable(lock, Node(index, AllSets(extras)[k]), prescribed)
    requires forall d :: d in out <==> exists name | name in installed.Keys + prescribed.Keys ::
                                         DeviationOf(name, installed, prescribed, commits) == Some(d)
    requires out == [] <==> Matches(installed, prescribed, commits)
    ensures DeviationsAmong(lock, index, AllSets(extras)[k], installed, commits, out)
    ensures out == [] ==> MatchesSome(lock, index, extras, installed, commits)
    ensures Consistent(lock, Node(index, AllSets(extras)[k])) && IsClosure(lock, Node(index, AllSets(extras)[k]), prescribed) ==>
              && DeviationsFor(lock, index, AllSets(extras)[k], installed, commits, out)
              && (out == [] <==> Conforms(lock, index, AllSets(extras)[k], installed, commits))
  {
    hide IsClosure, OnlyReachable, DeviationOf, AllSets, Matches, Conforms, Consistent;
    assert AreDeviations(prescribed, installed, commits, out);
    hide AreDeviations;
    var set_ := AllSets(extras)[k];
    if Consistent(lock, Node(index, set_)) && IsClosure(lock, Node(index, set_), prescribed) {
      ConformsIff(lock, index, set_, prescribed, installed, commits);
    }
  }

  lemma NoneTried(lock: Lock, index: nat, extras: seq<string>, installed: Installed, commits: Commits)
    ensures NoneBefore(lock, index, extras, installed, commits, 0)
  {
  }

  lemma OneMoreTried(lock: Lock, index: nat, extras: seq<string>, installed: Installed, commits: Commits, k: nat)
    requires k < |AllSets(extras)| && NoneBefore(lock, index, extras, installed, commits, k)
    requires Consistent(lock, Node(index, AllSets(extras)[k])) && !Conforms(lock, index, AllSets(extras)[k], installed, commits)
    ensures NoneBefore(lock, index, extras, installed, commits, k + 1)
  {
    hide Consistent, Conforms, AllSets;
  }

  lemma UnreadableAt(lock: Lock, index: nat, extras: seq<string>, installed: Installed, commits: Commits, k: nat)
    requires k < |AllSets(extras)| && !Consistent(lock, Node(index, AllSets(extras)[k]))
    requires NoneBefore(lock, index, extras, installed, commits, k)
    ensures SaysUnreadable(lock, index, extras, installed, commits) && !SaysConforming(lock, index, extras, installed, commits)
  {
    InconsistentNeverConforms(lock, index, AllSets(extras)[k], installed, commits);
    hide Consistent, Conforms, AllSets;
    assert FirstUnreadable(lock, index, extras, installed, commits, k);
  }

  lemma ConformingAt(lock: Lock, index: nat, extras: seq<string>, installed: Installed, commits: Commits, k: nat)
    requires k < |AllSets(extras)| && Conforms(lock, index, AllSets(extras)[k], installed, commits)
    requires NoneBefore(lock, index, extras, installed, commits, k)
    ensures SaysConforming(lock, index, extras, installed, commits) && !SaysUnreadable(lock, index, extras, installed, commits)
  {
    assert Consistent(lock, Node(index, AllSets(extras)[k]));
    hide Consistent, Conforms, AllSets;
  }

  lemma NeitherVerdict(lock: Lock, index: nat, extras: seq<string>, installed: Installed, commits: Commits)
    requires NoneBefore(lock, index, extras, installed, commits, |AllSets(extras)|)
    ensures !SaysConforming(lock, index, extras, installed, commits) && !SaysUnreadable(lock, index, extras, installed, commits)
  {
    hide Consistent, Conforms, AllSets;
  }

  lemma ConformsIff(lock: Lock, index: nat, extras: set<string>, out: map<string, Version>, installed: Installed, commits: Commits)
    requires Consistent(lock, Node(index, extras)) && IsClosure(lock, Node(index, extras), out)
    ensures Conforms(lock, index, extras, installed, commits) <==> Matches(installed, out, commits)
  {
    if Conforms(lock, index, extras, installed, commits) {
      var other :| IsClosure(lock, Node(index, extras), other) && Matches(installed, other, commits);
      OneClosure(lock, Node(index, extras), out, other);
    }
  }

  lemma InconsistentNeverConforms(lock: Lock, index: nat, extras: set<string>, installed: Installed, commits: Commits)
    requires !Consistent(lock, Node(index, extras))
    ensures !Conforms(lock, index, extras, installed, commits)
  {
  }

  /** When the lock reads with all the declared extras, the verdict is true exactly when the
      installed set is the closure for one set of extras. */
  lemma ConformityIsOneOfTheSets(lock: Lock, index: nat, extras: seq<string>, installed: Installed, commits: Commits)
    requires Distinct(extras) && index < |lock| && Consistent(lock, Node(index, Elements(extras)))
    ensures SaysConforming(lock, index, extras, installed, commits)
            <==> exists j :: j <= Elements(extras) && Conforms(lock, index, j, installed, commits)
  {
    hide Consistent, Conforms, AllSets;
    var sets := AllSets(extras);
    forall k | 0 <= k < |sets|
      ensures sets[k] <= Elements(extras) && Consistent(lock, Node(index, sets[k]))
    {
      assert sets[k] in sets;
      AllSetsAreTheSubsets(extras, sets[k]);
      ClosureIsMonotone(lock, index, sets[k], Elements(extras));
    }
    if j :| j <= Elements(extras) && Conforms(lock, index, j, installed, commits) {
      AllSetsAreTheSubsets(extras, j);
      var k :| 0 <= k < |sets| && sets[k] == j;
    }
  }

  // A project with two extras: `a` refers to nothing in the lock, `b` to its library.
  const ONE := Version("1", Some([1]))
  const LOST := Dep("lost", None, None, {}, true)
  const LIB := Dep("lib", None, None, {}, true)
  const PROJECT := Package("project", Some(ONE), Editable("."), [], map["a" := [LOST], "b" := [LIB]])
  const LIBRARY := Package("lib", Some(ONE), Registry("index"), [], map[])
  const EXAMPLE: Lock := [PROJECT, LIBRARY]

  lemma ExampleDemands(dep: Dep)
    ensures !Demands(PROJECT, {}, dep) && !Demands(LIBRARY, {}, dep)
    ensures Demands(PROJECT, {"b"}, dep) <==> dep == LIB
    ensures Demands(PROJECT, {"a"}, LOST) && Demands(PROJECT, {"b"}, LIB)
    ensures LIB in DepsOf(PROJECT)
    ensures OnlyIndex(EXAMPLE, 1, LIB) && forall k :: !OnlyIndex(EXAMPLE, k, LOST)
  {
    assert "a" in {"a"} && "b" in {"b"};
    assert PROJECT.optional["a"] == [LOST] && PROJECT.optional["b"] == [LIB];
    assert LOST in [LOST] && LIB in [LIB];
    assert EXAMPLE[0] == PROJECT && EXAMPLE[1] == LIBRARY;
  }

  lemma ExampleWithoutExtra()
    ensures Consistent(EXAMPLE, Node(0, {})) && IsClosure(EXAMPLE, Node(0, {}), map["project" := ONE])
  {
    var root := Node(0, {});
    ReachableRoot(EXAMPLE, root);
    forall dep {
      ExampleDemands(dep);
    }
    assert root in {root};
    WalkComplete(EXAMPLE, root, {root}, {}, map["project" := ONE]);
  }

  lemma ExampleEdges(n: Node, b: Node)
    requires n == Node(0, {"b"}) || n == Node(1, {})
    requires Edge(EXAMPLE, n, b)
    ensures b == Node(1, {})
  {
    forall dep {
      ExampleDemands(dep);
    }
    var dep :| dep in DepsOf(EXAMPLE[n.index]) && Demands(EXAMPLE[n.index], n.extras, dep)
               && OnlyIndex(EXAMPLE, b.index, dep) && b.extras == dep.extras;
    assert dep == LIB && Candidate(EXAMPLE[1], LIB);
  }

  lemma ExampleWithB()
    ensures Consistent(EXAMPLE, Node(0, {"b"}))
    ensures IsClosure(EXAMPLE, Node(0, {"b"}), map["project" := ONE, "lib" := ONE])
  {
    var root, lib := Node(0, {"b"}), Node(1, {});
    ReachableRoot(EXAMPLE, root);
    forall dep {
      ExampleDemands(dep);
    }
    ExampleDemands(LIB);
    assert EXAMPLE[root.index] == PROJECT && OnlyIndex(EXAMPLE, lib.index, LIB) && LIB in DepsOf(PROJECT);
    assert Edge(EXAMPLE, root, lib);
    ReachableStep(EXAMPLE, root, root, lib);
    var done, out := {root, lib}, map["project" := ONE, "lib" := ONE];
    forall n: Node, b: Node | n in done && Edge(EXAMPLE, n, b)
      ensures b in done
    {
      ExampleEdges(n, b);
    }
    forall name | name in out
      ensures exists n :: n in done && n.index < |EXAMPLE| && EXAMPLE[n.index].name == name
    {
      assert root in done && lib in done;
    }
    assert Records(EXAMPLE, done, out);
    assert NoneDangling(EXAMPLE, done);
    WalkComplete(EXAMPLE, root, done, {}, out);
  }

  const BOTH_INSTALLED: Installed := map["project" := {ONE}, "lib" := {ONE}]
  const NO_COMMITS := Commits(map[], map[])

  lemma ExampleVerdicts()
    ensures Conforms(EXAMPLE, 0, {"b"}, BOTH_INSTALLED, NO_COMMITS) && !Conforms(EXAMPLE, 0, {}, BOTH_INSTALLED, NO_COMMITS)
  {
    var full, bare := map["project" := ONE, "lib" := ONE], map["project" := ONE];
    assert Matches(BOTH_INSTALLED, full, NO_COMMITS) by {
      assert ONE in {ONE};
    }
    assert "lib" in BOTH_INSTALLED && "lib" !in bare && !Matches(BOTH_INSTALLED, bare, NO_COMMITS);
    hide Matches, Consistent, IsClosure;
    ExampleWithB();
    ConformsIff(EXAMPLE, 0, {"b"}, full, BOTH_INSTALLED, NO_COMMITS);
    ExampleWithoutExtra();
    ConformsIff(EXAMPLE, 0, {}, bare, BOTH_INSTALLED, NO_COMMITS);
  }

  lemma ExampleBroken()
    ensures !Consistent(EXAMPLE, Node(0, {"a"})) && !Conforms(EXAMPLE, 0, {"a"}, BOTH_INSTALLED, NO_COMMITS)
  {
    ReachableRoot(EXAMPLE, Node(0, {"a"}));
    ExampleDemands(LOST);
    DanglingFound(EXAMPLE, Node(0, {"a"}), Node(0, {"a"}), LOST);
  }

  /** Without that, a set of extras that does not read can hide one that conforms: the answer is
      an error. */
  lemma UnreadableSetHidesAConformingOne()
    ensures Identified(EXAMPLE) && Distinct(["a", "b"])
    ensures Conforms(EXAMPLE, 0, {"b"}, BOTH_INSTALLED, NO_COMMITS)
    ensures SaysUnreadable(EXAMPLE, 0, ["a", "b"], BOTH_INSTALLED, NO_COMMITS)
    ensures !SaysConforming(EXAMPLE, 0, ["a", "b"], BOTH_INSTALLED, NO_COMMITS)
  {
    ExampleVerdicts();
    ExampleWithoutExtra();
    ExampleBroken();
    FirstSets();
    hide Conforms, Consistent, AllSets, IsClosure;
    UnreadableAt(EXAMPLE, 0, ["a", "b"], BOTH_INSTALLED, NO_COMMITS, 1);
  }

  lemma FirstSets()
    ensures |AllSets(["a", "b"])| >= 2 && AllSets(["a", "b"])[0] == {} && AllSets(["a", "b"])[1] == {"a"}
  {
    var both := ["a", "b"];
    assert both[1..] == ["b"];
    assert Combinations(["b"], 0) == [{}];
    assert Combinations(both, 1) == WithEach("a", [{}]) + Combinations(["b"], 1);
    assert SetsUpTo(both, 0) == [{}];
    assert SetsUpTo(both, 1) == [{}] + Combinations(both, 1);
    assert SetsUpTo(both, 2) == SetsUpTo(both, 1) + Combinations(both, 2);
  }
}

// Facts about finite sets that several components count with.

module FiniteSets {

  lemma SomeElement<T>(a: set<T>) returns (x: T)
    requires a != {}
    ensures x in a
  {
    x :| x in a;
  }

  lemma {:induction false} SizeGrows<T>(a: set<T>, b: set<T>)
    requires a <= b
    ensures |a| <= |b|
  {
    if a != {} {
      var x :| x in a;
      SizeGrows(a - {x}, b - {x});
    }
  }

  // Covering by counting: a part of the same size is the whole.
  lemma SubsetOfSameSize<T>(a: set<T>, b: set<T>)
    requires a <= b && |a| == |b|
    ensures a == b
  {
    if a != b {
      var x :| x in b && x !in a;
      assert a <= b - {x};
      SizeGrows(a, b - {x});
    }
  }

  lemma NoneOutside<T>(a: set<T>, b: set<T>)
    ensures |a - b| == 0 <==> a <= b
  {
    if |a - b| == 0 {
      assert a - b == {};
      forall x | x in a
        ensures x in b
      {
        assert x !in a - b;
      }
    }
  }

  lemma SameMap<K, V>(a: map<K, V>, b: map<K, V>)
    requires forall k <- a :: k in b && b[k] == a[k]
    requires forall k <- b :: k in a
    ensures a == b
  {
    assert a.Keys == b.Keys;
  }

  lemma SameSet<T>(a: set<T>, b: set<T>)
    requires forall x <- a :: x in b
    requires forall x <- b :: x in a
    ensures a == b
  {
  }

  // A loop over a set: `todo` is what is left of it, `done` the rest.
  predicate Split<T(==)>(all: set<T>, todo: set<T>, done: set<T>) {
    todo + done == all && todo !! done
  }

  lemma SplitStep<T>(all: set<T>, todo: set<T>, done: set<T>, x: T)
    requires Split(all, todo, done) && x in todo
    ensures Split(all, todo - {x}, done + {x}) && x !in done && done <= all && x in all
  {
    assert todo - {x} + (done + {x}) == all;
  }

  lemma SplitEnd<T>(all: set<T>, done: set<T>)
    requires Split(all, {}, done)
    ensures done == all
  {
  }

  lemma OneMore<T>(a: set<T>, b: set<T>, x: T)
    requires x !in a
    ensures |a + {x}| == |a| + 1
    ensures |(a + {x}) - b| == |a - b| + if x in b then 0 else 1
  {
    assert (a + {x}) - b == if x in b then a - b else (a - b) + {x};
  }
}

/** Reachability along a relation, and when a worklist has computed it. */
module Connectivity {

  ghost predicate Trail<T(!new)>(r: (T, T) -> bool, p: seq<T>) {
    |p| > 0 && forall i :: 0 < i < |p| ==> r(p[i - 1], p[i])
  }

  ghost predicate Connected<T(!new)>(r: (T, T) -> bool, a: T, b: T) {
    exists p :: Trail(r, p) && p[0] == a && p[|p| - 1] == b
  }

  lemma ConnectedSelf<T(!new)>(r: (T, T) -> bool, a: T)
    ensures Connected(r, a, a)
  {
    assert Trail(r, [a]) && [a][0] == a;
  }

  lemma ConnectedStep<T(!new)>(r: (T, T) -> bool, a: T, b: T, c: T)
    requires Connected(r, a, b) && r(b, c)
    ensures Connected(r, a, c)
  {
    var p :| Trail(r, p) && p[0] == a && p[|p| - 1] == b;
    var q := p + [c];
    assert Trail(r, q) && q[0] == a && q[|q| - 1] == c;
  }

  /** A set closed under the relation is never left. */
  lemma ClosedContains<T(!new)>(r: (T, T) -> bool, inside: set<T>, a: T, b: T)
    requires forall x, y :: x in inside && r(x, y) ==> y in inside
    requires a in inside && Connected(r, a, b)
    ensures b in inside
  {
    var p :| Trail(r, p) && p[0] == a && p[|p| - 1] == b;
    var i := 0;
    while i < |p| - 1
      invariant 0 <= i < |p| && p[i] in inside
    {
      assert r(p[i + 1 - 1], p[i + 1]);
      i := i + 1;
    }
  }

  ghost predicate FromSome<T(!new)>(r: (T, T) -> bool, starts: set<T>, b: T) {
    exists a :: a in starts && Connected(r, a, b)
  }

  lemma FromSomeStart<T(!new)>(r: (T, T) -> bool, starts: set<T>, a: T)
    requires a in starts
    ensures FromSome(r, starts, a)
  {
    ConnectedSelf(r, a);
  }

  lemma FromSomeStep<T(!new)>(r: (T, T) -> bool, starts: set<T>, b: T, c: T)
    requires FromSome(r, starts, b) && r(b, c)
    ensures FromSome(r, starts, c)
  {
    var a :| a in starts && Connected(r, a, b);
    ConnectedStep(r, a, b, c);
  }

  /** Everything listed is reachable, and whatever a visited element or the
      start leads to is visited or still pending. */
  ghost predicate Exploring<T(!new)>(r: (T, T) -> bool, starts: set<T>, visited: set<T>, pending: set<T>) {
    && (forall x :: x in visited || x in pending ==> FromSome(r, starts, x))
    && (forall x :: x in starts ==> x in visited || x in pending)
    && (forall x, y :: x in visited && r(x, y) ==> y in visited || y in pending)
  }

  lemma ExploringStart<T(!new)>(r: (T, T) -> bool, starts: set<T>)
    ensures Exploring(r, starts, {}, starts)
  {
    forall x | x in starts ensures FromSome(r, starts, x) {
      FromSomeStart(r, starts, x);
    }
  }

  lemma ExploringSkip<T(!new)>(r: (T, T) -> bool, starts: set<T>, visited: set<T>, pending: set<T>, x: T)
    requires Exploring(r, starts, visited, pending + {x}) && x in visited
    ensures Exploring(r, starts, visited, pending)
  {
  }

  lemma ExploringVisit<T(!new)>(r: (T, T) -> bool, starts: set<T>, visited: set<T>, pending: set<T>, x: T, next: set<T>)
    requires Exploring(r, starts, visited, pending + {x})
    requires forall y :: y in next ==> r(x, y)
    requires forall y :: r(x, y) ==> y in next || y in visited || y in pending || y == x
    ensures Exploring(r, starts, visited + {x}, pending + next)
  {
    forall y | y in next ensures FromSome(r, starts, y) {
      FromSomeStep(r, starts, x, y);
    }
  }

  /** With nothing pending the visited set is exactly what can be reached. */
  lemma ExploringDone<T(!new)>(r: (T, T) -> bool, starts: set<T>, visited: set<T>)
    requires Exploring(r, starts, visited, {})
    ensures forall x :: x in visited <==> FromSome(r, starts, x)
  {
    forall x | FromSome(r, starts, x) ensures x in visited {
      var a :| a in starts && Connected(r, a, x);
      ClosedContains(r, visited, a, x);
    }
  }
}

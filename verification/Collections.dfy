/** Small collection vocabulary shared by the models. */
module Collections {

  datatype Option<+T> = None | Some(value: T)

  ghost predicate Distinct<T>(s: seq<T>) {
    forall i, j :: 0 <= i < j < |s| ==> s[i] != s[j]
  }

  function Elements<T>(s: seq<T>): set<T> {
    set x | x in s
  }

  lemma ElementsOfSnoc<T>(s: seq<T>, x: T)
    ensures Elements(s + [x]) == Elements(s) + {x}
  {
    assert forall y :: y in s + [x] <==> y in s || y == x;
  }

  lemma ElementsOfCons<T>(x: T, s: seq<T>)
    ensures Elements([x] + s) == {x} + Elements(s)
  {
    assert forall y :: y in [x] + s <==> y == x || y in s;
  }

  lemma ElementsOfPopLast<T>(s: seq<T>)
    requires s != []
    ensures Elements(s) == Elements(s[..|s| - 1]) + {s[|s| - 1]}
  {
    assert s == s[..|s| - 1] + [s[|s| - 1]];
    ElementsOfSnoc(s[..|s| - 1], s[|s| - 1]);
  }

  lemma ElementsOfPop<T>(s: seq<T>)
    requires s != []
    ensures Elements(s) == Elements(s[1..]) + {s[0]}
  {
    assert s == [s[0]] + s[1..];
    ElementsOfCons(s[0], s[1..]);
  }

  lemma ElementsOfConcat<T>(s: seq<T>, t: seq<T>)
    ensures Elements(s + t) == Elements(s) + Elements(t)
  {
    assert forall y :: y in s + t <==> y in s || y in t;
  }

  /** One more element of a prefix. */
  lemma PrefixStep<T>(s: seq<T>, i: nat)
    requires i < |s|
    ensures s[..i + 1] == s[..i] + [s[i]]
    ensures Elements(s[..i + 1]) == Elements(s[..i]) + {s[i]}
    ensures s[i] in Elements(s)
  {
    ElementsOfSnoc(s[..i], s[i]);
    assert s[..i + 1] == s[..i] + [s[i]];
  }

  /** The elements of a set in some order, each once. */
  method Listing<T(==)>(s: set<T>) returns (r: seq<T>)
    ensures Elements(r) == s && Distinct(r)
  {
    r := [];
    var todo := s;
    while todo != {}
      invariant todo <= s && Elements(r) == s - todo && Distinct(r)
    {
      var x :| x in todo;
      assert x !in Elements(r);
      ElementsOfSnoc(r, x);
      r := r + [x];
      todo := todo - {x};
    }
  }

  lemma {:induction false} DistinctSize<T>(s: seq<T>)
    requires Distinct(s)
    ensures |Elements(s)| == |s|
  {
    if s != [] {
      var front, x := s[..|s| - 1], s[|s| - 1];
      DistinctSize(front);
      ElementsOfSnoc(front, x);
      assert s == front + [x];
      assert x !in front;
    }
  }

  /** A sequence that repeats an element is longer than its set. */
  lemma {:induction false} RepetitionShrinks<T>(s: seq<T>)
    requires !Distinct(s)
    ensures |Elements(s)| < |s|
  {
    var front, last := s[..|s| - 1], s[|s| - 1];
    assert s == front + [last];
    ElementsOfSnoc(front, last);
    if Distinct(front) {
      assert last in front;
      assert Elements(front) + {last} == Elements(front);
      DistinctSize(front);
    } else {
      RepetitionShrinks(front);
    }
  }

  lemma SubsetSize<T>(a: set<T>, b: set<T>)
    requires a <= b
    ensures |a| <= |b|
    ensures |a| == |b| ==> a == b
  {
    assert b == a + (b - a);
  }

  /** A proper subset leaves an element out. */
  lemma MissingElement<T>(a: set<T>, b: set<T>) returns (x: T)
    requires a <= b && a != b
    ensures x in b && x !in a
  {
    assert b == a + (b - a);
    x :| x in b - a;
  }

  lemma StrictSubsetSize<T>(a: set<T>, b: set<T>, x: T)
    requires a <= b && x in b && x !in a
    ensures |a| < |b|
  {
    SubsetSize(a, b);
  }

  predicate IsLeast(s: set<nat>, m: nat) {
    m in s && forall x :: x in s ==> m <= x
  }

  /** A non-empty finite set of naturals has a least element. */
  lemma {:induction false} LeastExists(s: set<nat>) returns (m: nat)
    requires s != {}
    ensures IsLeast(s, m)
  {
    var x :| x in s;
    if s == {x} {
      m := x;
    } else {
      m := LeastExists(s - {x});
      forall y | y in s ensures (if x < m then x else m) <= y {
        assert y == x || y in s - {x};
      }
      m := if x < m then x else m;
    }
  }

  function Least(s: set<nat>): (m: nat)
    requires s != {}
    ensures IsLeast(s, m)
  {
    assert exists m :: IsLeast(s, m) by { var m := LeastExists(s); }
    var m :| IsLeast(s, m);
    m
  }

  ghost predicate Increasing(s: seq<nat>) {
    forall i, j :: 0 <= i < j < |s| ==> s[i] < s[j]
  }

  /** The elements of `s` in increasing order. */
  function Ascending(s: set<nat>): seq<nat> {
    if s == {} then [] else [Least(s)] + Ascending(s - {Least(s)})
  }

  lemma {:induction false} AscendingIsSorted(s: set<nat>)
    ensures Increasing(Ascending(s)) && Elements(Ascending(s)) == s && |Ascending(s)| == |s|
  {
    hide Increasing, Elements;
    if s == {} {
      EmptyIsIncreasing();
    } else {
      var m, rest := Least(s), s - {Least(s)};
      AscendingIsSorted(rest);
      IncreasingCons(m, rest, Ascending(rest));
    }
  }

  lemma EmptyIsIncreasing()
    ensures Increasing([]) && Elements<nat>([]) == {}
  {
  }

  lemma AscendingElements(s: set<nat>)
    ensures Elements(Ascending(s)) == s
  {
    AscendingIsSorted(s);
  }

  /** Walking through a set in increasing order meets each element once. */
  lemma AscendingStep(s: set<nat>, i: nat)
    requires i < |Ascending(s)|
    ensures Ascending(s)[i] in s && Ascending(s)[i] !in Elements(Ascending(s)[..i])
    ensures Elements(Ascending(s)[..i + 1]) == Elements(Ascending(s)[..i]) + {Ascending(s)[i]}
  {
    AscendingIsSorted(s);
    PrefixStep(Ascending(s), i);
  }

  lemma AscendingEnd(s: set<nat>)
    ensures Elements(Ascending(s)[..|Ascending(s)|]) == s && |Ascending(s)| == |s|
  {
    AscendingIsSorted(s);
    assert Ascending(s)[..|Ascending(s)|] == Ascending(s);
  }

  lemma IncreasingCons(m: nat, rest: set<nat>, r: seq<nat>)
    requires Increasing(r) && Elements(r) == rest && forall x :: x in rest ==> m < x
    ensures Increasing([m] + r) && Elements([m] + r) == {m} + rest
  {
    ElementsOfCons(m, r);
    forall i | 0 <= i < |r| ensures m < r[i] {
      assert r[i] in Elements(r);
    }
  }

  /** The elements of `s` in decreasing order. */
  function Descending(s: set<nat>): seq<nat> {
    if s == {} then [] else Descending(s - {Least(s)}) + [Least(s)]
  }

  lemma {:induction false} DescendingElements(s: set<nat>)
    ensures Elements(Descending(s)) == s
  {
    if s == {} {
      assert Descending(s) == [];
    } else {
      DescendingElements(s - {Least(s)});
      ElementsOfSnoc(Descending(s - {Least(s)}), Least(s));
    }
  }

  /** Tuples compare from the left. */
  predicate Less(a: seq<nat>, b: seq<nat>) {
    a != [] && b != [] && (a[0] < b[0] || (a[0] == b[0] && Less(a[1..], b[1..])))
  }

  lemma {:induction false} LessTrans(a: seq<nat>, b: seq<nat>, c: seq<nat>)
    requires Less(a, b) && Less(b, c)
    ensures Less(a, c)
  {
    if a[0] == b[0] == c[0] {
      LessTrans(a[1..], b[1..], c[1..]);
    }
  }

  lemma {:induction false} LessIsStrict(a: seq<nat>)
    ensures !Less(a, a)
  {
    if a != [] {
      LessIsStrict(a[1..]);
    }
  }

  /** Nothing in the set has a smaller key. */
  predicate IsBest<T(==)>(s: set<T>, keys: map<T, seq<nat>>, x: T)
    requires s <= keys.Keys
  {
    x in s && forall y :: y in s ==> !Less(keys[y], keys[x])
  }

  lemma {:induction false} BestExists<T>(s: set<T>, keys: map<T, seq<nat>>) returns (x: T)
    requires s != {} && s <= keys.Keys
    ensures IsBest(s, keys, x)
    decreases |s|
  {
    hide Less;
    var y :| y in s;
    LessIsStrict(keys[y]);
    if s == {y} {
      x := y;
    } else {
      x := BestExists(s - {y}, keys);
      if Less(keys[y], keys[x]) {
        forall z | z in s ensures !Less(keys[z], keys[y]) {
          BelowBoth(keys[z], keys[y], keys[x]);
          assert z == y || z in s - {y};
        }
        x := y;
      }
    }
  }

  lemma BelowBoth(a: seq<nat>, b: seq<nat>, c: seq<nat>)
    requires Less(b, c)
    ensures Less(a, b) ==> Less(a, c)
  {
    hide Less;
    if Less(a, b) {
      LessTrans(a, b, c);
    }
  }
}

/** White space, names, and sorted sets of texts. */
module Texts {
  import opened Collections

  /** The characters that `str.isspace` accepts. */
  predicate Space(c: char) {
    var n := c as int;
    || 9 <= n <= 13 || 28 <= n <= 32 || n == 0x85 || n == 0xA0 || n == 0x1680 || 0x2000 <= n <= 0x200A
    || n == 0x2028 || n == 0x2029 || n == 0x202F || n == 0x205F || n == 0x3000
  }

  predicate Blank(s: string) {
    forall i :: 0 <= i < |s| ==> Space(s[i])
  }

  /** Not empty and without any white space. */
  predicate Word(s: string) {
    s != "" && forall i :: 0 <= i < |s| ==> !Space(s[i])
  }

  /** Not empty and equal to itself stripped. */
  predicate Name(s: string) {
    s != "" && !Space(s[0]) && !Space(s[|s| - 1])
  }

  /** Order by code points. */
  predicate Before(a: string, b: string) {
    b != "" && (a == "" || a[0] < b[0] || (a[0] == b[0] && Before(a[1..], b[1..])))
  }

  lemma {:induction false} BeforeIsStrict(a: string)
    ensures !Before(a, a)
  {
    if a != "" {
      BeforeIsStrict(a[1..]);
    }
  }

  lemma {:induction false} BeforeTrans(a: string, b: string, c: string)
    requires Before(a, b) && Before(b, c)
    ensures Before(a, c)
  {
    if a != "" && a[0] == b[0] == c[0] {
      BeforeTrans(a[1..], b[1..], c[1..]);
    }
  }

  lemma {:induction false} BeforeIsTotal(a: string, b: string)
    ensures a == b || Before(a, b) || Before(b, a)
  {
    if a != "" && b != "" && a[0] == b[0] {
      BeforeIsTotal(a[1..], b[1..]);
      assert a == [a[0]] + a[1..] && b == [b[0]] + b[1..];
    }
  }

  predicate IsFirst(s: set<string>, m: string) {
    m in s && forall x :: x in s ==> x == m || Before(m, x)
  }

  lemma {:induction false} FirstExists(s: set<string>) returns (m: string)
    requires s != {}
    ensures IsFirst(s, m)
  {
    hide Before;
    var x :| x in s;
    if s == {x} {
      m := x;
    } else {
      m := FirstExists(s - {x});
      BeforeIsTotal(m, x);
      if !Before(m, x) {
        forall y | y in s ensures y == x || Before(x, y) {
          if y != x && y != m {
            BeforeTrans(x, m, y);
          }
        }
        m := x;
      }
    }
  }

  function FirstOf(s: set<string>): (m: string)
    requires s != {}
    ensures IsFirst(s, m)
  {
    assert exists m :: IsFirst(s, m) by { var m := FirstExists(s); }
    assert forall a, b :: IsFirst(s, a) && IsFirst(s, b) ==> a == b by {
      forall a, b | IsFirst(s, a) && IsFirst(s, b) ensures a == b {
        FirstIsUnique(s, a, b);
      }
    }
    var m :| IsFirst(s, m);
    m
  }

  lemma FirstIsUnique(s: set<string>, a: string, b: string)
    requires IsFirst(s, a) && IsFirst(s, b)
    ensures a == b
  {
    hide Before;
    if a != b {
      BeforeTrans(a, b, a);
      BeforeIsStrict(a);
    }
  }

  /** The texts of a set in order. */
  function Sorted(s: set<string>): seq<string> {
    if s == {} then [] else [FirstOf(s)] + Sorted(s - {FirstOf(s)})
  }

  lemma {:induction false} SortedElements(s: set<string>)
    ensures Elements(Sorted(s)) == s
  {
    if s == {} {
      assert Sorted(s) == [];
    } else {
      SortedElements(s - {FirstOf(s)});
      ElementsOfCons(FirstOf(s), Sorted(s - {FirstOf(s)}));
    }
  }

  ghost predicate InOrder(s: seq<string>) {
    forall i, j :: 0 <= i < j < |s| ==> Before(s[i], s[j])
  }

  lemma {:induction false} SortedIsInOrder(s: set<string>)
    ensures InOrder(Sorted(s))
  {
    hide Before;
    if s != {} {
      var m, rest := FirstOf(s), s - {FirstOf(s)};
      SortedIsInOrder(rest);
      SortedElements(rest);
      forall i | 0 <= i < |Sorted(rest)| ensures Before(m, Sorted(rest)[i]) {
        assert Sorted(rest)[i] in Elements(Sorted(rest));
      }
    }
  }

  /** Texts compare as in a dictionary: at the first difference, or by length. */
  lemma {:induction false} BeforeIff(a: string, b: string)
    ensures Before(a, b) <==> exists k: nat :: DiffersAt(a, b, k)
  {
    if a != "" && b != "" && a[0] == b[0] {
      BeforeIff(a[1..], b[1..]);
      if k: nat :| DiffersAt(a[1..], b[1..], k) {
        assert a[..k + 1] == [a[0]] + a[1..][..k] && b[..k + 1] == [b[0]] + b[1..][..k];
        assert DiffersAt(a, b, k + 1);
      }
      if k: nat :| DiffersAt(a, b, k) {
        assert k > 0;
        assert a[1..][..k - 1] == a[..k][1..] && b[1..][..k - 1] == b[..k][1..];
        assert DiffersAt(a[1..], b[1..], k - 1);
      }
    } else if Before(a, b) {
      assert DiffersAt(a, b, 0);
    } else {
      forall k: nat ensures !DiffersAt(a, b, k) {
        if 0 < k <= |a| && k < |b| {
          assert a[..k][0] == a[0] && b[..k][0] == b[0];
        }
      }
    }
  }

  predicate DiffersAt(a: string, b: string, k: nat) {
    k <= |a| && k < |b| && a[..k] == b[..k] && (k < |a| ==> a[k] < b[k])
  }
}

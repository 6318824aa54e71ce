/** Candidate orders of the vertical tracks between two columns. */
module BoundaryOrder {
  import opened Collections
  import RouteGeometry

  type Item = RouteGeometry.Item

  const MAX_CANDIDATES: nat := 4096

  // ---------------------------------------------------------- adjacent swaps

  function Swapped(s: seq<Item>, i: nat): (r: seq<Item>)
    requires i + 1 < |s|
    ensures |r| == |s| && multiset(r) == multiset(s)
  {
    s[i := s[i + 1]][i + 1 := s[i]]
  }

  ghost predicate Permutes(p: seq<Item>, base: seq<Item>) {
    multiset(p) == multiset(base)
  }

  ghost predicate ClosedUnderSwaps(orders: set<seq<Item>>) {
    forall s, i: nat :: s in orders && i + 1 < |s| ==> Swapped(s, i) in orders
  }

  /** Move the item at `j` down to `k` by swaps, leaving everything before `k` alone. */
  lemma {:induction false} MoveDown(orders: set<seq<Item>>, s: seq<Item>, k: nat, j: nat) returns (r: seq<Item>)
    requires ClosedUnderSwaps(orders) && s in orders && k <= j < |s|
    ensures r in orders && |r| == |s| && multiset(r) == multiset(s)
    ensures r[..k] == s[..k] && r[k] == s[j]
    decreases j - k
  {
    if j == k {
      r := s;
    } else {
      var t := Swapped(s, j - 1);
      r := MoveDown(orders, t, k, j - 1);
    }
  }

  lemma SuffixMultiset(s: seq<Item>, k: nat)
    requires k <= |s|
    ensures multiset(s[k..]) == multiset(s) - multiset(s[..k])
  {
    assert s == s[..k] + s[k..];
  }

  lemma PrefixHasItem(p: seq<Item>, s: seq<Item>, k: nat) returns (j: nat)
    requires Permutes(p, s) && k < |p| && k <= |s| && s[..k] == p[..k]
    ensures k <= j < |s| && s[j] == p[k]
  {
    SuffixMultiset(p, k);
    SuffixMultiset(s, k);
    assert p[k] == p[k..][0] && p[k] in multiset(p[k..]);
    assert p[k] in s[k..];
    var i :| 0 <= i < |s[k..]| && s[k..][i] == p[k];
    j := k + i;
  }

  lemma PermutationLength(p: seq<Item>, s: seq<Item>)
    requires Permutes(p, s)
    ensures |p| == |s|
  {
    assert |multiset(p)| == |p| && |multiset(s)| == |s|;
  }

  /** Adjacent swaps generate every permutation. */
  lemma SwapsGenerateAll(orders: set<seq<Item>>, base: seq<Item>, p: seq<Item>)
    requires ClosedUnderSwaps(orders) && base in orders && Permutes(p, base)
    ensures p in orders
  {
    PermutationLength(p, base);
    var s := base;
    var k: nat := 0;
    while k < |p|
      invariant k <= |p| && s in orders && Permutes(p, s) && |s| == |p| && s[..k] == p[..k]
    {
      var j := PrefixHasItem(p, s, k);
      var r := MoveDown(orders, s, k, j);
      assert r[..k + 1] == r[..k] + [r[k]] && p[..k + 1] == p[..k] + [p[k]];
      s := r;
      k := k + 1;
    }
    assert s == s[..k] && p == p[..k];
  }

  // -------------------------------------------------------------- the search

  /** All orders found so far: emitted ones, then waiting ones. */
  ghost predicate Exploring(base: seq<Item>, emitted: seq<seq<Item>>, waiting: seq<seq<Item>>, seen: set<seq<Item>>) {
    && Distinct(emitted + waiting) && Elements(emitted + waiting) == seen
    && emitted + waiting != [] && (emitted + waiting)[0] == base
    && (forall s :: s in seen ==> Permutes(s, base))
  }

  ghost predicate Expanded(emitted: seq<seq<Item>>, seen: set<seq<Item>>) {
    forall s, i: nat :: s in emitted && i + 1 < |s| ==> Swapped(s, i) in seen
  }

  lemma Discover(base: seq<Item>, emitted: seq<seq<Item>>, waiting: seq<seq<Item>>, seen: set<seq<Item>>, s: seq<Item>)
    requires Exploring(base, emitted, waiting, seen) && s !in seen && Permutes(s, base)
    ensures Exploring(base, emitted, waiting + [s], seen + {s})
  {
    assert emitted + (waiting + [s]) == emitted + waiting + [s];
    ElementsOfSnoc(emitted + waiting, s);
    forall i | 0 <= i < |emitted + waiting| ensures (emitted + waiting)[i] != s {
      assert (emitted + waiting)[i] in Elements(emitted + waiting);
    }
  }

  lemma Emit(base: seq<Item>, emitted: seq<seq<Item>>, waiting: seq<seq<Item>>, seen: set<seq<Item>>)
    requires Exploring(base, emitted, waiting, seen) && waiting != []
    ensures Exploring(base, emitted + [waiting[0]], waiting[1..], seen) && waiting[0] in seen
  {
    assert emitted + [waiting[0]] + waiting[1..] == emitted + waiting;
    assert (emitted + waiting)[|emitted|] == waiting[0];
  }

  /** Breadth-first over adjacent swaps, cut off at the cap. */
  method BoundedActiveOrders(base: seq<Item>) returns (orders: seq<seq<Item>>)
    ensures orders != [] && orders[0] == base && |orders| <= MAX_CANDIDATES
    ensures Distinct(orders) && forall s :: s in orders ==> Permutes(s, base)
    ensures |orders| < MAX_CANDIDATES ==> forall p :: Permutes(p, base) ==> p in orders
  {
    hide Permutes, Distinct, Elements;
    orders := [];
    var pending, seen := [base], {base};
    StartSearch(base);
    while pending != [] && |orders| < MAX_CANDIDATES
      invariant |orders| <= MAX_CANDIDATES
      invariant Exploring(base, orders, pending, seen) && Expanded(orders, seen)
      decreases MAX_CANDIDATES - |orders|
    {
      Emit(base, orders, pending, seen);
      var current := pending[0];
      orders, pending := orders + [current], pending[1..];
      var index: nat := 0;
      while index + 1 < |current|
        invariant index <= |current| && current in seen && Exploring(base, orders, pending, seen)
        invariant Expanded(orders[..|orders| - 1], seen) && ExpandedBelow(current, index, seen)
        decreases |current| - index
      {
        var candidate := Swapped(current, index);
        SwappedPermutes(base, current, index);
        if candidate !in seen {
          Discover(base, orders, pending, seen, candidate);
          seen, pending := seen + {candidate}, pending + [candidate];
        }
        index := index + 1;
      }
    }
    SearchDone(base, orders, pending, seen);
  }

  ghost predicate ExpandedBelow(s: seq<Item>, n: nat, seen: set<seq<Item>>) {
    forall i: nat :: i < n && i + 1 < |s| ==> Swapped(s, i) in seen
  }

  lemma StartSearch(base: seq<Item>)
    ensures Exploring(base, [], [base], {base}) && Expanded([], {base})
  {
    assert [] + [base] == [base];
  }

  lemma SwappedPermutes(base: seq<Item>, s: seq<Item>, i: nat)
    requires i + 1 < |s|
    ensures Permutes(s, base) ==> Permutes(Swapped(s, i), base)
  {
  }

  lemma SearchDone(base: seq<Item>, orders: seq<seq<Item>>, pending: seq<seq<Item>>, seen: set<seq<Item>>)
    requires Exploring(base, orders, pending, seen) && Expanded(orders, seen)
    requires pending == [] || |orders| >= MAX_CANDIDATES
    ensures orders != [] && orders[0] == base && Distinct(orders) && forall s :: s in orders ==> Permutes(s, base)
    ensures |orders| < MAX_CANDIDATES ==> forall p :: Permutes(p, base) ==> p in orders
  {
    hide Permutes;
    var all := orders + pending;
    assert forall i :: 0 <= i < |orders| ==> all[i] == orders[i];
    forall s | s in orders ensures Permutes(s, base) {
      assert s in Elements(all);
    }
    if pending == [] {
      assert all == orders;
      forall p | Permutes(p, base) ensures p in orders {
        assert base in Elements(all);
        SwapsGenerateAll(seen, base, p);
      }
    }
  }

  // ---------------------------------------------------------- passive items

  function Positions(base: seq<Item>, active: set<Item>): seq<nat> {
    if base == [] then [] else
      var n := |base| - 1;
      Positions(base[..n], active) + (if base[n] in active then [n] else [])
  }

  ghost predicate Exact(ps: seq<nat>, base: seq<Item>, active: set<Item>) {
    && (forall k :: 0 <= k < |ps| ==> ps[k] < |base| && base[ps[k]] in active)
    && (forall i :: 0 <= i < |base| && base[i] in active ==> i in ps)
  }

  lemma {:induction false} PositionsAreExact(base: seq<Item>, active: set<Item>)
    ensures Exact(Positions(base, active), base, active) && Increasing(Positions(base, active))
  {
    if base != [] {
      var n: nat := |base| - 1;
      PositionsAreExact(base[..n], active);
    }
  }

  function Picked(s: seq<Item>, positions: seq<nat>): seq<Item>
    requires forall k :: 0 <= k < |positions| ==> positions[k] < |s|
  {
    seq(|positions|, k requires 0 <= k < |positions| => s[positions[k]])
  }

  ghost predicate KeepsPassive(r: seq<Item>, base: seq<Item>, active: set<Item>) {
    |r| == |base| && forall i :: 0 <= i < |base| && base[i] !in active ==> r[i] == base[i]
  }

  ghost predicate Merged(r: seq<Item>, base: seq<Item>, order: seq<Item>, active: set<Item>) {
    && KeepsPassive(r, base, active) && |Positions(base, active)| == |order|
    && forall k :: 0 <= k < |order| ==> Positions(base, active)[k] < |r| && r[Positions(base, active)[k]] == order[k]
  }

  /** Put the active items, in the given order, back into the active places. */
  method MergePassive(base: seq<Item>, order: seq<Item>, active: set<Item>) returns (merged: Option<seq<Item>>)
    ensures merged.Some? <==> |Positions(base, active)| == |order|
    ensures merged.Some? ==> Merged(merged.value, base, order, active)
    ensures InRange(Positions(base, active), base)
    ensures merged.Some? ==>
      multiset(merged.value) + multiset(Picked(base, Positions(base, active))) == multiset(base) + multiset(order)
  {
    hide Increasing, Merging, Exact, Merged;
    var positions := Positions(base, active);
    PositionsAreExact(base, active);
    ExactInRange(positions, base, active);
    if |positions| != |order| {
      return None;
    }
    var result: seq<Item> := base;
    var k: nat := 0;
    MergeStarts(base, order, positions);
    while k < |positions|
      invariant k <= |positions| && Merging(result, base, order, positions, k)
    {
      MergeStep(result, base, order, positions, k);
      result := result[positions[k] := order[k]];
      k := k + 1;
    }
    MergeEnds(result, base, order, active);
    return Some(result);
  }

  ghost predicate InRange(positions: seq<nat>, s: seq<Item>) {
    forall k :: 0 <= k < |positions| ==> positions[k] < |s|
  }

  ghost predicate Untouched(r: seq<Item>, base: seq<Item>, positions: seq<nat>, n: nat)
    requires n <= |positions| && |r| == |base|
  {
    forall i :: 0 <= i < |base| && i !in positions[..n] ==> r[i] == base[i]
  }

  /** The first `k` active places hold the first `k` items of the order. */
  ghost predicate Merging(r: seq<Item>, base: seq<Item>, order: seq<Item>, positions: seq<nat>, k: nat) {
    && k <= |positions| == |order| && |r| == |base| && Increasing(positions) && InRange(positions, base)
    && Untouched(r, base, positions, k) && (forall i :: 0 <= i < k ==> r[positions[i]] == order[i])
    && multiset(r) + multiset(Picked(base, positions)[..k]) == multiset(base) + multiset(order[..k])
  }

  lemma MergeStarts(base: seq<Item>, order: seq<Item>, positions: seq<nat>)
    requires Increasing(positions) && InRange(positions, base) && |positions| == |order|
    ensures Merging(base, base, order, positions, 0)
  {
  }

  lemma MergeStep(r: seq<Item>, base: seq<Item>, order: seq<Item>, positions: seq<nat>, k: nat)
    requires Merging(r, base, order, positions, k) && k < |positions|
    ensures positions[k] < |r| && Merging(r[positions[k] := order[k]], base, order, positions, k + 1)
  {
    hide Untouched;
    var p, picked := positions[k], Picked(base, positions);
    assert p !in positions[..k];
    UntouchedAt(r, base, positions, k, p);
    UntouchedStep(r, base, positions, k, order[k]);
    assert picked[k] == base[p];
    SnocMultiset(picked, k);
    SnocMultiset(order, k);
    AddBoth(multiset(r[p := order[k]]), multiset(r), multiset(picked[..k]), multiset(base), multiset(order[..k]),
            picked[k], order[k]);
  }

  lemma ExactInRange(positions: seq<nat>, base: seq<Item>, active: set<Item>)
    requires Exact(positions, base, active)
    ensures InRange(positions, base)
  {
  }

  lemma MergeEnds(r: seq<Item>, base: seq<Item>, order: seq<Item>, active: set<Item>)
    requires Merging(r, base, order, Positions(base, active), |Positions(base, active)|)
    ensures Merged(r, base, order, active) && InRange(Positions(base, active), base)
    ensures multiset(r) + multiset(Picked(base, Positions(base, active))) == multiset(base) + multiset(order)
  {
    hide Increasing, Positions;
    PositionsAreExact(base, active);
    var positions := Positions(base, active);
    var picked := Picked(base, positions);
    assert picked[..|positions|] == picked && order[..|positions|] == order && positions[..|positions|] == positions;
  }

  lemma AddBoth(next: multiset<Item>, r: multiset<Item>, p: multiset<Item>, b: multiset<Item>, o: multiset<Item>,
                y: Item, x: Item)
    requires next + multiset{y} == r + multiset{x} && r + p == b + o
    ensures next + (p + multiset{y}) == b + (o + multiset{x})
  {
    assert next + (p + multiset{y}) == next + multiset{y} + p;
    assert r + multiset{x} + p == r + p + multiset{x};
  }

  lemma UntouchedAt(r: seq<Item>, base: seq<Item>, positions: seq<nat>, k: nat, p: nat)
    requires k <= |positions| && |r| == |base| && Untouched(r, base, positions, k) && p < |r| && p !in positions[..k]
    ensures r[p] == base[p]
  {
  }

  lemma UntouchedStep(r: seq<Item>, base: seq<Item>, positions: seq<nat>, k: nat, x: Item)
    requires k < |positions| && |r| == |base| && positions[k] < |r| && Untouched(r, base, positions, k)
    ensures Untouched(r[positions[k] := x], base, positions, k + 1)
  {
    PrefixStep(positions, k);
    var next := r[positions[k] := x];
    forall i | 0 <= i < |base| && i !in positions[..k + 1] ensures next[i] == base[i] {
      assert i !in Elements(positions[..k + 1]);
      assert i !in positions[..k] && i != positions[k];
    }
  }

  lemma SnocMultiset(s: seq<Item>, k: nat)
    requires k < |s|
    ensures multiset(s[..k + 1]) == multiset(s[..k]) + multiset{s[k]}
  {
    assert s[..k + 1] == s[..k] + [s[k]];
  }

  /** An order of the active items gives an order of all items. */
  lemma MergeIsPermutation(r: seq<Item>, base: seq<Item>, order: seq<Item>, picked: seq<Item>)
    requires multiset(r) + multiset(picked) == multiset(base) + multiset(order) && Permutes(order, picked)
    ensures Permutes(r, base)
  {
    assert multiset(r) == multiset(r) + multiset(picked) - multiset(picked);
  }

  // ------------------------------------------------------------- all candidates

  /** A full order is determined by its passive part and its active order. */
  lemma MergedIsUnique(r: seq<Item>, p: seq<Item>, base: seq<Item>, order: seq<Item>, active: set<Item>)
    requires Merged(r, base, order, active) && Merged(p, base, order, active)
    ensures r == p
  {
    hide Increasing;
    var positions := Positions(base, active);
    PositionsAreExact(base, active);
    forall i | 0 <= i < |base| ensures r[i] == p[i] {
      if base[i] in active {
        var k :| 0 <= k < |positions| && positions[k] == i;
        assert r[positions[k]] == order[k] && p[positions[k]] == order[k];
      }
    }
  }

  /** The merge exists for every order of the right length. */
  lemma MergeAll(base: seq<Item>, order: seq<Item>, active: set<Item>) returns (result: seq<Item>)
    requires |Positions(base, active)| == |order|
    ensures Merged(result, base, order, active) && InRange(Positions(base, active), base)
    ensures multiset(result) + multiset(Picked(base, Positions(base, active))) == multiset(base) + multiset(order)
  {
    hide Increasing, Merging, Exact, Merged, Positions;
    PositionsAreExact(base, active);
    var positions := Positions(base, active);
    ExactInRange(positions, base, active);
    result := base;
    var k: nat := 0;
    MergeStarts(base, order, positions);
    while k < |positions|
      invariant k <= |positions| && Merging(result, base, order, positions, k)
    {
      MergeStep(result, base, order, positions, k);
      result := result[positions[k] := order[k]];
      k := k + 1;
    }
    MergeEnds(result, base, order, active);
  }

  lemma ActiveOrderOf(p: seq<Item>, base: seq<Item>, active: set<Item>) returns (order: seq<Item>)
    requires Permutes(p, base) && KeepsPassive(p, base, active)
    ensures Merged(p, base, order, active)
    ensures InRange(Positions(base, active), base) && Permutes(order, Picked(base, Positions(base, active)))
  {
    hide Increasing, Positions;
    PositionsAreExact(base, active);
    order := Picked(p, Positions(base, active));
    var result := MergeAll(base, order, active);
    MergedIsUnique(result, p, base, order, active);
    CancelBase(base, p, order, Picked(base, Positions(base, active)));
  }

  lemma CancelBase(base: seq<Item>, p: seq<Item>, order: seq<Item>, picked: seq<Item>)
    requires Permutes(p, base) && multiset(p) + multiset(picked) == multiset(base) + multiset(order)
    ensures Permutes(order, picked)
  {
    assert multiset(order) == multiset(base) + multiset(order) - multiset(base);
    assert multiset(picked) == multiset(p) + multiset(picked) - multiset(p);
  }

  /** Different active orders merge into different orders. */
  lemma MergedAreDistinct(orders: seq<seq<Item>>, actives: seq<seq<Item>>, base: seq<Item>, active: set<Item>)
    requires |orders| == |actives| && Distinct(actives)
    requires forall k :: 0 <= k < |orders| ==> Merged(orders[k], base, actives[k], active)
    ensures Distinct(orders)
  {
    forall i, j | 0 <= i < j < |orders| ensures orders[i] != orders[j] {
      MergeDetermines(orders[i], orders[j], base, actives[i], actives[j], active);
    }
  }

  lemma MergeDetermines(r: seq<Item>, q: seq<Item>, base: seq<Item>, order: seq<Item>, other: seq<Item>,
                        active: set<Item>)
    requires Merged(r, base, order, active) && Merged(q, base, other, active)
    ensures r == q ==> order == other
  {
  }

  /** Candidates are different orders; each permutes the base and leaves passive items in
      place, and below the cap every such order is a candidate. */
  method CandidateOrders(base: seq<Item>, active: set<Item>) returns (orders: seq<seq<Item>>)
    ensures orders != [] && |orders| <= MAX_CANDIDATES && Distinct(orders)
    ensures forall s :: s in orders ==> Permutes(s, base) && KeepsPassive(s, base, active)
    ensures |orders| < MAX_CANDIDATES ==>
      forall p :: Permutes(p, base) && KeepsPassive(p, base, active) ==> p in orders
  {
    hide Permutes, KeepsPassive, Merged, Increasing, Distinct;
    PositionsAreExact(base, active);
    var activeBase := Picked(base, Positions(base, active));
    var actives := BoundedActiveOrders(activeBase);
    orders := [];
    while |orders| < |actives|
      invariant |orders| <= |actives|
      invariant forall s :: s in orders ==> Permutes(s, base) && KeepsPassive(s, base, active)
      invariant forall k :: 0 <= k < |orders| ==> Merged(orders[k], base, actives[k], active)
    {
      var order := actives[|orders|];
      assert order in actives;
      SameLength(order, activeBase);
      var merged := MergePassive(base, order, active);
      MergeIsPermutation(merged.value, base, order, activeBase);
      MergedKeeps(merged.value, base, order, active);
      orders := orders + [merged.value];
    }
    MergedAreDistinct(orders, actives, base, active);
    if |orders| < MAX_CANDIDATES {
      forall p | Permutes(p, base) && KeepsPassive(p, base, active) ensures p in orders {
        var order := ActiveOrderOf(p, base, active);
        var k :| 0 <= k < |actives| && actives[k] == order;
        MergedIsUnique(orders[k], p, base, order, active);
      }
    }
  }

  lemma SameLength(order: seq<Item>, picked: seq<Item>)
    requires Permutes(order, picked)
    ensures |order| == |picked|
  {
    PermutationLength(order, picked);
  }

  lemma MergedKeeps(r: seq<Item>, base: seq<Item>, order: seq<Item>, active: set<Item>)
    requires Merged(r, base, order, active)
    ensures KeepsPassive(r, base, active)
  {
  }
}

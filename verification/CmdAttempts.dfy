/** What a CMD branch holds: attempt 0, maybe its result, attempt 1, maybe its result, ... */
module CmdAttempts {
  import opened Collections
  import opened CmdLineage
  import Labels

  datatype Stage = Asked | Answered

  /** Attempt `last` is the latest at `c`; each result lies directly on its own attempt. */
  ghost predicate Lineage(cs: Commits, source: Id, argv: seq<string>, c: Id, last: nat, stage: Stage)
    requires WellFounded(cs)
    decreases c
  {
    && c in cs && cs[c].parent.Some?
    && var p := cs[c].parent.value;
      if stage == Answered then
        && Changed(cs, c) == {Result} && HasStatus(cs[c].tree.result) && cs[c].ticket == Some(Ticket(p, last))
        && Lineage(cs, source, argv, p, last, Asked)
      else
        && Changed(cs, c) == {Marker} && cs[c].trailers == [source]
        && cs[c].tree.marker == Some(Words(argv + [Labels.Digits(last)], true))
        && if last == 0 then p == source
          else Lineage(cs, source, argv, p, last - 1, Asked) || Lineage(cs, source, argv, p, last - 1, Answered)
  }

  predicate HasStatus(file: Option<ResultFile>) {
    file.Some? && file.value.text.Status?
  }

  ghost predicate Belongs(cs: Commits, c: Id, source: Id, argv: seq<string>)
    requires WellFounded(cs)
  {
    exists last: nat, stage: Stage :: Lineage(cs, source, argv, c, last, stage)
  }

  ghost predicate Extends(cs: Commits, more: Commits) {
    forall c :: c in cs ==> c in more && more[c] == cs[c]
  }

  lemma ChangedIsStable(cs: Commits, more: Commits, c: Id)
    requires WellFounded(cs) && WellFounded(more) && Extends(cs, more) && c in cs
    ensures Changed(more, c) == Changed(cs, c)
  {
  }

  /** New commits never change what a branch holds. */
  lemma {:induction false} LineageIsStable(cs: Commits, more: Commits, source: Id, argv: seq<string>, c: Id,
                                           last: nat, stage: Stage)
    requires WellFounded(cs) && WellFounded(more) && Extends(cs, more) && c in cs
    ensures Lineage(more, source, argv, c, last, stage) <==> Lineage(cs, source, argv, c, last, stage)
    decreases c
  {
    hide Changed;
    ChangedIsStable(cs, more, c);
    if cs[c].parent.Some? {
      var p := cs[c].parent.value;
      if stage == Answered {
        LineageIsStable(cs, more, source, argv, p, last, Asked);
      } else if last > 0 {
        LineageIsStable(cs, more, source, argv, p, last - 1, Asked);
        LineageIsStable(cs, more, source, argv, p, last - 1, Answered);
      }
    }
  }

  lemma BelongsIsStable(cs: Commits, more: Commits, c: Id, source: Id, argv: seq<string>)
    requires WellFounded(cs) && WellFounded(more) && Extends(cs, more) && c in cs
    ensures Belongs(more, c, source, argv) <==> Belongs(cs, c, source, argv)
  {
    hide Lineage, Extends, WellFounded;
    forall last: nat, stage: Stage
      ensures Lineage(more, source, argv, c, last, stage) <==> Lineage(cs, source, argv, c, last, stage)
    {
      LineageIsStable(cs, more, source, argv, c, last, stage);
    }
  }

  lemma {:induction false} LineageIsAbove(cs: Commits, source: Id, argv: seq<string>, c: Id, last: nat, stage: Stage)
    requires WellFounded(cs) && Lineage(cs, source, argv, c, last, stage)
    ensures source < c
    decreases c
  {
    hide Changed;
    var p := cs[c].parent.value;
    if stage == Answered {
      LineageIsAbove(cs, source, argv, p, last, Asked);
    } else if last > 0 {
      var above := if Lineage(cs, source, argv, p, last - 1, Asked) then Asked else Answered;
      LineageIsAbove(cs, source, argv, p, last - 1, above);
    }
  }

  /** Such a branch passes the forward scan for its own source and arguments. */
  lemma {:induction false} LineageIsLenient(cs: Commits, source: Id, argv: seq<string>, c: Id, last: nat, stage: Stage)
    requires WellFounded(cs) && Lineage(cs, source, argv, c, last, stage)
    ensures Lenient(cs, source, argv, c, last + 1)
    decreases c
  {
    hide Changed;
    var p := cs[c].parent.value;
    assert Marker !in {Result};
    if stage == Answered {
      LineageIsLenient(cs, source, argv, p, last, Asked);
      LineageIsAbove(cs, source, argv, p, last, Asked);
    } else if last > 0 {
      var before := if Lineage(cs, source, argv, p, last - 1, Asked) then Asked else Answered;
      LineageIsLenient(cs, source, argv, p, last - 1, before);
      LineageIsAbove(cs, source, argv, p, last - 1, before);
    }
  }

  lemma SameWords(a: seq<string>, m: nat, b: seq<string>, n: nat)
    requires a + [Labels.Digits(m)] == b + [Labels.Digits(n)]
    ensures a == b && m == n
  {
    hide Labels.Digits;
    var x, y := a + [Labels.Digits(m)], b + [Labels.Digits(n)];
    assert |a| == |b| && x[..|a|] == a && y[..|a|] == b && x[|a|] == y[|a|];
    DigitsAreInjective(m, n);
  }

  /** ... and for nothing else: the scan identifies the branch. */
  lemma {:induction false} LineageDecides(cs: Commits, source: Id, argv: seq<string>, c: Id, last: nat, stage: Stage,
                                          other: Id, words: seq<string>, count: nat)
    requires WellFounded(cs) && Lineage(cs, source, argv, c, last, stage) && Lenient(cs, other, words, c, count)
    ensures other == source && words == argv && count == last + 1
    decreases c
  {
    hide Changed, Labels.Digits;
    assert Marker !in {Result};
    if stage == Answered {
      LineageDecides(cs, source, argv, cs[c].parent.value, last, Asked, other, words, count);
    } else {
      assert other in [source];
      SameWords(argv, last, words, count - 1);
    }
  }

  /** Two readings of one tip agree, down to the attempt number and its result. */
  lemma LineageIsUnique(cs: Commits, c: Id, source: Id, argv: seq<string>, last: nat, stage: Stage,
                        other: Id, words: seq<string>, count: nat, level: Stage)
    requires WellFounded(cs)
    requires Lineage(cs, source, argv, c, last, stage) && Lineage(cs, other, words, c, count, level)
    ensures source == other && argv == words && last == count && stage == level
  {
    LineageIsLenient(cs, other, words, c, count, level);
    LineageDecides(cs, source, argv, c, last, stage, other, words, count + 1);
    StageIsChanged(cs, source, argv, c, last, stage);
    StageIsChanged(cs, other, words, c, count, level);
  }

  lemma StageIsChanged(cs: Commits, source: Id, argv: seq<string>, c: Id, last: nat, stage: Stage)
    requires WellFounded(cs) && Lineage(cs, source, argv, c, last, stage)
    ensures c in cs && cs[c].parent.Some?
    ensures Changed(cs, c) == {if stage == Answered then Result else Marker}
    ensures stage == Answered <==> Changed(cs, c) == {Result}
  {
    assert Marker !in {Result};
  }

  lemma BelongsIsUnique(cs: Commits, c: Id, source: Id, argv: seq<string>, other: Id, words: seq<string>)
    requires WellFounded(cs) && Belongs(cs, c, source, argv) && Belongs(cs, c, other, words)
    ensures source == other && argv == words
  {
    hide Lineage, WellFounded;
    var last: nat, stage: Stage :| Lineage(cs, source, argv, c, last, stage);
    var count: nat, level: Stage :| Lineage(cs, other, words, c, count, level);
    LineageIsUnique(cs, c, source, argv, last, stage, other, words, count, level);
  }

  /** The submitter reuses a branch exactly when it is a run of its own request. */
  lemma AcceptsIffBelongs(cs: Commits, c: Id, source: Id, argv: seq<string>, other: Id, words: seq<string>)
    requires WellFounded(cs) && c in cs && other in cs && Belongs(cs, c, source, argv)
    ensures Accepts(cs, other, c, words) <==> Belongs(cs, c, other, words)
    ensures Accepts(cs, other, c, words) <==> other == source && words == argv
  {
    hide Lineage, Lenient, WellFounded, Accepts;
    var last: nat, stage: Stage :| Lineage(cs, source, argv, c, last, stage);
    AcceptsIffLenient(cs, other, c, words);
    if IsRun(cs, other, words, c) {
      var count: nat :| Lenient(cs, other, words, c, count);
      LineageDecides(cs, source, argv, c, last, stage, other, words, count);
    }
    if Belongs(cs, c, other, words) {
      BelongsIsUnique(cs, c, source, argv, other, words);
      LineageIsLenient(cs, source, argv, c, last, stage);
      assert Lenient(cs, other, words, c, last + 1);
    }
  }

  /** Every commit of a branch changes one path: a request its marker, a result its result. */
  lemma AttemptsChangeOnePath(cs: Commits, source: Id, argv: seq<string>, c: Id, last: nat, stage: Stage)
    requires WellFounded(cs) && Lineage(cs, source, argv, c, last, stage)
    ensures c in cs && cs[c].parent.Some? && cs[c].parent.value in cs
    ensures var before, after := cs[cs[c].parent.value].tree, cs[c].tree;
      if stage == Asked then after == before.(marker := after.marker) && after.marker != before.marker
      else after == before.(result := after.result) && after.result != before.result
  {
    StageIsChanged(cs, source, argv, c, last, stage);
    var before, after := cs[cs[c].parent.value].tree, cs[c].tree;
    assert Changed(cs, c) == Difference(before, after);
    assert Marker in Difference(before, after) <==> before.marker != after.marker;
    assert Result in Difference(before, after) <==> before.result != after.result;
    assert Other in Difference(before, after) <==> before.other != after.other;
  }
}

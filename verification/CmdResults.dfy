/** Publication and readback of one result per attempt. */
module CmdResults {
  import opened Collections
  import opened CmdLineage
  import opened CmdAttempts
  import Labels

  /** A marker commit on `parent`; its tree differs in the marker only. */
  function MarkerCommit(cs: Commits, parent: Id, source: Id, argv: seq<string>, count: nat): Commit
    requires parent in cs
  {
    var marker := Words(argv + [Labels.Digits(count)], true);
    Commit(Some(parent), cs[parent].tree.(marker := Some(marker)), [source], None)
  }

  /** Same text as before: toggle the file mode so that the path still changes. */
  function PublishedMode(previous: Option<ResultFile>, text: ResultText): Mode {
    if previous.Some? && previous.value.text == text && previous.value.mode == Regular then Executable else Regular
  }

  function ResultCommit(cs: Commits, tip: Id, retry: nat, text: ResultText): Commit
    requires tip in cs
  {
    var file := ResultFile(PublishedMode(cs[tip].tree.result, text), text);
    Commit(Some(tip), cs[tip].tree.(result := Some(file)), [], Some(Ticket(tip, retry)))
  }

  /** Even byte-identical output changes the result path, and only that path. */
  lemma PublicationChangesResult(cs: Commits, tip: Id, retry: nat, text: ResultText)
    requires tip in cs
    ensures Difference(cs[tip].tree, ResultCommit(cs, tip, retry, text).tree) == {Result}
  {
  }

  lemma FirstAttempt(cs: Commits, c: Id, source: Id, argv: seq<string>)
    requires WellFounded(cs) && source in cs && c in cs && cs[c] == MarkerCommit(cs, source, source, argv, 0)
    requires Changed(cs, c) == {Marker}
    ensures Lineage(cs, source, argv, c, 0, Asked)
  {
  }

  lemma NextAttempt(cs: Commits, c: Id, tip: Id, source: Id, argv: seq<string>, last: nat, stage: Stage)
    requires WellFounded(cs) && tip in cs && c in cs && cs[c] == MarkerCommit(cs, tip, source, argv, last + 1)
    requires Changed(cs, c) == {Marker} && Lineage(cs, source, argv, tip, last, stage)
    ensures Lineage(cs, source, argv, c, last + 1, Asked)
  {
    hide Changed;
  }

  lemma AnswerAttempt(cs: Commits, c: Id, tip: Id, source: Id, argv: seq<string>, last: nat, text: ResultText)
    requires WellFounded(cs) && tip in cs && c in cs && cs[c] == ResultCommit(cs, tip, last, text) && text.Status?
    requires Lineage(cs, source, argv, tip, last, Asked)
    ensures Lineage(cs, source, argv, c, last, Answered)
  {
    PublicationChangesResult(cs, tip, last, text);
  }

  // ------------------------------------------------------------------ readback

  /** The last commit that touched the marker. */
  function LatestMarker(cs: Commits, c: Id): Option<Id>
    requires WellFounded(cs) && c in cs
    decreases c
  {
    if cs[c].parent.None? then (if cs[c].tree.marker.Some? then Some(c) else None)
    else if Marker in Changed(cs, c) then Some(c)
    else LatestMarker(cs, cs[c].parent.value)
  }

  /** The count at the end of a marker, canonical serialization or not. */
  function RequestNumber(file: Option<MarkerFile>): Option<nat> {
    if !IsWords(file) then None else
      var words := file.value.words;
      var n := |words|;
      if n >= 3 && words[n - 2] == "--remote" && Labels.IsNumber(words[n - 1])
      then Some(Labels.Value(words[n - 1])) else None
  }

  datatype Reading = Pending | Completed(request: Id, retry: nat, exitCode: int, output: string) | Invalid

  function ReadResult(cs: Commits, tip: Id): Reading
    requires WellFounded(cs) && tip in cs
  {
    var marker := LatestMarker(cs, tip);
    if marker.None? || marker.value !in cs then Invalid else
      var retry := RequestNumber(cs[marker.value].tree.marker);
      if retry.None? then Invalid
      else if tip == marker.value then Pending
      else if cs[tip].parent != marker || Changed(cs, tip) != {Result} then Invalid
      else if cs[tip].ticket != Some(Ticket(marker.value, retry.value)) then Invalid
      else if !HasStatus(cs[tip].tree.result) then Invalid
      else
        var text := cs[tip].tree.result.value.text;
        Completed(marker.value, retry.value, text.exitCode, text.output)
  }

  lemma WrittenNumber(argv: seq<string>, retry: nat)
    ensures RequestNumber(Some(Words(argv + [Labels.Digits(retry)], true)))
      == if |argv| >= 2 && argv[|argv| - 1] == "--remote" then Some(retry) else None
  {
    hide Labels.Digits, Labels.Value, Labels.IsNumber;
    var words := argv + [Labels.Digits(retry)];
    NumberIsPrinted(words[|words| - 1], retry);
  }

  lemma MarkerOfTip(cs: Commits, source: Id, argv: seq<string>, c: Id, last: nat, stage: Stage)
    requires WellFounded(cs) && Lineage(cs, source, argv, c, last, stage)
    ensures c in cs && cs[c].parent.Some? && (stage == Asked ==> LatestMarker(cs, c) == Some(c))
    ensures stage == Answered ==> LatestMarker(cs, c) == cs[c].parent
  {
    hide Changed;
    StageIsChanged(cs, source, argv, c, last, stage);
    assert Marker !in {Result} && Marker in {Marker};
    if stage == Answered {
      StageIsChanged(cs, source, argv, cs[c].parent.value, last, Asked);
    }
  }

  /** Readback returns nothing or the result of the latest attempt, never an older one. */
  lemma ReadbackIsCurrent(cs: Commits, source: Id, argv: seq<string>, c: Id, last: nat, stage: Stage)
    requires WellFounded(cs) && Lineage(cs, source, argv, c, last, stage)
    ensures c in cs && cs[c].parent.Some?
    ensures |argv| >= 2 && argv[|argv| - 1] == "--remote" ==>
      if stage == Asked then ReadResult(cs, c) == Pending
      else
        && HasStatus(cs[c].tree.result)
        && ReadResult(cs, c) == Completed(cs[c].parent.value, last, cs[c].tree.result.value.text.exitCode,
                                          cs[c].tree.result.value.text.output)
    ensures !(|argv| >= 2 && argv[|argv| - 1] == "--remote") ==> ReadResult(cs, c) == Invalid
  {
    hide Changed, RequestNumber, LatestMarker;
    MarkerOfTip(cs, source, argv, c, last, stage);
    WrittenNumber(argv, last);
    StageIsChanged(cs, source, argv, c, last, stage);
  }

  /** Readback only takes a result that lies directly on the request, changes nothing else
      and names this request and retry. */
  lemma ReadingIsOwn(cs: Commits, tip: Id)
    requires WellFounded(cs) && tip in cs && ReadResult(cs, tip).Completed?
    ensures var reading := ReadResult(cs, tip);
      && cs[tip].parent == Some(reading.request) && reading.request in cs
      && cs[tip].ticket == Some(Ticket(reading.request, reading.retry))
      && cs[tip].tree == cs[reading.request].tree.(result := cs[tip].tree.result)
      && cs[tip].tree.result != cs[reading.request].tree.result
  {
    var before, after := cs[cs[tip].parent.value].tree, cs[tip].tree;
    assert Changed(cs, tip) == Difference(before, after);
    assert Marker in Difference(before, after) <==> before.marker != after.marker;
    assert Result in Difference(before, after) <==> before.result != after.result;
    assert Other in Difference(before, after) <==> before.other != after.other;
  }
}

/** The whole projection: lanes to paths, reduction, sibling groups. */
module Projection {
  import opened Collections
  import opened Digraph
  import opened TopologicalOrder
  import opened Lanes
  import opened Reduction
  import opened Connectivity
  import GG = GroupGraph
  import SG = SiblingGroups
  import Labels
  import LaneNames

  type Text = map<nat, GG.Label>

  datatype Projected = Projected(groups: seq<GG.Siblings>, lanes: seq<seq<GG.Label>>)

  // ---------------------------------------------------------------- lane paths

  function Members(visible: set<nat>, assignment: map<nat, nat>, lane: nat): set<nat>
    requires visible <= assignment.Keys
  {
    set v | v in visible && assignment[v] == lane
  }

  function Used(visible: set<nat>, assignment: map<nat, nat>): set<nat>
    requires visible <= assignment.Keys
  {
    set v | v in visible :: assignment[v]
  }

  /** Some path runs through exactly these issues. */
  ghost predicate HasPath(g: Graph, issues: set<nat>) {
    Acyclic(Induced(g, issues)) && exists p :: PathOf(g, issues, p)
  }

  /** Every lane of the assignment is a path of the visible graph. */
  ghost predicate LanesArePaths(g: Graph, visible: set<nat>, assignment: map<nat, nat>)
    requires visible <= assignment.Keys
  {
    forall l :: l in Used(visible, assignment) ==> HasPath(g, Members(visible, assignment, l))
  }

  ghost predicate Paths(g: Graph, visible: set<nat>, assignment: map<nat, nat>, names: seq<nat>, orders: seq<Lane>)
    requires visible <= assignment.Keys
  {
    |orders| <= |names|
    && forall i :: 0 <= i < |orders| ==> PathOf(g, Members(visible, assignment, names[i]), orders[i])
  }

  function Step(lane: Lane, k: nat): (nat, nat)
    requires k + 1 < |lane|
  {
    (lane[k], lane[k + 1])
  }

  function Neighbours(lane: Lane): set<(nat, nat)> {
    set k: nat | k + 1 < |lane| :: Step(lane, k)
  }

  /** The edges between neighbours on a lane. */
  ghost predicate Protects(orders: seq<Lane>, protected: set<(nat, nat)>) {
    forall e :: e in protected <==> exists i :: 0 <= i < |orders| && e in Neighbours(orders[i])
  }

  lemma ProtectLane(orders: seq<Lane>, protected: set<(nat, nat)>, lane: Lane)
    requires Protects(orders, protected)
    ensures Protects(orders + [lane], protected + Neighbours(lane))
  {
    var more := orders + [lane];
    forall e ensures e in protected + Neighbours(lane) <==> exists i :: 0 <= i < |more| && e in Neighbours(more[i]) {
      if e in protected {
        var i :| 0 <= i < |orders| && e in Neighbours(orders[i]);
        assert more[i] == orders[i];
      } else if e in Neighbours(lane) {
        assert more[|orders|] == lane;
      }
      if i :| 0 <= i < |more| && e in Neighbours(more[i]) {
        assert i < |orders| ==> more[i] == orders[i];
      }
    }
  }

  /** Order every lane and collect its edges; None when a lane is not a path. */
  method OrderLanes(g: Graph, visible: set<nat>, assignment: map<nat, nat>)
    returns (plan: Option<(seq<Lane>, set<(nat, nat)>)>)
    requires visible <= assignment.Keys && visible <= g.Keys
    ensures plan.Some? <==> LanesArePaths(g, visible, assignment)
    ensures plan.Some? ==> Paths(g, visible, assignment, Ascending(Used(visible, assignment)), plan.value.0)
    ensures plan.Some? ==> |plan.value.0| == |Ascending(Used(visible, assignment))|
    ensures plan.Some? ==> Protects(plan.value.0, plan.value.1)
  {
    hide Protects, PathOf, Acyclic, Ascending, Elements;
    var names := Ascending(Used(visible, assignment));
    var orders: seq<Lane>, protected := [], {};
    var i: nat := 0;
    NothingProtected();
    while i < |names|
      invariant i <= |names| && |orders| == i
      invariant Paths(g, visible, assignment, names, orders) && Protects(orders, protected)
      invariant forall l :: l in Elements(names[..i]) ==> HasPath(g, Members(visible, assignment, l))
    {
      AscendingStep(Used(visible, assignment), i);
      var issues := Members(visible, assignment, names[i]);
      var lane := LanePath(issues, g);
      if lane.None? {
        assert !HasPath(g, issues);
        return None;
      }
      assert lane == Some(lane.value);
      ProtectLane(orders, protected, lane.value);
      orders, protected := orders + [lane.value], protected + Neighbours(lane.value);
      i := i + 1;
    }
    AscendingEnd(Used(visible, assignment));
    return Some((orders, protected));
  }

  lemma NothingProtected()
    ensures Protects([], {})
    ensures forall names: seq<nat> :: Elements(names[..0]) == {}
  {
  }

  // -------------------------------------------------------------- issue texts

  datatype LifecycleState = NotStarted | Active | InReview | Accepted | Completed | Aborted

  /** The lifecycle entry of the metadata: missing, null, a state, or anything else. */
  datatype Shown = Absent | Null | Known(state: LifecycleState) | Unsupported

  datatype Metadata = Metadata(root: bool, lifecycle: Shown, title: string)

  function Glyph(state: LifecycleState): string {
    match state
    case NotStarted => "\U{25CB}"
    case Active => "\U{25CF}"
    case InReview => "\U{25CE}"
    case Accepted => "\U{2713}"
    case Completed => "\U{2665}"
    case Aborted => "\U{2715}"
  }

  function TypePrefix(title: string): string {
    if "Initiative:" <= title then "I:" else if "Epic:" <= title then "E:" else if "Feature:" <= title then "F:" else ""
  }

  /** Root mark, lifecycle glyph and kind; None for an unsupported lifecycle state. */
  function Annotation(m: Metadata): Option<string> {
    var mark := if m.root then "*" else "";
    match m.lifecycle
    case Absent => Some(mark + TypePrefix(m.title))
    case Null => Some(mark + "?" + TypePrefix(m.title))
    case Known(state) => Some(mark + Glyph(state) + TypePrefix(m.title))
    case Unsupported => None
  }

  lemma AnnotationEndsPlain(m: Metadata)
    ensures Annotation(m).Some? ==> Labels.PlainEnd(Annotation(m).value)
  {
  }

  ghost predicate Supported(visible: set<nat>, metadata: map<nat, Metadata>) {
    forall v :: v in visible ==> v in metadata && Annotation(metadata[v]).Some?
  }

  function Annotations(visible: set<nat>, metadata: map<nat, Metadata>): map<nat, string>
    requires Supported(visible, metadata)
  {
    map v | v in visible :: Annotation(metadata[v]).value
  }

  ghost predicate NamesOk(visible: set<nat>, assignment: map<nat, string>) {
    forall v :: v in visible ==> v in assignment && LaneNames.IsName(assignment[v])
  }

  /** Lanes by the number of their name. */
  function LaneNumbers(visible: set<nat>, assignment: map<nat, string>): map<nat, nat>
    requires NamesOk(visible, assignment)
  {
    map v | v in visible :: LaneNames.Key(assignment[v])
  }

  function IssueText(visible: set<nat>, annotation: map<nat, string>, assignment: map<nat, nat>): Text
    requires visible <= annotation.Keys && visible <= assignment.Keys
  {
    map v | v in visible :: Labels.Label(annotation[v], LaneNames.Letters(assignment[v]), v)
  }

  /** Labels tell issues apart for every choice of annotations and lanes. */
  lemma IssueTextIsUnique(visible: set<nat>, annotation: map<nat, string>, assignment: map<nat, nat>)
    requires visible <= annotation.Keys && visible <= assignment.Keys
    requires forall v :: v in visible ==> Labels.PlainEnd(annotation[v])
    ensures SG.UniqueText(visible, IssueText(visible, annotation, assignment))
  {
    var text := IssueText(visible, annotation, assignment);
    forall u, v | u in visible && v in visible ensures text[v] != "" && (text[u] == text[v] ==> u == v) {
      LabelsDiffer(annotation[u], assignment[u], u, annotation[v], assignment[v], v);
    }
  }

  lemma LabelsDiffer(a: string, i: nat, u: nat, b: string, j: nat, v: nat)
    requires Labels.PlainEnd(a) && Labels.PlainEnd(b)
    ensures Labels.Label(b, LaneNames.Letters(j), v) != ""
    ensures Labels.Label(a, LaneNames.Letters(i), u) == Labels.Label(b, LaneNames.Letters(j), v) ==> u == v
  {
    hide LaneNames.Letters, LaneNames.Key, Labels.Digits;
    LaneNames.KeyOfLetters(i);
    LaneNames.KeyOfLetters(j);
    Labels.ValueOfDigits(v);
    if Labels.Label(a, LaneNames.Letters(i), u) == Labels.Label(b, LaneNames.Letters(j), v) {
      Labels.LabelsAreUnique(a, LaneNames.Letters(i), u, b, LaneNames.Letters(j), v);
    }
  }

  // ---------------------------------------------------------- lanes as labels

  ghost predicate OrdersIn(orders: seq<Lane>, nodes: set<nat>) {
    forall i :: 0 <= i < |orders| ==> Elements(orders[i]) <= nodes
  }

  function LaneTexts(orders: seq<Lane>, text: Text): seq<seq<GG.Label>>
    requires OrdersIn(orders, text.Keys)
  {
    seq(|orders|, i requires 0 <= i < |orders| => SG.Texts(orders[i], text))
  }

  /** The lane orders split the visible issues into non-empty paths. */
  ghost predicate Partition(visible: set<nat>, orders: seq<Lane>) {
    && (forall i :: 0 <= i < |orders| ==> orders[i] != [] && Distinct(orders[i]) && Elements(orders[i]) <= visible)
    && (forall i, j, v :: 0 <= i < |orders| && 0 <= j < |orders| && v in orders[i] && v in orders[j] ==> i == j)
    && (forall v :: v in visible ==> exists i :: 0 <= i < |orders| && v in orders[i])
  }

  lemma PathsPartition(g: Graph, visible: set<nat>, assignment: map<nat, nat>, orders: seq<Lane>)
    requires visible <= assignment.Keys
    requires Paths(g, visible, assignment, Ascending(Used(visible, assignment)), orders)
    requires |orders| == |Ascending(Used(visible, assignment))|
    ensures Partition(visible, orders)
  {
    hide Ascending, Chain;
    var names := Ascending(Used(visible, assignment));
    AscendingIsSorted(Used(visible, assignment));
    forall i | 0 <= i < |orders| ensures orders[i] != [] && Distinct(orders[i])
      && (forall v :: v in orders[i] <==> v in visible && assignment[v] == names[i])
    {
      assert names[i] in Elements(names);
      var w :| w in visible && assignment[w] == names[i];
      assert Elements(orders[i]) == Members(visible, assignment, names[i]);
      assert w in Elements(orders[i]);
      assert forall v :: v in orders[i] <==> v in Elements(orders[i]);
    }
    forall v | v in visible ensures exists i :: 0 <= i < |orders| && v in orders[i] {
      assert assignment[v] in Elements(names);
      var i :| 0 <= i < |names| && names[i] == assignment[v];
      assert v in orders[i];
    }
    forall i, j, v | 0 <= i < |orders| && 0 <= j < |orders| && v in orders[i] && v in orders[j] ensures i == j {
      assert names[i] == names[j];
    }
  }

  lemma LanesAreDisjoint(visible: set<nat>, orders: seq<Lane>, text: Text)
    requires Partition(visible, orders) && SG.UniqueText(visible, text)
    ensures OrdersIn(orders, text.Keys) && GG.Disjoint(LaneTexts(orders, text))
  {
    hide Distinct;
    var f := LaneTexts(orders, text);
    forall i | 0 <= i < |f| ensures f[i] != [] && Distinct(f[i]) {
      SG.TextsDistinct(orders[i], visible, text);
      SG.TextsLength(orders[i], text);
    }
    forall a, b, u | 0 <= a < |f| && 0 <= b < |f| && u in f[a] && u in f[b] ensures a == b {
      var v := SG.LabelHasIssue(orders[a], visible, text, u);
      var w := SG.LabelHasIssue(orders[b], visible, text, u);
    }
  }

  lemma LanesCover(visible: set<nat>, orders: seq<Lane>, text: Text, u: GG.Label)
    requires Partition(visible, orders) && SG.UniqueText(visible, text)
    ensures OrdersIn(orders, text.Keys)
    ensures GG.Covers(LaneTexts(orders, text), u) <==> SG.IsText(visible, text, u)
  {
    hide Distinct;
    var f := LaneTexts(orders, text);
    if GG.Covers(f, u) {
      var a :| 0 <= a < |f| && u in f[a];
      var v := SG.LabelHasIssue(orders[a], visible, text, u);
    }
    if SG.IsText(visible, text, u) {
      var v :| v in visible && text[v] == u;
      var i :| 0 <= i < |orders| && v in orders[i];
      var k :| 0 <= k < |orders[i]| && orders[i][k] == v;
      assert f[i][k] == u;
    }
  }

  // ------------------------------------------------------------ the projection

  /** Two labels are related exactly when the reduction keeps their edge. */
  ghost predicate Faithful(g: Graph, keep: set<(nat, nat)>, groups: seq<GG.Siblings>, text: Text)
    requires g.Keys <= text.Keys
  {
    && (forall u, v :: u in g && v in g ==>
          (GG.Related(groups, text[u], text[v]) <==> Edge(Reduce(g, keep), u, v)))
    && (forall a, b :: GG.Related(groups, a, b) ==> SG.IsText(g.Keys, text, a) && SG.IsText(g.Keys, text, b))
  }

  ghost predicate Projects(g: Graph, visible: set<nat>, assignment: map<nat, nat>, text: Text, p: Projected,
                           orders: seq<Lane>, keep: set<(nat, nat)>)
    requires visible <= assignment.Keys && g.Keys <= text.Keys
  {
    && Paths(g, visible, assignment, Ascending(Used(visible, assignment)), orders)
    && Protects(orders, keep)
    && OrdersIn(orders, text.Keys) && p.lanes == LaneTexts(orders, text)
    && Faithful(g, keep, p.groups, text)
  }

  lemma ReducedGraph(g: Graph, keep: set<(nat, nat)>)
    requires Closed(g)
    ensures Closed(Reduce(g, keep)) && Reduce(g, keep).Keys == g.Keys
    ensures Acyclic(g) ==> Acyclic(Reduce(g, keep))
  {
    hide Reach, Detour;
    if Acyclic(g) {
      AcyclicSubgraph(Reduce(g, keep), g);
    }
  }

  lemma DependantsAreClosed(dependsOn: Graph, visible: set<nat>)
    ensures Closed(Dependants(dependsOn, visible)) && Dependants(dependsOn, visible).Keys == visible
  {
  }

  /** Neighbours on a lane stay related because their edge is protected. */
  lemma LanesAreRelated(g: Graph, orders: seq<Lane>, keep: set<(nat, nat)>, groups: seq<GG.Siblings>, text: Text,
                        l: nat, k: nat)
    requires g.Keys <= text.Keys && OrdersIn(orders, g.Keys) && l < |orders| && k + 1 < |orders[l]|
    requires Chain(g, orders[l]) && Protects(orders, keep) && Faithful(g, keep, groups, text)
    ensures OrdersIn(orders, text.Keys)
    ensures GG.Related(groups, LaneTexts(orders, text)[l][k], LaneTexts(orders, text)[l][k + 1])
  {
    hide GG.Related, Detour, Protects;
    var lane := orders[l];
    assert lane[k] in Elements(lane) && lane[k + 1] in Elements(lane);
    assert Step(lane, k) in keep by { LaneIsProtected(orders, keep, l, k); }
    assert Edge(g, lane[k], lane[k + 1]);
    assert Edge(Reduce(g, keep), lane[k], lane[k + 1]);
  }

  lemma LaneIsProtected(orders: seq<Lane>, keep: set<(nat, nat)>, l: nat, k: nat)
    requires Protects(orders, keep) && l < |orders| && k + 1 < |orders[l]|
    ensures Step(orders[l], k) in keep
  {
    assert Step(orders[l], k) in Neighbours(orders[l]);
  }

  lemma GroupsAreFaithful(g: Graph, keep: set<(nat, nat)>, blocks: seq<seq<nat>>, owner: map<nat, nat>, text: Text)
    requires Closed(g) && SG.UniqueText(g.Keys, text)
    requires Reduce(g, keep).Keys == g.Keys && SG.Grouping(Reduce(g, keep), g.Keys, blocks, owner)
    ensures SG.BlocksIn(blocks, text.Keys)
    ensures Faithful(g, keep, SG.Groups(Reduce(g, keep), blocks, owner, text), text)
  {
    hide SG.Grouping, SG.UniqueText, GG.Related, Reduce, SG.Groups, SG.IsText;
    var h := Reduce(g, keep);
    ReducedGraph(g, keep);
    SG.UniqueTextIsLabelled(g.Keys, text);
    SG.BlocksAreIn(h, blocks, owner, text);
    var groups := SG.Groups(h, blocks, owner, text);
    forall u, v | u in g && v in g ensures GG.Related(groups, text[u], text[v]) <==> Edge(h, u, v) {
      SG.ProjectionIsLossless(h, blocks, owner, text, u, v);
    }
    forall a, b | GG.Related(groups, a, b) ensures SG.IsText(g.Keys, text, a) && SG.IsText(g.Keys, text, b) {
      RelatedAreCovered(groups, a, b);
      SG.GroupsCover(h, blocks, owner, text, a);
      SG.GroupsCover(h, blocks, owner, text, b);
    }
  }

  lemma RelatedAreCovered(groups: seq<GG.Siblings>, a: GG.Label, b: GG.Label)
    requires GG.Related(groups, a, b)
    ensures GG.Covers(GG.Nodes(groups), a) && GG.Covers(GG.Nodes(groups), b)
  {
    var i, j :| 0 <= i < |groups| && 0 <= j < |groups| && a in groups[i].nodes && b in groups[j].nodes
      && j in groups[i].targets;
    assert a in GG.Nodes(groups)[i] && b in GG.Nodes(groups)[j];
  }

  /** The validator accepts what the projection of an acyclic graph produces. */
  lemma ProjectionIsAcceptable(g: Graph, keep: set<(nat, nat)>, orders: seq<Lane>, blocks: seq<seq<nat>>,
                               owner: map<nat, nat>, text: Text)
    requires Closed(g) && Acyclic(g) && SG.UniqueText(g.Keys, text)
    requires Partition(g.Keys, orders) && AllChains(g, orders) && Protects(orders, keep)
    requires Reduce(g, keep).Keys == g.Keys && SG.Grouping(Reduce(g, keep), g.Keys, blocks, owner)
    ensures SG.BlocksIn(blocks, text.Keys) && OrdersIn(orders, text.Keys)
    ensures GG.Acceptable(SG.Groups(Reduce(g, keep), blocks, owner, text), LaneTexts(orders, text))
  {
    hide SG.Grouping, SG.UniqueText, GG.Related, Reduce, SG.Groups, SG.IsText, Partition, GG.TargetsOk, GG.Covers,
      GG.Disjoint, Faithful, Protects, Chain, Closed, Acyclic, LaneTexts, GG.Nodes, GG.Quotient, OrdersIn;
    var h := Reduce(g, keep);
    ReducedGraph(g, keep);
    GroupsAreFaithful(g, keep, blocks, owner, text);
    var groups := SG.Groups(h, blocks, owner, text);
    SG.GroupsAreDisjoint(h, blocks, owner, text);
    SG.TargetsAreOk(h, blocks, owner, text);
    SG.BlockGraphIsAcyclic(h, blocks, owner);
    LanesAreDisjoint(g.Keys, orders, text);
    OrdersAreIn(g.Keys, orders);
    var lanes := LaneTexts(orders, text);
    forall u ensures GG.Covers(GG.Nodes(groups), u) <==> GG.Covers(lanes, u) {
      SG.GroupsCover(h, blocks, owner, text, u);
      LanesCover(g.Keys, orders, text, u);
    }
    assert !GG.Covers(GG.Nodes(groups), "") by { NoEmptyLabel(h, blocks, owner, text); }
    SG.UniqueTextIsLabelled(g.Keys, text);
    assert |groups| == |blocks| by { GroupCount(h, blocks, owner, text); }
    LaneSizes(orders, text);
    forall l, k | 0 <= l < |lanes| && 0 <= k < |lanes[l]| - 1 ensures GG.Related(groups, lanes[l][k], lanes[l][k + 1]) {
      LanesAreRelated(g, orders, keep, groups, text, l, k);
    }
  }

  lemma NoEmptyLabel(h: Graph, blocks: seq<seq<nat>>, owner: map<nat, nat>, text: Text)
    requires SG.Grouping(h, h.Keys, blocks, owner) && SG.UniqueText(h.Keys, text) && SG.BlocksIn(blocks, text.Keys)
    ensures !GG.Covers(GG.Nodes(SG.Groups(h, blocks, owner, text)), "")
  {
    hide SG.Grouping, SG.Groups;
    SG.GroupsCover(h, blocks, owner, text, "");
  }

  lemma GroupCount(h: Graph, blocks: seq<seq<nat>>, owner: map<nat, nat>, text: Text)
    requires SG.BlocksIn(blocks, text.Keys)
    ensures |SG.Groups(h, blocks, owner, text)| == |blocks|
  {
  }

  lemma OrdersAreIn(visible: set<nat>, orders: seq<Lane>)
    requires Partition(visible, orders)
    ensures OrdersIn(orders, visible)
  {
    hide Distinct;
  }

  lemma LaneSizes(orders: seq<Lane>, text: Text)
    requires OrdersIn(orders, text.Keys)
    ensures |LaneTexts(orders, text)| == |orders|
    ensures forall l :: 0 <= l < |orders| ==> |LaneTexts(orders, text)[l]| == |orders[l]|
  {
  }

  method BuildGroups(g: Graph, blocks: seq<seq<nat>>, owner: map<nat, nat>, text: Text)
    returns (groups: seq<GG.Siblings>)
    requires SG.BlocksIn(blocks, text.Keys)
    ensures groups == SG.Groups(g, blocks, owner, text)
  {
    hide SG.TargetBlocks, SG.Texts, Ascending;
    groups := [];
    var k: nat := 0;
    while k < |blocks|
      invariant k <= |blocks| && groups == SG.Groups(g, blocks, owner, text)[..k]
    {
      var targets := SG.TargetBlocks(g, blocks[k], owner);
      groups := groups + [GG.Siblings(SG.Texts(blocks[k], text), Ascending(targets))];
      k := k + 1;
    }
  }

  /** None stands for a lane that is not a path. */
  method ProjectLanes(dependsOn: Graph, visible: set<nat>, annotation: map<nat, string>, assignment: map<nat, nat>)
    returns (projection: Option<Projected>)
    requires visible <= dependsOn.Keys && visible <= annotation.Keys && visible <= assignment.Keys
    requires forall v :: v in visible ==> Labels.PlainEnd(annotation[v])
    ensures projection.Some? <==> LanesArePaths(Dependants(dependsOn, visible), visible, assignment)
    ensures projection.Some? ==> exists orders, keep ::
      Projects(Dependants(dependsOn, visible), visible, assignment, IssueText(visible, annotation, assignment),
               projection.value, orders, keep)
    ensures projection.Some? && Acyclic(Dependants(dependsOn, visible)) ==>
      GG.Acceptable(projection.value.groups, projection.value.lanes)
  {
    hide LanesArePaths, Acyclic, GG.Acceptable, Dependants, SG.UniqueText, SG.Grouping, SG.Groups, Labels.Label,
      LaneNames.Letters, Reduce, Closed, Faithful, Protects, Partition, GG.TargetsOk;
    var text := IssueText(visible, annotation, assignment);
    IssueTextIsUnique(visible, annotation, assignment);
    var full := Dependants(dependsOn, visible);
    DependantsAreClosed(dependsOn, visible);
    var plan := OrderLanes(full, visible, assignment);
    if plan.None? {
      return None;
    }
    var orders, keep := plan.value.0, plan.value.1;
    PathsPartition(full, visible, assignment, orders);
    var outgoing := TransitiveReduction(full, keep);
    ReducedGraph(full, keep);
    var blocks, owner := SG.GroupAlike(outgoing);
    SG.BlocksAreIn(outgoing, blocks, owner, text);
    var groups := BuildGroups(outgoing, blocks, owner, text);
    OrdersAreIn(visible, orders);
    GroupsAreFaithful(full, keep, blocks, owner, text);
    if Acyclic(full) {
      ProjectionIsAcceptable(full, keep, orders, blocks, owner, text);
    }
    projection := Some(Projected(groups, LaneTexts(orders, text)));
    assert Projects(full, visible, assignment, text, projection.value, orders, keep);
  }

  /** The number of every lane; None on a name with a character outside A to Z. */
  method NumberLanes(visible: set<nat>, assignment: map<nat, string>) returns (numbers: Option<map<nat, nat>>)
    requires visible <= assignment.Keys
    ensures numbers.Some? <==> NamesOk(visible, assignment)
    ensures numbers.Some? ==> numbers.value == LaneNumbers(visible, assignment)
  {
    hide LaneNames.Key, LaneNames.IsName;
    var found: map<nat, nat> := map[];
    var todo := visible;
    while todo != {}
      invariant todo <= visible && found.Keys == visible - todo
      invariant forall v: nat :: v in found ==>
        LaneNames.IsName(assignment[v]) && found[v] == LaneNames.Key(assignment[v])
      decreases |todo|
    {
      var v: nat :| v in todo;
      var key := LaneNames.LaneKey(assignment[v]);
      if key.None? {
        return None;
      }
      found := found[v := key.value];
      todo := todo - {v};
    }
    return Some(found);
  }

  method Annotate(visible: set<nat>, metadata: map<nat, Metadata>) returns (annotation: Option<map<nat, string>>)
    requires visible <= metadata.Keys
    ensures annotation.Some? <==> Supported(visible, metadata)
    ensures annotation.Some? ==> annotation.value == Annotations(visible, metadata)
    ensures annotation.Some? ==> forall v :: v in visible ==>
      v in annotation.value && Labels.PlainEnd(annotation.value[v])
  {
    hide Annotation, Labels.PlainEnd;
    var found: map<nat, string> := map[];
    var todo := visible;
    while todo != {}
      invariant todo <= visible && found.Keys == visible - todo
      invariant forall v: nat :: v in found ==> Annotation(metadata[v]) == Some(found[v])
      invariant forall v: nat :: v in found ==> Labels.PlainEnd(found[v])
      decreases |todo|
    {
      var v: nat :| v in todo;
      var text := Annotation(metadata[v]);
      if text.None? {
        return None;
      }
      AnnotationEndsPlain(metadata[v]);
      found := found[v := text.value];
      todo := todo - {v};
    }
    return Some(found);
  }

  /** None stands for a visible issue without a lane, an unsupported lifecycle state, an
      invalid lane name, a lane that is not a path, and a lane without a colour. */
  method ProjectLaneGraph(dependsOn: Graph, visible: set<nat>, metadata: map<nat, Metadata>,
                          assignment: map<nat, string>, colours: set<string>) returns (projection: Option<Projected>)
    requires visible <= dependsOn.Keys && visible <= metadata.Keys
    ensures projection.Some? <==>
      && visible <= assignment.Keys && Supported(visible, metadata) && NamesOk(visible, assignment)
      && LanesArePaths(Dependants(dependsOn, visible), visible, LaneNumbers(visible, assignment))
      && forall v :: v in visible ==> assignment[v] in colours
    ensures projection.Some? ==> exists orders, keep ::
      Projects(Dependants(dependsOn, visible), visible, LaneNumbers(visible, assignment),
               IssueText(visible, Annotations(visible, metadata), LaneNumbers(visible, assignment)),
               projection.value, orders, keep)
    ensures projection.Some? && Acyclic(Dependants(dependsOn, visible)) ==>
      GG.Acceptable(projection.value.groups, projection.value.lanes)
  {
    hide LanesArePaths, Acyclic, GG.Acceptable, Dependants, Labels.PlainEnd, LaneNames.Key, LaneNames.IsName, Projects,
      Annotation, IssueText;
    if !(visible <= assignment.Keys) {
      return None;
    }
    var annotation := Annotate(visible, metadata);
    if annotation.None? {
      return None;
    }
    var numbers := NumberLanes(visible, assignment);
    if numbers.None? {
      return None;
    }
    var drawn := ProjectLanes(dependsOn, visible, annotation.value, numbers.value);
    if drawn.None? {
      return None;
    }
    var colourless := exists v :: v in visible && assignment[v] !in colours;
    if colourless {
      return None;
    }
    return drawn;
  }

  /** The label shows the lane's own name. */
  lemma LabelShowsLane(visible: set<nat>, metadata: map<nat, Metadata>, assignment: map<nat, string>, v: nat)
    requires Supported(visible, metadata) && NamesOk(visible, assignment) && v in visible
    ensures IssueText(visible, Annotations(visible, metadata), LaneNumbers(visible, assignment))[v]
      == Annotation(metadata[v]).value + assignment[v] + Labels.Digits(v)
  {
    hide LaneNames.Letters, LaneNames.Key, Annotation, Labels.Digits;
    LaneNames.LettersOfKey(assignment[v]);
  }

  // ------------------------------------------------------------------ meaning

  ghost function Relation(groups: seq<GG.Siblings>): (GG.Label, GG.Label) -> bool {
    (a, b) => GG.Related(groups, a, b)
  }

  /** What is drawn connects two issues exactly when the dependencies do. */
  lemma ProjectionKeepsReachability(g: Graph, keep: set<(nat, nat)>, groups: seq<GG.Siblings>, text: Text, u: nat,
                                    v: nat)
    requires Closed(g) && Acyclic(g) && SG.UniqueText(g.Keys, text) && Faithful(g, keep, groups, text)
    requires u in g && v in g
    ensures Connected(Relation(groups), text[u], text[v]) <==> Reach(g, u, v)
  {
    var h := Reduce(g, keep);
    ReductionPreservesReachability(g, keep, u, v);
    if Reach(h, u, v) {
      WalkIsTrail(g, keep, groups, text, u, v);
    }
    if Connected(Relation(groups), text[u], text[v]) {
      TrailIsWalk(g, keep, groups, text, u, v);
    }
  }

  lemma WalkIsTrail(g: Graph, keep: set<(nat, nat)>, groups: seq<GG.Siblings>, text: Text, u: nat, v: nat)
    requires Closed(g) && SG.UniqueText(g.Keys, text) && Faithful(g, keep, groups, text)
    requires u in g && v in g && Reach(Reduce(g, keep), u, v)
    ensures Connected(Relation(groups), text[u], text[v])
  {
    var h := Reduce(g, keep);
    var p :| Walk(h, p) && p[0] == u && p[|p| - 1] == v;
    ConnectedSelf(Relation(groups), text[u]);
    var i := 0;
    while i < |p| - 1
      invariant 0 <= i < |p| && p[i] in g && Connected(Relation(groups), text[u], text[p[i]])
    {
      assert Edge(h, p[i], p[i + 1]);
      ConnectedStep(Relation(groups), text[u], text[p[i]], text[p[i + 1]]);
      i := i + 1;
    }
  }

  lemma TrailIsWalk(g: Graph, keep: set<(nat, nat)>, groups: seq<GG.Siblings>, text: Text, u: nat, v: nat)
    requires Closed(g) && SG.UniqueText(g.Keys, text) && Faithful(g, keep, groups, text)
    requires u in g && v in g && Connected(Relation(groups), text[u], text[v])
    ensures Reach(Reduce(g, keep), u, v)
  {
    var h := Reduce(g, keep);
    var r := Relation(groups);
    var p :| Trail(r, p) && p[0] == text[u] && p[|p| - 1] == text[v];
    ReachSelf(h, u);
    var i := 0;
    var w := u;
    while i < |p| - 1
      invariant 0 <= i < |p| && w in g && p[i] == text[w] && Reach(h, u, w)
    {
      assert r(p[i + 1 - 1], p[i + 1]);
      assert GG.Related(groups, p[i], p[i + 1]);
      var x :| x in g && text[x] == p[i + 1];
      ReachThenEdge(h, u, w, x);
      w := x;
      i := i + 1;
    }
  }

  // ------------------------------------------------------------------ what labels tell

  /** The mark of a group ticket is the first letter of its title; ordinary ones have none. */
  lemma KindIsInitial(title: string)
    ensures |TypePrefix(title)| in {0, 2}
    ensures (TypePrefix(title) != "" <==>
             exists word :: word in ["Initiative:", "Epic:", "Feature:"] && word <= title)
    ensures TypePrefix(title) != "" ==> title != "" && TypePrefix(title) == [title[0]] + ":"
  {
    var words := ["Initiative:", "Epic:", "Feature:"];
    assert words[0] in words && words[1] in words && words[2] in words;
  }

  /** The annotation of a label tells the root mark, the lifecycle state and the kind. */
  lemma AnnotationTells(m: Metadata, n: Metadata)
    requires Annotation(m).Some? && Annotation(m) == Annotation(n)
    ensures m.root == n.root && m.lifecycle == n.lifecycle && TypePrefix(m.title) == TypePrefix(n.title)
  {
    KindIsInitial(m.title);
    KindIsInitial(n.title);
    NoStar(m);
    NoStar(n);
    var a, b := State(m.lifecycle), State(n.lifecycle);
    var x, y := TypePrefix(m.title), TypePrefix(n.title);
    AnnotationIs(m);
    AnnotationIs(n);
    MarkTells(m.root, a + x, n.root, b + y);
    SplitEqual(a, x, b, y);
    StatesDiffer(m.lifecycle, n.lifecycle);
  }

  function Mark(root: bool): string {
    if root then "*" else ""
  }

  lemma MarkTells(p: bool, a: string, q: bool, b: string)
    requires Mark(p) + a == Mark(q) + b && (a == "" || a[0] != '*') && (b == "" || b[0] != '*')
    ensures p == q && a == b
  {
    assert p ==> (Mark(p) + a)[0] == '*' && (Mark(p) + a)[1..] == a;
    assert q ==> (Mark(q) + b)[0] == '*' && (Mark(q) + b)[1..] == b;
    assert !p ==> Mark(p) + a == a;
    assert !q ==> Mark(q) + b == b;
  }

  lemma SplitEqual(a: string, x: string, b: string, y: string)
    requires a + x == b + y && |a| <= 1 && |b| <= 1 && |x| in {0, 2} && |y| in {0, 2}
    ensures a == b && x == y
  {
    assert |a + x| == |b + y| && |a| == |b|;
    assert a == (a + x)[..|a|] && b == (b + y)[..|b|] && x == (a + x)[|a|..] && y == (b + y)[|b|..];
  }

  /** The lifecycle part of an annotation. */
  function State(lifecycle: Shown): string {
    match lifecycle
    case Null => "?"
    case Known(state) => Glyph(state)
    case _ => ""
  }

  lemma AnnotationIs(m: Metadata)
    requires Annotation(m).Some?
    ensures Annotation(m).value == Mark(m.root) + (State(m.lifecycle) + TypePrefix(m.title))
  {
    hide TypePrefix;
    var prefix := TypePrefix(m.title);
    assert Mark(m.root) + State(m.lifecycle) + prefix == Mark(m.root) + (State(m.lifecycle) + prefix);
    assert "" + prefix == prefix;
  }

  lemma NoStar(m: Metadata)
    ensures State(m.lifecycle) + TypePrefix(m.title) == "" || (State(m.lifecycle) + TypePrefix(m.title))[0] != '*'
    ensures |State(m.lifecycle)| <= 1
  {
  }

  lemma StatesDiffer(a: Shown, b: Shown)
    requires !a.Unsupported? && !b.Unsupported? && State(a) == State(b)
    ensures a == b
  {
    assert State(a) == "" || State(a) == [State(a)[0]];
  }
}

/** Quotient of the reduced graph by equal neighbourhoods. */
module SiblingGroups {
  import opened Collections
  import opened Digraph
  import opened GroupGraph

  function Incoming(g: Graph, v: nat): set<nat> {
    set u | u in g && v in g[u]
  }

  predicate Isolated(g: Graph, v: nat)
    requires v in g
  {
    g[v] == {} && Incoming(g, v) == {}
  }

  datatype Signature = Signature(outgoing: set<nat>, incoming: set<nat>)

  function SignatureOf(g: Graph, v: nat): Signature
    requires v in g
  {
    Signature(g[v], Incoming(g, v))
  }

  /** Siblings have the same neighbours; isolated nodes stay alone. */
  predicate Alike(g: Graph, u: nat, v: nat)
    requires u in g && v in g
  {
    u == v || (SignatureOf(g, u) == SignatureOf(g, v) && !Isolated(g, u))
  }

  /** The blocks partition the nodes into classes of alike nodes. */
  /** Two issues are alike exactly when something relates to them and nothing tells them apart. */
  lemma AlikeIff(g: Graph, u: nat, v: nat)
    requires u in g && v in g && u != v
    ensures Alike(g, u, v) <==>
      && (forall w :: Edge(g, u, w) <==> Edge(g, v, w)) && (forall w :: Edge(g, w, u) <==> Edge(g, w, v))
      && exists w :: Edge(g, u, w) || Edge(g, w, u)
  {
    if Alike(g, u, v) {
      forall w ensures Edge(g, u, w) <==> Edge(g, v, w) {
      }
      forall w ensures Edge(g, w, u) <==> Edge(g, w, v) {
        assert w in Incoming(g, u) <==> w in Incoming(g, v);
      }
      var w :| w in g[u] || w in Incoming(g, u);
      assert Edge(g, u, w) || Edge(g, w, u);
    }
    if (forall w :: Edge(g, u, w) <==> Edge(g, v, w)) && (forall w :: Edge(g, w, u) <==> Edge(g, w, v)) {
      assert g[u] == g[v] by {
        assert forall w :: w in g[u] <==> Edge(g, u, w);
        assert forall w :: w in g[v] <==> Edge(g, v, w);
      }
      assert Incoming(g, u) == Incoming(g, v) by {
        assert forall w :: w in Incoming(g, u) <==> Edge(g, w, u);
        assert forall w :: w in Incoming(g, v) <==> Edge(g, w, v);
      }
    }
  }

  ghost predicate Grouping(g: Graph, nodes: set<nat>, blocks: seq<seq<nat>>, owner: map<nat, nat>)
    requires nodes <= g.Keys
  {
    && owner.Keys == nodes
    && (forall v :: v in nodes ==> owner[v] < |blocks| && v in blocks[owner[v]])
    && (forall k, x :: 0 <= k < |blocks| && x in blocks[k] ==> x in nodes && owner[x] == k)
    && (forall k :: 0 <= k < |blocks| ==> blocks[k] != [] && Distinct(blocks[k]))
    && (forall u, v :: u in nodes && v in nodes ==> (owner[u] == owner[v] <==> Alike(g, u, v)))
  }

  ghost predicate Buckets(g: Graph, nodes: set<nat>, owner: map<nat, nat>, buckets: map<Signature, nat>)
    requires nodes <= g.Keys && owner.Keys == nodes
  {
    && (forall v :: v in nodes && !Isolated(g, v) ==>
          SignatureOf(g, v) in buckets && buckets[SignatureOf(g, v)] == owner[v])
    && (forall s :: s in buckets ==> exists v :: v in nodes && !Isolated(g, v) && SignatureOf(g, v) == s)
  }

  lemma JoinBlock(g: Graph, nodes: set<nat>, blocks: seq<seq<nat>>, owner: map<nat, nat>, v: nat, rep: nat)
    requires nodes <= g.Keys && Grouping(g, nodes, blocks, owner) && v in g && v !in nodes
    requires rep in nodes && Alike(g, rep, v)
    ensures Grouping(g, nodes + {v}, blocks[owner[rep] := blocks[owner[rep]] + [v]], owner[v := owner[rep]])
  {
    hide Incoming;
    var k := owner[rep];
    var block := blocks[k] + [v];
    assert v in block && forall x :: x in blocks[k] ==> x in block;
    assert block[|block| - 1] == v && forall i :: 0 <= i < |blocks[k]| ==>
      block[i] == blocks[k][i] && block[i] in blocks[k];
  }

  lemma OpenBlock(g: Graph, nodes: set<nat>, blocks: seq<seq<nat>>, owner: map<nat, nat>, v: nat)
    requires nodes <= g.Keys && Grouping(g, nodes, blocks, owner) && v in g && v !in nodes
    requires forall u :: u in nodes ==> !Alike(g, u, v)
    ensures Grouping(g, nodes + {v}, blocks + [[v]], owner[v := |blocks|])
  {
    hide Incoming;
    var more := blocks + [[v]];
    assert more[|blocks|] == [v] && v in [v];
    forall k | 0 <= k < |more| ensures more[k] != [] && Distinct(more[k]) {
      if k < |blocks| {
        assert more[k] == blocks[k];
      }
    }
  }

  lemma BucketDecides(g: Graph, nodes: set<nat>, blocks: seq<seq<nat>>, owner: map<nat, nat>,
                      buckets: map<Signature, nat>, v: nat)
    requires nodes <= g.Keys && Grouping(g, nodes, blocks, owner) && Buckets(g, nodes, owner, buckets)
    requires v in g && v !in nodes
    ensures Isolated(g, v) || SignatureOf(g, v) !in buckets ==> forall u :: u in nodes ==> !Alike(g, u, v)
    ensures !Isolated(g, v) && SignatureOf(g, v) in buckets ==>
      exists u :: u in nodes && Alike(g, u, v) && owner[u] == buckets[SignatureOf(g, v)]
  {
    hide Incoming, Grouping;
    forall u | u in nodes && Alike(g, u, v) ensures !Isolated(g, v) && SignatureOf(g, v) in buckets {
    }
  }

  /** Bucket the nodes by signature in increasing order. */
  method GroupAlike(g: Graph) returns (blocks: seq<seq<nat>>, owner: map<nat, nat>)
    ensures Grouping(g, g.Keys, blocks, owner)
  {
    hide Grouping, Buckets, Alike, Incoming, Elements, Ascending;
    blocks, owner := [], map[];
    var buckets: map<Signature, nat> := map[];
    var order := Ascending(g.Keys);
    var i: nat := 0;
    ghost var done: set<nat> := {};
    NothingGrouped(g);
    while i < |order|
      invariant i <= |order| && done == Elements(order[..i]) && done <= g.Keys && owner.Keys == done
      invariant Grouping(g, done, blocks, owner) && Buckets(g, done, owner, buckets)
    {
      AscendingStep(g.Keys, i);
      var v := order[i];
      var signature := SignatureOf(g, v);
      BucketDecides(g, done, blocks, owner, buckets, v);
      if !Isolated(g, v) && signature in buckets {
        var k := buckets[signature];
        ghost var rep :| rep in done && Alike(g, rep, v) && owner[rep] == k;
        JoinBlock(g, done, blocks, owner, v, rep);
        BucketsStep(g, done, owner, buckets, v, k, buckets);
        BlockExists(g, done, blocks, owner, rep);
        blocks := blocks[k := blocks[k] + [v]];
        owner := owner[v := k];
      } else {
        OpenBlock(g, done, blocks, owner, v);
        var more := if Isolated(g, v) then buckets else buckets[signature := |blocks|];
        BucketsStep(g, done, owner, buckets, v, |blocks|, more);
        owner := owner[v := |blocks|];
        blocks := blocks + [[v]];
        buckets := more;
      }
      done := done + {v};
      i := i + 1;
    }
    AscendingEnd(g.Keys);
  }

  lemma NothingGrouped(g: Graph)
    ensures Grouping(g, {}, [], map[]) && Buckets(g, {}, map[], map[])
    ensures Elements(Ascending(g.Keys)[..0]) == {}
  {
  }

  lemma BlockExists(g: Graph, nodes: set<nat>, blocks: seq<seq<nat>>, owner: map<nat, nat>, v: nat)
    requires nodes <= g.Keys && Grouping(g, nodes, blocks, owner) && v in nodes
    ensures owner[v] < |blocks|
  {
  }

  lemma BucketsStep(g: Graph, nodes: set<nat>, owner: map<nat, nat>, buckets: map<Signature, nat>, v: nat, k: nat,
                    more: map<Signature, nat>)
    requires nodes <= g.Keys && owner.Keys == nodes && Buckets(g, nodes, owner, buckets) && v in g && v !in nodes
    requires if Isolated(g, v) then more == buckets
      else if SignatureOf(g, v) in buckets then more == buckets && buckets[SignatureOf(g, v)] == k
      else more == buckets[SignatureOf(g, v) := k]
    ensures Buckets(g, nodes + {v}, owner[v := k], more)
  {
    hide Incoming;
    forall s | s in more ensures exists u :: u in nodes + {v} && !Isolated(g, u) && SignatureOf(g, u) == s {
      if s in buckets {
        var u :| u in nodes && !Isolated(g, u) && SignatureOf(g, u) == s;
        assert u in nodes + {v};
      } else {
        assert v in nodes + {v};
      }
    }
  }

  // -------------------------------------------------------- the quotient graph

  /** Blocks that some member of the block points into. */
  function TargetBlocks(g: Graph, block: seq<nat>, owner: map<nat, nat>): set<nat> {
    set i, t | i in block && i in g && t in g[i] && t in owner :: owner[t]
  }

  ghost function BlockGraph(g: Graph, blocks: seq<seq<nat>>, owner: map<nat, nat>): Graph {
    map k: nat | k < |blocks| :: TargetBlocks(g, blocks[k], owner)
  }

  /** Lossless: two blocks are related exactly when all (or any) of their members are. */
  lemma BlocksRelateMembers(g: Graph, blocks: seq<seq<nat>>, owner: map<nat, nat>, u: nat, v: nat)
    requires Closed(g) && Grouping(g, g.Keys, blocks, owner) && u in g && v in g
    ensures owner[v] in TargetBlocks(g, blocks[owner[u]], owner) <==> v in g[u]
  {
    if owner[v] in TargetBlocks(g, blocks[owner[u]], owner) {
      var i, t :| i in blocks[owner[u]] && i in g && t in g[i] && t in owner && owner[t] == owner[v];
      assert Alike(g, t, v) && Alike(g, i, u);
      assert i in Incoming(g, t) && i in Incoming(g, v);
    }
  }

  lemma BlockEdges(g: Graph, blocks: seq<seq<nat>>, owner: map<nat, nat>, a: nat, b: nat, u: nat, v: nat)
    requires Closed(g) && Grouping(g, g.Keys, blocks, owner)
    requires a < |blocks| && b < |blocks| && u in blocks[a] && v in blocks[b]
    ensures u in g && v in g && (Edge(BlockGraph(g, blocks, owner), a, b) <==> Edge(g, u, v))
  {
    hide TargetBlocks;
    BlocksRelateMembers(g, blocks, owner, u, v);
  }

  /** Any choice of members turns a walk of blocks into a walk of nodes. */
  lemma BlockGraphIsAcyclic(g: Graph, blocks: seq<seq<nat>>, owner: map<nat, nat>)
    requires Closed(g) && Acyclic(g) && Grouping(g, g.Keys, blocks, owner)
    ensures Acyclic(BlockGraph(g, blocks, owner))
  {
    hide Grouping, BlockGraph, Alike;
    var q := BlockGraph(g, blocks, owner);
    forall a, b | Edge(q, a, b) ensures !Reach(q, b, a) {
      NoCycleThrough(g, blocks, owner, a, b);
    }
  }

  lemma NoCycleThrough(g: Graph, blocks: seq<seq<nat>>, owner: map<nat, nat>, a: nat, b: nat)
    requires Closed(g) && Acyclic(g) && Grouping(g, g.Keys, blocks, owner)
    requires Edge(BlockGraph(g, blocks, owner), a, b)
    ensures !Reach(BlockGraph(g, blocks, owner), b, a)
  {
    hide Grouping, BlockGraph, Alike, Reach;
    EdgeInRange(g, blocks, owner, a, b);
    BlockEdges(g, blocks, owner, a, b, blocks[a][0], blocks[b][0]);
    if Reach(BlockGraph(g, blocks, owner), b, a) {
      MembersReach(g, blocks, owner, b, a);
    }
  }

  lemma EdgeInRange(g: Graph, blocks: seq<seq<nat>>, owner: map<nat, nat>, a: nat, b: nat)
    requires Grouping(g, g.Keys, blocks, owner) && Edge(BlockGraph(g, blocks, owner), a, b)
    ensures a < |blocks| && b < |blocks| && blocks[a] != [] && blocks[b] != []
    ensures blocks[a][0] in blocks[a] && blocks[b][0] in blocks[b]
  {
  }

  lemma MembersReach(g: Graph, blocks: seq<seq<nat>>, owner: map<nat, nat>, a: nat, b: nat)
    requires Closed(g) && Grouping(g, g.Keys, blocks, owner) && a < |blocks| && b < |blocks|
    requires Reach(BlockGraph(g, blocks, owner), a, b)
    ensures blocks[a] != [] && blocks[b] != [] && Reach(g, blocks[a][0], blocks[b][0])
  {
    hide Grouping, Alike, BlockGraph;
    var q := BlockGraph(g, blocks, owner);
    var p :| Walk(q, p) && p[0] == a && p[|p| - 1] == b;
    assert blocks[a] != [] by { BlocksNotEmpty(g, blocks, owner); }
    ReachSelf(g, blocks[a][0]);
    var i := 0;
    while i < |p| - 1
      invariant 0 <= i < |p| && p[i] < |blocks| && blocks[p[i]] != []
      invariant Reach(g, blocks[a][0], blocks[p[i]][0])
    {
      assert Edge(q, p[i], p[i + 1]);
      EdgeInRange(g, blocks, owner, p[i], p[i + 1]);
      BlockEdges(g, blocks, owner, p[i], p[i + 1], blocks[p[i]][0], blocks[p[i + 1]][0]);
      ReachThenEdge(g, blocks[a][0], blocks[p[i]][0], blocks[p[i + 1]][0]);
      i := i + 1;
    }
  }

  lemma BlocksNotEmpty(g: Graph, blocks: seq<seq<nat>>, owner: map<nat, nat>)
    requires Grouping(g, g.Keys, blocks, owner)
    ensures forall k :: 0 <= k < |blocks| ==> blocks[k] != []
  {
  }

  // ------------------------------------------------------------ labelled groups

  predicate Labelled(nodes: set<nat>, text: map<nat, Label>) {
    nodes <= text.Keys
  }

  /** Labels are non-empty and tell the issues apart. */
  predicate UniqueText(nodes: set<nat>, text: map<nat, Label>) {
    && Labelled(nodes, text)
    && (forall v :: v in nodes ==> text[v] != "")
    && (forall u, v :: u in nodes && v in nodes && text[u] == text[v] ==> u == v)
  }

  function Texts(issues: seq<nat>, text: map<nat, Label>): seq<Label>
    requires Elements(issues) <= text.Keys
  {
    seq(|issues|, i requires 0 <= i < |issues| => assert issues[i] in Elements(issues); text[issues[i]])
  }

  ghost predicate BlocksIn(blocks: seq<seq<nat>>, nodes: set<nat>) {
    forall k :: 0 <= k < |blocks| ==> Elements(blocks[k]) <= nodes
  }

  function Groups(g: Graph, blocks: seq<seq<nat>>, owner: map<nat, nat>, text: map<nat, Label>): seq<Siblings>
    requires BlocksIn(blocks, text.Keys)
  {
    seq(|blocks|, k requires 0 <= k < |blocks| =>
      Siblings(Texts(blocks[k], text), Ascending(TargetBlocks(g, blocks[k], owner))))
  }

  lemma BlocksAreIn(g: Graph, blocks: seq<seq<nat>>, owner: map<nat, nat>, text: map<nat, Label>)
    requires Grouping(g, g.Keys, blocks, owner) && Labelled(g.Keys, text)
    ensures BlocksIn(blocks, g.Keys) && BlocksIn(blocks, text.Keys)
  {
    hide Alike;
  }

  /** A label stands for exactly one issue, and lies where its issue lies. */
  lemma TextInBlock(g: Graph, blocks: seq<seq<nat>>, text: map<nat, Label>, k: nat, v: nat)
    requires BlocksIn(blocks, g.Keys) && UniqueText(g.Keys, text) && k < |blocks| && v in g
    ensures Elements(blocks[k]) <= text.Keys
    ensures text[v] in Texts(blocks[k], text) <==> v in blocks[k]
  {
    assert Elements(blocks[k]) <= g.Keys;
    if v in blocks[k] {
      var i :| 0 <= i < |blocks[k]| && blocks[k][i] == v;
      assert Texts(blocks[k], text)[i] == text[v];
    }
    if text[v] in Texts(blocks[k], text) {
      var i :| 0 <= i < |blocks[k]| && Texts(blocks[k], text)[i] == text[v];
      assert blocks[k][i] in Elements(blocks[k]);
    }
  }

  lemma LabelHasIssue(issues: seq<nat>, nodes: set<nat>, text: map<nat, Label>, u: Label) returns (v: nat)
    requires Elements(issues) <= nodes && nodes <= text.Keys && u in Texts(issues, text)
    ensures v in issues && v in nodes && text[v] == u
  {
    var i :| 0 <= i < |issues| && Texts(issues, text)[i] == u;
    v := issues[i];
    assert v in Elements(issues);
  }

  lemma TextsDistinct(issues: seq<nat>, nodes: set<nat>, text: map<nat, Label>)
    requires Elements(issues) <= nodes && UniqueText(nodes, text) && Distinct(issues)
    ensures Distinct(Texts(issues, text))
  {
    forall i, j | 0 <= i < j < |issues| ensures Texts(issues, text)[i] != Texts(issues, text)[j] {
      assert issues[i] in Elements(issues) && issues[j] in Elements(issues);
    }
  }

  /** The expansion of the projected groups is the reduced relation, label for issue. */
  lemma ProjectionIsLossless(g: Graph, blocks: seq<seq<nat>>, owner: map<nat, nat>, text: map<nat, Label>, u: nat,
                             v: nat)
    requires Closed(g) && Grouping(g, g.Keys, blocks, owner) && UniqueText(g.Keys, text) && u in g && v in g
    ensures BlocksIn(blocks, text.Keys)
    ensures Related(Groups(g, blocks, owner, text), text[u], text[v]) <==> v in g[u]
  {
    hide Grouping, Alike, TargetBlocks, Texts, UniqueText, Ascending;
    assert Labelled(g.Keys, text) by { UniqueTextIsLabelled(g.Keys, text); }
    BlocksAreIn(g, blocks, owner, text);
    var groups := Groups(g, blocks, owner, text);
    OwnersOf(g, blocks, owner);
    forall k | 0 <= k < |blocks| ensures groups[k].nodes == Texts(blocks[k], text)
      && (text[u] in groups[k].nodes <==> k == owner[u]) && (text[v] in groups[k].nodes <==> k == owner[v])
    {
      TextInBlock(g, blocks, text, k, u);
      TextInBlock(g, blocks, text, k, v);
    }
    BlocksRelateMembers(g, blocks, owner, u, v);
    AscendingElements(TargetBlocks(g, blocks[owner[u]], owner));
    assert owner[v] in groups[owner[u]].targets <==> owner[v] in TargetBlocks(g, blocks[owner[u]], owner);
    assert text[u] in groups[owner[u]].nodes && text[v] in groups[owner[v]].nodes;
    if Related(groups, text[u], text[v]) {
      var a, b :| 0 <= a < |groups| && 0 <= b < |groups| && text[u] in groups[a].nodes && text[v] in groups[b].nodes
        && b in groups[a].targets;
      assert a == owner[u] && b == owner[v];
    }
  }

  lemma UniqueTextIsLabelled(nodes: set<nat>, text: map<nat, Label>)
    requires UniqueText(nodes, text)
    ensures nodes <= text.Keys
  {
  }

  lemma OwnersOf(g: Graph, blocks: seq<seq<nat>>, owner: map<nat, nat>)
    requires Grouping(g, g.Keys, blocks, owner)
    ensures owner.Keys == g.Keys
    ensures forall v, k :: v in g && 0 <= k < |blocks| ==> (v in blocks[k] <==> owner[v] == k)
    ensures forall v :: v in g ==> owner[v] < |blocks|
  {
    hide Alike;
  }

  lemma GroupsAreDisjoint(g: Graph, blocks: seq<seq<nat>>, owner: map<nat, nat>, text: map<nat, Label>)
    requires Grouping(g, g.Keys, blocks, owner) && UniqueText(g.Keys, text)
    ensures BlocksIn(blocks, text.Keys) && Disjoint(Nodes(Groups(g, blocks, owner, text)))
  {
    hide Alike, TargetBlocks, Texts, Ascending, Distinct;
    BlocksAreIn(g, blocks, owner, text);
    OwnersOf(g, blocks, owner);
    var f := Nodes(Groups(g, blocks, owner, text));
    forall a | 0 <= a < |f| ensures f[a] == Texts(blocks[a], text) && f[a] != [] && Distinct(f[a]) {
      TextsDistinct(blocks[a], g.Keys, text);
      TextsLength(blocks[a], text);
    }
    forall a, b, u | 0 <= a < |f| && 0 <= b < |f| && u in f[a] && u in f[b] ensures a == b {
      var v := LabelHasIssue(blocks[a], g.Keys, text, u);
      var w := LabelHasIssue(blocks[b], g.Keys, text, u);
    }
  }

  ghost predicate IsText(nodes: set<nat>, text: map<nat, Label>, u: Label)
    requires nodes <= text.Keys
  {
    exists v :: v in nodes && text[v] == u
  }

  /** The labels covered by the groups are the labels of the issues. */
  lemma GroupsCover(g: Graph, blocks: seq<seq<nat>>, owner: map<nat, nat>, text: map<nat, Label>, u: Label)
    requires Grouping(g, g.Keys, blocks, owner) && UniqueText(g.Keys, text)
    ensures BlocksIn(blocks, text.Keys)
    ensures Covers(Nodes(Groups(g, blocks, owner, text)), u) <==> IsText(g.Keys, text, u)
  {
    hide Alike, TargetBlocks, Texts, Ascending, Distinct, Grouping;
    BlocksAreIn(g, blocks, owner, text);
    OwnersOf(g, blocks, owner);
    var f := Nodes(Groups(g, blocks, owner, text));
    if Covers(f, u) {
      var a :| 0 <= a < |f| && u in f[a];
      var v := LabelHasIssue(blocks[a], g.Keys, text, u);
    }
    if IsText(g.Keys, text, u) {
      var v :| v in g && text[v] == u;
      TextInBlock(g, blocks, text, owner[v], v);
      assert u in f[owner[v]];
    }
  }

  lemma TextsLength(issues: seq<nat>, text: map<nat, Label>)
    requires Elements(issues) <= text.Keys
    ensures |Texts(issues, text)| == |issues|
  {
  }

  lemma TargetsAreOk(g: Graph, blocks: seq<seq<nat>>, owner: map<nat, nat>, text: map<nat, Label>)
    requires Closed(g) && Acyclic(g) && Grouping(g, g.Keys, blocks, owner) && BlocksIn(blocks, text.Keys)
    ensures forall a :: 0 <= a < |blocks| ==> TargetsOk(Groups(g, blocks, owner, text), a)
    ensures Quotient(Groups(g, blocks, owner, text)) == BlockGraph(g, blocks, owner)
  {
    hide Alike, Texts, Reach, TargetBlocks, Grouping;
    var groups := Groups(g, blocks, owner, text);
    forall a | 0 <= a < |blocks|
      ensures TargetsOk(groups, a) && Elements(groups[a].targets) == TargetBlocks(g, blocks[a], owner)
    {
      AscendingIsSorted(TargetBlocks(g, blocks[a], owner));
      forall i | 0 <= i < |groups[a].targets| ensures groups[a].targets[i] < |blocks| && groups[a].targets[i] != a {
        assert groups[a].targets[i] in Elements(groups[a].targets);
        assert Edge(BlockGraph(g, blocks, owner), a, groups[a].targets[i]);
        EdgeInRange(g, blocks, owner, a, groups[a].targets[i]);
        NoSelfTarget(g, blocks, owner, a);
      }
    }
  }

  lemma NoSelfTarget(g: Graph, blocks: seq<seq<nat>>, owner: map<nat, nat>, a: nat)
    requires Closed(g) && Acyclic(g) && Grouping(g, g.Keys, blocks, owner)
    ensures !Edge(BlockGraph(g, blocks, owner), a, a)
  {
    hide Grouping, BlockGraph;
    if Edge(BlockGraph(g, blocks, owner), a, a) {
      NoCycleThrough(g, blocks, owner, a, a);
      ReachSelf(BlockGraph(g, blocks, owner), a);
    }
  }
}

# RepoWorkflow verification

A Dafny model of the algorithmic and protocol cores of RepoWorkflow, with proofs of what
they are for. `dafny verify dfyconfig.toml` checks the whole project.

The model has four parts.

**The lane graph.** Issues depend on issues. `Traversal` explores them under budgets,
`Spending` accounts for these, `Lanes` and `LanePlan` cover the visible open component
with named paths, `Reduction` drops redundant edges, `SiblingGroups` merges issues with
equal neighbourhoods, `Projection` puts these together, and `GroupGraph` expands and
validates the result. `CycleCheck`, `TopologicalOrder` and `Layering` hold the cycle
tests and the column ranks. The layout follows stage by stage: `GroupOrder` and
`NodePlacement` give every node a column and a row, `BoundaryPlan` decides which edges
share a track or leave their row, `BoundaryOrder` and `BoundaryTracks` choose a valid
order of tracks between two columns, `RouteGeometry` computes the column table,
`RouteShapes` and `RouteDrawing` draw strokes as direction bits in a map of cells,
`RowAllocation` and `LongRoutes` route the long edges, and `LayoutBuilder` composes all
of it. `RoutePath`, `Switches` and `RenderedReachability` recognise what was drawn, and
`Layout` states what holds of all routes together. The thread through this part is
meaning: each stage keeps the dependency relation, up to reachability where edges are
dropped, each recogniser accepts exactly the drawings that show it, a finished layout
leads from every node to exactly the nodes it is related to
(`LayoutBuilder.FinishedShowsRelation`), and its lines connect two issues exactly when
dependencies do (`LaneGraphDisplay.DrawingShowsDependencies`).

**The numbered CMD transport.** `CmdLineage` models commits as an immutable map and
proves the forward scan of the submitter and the backward scan of the hosted validator
against declarative lineages and against each other. `CmdAttempts` and `CmdResults` say
what a branch holds. `CmdTransport` is the state machine: any number of submitters,
retries, publishers and bystanders whose reads, decisions and conditional pushes
interleave freely. `CmdSafety` proves the invariant of every run and its consequences.
`CmdReadback` proves that readback returns exactly what was published, and `CmdReuse`
that an undisturbed submission ends on the branch of its job.

**Durable state.** `RecordStore` and `Transactions` model the record store and the
coordinator as classes, one call at a time; `TransactionSafety` interleaves the steps of
any number of coordinator calls with crashes and proves each call a run of these steps.
`EvidenceJournal` records every state a crash could leave behind and proves what holds
in all of them. `Lifecycle` proves that what a transition writes is what its reader
accepts.

**The command grammar.** `Grammar` is an automaton that reads one token at a time,
`GrammarWalk` proves the greedy batch walker equal to it, `GrammarLanguage` says which
commands are accepted without any automaton, and `GrammarCompletion` compares what
completion offers with what the parser accepts. `GrammarOffers` and `GrammarHazards` say
for which grammars every offer is acceptable, in both directions.

## How the model is built

- Code that loops over variables is a method with a loop, proved against a specification
  function or a declarative property; objects that update fields are classes. Concurrent
  protocols are relations between states.
- Issues are natural numbers, as the program compares their names by number. Sets stand
  for Python sets, maps for dictionaries; where the program sorts only to be
  deterministic the method takes an arbitrary element.
- Error returns are `None`, a refusal constructor or an error constructor. The wording
  of errors is not modelled.
- Commit ids are natural numbers assigned in order of creation, and a client that
  creates an identical commit may get the same id, as with content hashes.
- The validations and checks that depend on the surroundings (a validator call of the
  transaction's owner, a clean working tree, the width a formatter reports) are inputs,
  so every theorem holds for all their answers.

## Results that differ from a plain promise

- Judging every removal against the full graph is guaranteed to preserve reachability on
  acyclic graphs; on a cyclic one it can fail (`Reduction.CycleBreaksReduction`). The
  relationship schema enforces acyclicity.
- A dogleg is drawn correctly exactly when its source track is left of its target track
  (`RouteGeometry.DoglegIsAcceptedIff`); nothing in the planning enforces that order,
  the validators do (`Layout.AcceptedDoglegIsForward`).
- The loop error of the path recogniser can never be raised (`RoutePath.FindPath`).
- Reachability is judged over the switch map built from the last contribution per edge
  and cell; other callers unite all contributions.
- The two CMD scans differ on markers without a command before the remote flag, on
  non-canonical markers and on repeated trailers; `CmdLineage.ScansAgree` has the exact
  condition under which they agree, and `CmdLineage.BareRequestDividesScans` a branch on
  which they do not. Readback refuses a marker without a command as well.
- CMD numbers are global while branches are scoped by source branch, so uniqueness and
  convergence need one source branch: `CmdSafety.TwoSourceBranchesDiverge` is a run in
  which two submissions of one job finish on different branches.
- Completion offers a later switch parameter quantified `{0}`, which the parser may
  refuse (`GrammarHazards.ForbiddenParameterIsOffered`).
  `GrammarHazards.OffersAcceptedIffSafe` says of every grammar that keeps the dash
  convention whether some offer is refused; grammars without such parameters are safe.

## Model

| member | source | states |
|---|---|---|
| `Traversal.DependencyStates` | repo_workflow/lane_decomposition.py:35-79 | The worklist returns exactly the (issue, remaining budget) states reachable from the selected issues under the follow policy, stays inside a finite universe of states, and fails exactly when a selected issue is unknown; `Spending.ReachedIffPaid` says which states those are. |
| `Spending.ReachedIffPaid` | repo_workflow/lane_traversal.py:70-92 | A state is reached exactly when some walk from a selected issue to it leaves that budget: each unselected group ticket behind it is paid from the budget of its own kind, or from the group budget when there is one, and nothing else is paid. |
| `Traversal.DependencyComponent` | repo_workflow/lane_decomposition.py:82-112 | The component lists, in increasing order, exactly the issues of reachable states plus the neighbours that the show-children context adds to group tickets. |
| `Spending.VisibleIffSeen` | repo_workflow/lane_decomposition.py:82-112 | An issue is visible exactly when an affordable walk ends at it, or at an unselected neighbour of a kind whose children are asked for and for which nothing is left. |
| `Traversal.CrossMonotone` | repo_workflow/lane_traversal.py:70-92 | Crossing an issue is monotone: a policy and remaining budget that are componentwise no smaller cross whatever the smaller ones cross and keep no less. |
| `Traversal.LargerBudgetReaches` | repo_workflow/lane_traversal.py:70-92 | Every state of a smaller policy is matched by a state of the same issue with no less budget under a larger policy. |
| `Traversal.MoreBudgetShowsMore` | repo_workflow/lane_decomposition.py:82-112 | Raising budgets componentwise, or showing more children, never hides an issue from the component. |
| `TopologicalOrder.Sort` | repo_workflow/lane_decomposition.py:137-155 | The in-degree worklist (smallest ready node first) computes the order that always takes the least node without open predecessors. |
| `TopologicalOrder.OrderCoversIffAcyclic` | repo_workflow/lane_decomposition.py:156-157 | That order covers all nodes exactly when they induce no cycle, so the length test is a cycle test. |
| `TopologicalOrder.OrderRespectsEdges` | repo_workflow/lane_decomposition.py:145-155 | Every predecessor of a listed node is listed before it. |
| `Lanes.AssignLanes` | repo_workflow/lane_decomposition.py:159-186 | The placement loop with its owner map equals extending the lane of the smallest predecessor that is still a tail, and keeps the lanes a path cover of the issues placed. |
| `LanePlan.DecomposeLanes` | repo_workflow/lane_decomposition.py:115-197 | From the selection, policies and completed issues: a plan exists exactly when the selection is known and the visible open issues are acyclic; its closure lists exactly those issues and its named lanes are paths that hold each of them once. |
| `LanePlan.PlanIsProjected` | repo_workflow/lane_graph_adapter.py:79-97 | Every plan passes the projection: its lane names are valid and each lane, recovered from its unordered members, is a path. |
| `Lanes.LanePath` | repo_workflow/lane_graph_adapter.py:306-335 | From an unordered issue set the method returns a lane exactly when the set is acyclic and some ordering of it is a path, and then returns that path. |
| `Lanes.PathIsUnique` | repo_workflow/lane_graph_adapter.py:306-335 | An acyclic set of issues has at most one path through all of it: the topological order. |
| `Lanes.LanesAreRecoverable` | repo_workflow/lane_graph_adapter.py:306-335 | Each decomposed lane is recovered from its unordered set in any acyclic graph containing the component's dependency edges, so the recovery never raises on its own decomposition. |
| `LaneNames.LaneName` | repo_workflow/lane_decomposition.py:212-219 | The remainder loop prints the bijective base-26 name of the lane index. |
| `LaneNames.LaneKey` | repo_workflow/lane_graph_adapter.py:342-348 | The accumulator loop returns the base-26 value, failing exactly on a character outside A to Z. |
| `LaneNames.KeyOfLetters` | repo_workflow/lane_graph_adapter.py:342-348 | The key of a printed name is its number: naming is inverted for every index. |
| `LaneNames.LettersOfKey` | repo_workflow/lane_decomposition.py:212-219 | Printing the key of a name gives the name back. |
| `LaneNames.NamesAreDistinct` | repo_workflow/lane_decomposition.py:212-219 | No two lane indices share a name. |
| `Reduction.HasAlternatePath` | repo_workflow/lane_graph_adapter.py:276-303 | The search answers true exactly when another first step from the source also leads to the target. |
| `Reduction.TransitiveReduction` | repo_workflow/lane_graph_adapter.py:254-273 | The loop over a shrinking copy keeps exactly the protected edges and the edges without an alternate path in the full graph. |
| `Reduction.EdgeSurvives` | repo_workflow/lane_graph_adapter.py:254-273 | On an acyclic graph the ends of every dropped edge stay connected in the reduction, although all removals are judged against the full graph. |
| `Reduction.ReductionPreservesReachability` | repo_workflow/lane_graph_adapter.py:254-273 | On an acyclic graph the reduction connects exactly the pairs that the full graph connects. |
| `Reduction.ReductionIsMinimal` | repo_workflow/lane_graph_adapter.py:254-273 | Removing any kept unprotected edge from the reduction would disconnect its ends. |
| `Reduction.CycleBreaksReduction` | repo_workflow/lane_graph_adapter.py:254-273 | A three-node graph with a cycle where the reduction loses a connection: acyclicity is needed. |
| `SiblingGroups.GroupAlike` | repo_workflow/lane_graph_adapter.py:105-129 | Bucketing by neighbour signature partitions the issues into the classes of equal neighbourhoods, isolated issues alone. |
| `SiblingGroups.AlikeIff` | repo_workflow/lane_graph_adapter.py:105-129 | Two issues share a group exactly when they have the same neighbours on both sides and at least one. |
| `SiblingGroups.BlocksRelateMembers` | repo_workflow/lane_graph_adapter.py:131-142 | A block points to a block exactly when any, equivalently every, member pair is related: nothing is lost or invented. |
| `SiblingGroups.BlockGraphIsAcyclic` | repo_workflow/lane_graph_adapter.py:131-142 | The quotient of an acyclic graph has no cycle. |
| `SiblingGroups.NoSelfTarget` | repo_workflow/graph_render_model.py:93-94 | No sibling group of an acyclic graph points to itself. |
| `SiblingGroups.ProjectionIsLossless` | repo_workflow/lane_graph_adapter.py:99-142 | Re-expanding the groups relates two labels exactly when their issues are related in the reduced graph. |
| `GroupGraph.IndexFamily` | repo_workflow/graph_render_model.py:72-84 | The node index is built exactly for families of non-empty, repetition-free, non-overlapping blocks. |
| `GroupGraph.Expand` | repo_workflow/graph_render_model.py:86-101 | Expansion succeeds exactly when targets are distinct, inside the graph and not the group itself, and then relates every member of a group to every member of its targets. |
| `GroupGraph.CheckLanes` | repo_workflow/graph_render_model.py:104-129 | Lanes are accepted exactly when they partition the nodes into paths of the expansion; the result is the lane of every node. |
| `GroupGraph.ValidateGraph` | repo_workflow/graph_render_model.py:58-139 | The validator accepts exactly the acceptable graphs (disjoint groups, no empty label, proper acyclic targets, path lanes covering every node) and returns the group and lane of every node and the expanded relation in both directions. |
| `Projection.OrderLanes` | repo_workflow/lane_graph_adapter.py:83-97 | Every lane of the assignment is ordered and its neighbour edges protected, or the projection fails because some lane is not a path. |
| `Projection.IssueTextIsUnique` | repo_workflow/lane_graph_adapter.py:206-219 | Labels tell issues apart for every choice of lanes and every annotation that does not end in a digit, as none does. |
| `Projection.ProjectionIsAcceptable` | repo_workflow/lane_graph_adapter.py:99-166 | The validator accepts the projection of every acyclic graph with path lanes: no self edge, no group cycle, unique labels, intact lanes. |
| `Projection.ProjectLaneGraph` | repo_workflow/lane_graph_adapter.py:44-166 | The projection exists exactly when every visible issue has a lane with a valid, coloured name and a supported lifecycle state and every lane is a path; its groups expand to the reduced relation under the labels, and for acyclic graphs the validator accepts it. |
| `Projection.LabelShowsLane` | repo_workflow/lane_graph_adapter.py:206-219 | A label is root mark, state glyph, kind, the issue's own lane name and its number, although lanes are grouped by the number of the name. |
| `Projection.KindIsInitial` | repo_workflow/lane_graph_adapter.py:222-226 | The mark of a group ticket is the first letter of its title, and other tickets have none. |
| `Projection.AnnotationTells` | repo_workflow/lane_graph_adapter.py:206-219 | Equal annotations mean the same root mark, the same lifecycle state and the same kind. |
| `Projection.ProjectionKeepsReachability` | repo_workflow/lane_graph_adapter.py:44-166 | What the projected groups relate, step by step, connects two labels exactly when the dependencies connect their issues. |
| `Labels.NumberIsDetermined` | repo_workflow/lane_graph_adapter.py:18-18 | A text ending in a non-digit and a number determines the number. |
| `Labels.LabelsAreUnique` | repo_workflow/lane_graph_adapter.py:206-219 | Two labels with lane names and issue numbers are equal only for the same issue. |
| `Labels.DigitsOfValue` | repo_workflow/remote_invocation.py:24-24 | Decimal numbers without leading zeros are exactly the printed ones. |
| `CycleCheck.Visit` | repo_workflow/relationships.py:148-159 | The recursive visit finishes a closed set of nodes or proves that the graph has a cycle. |
| `CycleCheck.CheckAcyclic` | repo_workflow/graph_render_model.py:142-159 | The three-state depth-first search accepts exactly the acyclic graphs and terminates. |
| `CycleCheck.ValidateDependencies` | repo_workflow/relationships.py:131-162 | Dependencies are accepted exactly when every reference exists and there is no cycle. |
| `CycleCheck.ReadyIssues` | repo_workflow/relationships.py:117-128 | The ready issues are, in order, exactly the open ones whose dependencies are all satisfied. |
| `CycleCheck.SomethingIsReady` | repo_workflow/relationships.py:117-128 | On an accepted graph, whenever an issue is open some issue among its dependencies (or itself) is ready. |
| `Layering.GroupRanks` | repo_workflow/graph_ordering.py:14-47 | Every group gets its longest-path depth, so every edge goes to a strictly later column; the ranking fails exactly on a cyclic graph. |
| `Layering.RanksAreLongest` | repo_workflow/graph_ordering.py:29-42 | The rank pushed on by the worklist is attained by some walk and exceeded by none. |
| `Layering.ColumnsAreContiguous` | repo_workflow/graph_ordering.py:29-42 | Below the rank of any group every rank occurs, so no column of the layout is missing. |
| `Layering.RanksAreUnique` | repo_workflow/graph_ordering.py:29-47 | The ranking of a group graph is determined: any two rankings agree. |
| `NodePlacement.PlaceNodes` | repo_workflow/graph_ordering.py:50-105 | Every node is placed in the column of its group's rank and no two nodes of a column share a row; each column holds its groups from row 0 on, with a free row around linked groups, in the order chosen for the columns before it. |
| `GroupOrder.LanePredecessors` | repo_workflow/graph_ordering.py:70-73 | The map gives for every node exactly the node before it on its lane. |
| `GroupOrder.AnchorOrder` | repo_workflow/graph_ordering.py:115-126 | The groups of a column, each once, by anchor (mean row of lane predecessors, else of sources, else last) and then by text. |
| `GroupOrder.AnchorsAscend` | repo_workflow/graph_ordering.py:115-126 | Groups behind their lanes come first, then those behind other groups, then the rest; within each the mean row decides, then the text. |
| `GroupOrder.FirstByText` | repo_workflow/graph_ordering.py:79-80 | Before anything is placed, as in the first column, the order by anchors is the order by text alone. |
| `GroupOrder.OrderCost` | repo_workflow/graph_ordering.py:186-212 | The loops compute the summed row distance to placed sources, followed by the order of texts. |
| `GroupOrder.GroupsAreSpaced` | repo_workflow/graph_ordering.py:90-103 | In a column the groups follow one another from row 0 on without gaps, except for exactly one free row before and after a group that has an edge. |
| `GroupOrder.ImproveOrder` | repo_workflow/graph_ordering.py:129-157 | The loop performs exactly the descent: each time the first exchange of neighbours that lowers the cost, at most as many times as the square of the number of groups. |
| `GroupOrder.DescentGoesDown` | repo_workflow/graph_ordering.py:130-157 | The descent is a chain of cost-lowering exchanges that ends where no exchange of neighbours helps, or after the permitted number of exchanges. |
| `GroupOrder.OrderIsNoWorse` | repo_workflow/graph_ordering.py:108-157 | The final order holds the same groups, and its summed distance to placed sources is never larger than before the improvement. |
| `RoutePath.CheckCells` | repo_workflow/graph_route_path.py:30-72 | Dangling and branching bits are reported exactly when some bit lacks its reciprocal or some cell has more than two bits. |
| `RoutePath.FindPath` | repo_workflow/graph_route_path.py:30-100 | A route is accepted exactly when its bits are one non-branching path from source to target through every cell; the returned path is that path, and the loop error can never be reported. |
| `RoutePath.SimplePathIsUnique` | repo_workflow/graph_route_path.py:74-100 | A route has at most one such path between two anchors. |
| `RoutePath.SimplePathDoesNotBranch` | repo_workflow/graph_route_path.py:64-71 | No cell of a simple path holds more than two bits, so the branching test loses nothing. |
| `RouteShapes.GrowRun` | repo_workflow/graph_routing.py:117-157 | Extending a simple path by a straight run over fresh cells is a simple path with exactly the run's bits added. |
| `RouteShapes.OrderedBridgeIsSimple` | repo_workflow/graph_routing.py:75-101 | The five-stroke route with tracks in order is a simple path for all rows and widths. |
| `RouteShapes.CrossedBridgeBranches` | repo_workflow/graph_routing.py:54-72 | With the tracks crossed a cell collects three bits, and no simple path exists. |
| `RouteDrawing.BridgeDrawnBits` | repo_workflow/graph_routing.py:54-101 | The drawn strokes add exactly the prescribed bits to their own edge and leave every other edge alone. |
| `RouteDrawing.AdjacentDrawnBits` | repo_workflow/graph_routing.py:35-51 | The three strokes of an adjacent route add exactly the prescribed bits. |
| `RouteDrawing.CollectRoutedEdgeBits` | repo_workflow/graph_route_path.py:13-27 | The collected map holds, for exactly the drawn edges, the union of their bits per cell. |
| `RouteDrawing.Canvas.Horizontal` | repo_workflow/graph_routing.py:117-134 | The loop over a row leaves the cells of the row-drawing specification. |
| `RouteDrawing.Canvas.Vertical` | repo_workflow/graph_routing.py:137-165 | The loop over a column leaves the cells of the column-drawing specification. |
| `RouteDrawing.Canvas.RouteAdjacent` | repo_workflow/graph_routing.py:35-51 | Three strokes in a row leave the adjacent drawing. |
| `RouteDrawing.Canvas.RouteBridge` | repo_workflow/graph_routing.py:54-101 | Five strokes leave the dogleg or long drawing. |
| `RouteGeometry.ColumnGeometry` | repo_workflow/graph_boundary_plan.py:206-227 | The cursor loop computes the start of each column and one track per boundary item. |
| `RouteGeometry.GeometryHolds` | repo_workflow/graph_boundary_plan.py:206-227 | Columns are disjoint and in order, tracks of a boundary are distinct and lie strictly inside its gap. |
| `RouteGeometry.GapIsExact` | repo_workflow/graph_boundary_plan.py:206-227 | Neighbouring columns are separated by exactly the number of their tracks plus two, and at least by three. |
| `RouteGeometry.NearestRow` | repo_workflow/graph_boundary_plan.py:112-125 | The chosen row is a nearest other node row, and there is none exactly when there is one row. |
| `RouteGeometry.DoglegRouteRows` | repo_workflow/graph_boundary_plan.py:88-127 | A dogleg between different rows keeps its source row, otherwise it leaves the row; private rows below all nodes are pairwise different. |
| `RouteGeometry.AdjacentRouteIsAccepted` | repo_workflow/graph_routing.py:35-51 | With these tracks every adjacent route, bundled or not, is one simple path between its anchors. |
| `RouteGeometry.LongRouteIsAccepted` | repo_workflow/graph_routing.py:75-101 | Every long route is one simple path, whatever row it was given. |
| `RouteGeometry.DoglegIsAcceptedIff` | repo_workflow/graph_routing.py:54-72 | A dogleg on its planned row is a simple path if and only if its source track is left of its target track. |
| `RouteGeometry.LongRouteAvoidsLabels` | repo_workflow/graph_layout.py:174-187 | A long route whose row is free of nodes in between covers no label. |
| `BoundaryPlan.BoundaryItems` | repo_workflow/graph_boundary_plan.py:130-203 | A boundary receives exactly the tracks that some edge needs: bundle, dogleg ends with separator, long bridge ends, or the edge itself at both ends. |
| `BoundaryPlan.BundledIsShort` | repo_workflow/graph_boundary_plan.py:59-85 | Bundles join neighbouring columns only, so no bundled edge is a dogleg or a long edge. |
| `BoundaryPlan.SharedTrack` | repo_workflow/graph_boundary_plan.py:59-85 | Two edges leave on one track exactly when they join the same neighbouring groups and no two lanes pass between these. |
| `BoundaryPlan.SingleTrack` | repo_workflow/graph_boundary_plan.py:15-56 | An unbundled edge has one and the same track at both ends exactly when nothing else leaves its source or enters its target. |
| `BoundaryTracks.OrderIsValid` | repo_workflow/graph_boundary_order.py:295-458 | Drawing the edges of one boundary on their own and validating them decides whether the order is acceptable. |
| `BoundaryTracks.OrderBoundary` | repo_workflow/graph_boundary_order.py:34-132 | The chosen order permutes exactly the needed items, its active part passes the validator, and no candidate of better drawing quality does; on failure none of the distinct candidates passes, and below the cap they are all orders that keep passive items in place. |
| `BoundaryTracks.QualityCounts` | repo_workflow/graph_boundary_order.py:224-292 | The three counts that rank an order vanish exactly when no lines run against each other in neighbouring columns, none run side by side, and no two edges meet at a right angle. |
| `BoundaryTracks.ShortDrawingsAre` | repo_workflow/graph_layout.py:102-187 | Every edge between neighbouring columns is drawn exactly once, bundles first, each in the way its kind demands, and nothing else is drawn. |
| `BoundaryTracks.EndsOnOwnTracks` | repo_workflow/graph_boundary_plan.py:130-204 | A dogleg and a long bridge leave on the source track and arrive on the target track of their own edge, other edges have one track of their own or of their bundle. |
| `BoundaryTracks.BundleMarks` | repo_workflow/graph_boundary_plan.py:59-85 | Two short edges carry one bundle mark exactly when they leave on one track. |
| `Layout.BitsComeFromARoute` | repo_workflow/graph_layout.py:102-187 | Every bit of the drawing was put there by the route of its own edge. |
| `Layout.LayoutIsClear` | repo_workflow/graph_layout.py:201-228 | Of drawable routes no cell lies on a node label, and every cell lies within the width of the drawing and at non-negative coordinates; `LayoutBuilder.BuildLayout` establishes drawability. |
| `Layout.AcceptedDoglegIsForward` | repo_workflow/graph_routing.py:54-72 | In a finished drawing a dogleg that is recognised as a path has its source track left of its target track. |
| `Switches.MergeContributions` | repo_workflow/graph_route_interactions.py:38-56 | Contributions are merged per edge: bits are united, the first bundle is kept. |
| `Switches.SwitchEdgesForCell` | repo_workflow/graph_route_interactions.py:34-83 | Edges of a cell join exactly when they share an endpoint and a direction, or a bundle. |
| `Switches.SwitchIff` | repo_workflow/graph_route_interactions.py:34-83 | An edge switches at a cell exactly when it is drawn there with another, and all edges there share a direction and a source or a target, or belong to one bundle. |
| `Switches.InteractionComponent` | repo_workflow/graph_route_interactions.py:6-31 | The component is exactly the set of edges connected to the start through switch cells. |
| `RenderedReachability.Explore` | repo_workflow/graph_route_semantics.py:268-343 | The worklist terminates and finds exactly the targets reachable by following route paths and crossing at switches. |
| `RenderedReachability.ValidateReachability` | repo_workflow/graph_route_semantics.py:229-343 | Accepts exactly when, for every source, the drawing leads to exactly the expected targets over the switch map it built from the last contribution per edge. |
| `RenderedReachability.LastPerEdgeIsLast` | repo_workflow/graph_route_semantics.py:253-264 | Switches are built from exactly one contribution per edge and cell, the last one. |
| `RenderedReachability.FindPaths` | repo_workflow/graph_route_semantics.py:229-256 | All routes have simple paths, or some route has none at all. |
| `RenderedReachability.ValidateCandidate` | repo_workflow/graph_route_semantics.py:23-76 | A candidate is valid exactly when the expected edges are drawn, all of them as simple paths, and their drawing connects exactly the expected pairs. |
| `BoundaryOrder.SwapsGenerateAll` | repo_workflow/graph_boundary_order.py:145-155 | A set of orders closed under adjacent swaps contains every permutation of its members. |
| `BoundaryOrder.BoundedActiveOrders` | repo_workflow/graph_boundary_order.py:135-157 | The search yields distinct permutations with the base first, at most 4096, and all permutations whenever it stops below that cap. |
| `BoundaryOrder.MergePassive` | repo_workflow/graph_boundary_order.py:203-220 | Passive items keep their places, active places receive the given order; the error is raised exactly when the counts differ; multiset bookkeeping makes the result a permutation. |
| `BoundaryOrder.MergeIsPermutation` | repo_workflow/graph_boundary_order.py:203-220 | An order of the active items merges into a permutation of the base. |
| `BoundaryOrder.CandidateOrders` | repo_workflow/graph_boundary_order.py:34-73 | Candidates are distinct permutations that keep passive items in place, and below the cap every such permutation is a candidate. |
| `RowAllocation.LongRowIsCompatible` | repo_workflow/graph_long_routes.py:85-119 | The closure accepts exactly when the overlap component of the new route has one common source or one common target. |
| `RowAllocation.LongRouteCandidates` | repo_workflow/graph_long_routes.py:9-46 | The candidate rows are exactly the rows in range that hold no node in between and only compatible routes. |
| `RowAllocation.AddKeepsRow` | repo_workflow/graph_long_routes.py:85-119 | Adding a compatible route keeps every overlap component with a long route joined at one end, also when components merge. |
| `RowAllocation.Allocate` | repo_workflow/graph_long_plan.py:68-146 | One more allocation keeps: one row per edge, joined components on every row, free rows, and one route per private row. |
| `RowAllocation.PrivateBase` | repo_workflow/graph_long_plan.py:52-55 | Private rows start just above every node row and every row in use. |
| `RowAllocation.AllocationIsSafe` | repo_workflow/graph_long_plan.py:29-148 | Each route lies in exactly one row, its component there has a common end, a private row holds only it, and its row crosses no node. |
| `RowAllocation.SharedRowSharesEnd` | repo_workflow/graph_long_routes.py:85-135 | Two routes in one row that run through a common gap between columns have the same source or the same target. |
| `LongRoutes.CandidateIsValid` | repo_workflow/graph_route_semantics.py:101-181 | A row is valid exactly when, with the route drawn on a copy of the cells, the edges that interact with it are drawn as simple paths and connect exactly the expected pairs. |
| `LongRoutes.RestrictedRoutes` | repo_workflow/graph_route_semantics.py:131-148 | The drawing that is judged shows the interacting edges as they are and no other edge. |
| `LongRoutes.ChooseRow` | repo_workflow/graph_long_plan.py:58-107 | The chosen row is valid, and every row that is cheaper by crossings, excursion, length, bends and distance is not; none is chosen only when no row is valid. |
| `LongRoutes.CrossingsFirst` | repo_workflow/graph_long_plan.py:58-107 | A row with fewer crossings is cheaper than any other; equal crossings leave it to the row score. |
| `LongRoutes.RowPreference` | repo_workflow/graph_quality.py:109-130 | With equal crossings the row of the source beats every other row, a row between the ends beats one outside, and of two outside rows on one side the nearer one wins. |
| `LongRoutes.NoCrossing` | repo_workflow/graph_long_plan.py:160-200 | A proposed route costs nothing exactly when it meets no line of an edge with other ends at a right angle. |
| `LongRoutes.RouteLongEdges` | repo_workflow/graph_long_plan.py:29-148 | Long edges are drawn in place one after the other, each on its best valid shared row or, when there is none, on its own fresh row; the loop fails exactly at an edge for which that one is invalid too. |
| `LongRoutes.RoutedIsAllocated` | repo_workflow/graph_long_plan.py:29-148 | The rows of a finished routing are an allocation: a private row holds one route, and routes that touch on a shared row have a common end. |
| `LongRoutes.RoutedRowsAreFree` | repo_workflow/graph_long_routes.py:20-46 | No long route runs along a row that holds a node in a column strictly between its ends. |
| `LayoutBuilder.Prepare` | repo_workflow/graph_layout.py:44-55 | A validated graph gets ranks, places, widths and its list of edges: edges go to later columns and no column is empty; it fails if and only if the formatter gives some column of the ranked graph no width. |
| `LayoutBuilder.EdgeHasTracks` | repo_workflow/graph_boundary_plan.py:130-227 | In the column table every edge finds the tracks of both its ends. |
| `LayoutBuilder.DraftIsFinished` | repo_workflow/graph_layout.py:86-208 | What the drawing stages leave, once the final check accepts it, is drawable edge by edge, draws every edge exactly once and keeps all labels clear. |
| `LayoutBuilder.BuildLayout` | repo_workflow/graph_layout.py:43-228 | From a graph and its lanes: refused exactly for unacceptable graphs, too narrow exactly when the formatter gives some column no width; a built layout has as edges exactly the relation of the graph and is finished; the other errors name a boundary where no distinct candidate order is valid, a long edge without a valid row, or a failed final check. |
| `LayoutBuilder.FinishedShowsRelation` | repo_workflow/graph_geometry.py:24-96 | From the right border of a label, going along lines cell by cell and over to other lines where a switch joins them, one gets to the left border of exactly the nodes that the graph relates to it; each edge runs as one simple path between its own labels. |
| `LaneGraphDisplay.DrawingShowsDependencies` | repo_workflow/graph_layout.py:43-228 | From dependencies to lines: in the finished layout of a projection, walking along lines connects two labels exactly when the visible dependencies connect their issues, although edges were reduced, issues grouped and routes shared. |
| `CmdLineage.Matches` | repo_workflow/remote_request.py:101-140 | The forward loop with its prior and count variables computes the scan of the history above the source. |
| `CmdLineage.AcceptsIffLenient` | repo_workflow/remote_request.py:101-140 | The forward scan accepts exactly the branches that are attempt 0, results, attempt 1, ... on the source revision with the given arguments and consecutive counts. |
| `CmdLineage.MarkerWords` | repo_workflow/remote_invocation.py:78-99 | A canonical marker reads back exactly the arguments and count it was written from. |
| `CmdLineage.Validate` | repo_workflow/remote_invocation.py:154-214 | The backward loop returns the source exactly for branches whose lineage from the tip ends on the untouched source with the expected counts and trailers. |
| `CmdLineage.ScansAgree` | repo_workflow/remote_invocation.py:173-205 | The backward scan reads a lineage if and only if the forward scan does, the branch is clean (canonical markers with one trailer, results with a status) and the arguments name a command. |
| `CmdLineage.ValidatorAgreesWithScan` | repo_workflow/remote_invocation.py:173-205 | On a clean branch with a marker tip the hosted validator reads the lineage exactly when the submitter would reuse the branch. |
| `CmdLineage.BareRequestDividesScans` | repo_workflow/remote_invocation.py:78-99 | A branch whose marker holds only the remote flag and a count: the forward scan accepts it, the backward scan refuses it for all expectations. |
| `CmdAttempts.LineageIsStable` | repo_workflow/remote_request.py:101-140 | Commits added anywhere never change what a branch holds. |
| `CmdAttempts.LineageDecides` | repo_workflow/remote_request.py:101-140 | A branch passes the forward scan only for its own source, its own arguments and its own number of attempts. |
| `CmdAttempts.AttemptsChangeOnePath` | repo_workflow/remote_result.py:129-134 | Every commit of a branch changes exactly one path against its parent: a request its marker, a result its result file. |
| `CmdAttempts.LineageIsUnique` | repo_workflow/remote_request.py:101-140 | Two readings of one tip agree on source, arguments, attempt number and whether it is answered. |
| `CmdAttempts.AcceptsIffBelongs` | repo_workflow/remote_request.py:241-263 | The submitter reuses a branch exactly when it is a run of its own request. |
| `CmdResults.PublicationChangesResult` | repo_workflow/remote_result.py:179-196 | Even byte-identical output changes the result path, and only that path, because the file mode is toggled. |
| `CmdResults.ReadingIsOwn` | repo_workflow/remote_result.py:129-143 | Readback takes only a result that lies directly on the request, changes nothing else and names this request and retry, whatever the branch holds otherwise. |
| `CmdResults.ReadbackIsCurrent` | repo_workflow/remote_result.py:119-145 | Readback gives nothing while the latest attempt is open and otherwise exactly the exit code and output stored for that attempt; `CmdReadback` ties these to what was published. |
| `CmdReadback.PublishedResultIsRead` | repo_workflow/remote_result.py:119-215 | If a result was prepared for an attempt that is still the tip when it is delivered, it becomes the tip, where readback returns this request and retry with the exit code and the output that were published. |
| `CmdReadback.ReadResultWasPublished` | repo_workflow/remote_result.py:119-145 | In every reachable state, whatever readback returns for a branch was published earlier for that branch and attempt, with that exit code and output. |
| `CmdReadback.RetryCanBePrepared` | repo_workflow/remote_request.py:291-349 | Every remote request can be retried; the new attempt keeps all of the tree but the marker, the old result included, and readback returns nothing for it. |
| `CmdReadback.RetryLands` | repo_workflow/remote_request.py:340-349 | A prepared retry lands while the tip it was made on is still the tip, and pushing it again leaves it there. |
| `CmdTransport.Highest` | repo_workflow/remote_request.py:238-244 | The loop over the refs finds the largest CMD number in use, or zero. |
| `CmdTransport.SameBranches` | repo_workflow/remote_request.py:236-288 | A step that leaves CMD branches alone keeps soundness, numbering and uniqueness of requests. |
| `CmdSafety.SnapshotIsFull` | repo_workflow/remote_request.py:267-270 | After a scan without a match every number up to the snapshot's highest is taken by another request. |
| `CmdSafety.PushNewIsOk` | repo_workflow/remote_request.py:269-287 | Creating the branch only if absent keeps numbers contiguous and leaves at most one branch per request. |
| `CmdSafety.FastForwardIsExact` | repo_workflow/remote_request.py:342-348 | A retry that fast-forwards finds exactly the tip it was prepared on. |
| `CmdSafety.NextIsOk` | repo_workflow/remote_request.py:236-348 | Every step of submitters, retries, publishers and bystanders keeps the invariant and only extends branches of the same request. |
| `CmdSafety.RunIsSafe` | repo_workflow/remote_request.py:236-348 | The invariant holds in every state of every interleaving. |
| `CmdSafety.NumbersAreContiguous` | repo_workflow/remote_request.py:267-270 | In every reachable state with one source branch the numbers in use are exactly 1 to n. |
| `CmdSafety.NoOverwrite` | repo_workflow/remote_request.py:275-283 | No CMD branch disappears or is overwritten: a step keeps its tip or adds one child. |
| `CmdSafety.SubmissionsConverge` | repo_workflow/remote_request.py:236-288 | Two finished submissions of one source revision and argument list name the same branch, in any two states of a run. |
| `CmdReuse.SubmissionReuses` | repo_workflow/remote_request.py:236-264 | A submission that nobody disturbs finishes, in a bounded number of steps and whatever order it inspects branches in, on the branch that already serves its job, and creates nothing. |
| `CmdReuse.PushFinishes` | repo_workflow/remote_request.py:269-284 | A push that finds its branch absent, or already made from its own commit, finishes with that commit at its tip. |
| `CmdSafety.BranchIsARun` | repo_workflow/remote_result.py:119-145 | Every branch of every reachable state is marker 0, optional result, marker 1, ..., and readback sees nothing or the result of exactly the latest attempt. |
| `CmdSafety.ResultLandsOnItsAttempt` | repo_workflow/remote_result.py:205-208 | In every run, a delivered result changes a ref only when the attempt it was prepared for is the unanswered tip, and then that attempt is answered. |
| `CmdSafety.AttemptsGrow` | repo_workflow/remote_request.py:236-348 | Along every run the latest attempt of a branch, and whether it is answered, never goes back. |
| `CmdSafety.LateResultChangesNothing` | repo_workflow/remote_result.py:205-208 | Once a branch was seen at a later attempt, or with this attempt answered, delivering a result for the attempt changes nothing, at any later time of the run. |
| `CmdSafety.TwoSourceBranchesDiverge` | repo_workflow/remote_request.py:236-288 | A run of ten states with two source branches in which two submissions of one job finish on different branches and two branches carry number 1: the single-source assumption is needed for uniqueness and for convergence. |
| `RecordStore.JsonRecordStore.Create` | repo_workflow/state_store.py:48-61 | A missing record is created at revision 0 with the given value and writer and no predecessor; an existing one is left alone. |
| `RecordStore.JsonRecordStore.Replace` | repo_workflow/state_store.py:63-88 | Exactly the expected revision of a well-formed record is replaced by its successor; any other revision is left alone and reported stale; the history stays an unbroken chain. |
| `RecordStore.JsonRecordStore.Read` | repo_workflow/state_store.py:42-46 | A record is handed out exactly when its schema, key, revision link and writer identity are in order; in a store written only by create and replace every record is, it is the latest version, and its revision counts the versions before it. |
| `Transactions.ConflictIsClash` | repo_workflow/transaction.py:237-254 | The set test is symmetric and holds exactly when both touch some member that at least one of them writes. |
| `Transactions.UniqueIsDistinct` | repo_workflow/transaction.py:257-260 | The size test of a member list accepts exactly the lists without a repeated member. |
| `Transactions.SemanticTransactionCoordinator.Prepare` | repo_workflow/transaction.py:66-97 | The record is created exactly when the sets are well-formed, the id is new and no other prepared transaction conflicts. |
| `Transactions.SemanticTransactionCoordinator.Commit` | repo_workflow/transaction.py:107-141 | A prepared transaction with valid reads is stored as committed before its own writes are handed out, one with stale reads is stored as aborted with that reason; committed ones are handed out again, aborted and unknown ones refused, and read and write sets never change. |
| `Transactions.SemanticTransactionCoordinator.Abort` | repo_workflow/transaction.py:143-156 | Only a prepared transaction is aborted, with the given reason; committed ones are refused and aborted ones left alone, and read and write sets never change. |
| `TransactionSafety.StepIsOk` | repo_workflow/transaction.py:66-222 | Every step of every process, crashes included, keeps the invariant and changes a record only from prepared to one final status with the same sets. |
| `TransactionSafety.RunIsSafe` | repo_workflow/transaction.py:66-222 | The invariant holds in every state of every interleaving of prepare, commit, abort, recover and crash. |
| `TransactionSafety.PreparedNeverClash` | repo_workflow/transaction.py:177-202 | No two transactions that are prepared at the same time clash. |
| `TransactionSafety.DecisionIsFinal` | repo_workflow/transaction.py:124-141 | A decided record never changes again; no record goes beyond revision 1; write sets never change. |
| `TransactionSafety.AppliedIsCommitted` | repo_workflow/transaction.py:120-141 | Whatever was materialized is durably committed then and at all later times. |
| `TransactionSafety.CommitIsSteps` | repo_workflow/transaction.py:107-141 | What one call of `Commit` stores is what its steps store in the interleaved system, and materialization runs exactly for valid reads. |
| `TransactionSafety.AbortIsSteps` | repo_workflow/transaction.py:143-156 | The same for `Abort`. |
| `TransactionSafety.PrepareIsSteps` | repo_workflow/transaction.py:66-97 | The same for `Prepare`: its steps create the record exactly when it is new and nothing prepared conflicts. |
| `TransactionSafety.CommittedIsMaterialized` | repo_workflow/transaction.py:117-134 | A committed transaction can be materialized again at any time, and nothing else changes. |
| `EvidenceJournal.EvidenceFiles.WriteJournal` | repo_workflow/retry_evidence.py:161-190 | A journal is written only when none exists, and holds the log's bytes and mode. |
| `EvidenceJournal.EvidenceFiles.RecoverParents` | repo_workflow/retry_evidence.py:104-117 | A substituted parent directory is moved aside unread and a new one made; nothing else is lost. |
| `EvidenceJournal.EvidenceFiles.RecoverJournal` | repo_workflow/retry_evidence.py:232-252 | Recovery restores the original and removes the journal if and only if the log, in its own directory, has the original bytes and mode or is the expected checkout with that mode, or is absent when none is expected; otherwise it refuses and nothing changes. |
| `EvidenceJournal.EvidenceFiles.Restore` | repo_workflow/retry_evidence.py:373-412 | The original is put back in a real directory; a substituted parent, a copy of exactly the unexpected content, or a substituted link or non-file itself, is set aside first. |
| `EvidenceJournal.EvidenceFiles.RemoveIfRestored` | repo_workflow/retry_evidence.py:255-263 | The journal is removed exactly when the log holds the original again. |
| `EvidenceJournal.EvidenceFiles.Isolate` | repo_workflow/retry_evidence.py:301-412 | A run without a crash ends with the evidence in place and no journal. The operation finds the expected bytes with the mode of the evidence, or nothing when none are expected; success is reported exactly when it succeeded cleanly and left just that, and anything else it left is kept aside. It refuses exactly when recovery does, and every intermediate state is a lawful write. |
| `EvidenceJournal.EvidenceFiles.Protect` | repo_workflow/retry_evidence.py:353-412 | The same for the part between journal and restoration. |
| `EvidenceJournal.HeldUntilRestored` | repo_workflow/retry_evidence.py:161-263 | Over any string of runs, crashes and outside changes the journal holds the original, unchanged, until the log holds it again. |
| `EvidenceJournal.UntouchedIsRecoverable` | repo_workflow/retry_evidence.py:232-252 | A crash at any write before the operation changed the log leaves a state that recovery restores. |
| `EvidenceJournal.ReplacedContentIsKept` | repo_workflow/retry_evidence.py:375-400 | Whatever the program replaces at the log's path remains as the journalled evidence, the committed checkout, or set aside for good, links, non-files and substituted parents included. |
| `EvidenceJournal.CrashThenRun` | repo_workflow/retry_evidence.py:301-313 | A run cut off after any of its writes, outside changes to the log, and the trail of a later run make up one lawful history. |
| `EvidenceJournal.EvidenceOutlivesCrash` | repo_workflow/retry_evidence.py:232-263 | Evidence a crash left in the journal is still there, unchanged, at every point of a later run until the log held it again. |
| `Grammar.RunSnoc` | repo_workflow/command_grammar.py:134-198 | Reading one more token is one more step of the token automaton. |
| `Grammar.PrefixClosed` | repo_workflow/command_grammar.py:240-249 | Dropping tokens from the end never makes a valid prefix invalid. |
| `GrammarWalk.ConsumeSwitch` | repo_workflow/command_grammar_support.py:203-244 | The nested loops end where greedy filling of the parameters ends, with exactly the pending parameters the next token may reach. |
| `GrammarWalk.FillRuns` | repo_workflow/command_grammar_support.py:203-244 | Greedy filling of a switch's parameters does what the automaton does token by token. |
| `GrammarWalk.WalkOrdered` | repo_workflow/command_grammar.py:88-125 | The loop over an ordered node agrees with the automaton on the remaining tokens. |
| `GrammarWalk.WalkPrefix` | repo_workflow/command_grammar.py:134-198 | The batch walker accepts exactly the token lists the automaton accepts and returns the view of its final state. |
| `GrammarLanguage.ParseTokens` | repo_workflow/command_grammar.py:252-265 | A command is accepted exactly when its tokens split into uses of switches and items that the grammar allows and that end in a complete node: items are whole rounds within the bounds, each switch in use occurs often enough, no parameter is short, and without items the node is terminal; all prefixes are then valid. |
| `GrammarLanguage.AcceptedIffCommand` | repo_workflow/command_grammar.py:201-237 | The automaton ends in a finished state exactly on the commands of the language, which is defined over the tokens without states or counters. |
| `GrammarLanguage.UseReads` | repo_workflow/command_grammar_support.py:203-244 | A use of a switch, with as many tokens for each parameter as it can take and at least its minimum, is taken as a whole. |
| `GrammarLanguage.UseSplits` | repo_workflow/command_grammar_support.py:203-244 | Every accepted use of a switch consists of such groups of tokens. |
| `GrammarCompletion.StepIffPending` | repo_workflow/command_grammar.py:312-338 | A token extends the prefix exactly when some pending parameter takes it, or nothing is owed and the node takes it. |
| `GrammarCompletion.MatchIffCandidate` | repo_workflow/command_grammar_support.py:188-200 | A position takes exactly its own texts and, with a generic parameter, every non-empty word that does not start with two dashes. |
| `GrammarCompletion.ParameterIffProvided` | repo_workflow/command_grammar.py:50-64 | A node's parameters take exactly what is provided and, with a generic one, every non-empty word that does not start with two dashes. |
| `GrammarCompletion.EntriesOffered` | repo_workflow/command_grammar.py:268-292 | At a node exactly the keys of descriptions and sub-commands and the provided tokens are offered, never the key of a parameter. |
| `GrammarCompletion.AcceptedIsOffered` | repo_workflow/command_grammar.py:341-410 | Every accepted token is offered, except bare words for generic parameters, a parameter's own key, and sub-commands of an exhausted choice. |
| `GrammarOffers.SafeOffersAreAccepted` | repo_workflow/command_grammar.py:341-410 | In a safe grammar every token offered after any valid prefix extends it; safe means that no later switch parameter with maximum 0 can be next in line with a candidate that nothing else takes. |
| `GrammarOffers.CompletionItems` | repo_workflow/command_grammar.py:413-459 | The items are exactly the offers that extend the last word; for safe grammars each is accepted, and for all grammars each accepted token is offered with the named exceptions. |
| `GrammarHazards.OffersAcceptedIffSafe` | repo_workflow/command_grammar.py:341-410 | Under the dash convention a grammar is safe if and only if every offer after every valid prefix is accepted: an unsafe one has a prefix that offers a refused token. |
| `GrammarHazards.NothingForbiddenIsSafe` | repo_workflow/command_grammar_support.py:203-244 | A grammar without switch parameters of maximum 0 is safe. |
| `GrammarHazards.ForbiddenParameterIsOffered` | repo_workflow/command_grammar_support.py:228-243 | A parse of a one-switch grammar after which a parameter quantified {0} is offered and refused. |
| `Lifecycle.FromJsonValue` | repo_workflow/lifecycle_store.py:82-144 | The reader's loops accept exactly the readable values, aliases included, and decode them, legacy versions included. |
| `Lifecycle.NormalizeAliases` | repo_workflow/lifecycle_store.py:336-347 | Aliases are accepted exactly when each is a non-empty name without white space around it; the result lists the same names once each in order. |
| `Texts.BeforeIff` | repo_workflow/lifecycle_store.py:336-347 | Sorted aliases are in the order of their first difference, or of length when one begins with the other. |
| `Lifecycle.AppendIsOk` | repo_workflow/lifecycle_store.py:216-243 | Appending a legal transition to a readable history gives a readable history. |
| `Lifecycle.WriteIsReadable` | repo_workflow/lifecycle_store.py:216-243 | What a transition writes is accepted by its own reader and reads back as the same issue. |
| `Lifecycle.CompletionHasOneCandidate` | repo_workflow/lifecycle_store.py:366-379 | A completed issue was reviewed, accepted and completed on one candidate, unless its acceptance predates the current schema. |
| `Lifecycle.StateIsLastTransition` | repo_workflow/lifecycle_store.py:17-34 | The state of a readable issue is determined by its last transition, and only an issue without history is not started. |
| `Lifecycle.UnfinishedCanEnd` | repo_workflow/lifecycle_store.py:17-34 | Nothing moves a completed issue; from every other state legal transitions lead to abortion and to completion. |
| `Lifecycle.HistoryIsNamed` | repo_workflow/lifecycle_store.py:82-144 | A readable issue has no negative relation revision and no blank candidate, and names a candidate for every review, acceptance and completion of the current schema. |
| `Lifecycle.OldRecordsRead` | repo_workflow/lifecycle_store.py:82-144 | Records of the first two schemas are still read: untouched ones as not started, and work accepted without a review as accepted. |
| `Lifecycle.LifecycleStore.Read` | repo_workflow/lifecycle_store.py:172-196 | A missing record reads as a new issue unless it ever existed; a stored one must be readable and carry the issue's number. |
| `Lifecycle.LifecycleStore.Apply` | repo_workflow/lifecycle_store.py:198-261 | A transition is written exactly when the record is readable, the expected revision is current and the transition is legal; the new record is the issue with the given relation and one more event, and reads back as it was written. |
| `Lifecycle.LifecycleStore.SetAliases` | repo_workflow/lifecycle_store.py:263-302 | New aliases are written exactly when the record is readable, the expected revision is current and the names are valid; state and history stay, and the new record reads back. |

## Left out

- Git, subprocesses, the network, JSON and shell quoting: markers are word lists (or
  unreadable), records are values, files are atomic cells.
- Object identity of sibling groups: a group is an index, so a duplicate group object in
  one graph cannot be expressed.
- The order of groups, lanes and items that comes from sorting label texts: results hold
  for every order. The order of group texts is any numbering of the groups.
- Colours, text widths, box glyphs, help text and diagnostics. The column formatter is
  any function from the nodes of a column to a width.
- BoundaryTracks.OrderBoundary: breaks ties between orders of equal drawing quality
  arbitrarily, where the program compares the items.
- GroupOrder.AnchorOrder: computes mean rows exactly, where the program rounds.
- The records of hidden continuations of long routes, and the final bounding box.
- The directed drawing of shared cells as box characters.
- Python's recursion limit in the recursive cycle checks.
- Merge commits on CMD branches: every commit has at most one parent. Both scans refuse
  merges.
- The width of object names (40 or 64 digits), file modes of markers, and a result path
  occupied by a directory.
- How a retry finds its source identity in the history: the model admits any source that
  the scan accepts.
- The hosted runner's command execution and the publication of ordinary branches and
  tags.
- Deletion of CMD branches: the model assumes nobody deletes or rewrites one.
- Lock time-outs and waiting: a lock is acquired or the call fails. A crash leaves the
  coordinator lock behind until somebody removes it.
- Serializability of transactions: the coordinator holds no lock between validation and
  the committing write, and nothing of the kind is claimed.
- The payload of records beyond the transaction and lifecycle fields, and key syntax.
- Corruption of the evidence journal, and changes to the log by others while an
  isolation runs outside the protected operation. The two parent directories of the log
  are one in the model.
- Grammar providers that depend on the context, custom completion handlers, the
  synthetic placeholders, and the validation of grammar definitions: quantifiers have a
  maximum no smaller than their minimum, and dynamic entries are merged beforehand.
  Definitions enforce that switches start with two dashes and static keys do not; for
  values, literals and provided tokens the dash convention is an assumption.
- Configuration and policy validators, provider synchronisation and legacy projection of
  relationships.

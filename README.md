# Flowchart editor core, modelled in Dafny

This project models the logic of a React flowchart editor. A chart is a list
of typed nodes (`start`, `end`, `forloop`, or any other type) and a list of
directed edges between node ids. The editor keeps the chart being edited in
a context store. On request the chart is checked by a validator, which
returns a verdict and a list of issues.

Three parts of the program are modelled:

- **The full validator**, `validateFlowchart` in
  `src/utils/flowchartValidations.ts`.
  - Charts with a `forloop` node get a reduced rule set.
  - An empty chart is refused.
  - Otherwise the validator checks, in order: the number of start nodes, that
    an end node is present, unconnected nodes, edges into the start node,
    edges out of end nodes, non-end nodes without outgoing edges (warnings),
    and, by depth-first search, a cycle reachable from the single start node.
  - `Validations.ValidateFlowchart` follows the source step by step.
    It is proved against `Validations.Conforms`, a specification built from
    one pure function per check. Lemmas in `ValidationProperties` then state
    what the report means.
  - The central result is `ValidationProperties.ValidIffWellFormed`: a chart
    without a `forloop` node is valid exactly when it is structurally sound
    and no cycle can be reached from its start node.
- **The store**, `FlowchartProvider` in `src/contexts/FlowchartContext.tsx`.
  - It is modelled as the class `FlowchartContext.FlowchartStore`. Its four
    fields are the four React state cells: the current chart, the saved
    charts, the nodes and the edges.
  - Each updater is a method whose `ensures` gives the whole new state.
  - The saved list is changed through pure functions (`Upsert`,
    `RemoveById`, `FindById`). `StoreProperties` proves laws about them:
    find-after-save, idempotent save, delete-after-save.
  - The store has an older validator of its own that stops at the first
    failing check. It is modelled faithfully, including its cycle search,
    which skips nodes it has already visited.
  - `ValidatorAgreement.LegacyAcceptsIffNoErrors` proves that, without a
    `forloop` node, the store's validator accepts exactly the charts on which
    the full validator reports only warnings.
- **The editor callbacks** `onConnect` and `onDrop` in
  `src/components/FlowchartEditor.tsx`. Each builds one edge or one node and
  appends it to the store.

`nanoid()`, `Date.now()` and the answer to the name prompt cannot be modelled
as computations, so they are parameters: `freshId`, `createdAt`/`updatedAt`/`now`,
and `answer`.

Modules and files:

- `graph.dfy`: `Wrappers`, `Text` and `Graph` (entities, filters, walks, cycles, and the rank argument used in the proofs).
- `validations.dfy`: `Validations`.
- `validation_properties.dfy`: `ValidationProperties`.
- `flowchart_context.dfy`: `FlowchartContext`.
- `store_properties.dfy`: `StoreProperties`.
- `validator_agreement.dfy`: `ValidatorAgreement`.
- `flowchart_editor.dfy`: `FlowchartEditor`.

### Where the code and its documentation disagree (the model follows the code)

- **Warnings make a chart invalid.** The full validator sets
  `valid: issues.length === 0`, so a dead-end warning alone makes the chart
  invalid (`ValidationProperties.ValidIffNoIssues`).
- **Empty-chart message.** An empty chart is reported with the message
  "Flowchart is empty" and the single issue "Flowchart has no nodes".
- **The `!hasForLoop` cycle guard.** This test at line 122 always holds when
  it is reached, because every chart with a `forloop` node has already
  returned at line 38. `Validations.CheckCycle` therefore tests only the
  start count.
- **A node without a `type`.** Its type is modelled as a string that matches
  none of the special kinds.

## Model

| member | source | states |
|---|---|---|
| Graph.NodesOfKind | src/utils/flowchartValidations.ts:50 | membership: a node is in `nodes.filter(n => n.type === kind)` exactly when it is in the chart with that kind; the result is empty exactly when no node has that kind (order and repetitions: NodesOfKindAppend) |
| Graph.NodesNotOfKind | src/utils/flowchartValidations.ts:108 | membership: a node is kept exactly when its kind differs (the non-end nodes checked for dead ends); order and repetitions: NodesNotOfKindAppend |
| Graph.NodesNotIn | src/utils/flowchartValidations.ts:72-74 | membership: a node is kept exactly when its id is not among the connected ids; order and repetitions: NodesNotInAppend |
| Graph.EdgesFrom | src/utils/flowchartValidations.ts:97 | membership: an edge is kept exactly when it leaves the given node; order and repetitions: EdgesFromAppend |
| Graph.EdgesInto | src/utils/flowchartValidations.ts:85 | membership: an edge is kept exactly when it enters the given node; order and repetitions: EdgesIntoAppend |
| Graph.NodesOfKindAppend | src/utils/flowchartValidations.ts:50 | the filter of a concatenation is the concatenation of the filters, and one node is kept exactly when it has the kind: so the start and end nodes come in chart order, repetitions included, as `filter` gives them |
| Graph.NodesNotOfKindAppend | src/utils/flowchartValidations.ts:108 | the same law for the non-end filter: the dead-end loop visits the non-end nodes in chart order |
| Graph.NodesNotInAppend | src/utils/flowchartValidations.ts:72-74 | the same law for the unconnected filter: the unconnected error lists its node ids in chart order |
| Graph.EdgesFromAppend | src/utils/flowchartValidations.ts:97 | the same law for the outgoing-edge filter: the end-outgoing error lists its edge ids in edge order |
| Graph.EdgesIntoAppend | src/utils/flowchartValidations.ts:85 | the same law for the incoming-edge filter: the start-incoming error lists its edge ids in edge order |
| Graph.NodeIds | src/utils/flowchartValidations.ts:79 | the ids of the nodes, position by position |
| Graph.EdgeIds | src/utils/flowchartValidations.ts:91 | the ids of the edges, position by position |
| Graph.EdgeTargets | src/utils/flowchartValidations.ts:141 | the targets of the edges, position by position (the cycle's `involvedNodes`) |
| Graph.ConnectedIds | src/utils/flowchartValidations.ts:67-71 | an id is connected exactly when some edge starts or ends at it |
| Graph.CollectConnectedIds | src/utils/flowchartValidations.ts:67-71 | the loop that adds each edge's source and target collects exactly the connected ids |
| Graph.SearchUniverse | src/utils/flowchartValidations.ts:128-153 | the finite set of ids the search can visit: the start and every edge target |
| Graph.RevisitingWalkHasClosedPart | src/utils/flowchartValidations.ts:121-165 | a walk from the start that revisits one of its own nodes contains a closed walk reachable from the start |
| Graph.ClosedPartGivesRevisitingWalk | src/utils/flowchartValidations.ts:121-165 | a reachable closed walk yields a walk from the start that revisits a node (the converse) |
| Graph.CycleReachableIsClosedWalk | src/utils/flowchartValidations.ts:121-165 | "a cycle is reachable" has two equivalent readings: a revisiting walk, or a reachable closed walk |
| Graph.ReportedCycleIsReachable | src/utils/flowchartValidations.ts:135-146 | the edges collected while the search unwinds from a back edge form a cycle reachable from the start (soundness) |
| Graph.RankFallsAlongWalk | src/utils/flowchartValidations.ts:128-153 | under the finish-time ranking of a completed search, rank strictly falls along every walk |
| Graph.RankedStartHasNoCycle | src/utils/flowchartValidations.ts:128-153 | a start node finished without a back edge reaches no cycle (completeness) |
| Graph.ExtendReport | src/utils/flowchartValidations.ts:139-142 | pushing the current tree edge onto a reported cycle while returning keeps it a well-formed report: the current node joins the path once, and it was not on the stack below it |
| Graph.FinishKeepsRanked | src/utils/flowchartValidations.ts:150-151 | finishing a node whose successors are all finished keeps the ranking consistent |
| Text.NatToString | src/components/FlowchartEditor.tsx:85 | decimal rendering of `Date.now()` and counts: a non-empty string of digits whose decimal value is the number, with a leading zero only for zero |
| Text.NatToStringInjective | src/components/FlowchartEditor.tsx:85 | different numbers are rendered differently, so distinct timestamps give distinct ids |
| Validations.Summarize | src/utils/flowchartValidations.ts:167-171 | valid exactly when no issue was pushed; the message is "Flowchart is valid" or "Flowchart has issues" to match |
| Validations.LoopIssues | src/utils/flowchartValidations.ts:19-39 | the forloop rule set reports at most the two errors "missing start" and "missing end", each exactly when that kind is absent |
| Validations.StartCardinalityIssues | src/utils/flowchartValidations.ts:50-59 | no issue exactly when there is one start node; the "missing start" error alone for none; for more than one, the "multiple start" error alone, listing the start nodes' ids |
| Validations.EndPresenceIssues | src/utils/flowchartValidations.ts:61-64 | no issue exactly when an end node exists; otherwise only "missing end" |
| Validations.UnconnectedIssues | src/utils/flowchartValidations.ts:66-81 | at most one issue, present exactly when some node is touched by no edge, naming those nodes and their count |
| Validations.StartIncomingIssues | src/utils/flowchartValidations.ts:83-94 | with one start node, at most one issue, present exactly when some edge enters the start, naming those edges |
| Validations.CycleSearch.constructor | src/utils/flowchartValidations.ts:123-126 | the search starts with empty visited set, recursion stack and cycle lists |
| Validations.CycleSearch.FindCycle | src/utils/flowchartValidations.ts:128-153 | `findCycle`: on true the collected edges form a reported cycle through the stack; on false the node is finished with a consistent ranking and the visited set only grew |
| Validations.CycleSearch.Explore | src/utils/flowchartValidations.ts:133-147 | one round of the loop over outgoing edges: a back edge or a recursive hit reports a cycle, otherwise the target ends up finished |
| Validations.DetectCycle | src/utils/flowchartValidations.ts:121-165 | the search finds edges exactly when a cycle is reachable from the start; the edges it reports are an edge closing the cycle followed by a path of edges back to the start, each path node once as a source and none of them repeated, with the targets as `involvedNodes`; which such cycle is reported is not fixed |
| Validations.CheckStartCount | src/utils/flowchartValidations.ts:50-59 | the start-count block pushes exactly its specification's issues |
| Validations.CheckEndPresence | src/utils/flowchartValidations.ts:61-64 | the end-presence block appends exactly its specification's issues |
| Validations.CheckUnconnected | src/utils/flowchartValidations.ts:66-81 | the unconnected block appends exactly its specification's issues |
| Validations.CheckStartIncoming | src/utils/flowchartValidations.ts:83-94 | the start-incoming block appends exactly its specification's issues |
| Validations.EndOutgoingStep | src/utils/flowchartValidations.ts:96-106 | one more end node adds exactly what that node pushes |
| Validations.DeadEndStep | src/utils/flowchartValidations.ts:108-118 | one more non-end node adds exactly what that node pushes |
| Validations.CheckEndNodes | src/utils/flowchartValidations.ts:96-106 | the loop over end nodes appends one error per end node with outgoing edges, in node order |
| Validations.CheckDeadEnds | src/utils/flowchartValidations.ts:108-118 | the loop over non-end nodes appends one warning per node with no outgoing edge, in node order |
| Validations.CheckCycle | src/utils/flowchartValidations.ts:121-165 | keeps the earlier issues and appends a cycle report that is empty unless one start node reaches a cycle |
| Validations.ValidateFlowchart | src/utils/flowchartValidations.ts:16-172 | the whole validator conforms to its specification: forloop rules, empty chart, then the seven checks in source order |
| ValidationProperties.EndOutgoingMembers | src/utils/flowchartValidations.ts:96-106 | an issue is in the end-outgoing list exactly when it is the error for some end node with outgoing edges |
| ValidationProperties.DeadEndMembers | src/utils/flowchartValidations.ts:108-118 | an issue is in the dead-end list exactly when it is the warning for some node with no outgoing edge |
| ValidationProperties.UnconnectedMessageIsDistinct | src/utils/flowchartValidations.ts:75-81 | the "N unconnected node(s) detected" message differs from every fixed message |
| ValidationProperties.FixedKinds | src/utils/flowchartValidations.ts:50-165 | each fixed error message is attributed to the check that pushes it |
| ValidationProperties.PieceKinds | src/utils/flowchartValidations.ts:50-118 | every issue of each structural check is attributed to that check |
| ValidationProperties.StartCountKinds | src/utils/flowchartValidations.ts:50-59 | the start-count check's issue is attributed to that check |
| ValidationProperties.EndPresenceKinds | src/utils/flowchartValidations.ts:61-64 | the end-presence check's issue is attributed to that check |
| ValidationProperties.UnconnectedKinds | src/utils/flowchartValidations.ts:66-81 | the unconnected-nodes issue is attributed to that check |
| ValidationProperties.StartIncomingKinds | src/utils/flowchartValidations.ts:83-94 | the start-incoming issue is attributed to that check |
| ValidationProperties.EndOutgoingKinds | src/utils/flowchartValidations.ts:96-106 | every issue of the end-node loop is attributed to that check |
| ValidationProperties.DeadEndKinds | src/utils/flowchartValidations.ts:108-118 | every issue of the non-end loop is a dead-end warning |
| ValidationProperties.SplitIssues | src/utils/flowchartValidations.ts:42-165 | without forloop nodes on a non-empty chart, the issues are the structural issues followed by the cycle report |
| ValidationProperties.CycleKinds | src/utils/flowchartValidations.ts:155-163 | every issue of the cycle report is attributed to the cycle check |
| ValidationProperties.StructuralByKind | src/utils/flowchartValidations.ts:50-165 | concatenating the attributed pieces keeps each issue's attribution |
| ValidationProperties.IssuesByKind | src/utils/flowchartValidations.ts:50-165 | the issues of each kind are exactly those pushed by the corresponding check |
| ValidationProperties.KindByMessage | src/utils/flowchartValidations.ts:50-165 | an issue's check is recoverable from its severity and message; warnings are exactly the dead-end issues |
| ValidationProperties.ValidIffNoIssues | src/utils/flowchartValidations.ts:167-171 | valid exactly when the issue list is empty, so warnings also invalidate |
| ValidationProperties.EmptyChart | src/utils/flowchartValidations.ts:42-48 | an empty chart is invalid with "Flowchart is empty" and the single issue "Flowchart has no nodes" |
| ValidationProperties.ForLoopChart | src/utils/flowchartValidations.ts:19-39 | with a forloop node, only the missing-start and missing-end errors can occur, and the chart is valid exactly when both kinds are present |
| ValidationProperties.StartCountReport | src/utils/flowchartValidations.ts:50-59 | a start-count error is reported exactly when the number of start nodes is not one |
| ValidationProperties.UnconnectedReport | src/utils/flowchartValidations.ts:66-81 | an unconnected issue is reported exactly when some node is touched by no edge, and it lists only such nodes |
| ValidationProperties.StartIncomingReport | src/utils/flowchartValidations.ts:83-94 | the start-incoming error is reported exactly when one start node exists and some edge enters it |
| ValidationProperties.EndOutgoingReport | src/utils/flowchartValidations.ts:96-106 | every end node with outgoing edges gets the error, and each such error names one |
| ValidationProperties.DeadEndReport | src/utils/flowchartValidations.ts:108-118 | warnings are exactly the dead-end issues, one for each non-end node with no outgoing edge |
| ValidationProperties.WarningsFromLastPiece | src/utils/flowchartValidations.ts:50-165 | in a report made of the checks' pieces, where every other piece is attributed to an error check, warnings come only from the dead-end piece, and all of that piece is in the report |
| ValidationProperties.CycleReportShape | src/utils/flowchartValidations.ts:121-165 | the cycle report has at most one issue, present exactly when one start node reaches a cycle, and carries the cycle's edges |
| ValidationProperties.CycleSearchReport | src/utils/flowchartValidations.ts:121-165 | in the whole report, a cycle error appears exactly when one start node reaches a cycle, and it is the last issue, built from a reported back path |
| ValidationProperties.CycleIssueIsLast | src/utils/flowchartValidations.ts:155-163 | a report ending in a piece of at most one cycle issue has a cycle issue exactly when that piece is non-empty, and then it is the last issue |
| ValidationProperties.NoEndOutgoing | src/utils/flowchartValidations.ts:96-106 | the end-outgoing list is empty exactly when no end node has an outgoing edge |
| ValidationProperties.NoDeadEnd | src/utils/flowchartValidations.ts:108-118 | the dead-end list is empty exactly when every non-end node has an outgoing edge |
| ValidationProperties.NoStructuralIssues | src/utils/flowchartValidations.ts:50-118 | no structural issue exactly when the chart is structurally sound |
| ValidationProperties.EmptyConcat | src/utils/flowchartValidations.ts:50-118 | the structural issues are empty exactly when each check pushed nothing |
| ValidationProperties.ValidIffWellFormed | src/utils/flowchartValidations.ts:16-172 | without forloop nodes, valid exactly when structurally sound and no cycle is reachable from the start (the empty chart is neither) |
| FlowchartContext.MarkModified | src/contexts/FlowchartContext.tsx:78-81 | a current chart, if any, gets `modified: true` and nothing else changes |
| FlowchartContext.WithNodeData | src/contexts/FlowchartContext.tsx:95-102 | only the nodes with the id get the new data; ids, types and positions are kept |
| FlowchartContext.WithEdgeData | src/contexts/FlowchartContext.tsx:112-123 | only the edges with the id get the new data and animation flag; endpoints are kept |
| FlowchartContext.EmptyFlowchart | src/contexts/FlowchartContext.tsx:134-141 | a new chart is "Untitled Flowchart" with no nodes or edges and the given id and timestamps |
| FlowchartContext.SaveName | src/contexts/FlowchartContext.tsx:152-161 | the name changes only for an untitled chart, and then to a non-empty answer |
| FlowchartContext.FindById | src/contexts/FlowchartContext.tsx:200 | no result exactly when no saved chart has the id; otherwise a saved chart with that id |
| FlowchartContext.ReplaceById | src/contexts/FlowchartContext.tsx:177-179 | saved charts with the id are replaced, the others kept in place |
| FlowchartContext.Upsert | src/contexts/FlowchartContext.tsx:177-184 | replaces a chart with the same id, or appends the chart when there is none |
| FlowchartContext.RemoveById | src/contexts/FlowchartContext.tsx:241-243 | keeps exactly the saved charts with another id |
| FlowchartContext.LegacyOutcome | src/contexts/FlowchartContext.tsx:251-347 | the chain of early returns: valid exactly when there are nodes, one start, some end, no loose node, no edge into the start, no end with outgoing edges and no cycle; the message is "Flowchart is valid" exactly then; otherwise the first failing check, in source order, decides the message: empty chart, missing start, several starts, missing end, "N unconnected node(s) detected" with the count, edge into the start, end with outgoing edges, cycle |
| FlowchartContext.LegacyCycleSearch.constructor | src/contexts/FlowchartContext.tsx:320-321 | the store's search starts with empty visited set and recursion stack |
| FlowchartContext.LegacyCycleSearch.HasCycle | src/contexts/FlowchartContext.tsx:323-339 | `hasCycle`: an already visited node only leaves the stack; otherwise true means a reported cycle and false a finished node |
| FlowchartContext.LegacyCycleSearch.Step | src/contexts/FlowchartContext.tsx:329-335 | one round over an outgoing edge: a back edge or a recursive hit reports a cycle, otherwise the target ends up finished |
| FlowchartContext.DetectLegacyCycle | src/contexts/FlowchartContext.tsx:319-343 | the store's search answers true exactly when a cycle is reachable from the start |
| FlowchartContext.AnyEndHasOutgoing | src/contexts/FlowchartContext.tsx:307-317 | the loop over end nodes finds one with an outgoing edge exactly when there is one |
| FlowchartContext.FlowchartStore.constructor | src/contexts/FlowchartContext.tsx:55-60 | the store starts with no current chart, nothing saved, no nodes and no edges |
| FlowchartContext.FlowchartStore.SetNodes | src/contexts/FlowchartContext.tsx:361 | the raw setter replaces the nodes and nothing else |
| FlowchartContext.FlowchartStore.SetEdges | src/contexts/FlowchartContext.tsx:362 | the raw setter replaces the edges and nothing else |
| FlowchartContext.FlowchartStore.UpdateNodes | src/contexts/FlowchartContext.tsx:76-82 | replaces the nodes and marks the current chart modified |
| FlowchartContext.FlowchartStore.UpdateEdges | src/contexts/FlowchartContext.tsx:85-91 | replaces the edges and marks the current chart modified |
| FlowchartContext.FlowchartStore.UpdateNodeData | src/contexts/FlowchartContext.tsx:94-107 | updates the matching nodes' data and marks the current chart modified |
| FlowchartContext.FlowchartStore.UpdateEdgeData | src/contexts/FlowchartContext.tsx:110-130 | updates the matching edges' data and animation and marks the current chart modified |
| FlowchartContext.FlowchartStore.NewFlowchart | src/contexts/FlowchartContext.tsx:133-145 | the current chart becomes a fresh empty one and the canvas is cleared; saved charts are kept |
| FlowchartContext.FlowchartStore.EnsureCurrent | src/contexts/FlowchartContext.tsx:350-354 | on mount, a fresh chart is created only when there is no current one |
| FlowchartContext.FlowchartStore.SaveFlowchart | src/contexts/FlowchartContext.tsx:148-188 | without a current chart nothing changes; otherwise the canvas is stored in it, renamed if untitled, stamped, unmodified, and upserted into the saved list |
| FlowchartContext.FlowchartStore.LoadFlowchart | src/contexts/FlowchartContext.tsx:191-195 | the given chart becomes current, unmodified, and its nodes and edges go on the canvas |
| FlowchartContext.FlowchartStore.LoadSavedFlowchart | src/contexts/FlowchartContext.tsx:198-206 | an unknown id changes nothing; a known one loads the first saved chart with it |
| FlowchartContext.FlowchartStore.DeleteFlowchart | src/contexts/FlowchartContext.tsx:233-248 | removes the saved charts with the id; deleting the current chart replaces it with a fresh one |
| FlowchartContext.FlowchartStore.ValidateFlowchart | src/contexts/FlowchartContext.tsx:251-347 | the store's validator returns the verdict of the first failing check, in source order |
| StoreProperties.MarkModifiedIdempotent | src/contexts/FlowchartContext.tsx:78-81 | marking twice is marking once |
| StoreProperties.UnknownNodeIdKeepsNodes | src/contexts/FlowchartContext.tsx:95-102 | a node update for an unknown id changes no node |
| StoreProperties.NodeDataKeepsIds | src/contexts/FlowchartContext.tsx:95-102 | a node update keeps the list of node ids |
| StoreProperties.NodeDataIdempotent | src/contexts/FlowchartContext.tsx:95-102 | the same node update applied twice acts once |
| StoreProperties.UnknownEdgeIdKeepsEdges | src/contexts/FlowchartContext.tsx:112-123 | an edge update for an unknown id changes no edge |
| StoreProperties.EdgeDataKeepsGraph | src/contexts/FlowchartContext.tsx:112-123 | an edge update keeps every edge's id and endpoints, so the validators see the same graph |
| StoreProperties.FindAfterUpsert | src/contexts/FlowchartContext.tsx:177-184 | after saving a chart, looking up its id finds that chart |
| StoreProperties.UpsertContains | src/contexts/FlowchartContext.tsx:177-184 | the saved list holds the chart just saved |
| StoreProperties.UpsertKeepsOthers | src/contexts/FlowchartContext.tsx:177-184 | saving keeps every chart with another id, adds only the saved one, and grows the list only for a new id |
| StoreProperties.UpsertIdempotent | src/contexts/FlowchartContext.tsx:177-184 | saving the same chart twice is saving it once |
| StoreProperties.RemoveUnknownKeeps | src/contexts/FlowchartContext.tsx:241-243 | deleting an unknown id keeps the saved list |
| StoreProperties.RemoveAfterReplace | src/contexts/FlowchartContext.tsx:177-179 | deleting after replacing under the same id is deleting without replacing |
| StoreProperties.RemoveAfterUpsert | src/contexts/FlowchartContext.tsx:177-184 | deleting a chart just saved leaves the list as deleting without saving would |
| StoreProperties.RemoveAppend | src/contexts/FlowchartContext.tsx:241-243 | deleting distributes over an appended chart |
| ValidatorAgreement.LegacyValidIff | src/contexts/FlowchartContext.tsx:251-347 | the store's validator says valid exactly when every one of its checks passes |
| ValidatorAgreement.NoLooseIff | src/contexts/FlowchartContext.tsx:274-292 | the unconnected-node filter is empty exactly when every node is touched by an edge |
| ValidatorAgreement.NoIncomingIff | src/contexts/FlowchartContext.tsx:295-304 | the filter of edges into the start node is empty exactly when no edge targets it |
| ValidatorAgreement.SomeEndIff | src/contexts/FlowchartContext.tsx:307-317 | the end-node loop finds an outgoing edge exactly when some end node of the chart has one |
| ValidatorAgreement.OnlyWarningsIff | src/utils/flowchartValidations.ts:50-165 | the full report holds only warnings exactly when every error-producing check pushed nothing |
| ValidatorAgreement.OnlyDeadEndsIff | src/utils/flowchartValidations.ts:50-165 | in an issue list made of pieces each attributed to one check, where the warnings are exactly the dead-end issues, all issues are warnings exactly when every piece other than the dead-end one is empty |
| ValidatorAgreement.LegacyAcceptsIffNoErrors | src/contexts/FlowchartContext.tsx:251-347 | without forloop nodes, the store's validator accepts exactly the charts on which the full validator reports no error |
| FlowchartEditor.ConnectionEdge | src/components/FlowchartEditor.tsx:84-93 | the new edge runs from the connection's source to its target, keeps its handles, has type "custom", is not animated and gets the id `e<source>-<target>-<now>` |
| FlowchartEditor.UpperChar | src/components/FlowchartEditor.tsx:157 | maps lower-case ASCII letters to upper case and keeps every other character |
| FlowchartEditor.Capitalize | src/components/FlowchartEditor.tsx:157 | same length; the first character is upper-cased and the rest is kept |
| FlowchartEditor.NewNodeLabel | src/components/FlowchartEditor.tsx:157 | the label is "New " followed by the capitalised type |
| FlowchartEditor.DroppedNode | src/components/FlowchartEditor.tsx:152-159 | the new node has the dropped type, the drop position, the id `<type>_<now>` and the "New …" label |
| FlowchartEditor.OnConnect | src/components/FlowchartEditor.tsx:78-98 | without both ends nothing changes; otherwise the connection's edge is appended and the chart marked modified |
| FlowchartEditor.OnDrop | src/components/FlowchartEditor.tsx:134-164 | with an empty type or no renderer bounds nothing changes; otherwise exactly the dropped node is appended, through the setter that does not mark the chart modified |
| FlowchartEditor.CapitalizeIdempotent | src/components/FlowchartEditor.tsx:157 | capitalising twice is capitalising once |
| FlowchartEditor.ConnectingTouches | src/components/FlowchartEditor.tsx:95 | after a connection both its ends count as connected, and so does every node that already was |
| FlowchartEditor.SelfLoopMakesCycle | src/components/FlowchartEditor.tsx:82-95 | a connection from a node to itself is accepted and makes a cycle reachable from that node |
| FlowchartEditor.DropAddsOfKind | src/components/FlowchartEditor.tsx:152-161 | after a drop a node of the dropped type exists, and the nodes of that type are the old ones, in order, followed by the new node |

## Left out

- Persistence to `localStorage` (the JSON encoding, and reading the saved list on mount) is I/O. The saved list is the field `savedFlowcharts`.
- `exportFlowchart` creates a file download, which is browser I/O.
- `onNodesChange`/`onEdgesChange` pass change objects to React Flow's `applyNodeChanges`/`applyEdgeChanges`, a library that is not part of this model. The result is modelled as the new list given to `UpdateNodes`/`UpdateEdges`.
- React's functional `setState(prev => …)` updaters are modelled as a direct read of the current field, because the model has no concurrent rendering.
- `onDrop`'s `project` call, which converts screen coordinates to canvas coordinates, belongs to React Flow. The projected position is a parameter.
- Position: coordinates are integers, while React Flow's projected drop coordinates are floating-point numbers. Nothing in the model computes with them.
- `onDragOver` and the remaining UI components only render and forward events.
- `console.log(hasForLoop)` is output only.
- `findCycle`'s `path` and `nodeIdsInPath` arguments are copied and extended on every call but never reach the result, so they are not modelled.
- DetectCycle: the contract does not fix which cycle is reported. The search returns the first cycle it meets, taking outgoing edges in edge-array order. The contract only promises an edge closing a cycle followed by a path back to the start, with each path node once. With edges s→a, a→a, s→b, b→b, both self-loop reports satisfy it. The same holds for `CycleReport`, `FindCycle` and `CycleSearchReport`.
- `nanoid()`, `Date.now()` and `window.prompt` are parameters (`freshId`, `createdAt`/`updatedAt`/`now`, `answer`).
- FlowchartEditor.UpperChar: maps ASCII letters only. JavaScript's `toUpperCase` also maps other Unicode letters, and those are not modelled. It can also turn one character into several ("ß" becomes "SS"), so `Capitalize`'s `|r| == |s|` holds only for this one-character mapping.
- Data: a node's or edge's `data` is a label string and a map from keys to strings. A missing `label` (which the dead-end message would print as `undefined`), non-string data values, and React Flow's other node and edge fields, which `{ ...node, data }` keeps, are not modelled. An edge's `animated` flag is a plain boolean, while React Flow's is optional, so an edge without the flag is not distinguished from one with `animated: false`.
- NodesOfKind: its own ensures states membership and emptiness only. Order and repetitions are stated by NodesOfKindAppend, which keeps the function's contract small for the proofs that unfold it.
- NodesNotOfKind: its own ensures states membership only. Order and repetitions are stated by NodesNotOfKindAppend.
- NodesNotIn: its own ensures states membership only. Order and repetitions are stated by NodesNotInAppend.
- EdgesFrom: its own ensures states membership only. Order and repetitions are stated by EdgesFromAppend.
- EdgesInto: its own ensures states membership only. Order and repetitions are stated by EdgesIntoAppend.
- Text.NatToString: the model has no formatting for negative or non-integer timestamps, because `Date.now()` is a non-negative integer.

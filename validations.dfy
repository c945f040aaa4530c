/**
 * The structural validator of src/utils/flowchartValidations.ts: a function
 * from the live nodes and edges to `{valid, message, issues}` that collects
 * an ordered list of error and warning issues, with a reduced rule set as
 * soon as a `forloop` node is present and a depth-first cycle search from
 * the start node.
 */
module Validations {
  import opened Wrappers
  import opened Text
  import opened Graph

  datatype Severity = Error | Warning

  /** `ValidationIssue`; the optional `nodeIds`/`edgeIds` keys are `Option`s. */
  datatype Issue = Issue(
    severity: Severity,
    message: string,
    nodeIds: Option<seq<string>>,
    edgeIds: Option<seq<string>>)

  /** `ValidationResult` as `validateFlowchart` returns it (always with `issues`). */
  datatype ValidationResult = ValidationResult(valid: bool, message: string, issues: seq<Issue>)

  const ValidMessage := "Flowchart is valid"
  const IssuesMessage := "Flowchart has issues"
  const EmptyMessage := "Flowchart is empty"
  const NoNodesMessage := "Flowchart has no nodes"
  const MissingStartMessage := "Missing start node"
  const MultipleStartMessage := "Multiple start nodes detected"
  const MissingEndMessage := "Missing end node"
  const UnconnectedSuffix := " unconnected node(s) detected"
  const StartIncomingMessage := "Start node should not have incoming connections"
  const EndOutgoingMessage := "End node has outgoing connections"
  const CycleMessage := "Cycle detected in the flowchart"

  const MissingStart := Issue(Error, MissingStartMessage, None, None)
  const MissingEnd := Issue(Error, MissingEndMessage, None, None)
  const NoNodes := Issue(Error, NoNodesMessage, None, None)

  /** The result for a chart without nodes (and without a `forloop` node). */
  const EmptyResult := ValidationResult(false, EmptyMessage, [NoNodes])

  /** The result object assembled from the collected issues. */
  function Summarize(issues: seq<Issue>): (r: ValidationResult)
    ensures r.issues == issues
    ensures r.valid <==> issues == []
    ensures r.message == (if r.valid then ValidMessage else IssuesMessage)
  {
    ValidationResult(|issues| == 0, if |issues| == 0 then ValidMessage else IssuesMessage, issues)
  }

  // ---------------------------------------------------------------------
  // The checks, one function per block of the source, in source order
  // ---------------------------------------------------------------------

  /** The `forloop` fast path: only the presence of start and end nodes is checked. */
  function LoopIssues(nodes: seq<Node>): (r: seq<Issue>)
    ensures |r| <= 2
    ensures forall i :: 0 <= i < |r| ==> r[i] == MissingStart || r[i] == MissingEnd
    ensures MissingStart in r <==> !HasKind(nodes, StartKind)
    ensures MissingEnd in r <==> !HasKind(nodes, EndKind)
  {
    (if |NodesOfKind(nodes, StartKind)| == 0 then [MissingStart] else [])
    + (if |NodesOfKind(nodes, EndKind)| == 0 then [MissingEnd] else [])
  }

  function MultipleStart(starts: seq<Node>): Issue
  {
    Issue(Error, MultipleStartMessage, Some(NodeIds(starts)), None)
  }

  /** Exactly one start node is required. */
  function StartCardinalityIssues(nodes: seq<Node>): (r: seq<Issue>)
    ensures |r| <= 1
    ensures r == [] <==> |NodesOfKind(nodes, StartKind)| == 1
    ensures forall i :: 0 <= i < |r| ==>
      r[i].severity == Error && r[i].message in {MissingStartMessage, MultipleStartMessage}
    ensures |NodesOfKind(nodes, StartKind)| == 0 ==> r == [MissingStart]
    ensures |NodesOfKind(nodes, StartKind)| > 1 ==> r == [MultipleStart(NodesOfKind(nodes, StartKind))]
  {
    var starts := NodesOfKind(nodes, StartKind);
    if |starts| == 0 then [MissingStart]
    else if |starts| > 1 then [MultipleStart(starts)]
    else []
  }

  /** At least one end node is required. */
  function EndPresenceIssues(nodes: seq<Node>): (r: seq<Issue>)
    ensures r == [] <==> HasKind(nodes, EndKind)
    ensures forall i :: 0 <= i < |r| ==> r[i] == MissingEnd
  {
    if |NodesOfKind(nodes, EndKind)| == 0 then [MissingEnd] else []
  }

  /** The issue's message is the one of the unconnected-nodes error: it starts with a digit. */
  predicate IsUnconnectedIssue(i: Issue)
  {
    i.severity == Error && |i.message| > 0 && '0' <= i.message[0] <= '9'
  }

  /**
   * One error listing, in node order, every node that is neither a source nor
   * a target of an edge; its message carries their number.
   */
  function UnconnectedIssues(nodes: seq<Node>, edges: seq<Edge>): (r: seq<Issue>)
    ensures |r| <= 1
    ensures r != [] <==> exists n :: n in nodes && !Touched(edges, n.id)
    ensures forall i :: 0 <= i < |r| ==> IsUnconnectedIssue(r[i])
    ensures r != [] ==>
      && r[0].edgeIds == None && r[0].nodeIds.Some?
      && r[0].message == NatToString(|r[0].nodeIds.value|) + UnconnectedSuffix
      && (forall id :: id in r[0].nodeIds.value <==>
            exists n :: n in nodes && n.id == id && !Touched(edges, id))
  {
    var unconnected := NodesNotIn(nodes, ConnectedIds(edges));
    if |unconnected| > 0 then
      var ids := NodeIds(unconnected);
      assert forall id :: id in ids <==> exists n :: n in unconnected && n.id == id;
      assert unconnected[0] in unconnected;
      [Issue(Error, NatToString(|unconnected|) + UnconnectedSuffix, Some(ids), None)]
    else
      assert forall n :: n in nodes ==> n !in unconnected;
      []
  }

  function StartIncoming(startId: string, edges: seq<Edge>): Issue
  {
    Issue(Error, StartIncomingMessage, Some([startId]), Some(EdgeIds(EdgesInto(edges, startId))))
  }

  /** With exactly one start node, one error naming the edges that enter it. */
  function StartIncomingIssues(nodes: seq<Node>, edges: seq<Edge>): (r: seq<Issue>)
    ensures |r| <= 1
    ensures r != [] <==>
      var starts := NodesOfKind(nodes, StartKind);
      |starts| == 1 && exists e :: e in edges && e.target == starts[0].id
    ensures forall i :: 0 <= i < |r| ==> r[i] == StartIncoming(NodesOfKind(nodes, StartKind)[0].id, edges)
  {
    var starts := NodesOfKind(nodes, StartKind);
    if |starts| == 1 && |EdgesInto(edges, starts[0].id)| > 0 then
      assert EdgesInto(edges, starts[0].id)[0] in EdgesInto(edges, starts[0].id);
      [StartIncoming(starts[0].id, edges)]
    else
      assert |starts| == 1 ==> forall e :: e in edges && e.target == starts[0].id ==> e in EdgesInto(edges, starts[0].id);
      []
  }

  function EndOutgoing(n: Node, edges: seq<Edge>): Issue
  {
    Issue(Error, EndOutgoingMessage, Some([n.id]), Some(EdgeIds(EdgesFrom(edges, n.id))))
  }

  /** The error the loop over end nodes pushes for end node `n`, if any. */
  function EndOutgoingIssue(n: Node, edges: seq<Edge>): seq<Issue>
  {
    if |EdgesFrom(edges, n.id)| > 0 then [EndOutgoing(n, edges)] else []
  }

  /** What the loop over `ends` pushes, in order. */
  function EndOutgoingIssues(ends: seq<Node>, edges: seq<Edge>): (r: seq<Issue>)
  {
    if ends == [] then []
    else EndOutgoingIssues(ends[..|ends| - 1], edges) + EndOutgoingIssue(ends[|ends| - 1], edges)
  }

  function DeadEndMessage(text: string): string
  {
    "Node \"" + text + "\" has no outgoing connections"
  }

  function DeadEnd(n: Node): Issue
  {
    Issue(Warning, DeadEndMessage(n.data.labelText), Some([n.id]), None)
  }

  /** The warning the loop over non-end nodes pushes for `n`, if any. */
  function DeadEndIssue(n: Node, edges: seq<Edge>): seq<Issue>
  {
    if |EdgesFrom(edges, n.id)| == 0 then [DeadEnd(n)] else []
  }

  /** What the loop over `nonEnds` pushes, in order. */
  function DeadEndWarnings(nonEnds: seq<Node>, edges: seq<Edge>): (r: seq<Issue>)
  {
    if nonEnds == [] then []
    else DeadEndWarnings(nonEnds[..|nonEnds| - 1], edges) + DeadEndIssue(nonEnds[|nonEnds| - 1], edges)
  }

  /** Every issue the full rule set collects before the cycle search, in push order. */
  function StructuralIssues(nodes: seq<Node>, edges: seq<Edge>): seq<Issue>
  {
    StartCardinalityIssues(nodes)
    + EndPresenceIssues(nodes)
    + UnconnectedIssues(nodes, edges)
    + StartIncomingIssues(nodes, edges)
    + EndOutgoingIssues(NodesOfKind(nodes, EndKind), edges)
    + DeadEndWarnings(NodesNotOfKind(nodes, EndKind), edges)
  }

  /** The issue built from the edges a search reports, deepest first. */
  function CycleIssue(c: seq<Edge>): Issue
  {
    Issue(Error, CycleMessage, Some(EdgeTargets(c)), Some(EdgeIds(c)))
  }

  /**
   * What the cycle search contributes: nothing unless there is exactly one
   * start node; then one issue exactly when a cycle is reachable from it,
   * built from a back path the search reports.
   */
  ghost predicate CycleReport(nodes: seq<Node>, edges: seq<Edge>, cyc: seq<Issue>)
  {
    var starts := NodesOfKind(nodes, StartKind);
    if |starts| == 1 then
      && (cyc == [] <==> !CycleReachable(edges, starts[0].id))
      && (cyc != [] ==>
            |cyc| == 1 && exists c :: ReportsCycle(edges, c, starts[0].id, {}) && cyc[0] == CycleIssue(c))
    else
      cyc == []
  }

  /** `r` is a result `validateFlowchart(nodes, edges)` can return. */
  ghost predicate Conforms(nodes: seq<Node>, edges: seq<Edge>, r: ValidationResult)
  {
    if HasKind(nodes, ForLoopKind) then
      r == Summarize(LoopIssues(nodes))
    else if nodes == [] then
      r == EmptyResult
    else
      var s := StructuralIssues(nodes, edges);
      && r == Summarize(r.issues)
      && |s| <= |r.issues| && r.issues[..|s|] == s
      && CycleReport(nodes, edges, r.issues[|s|..])
  }

  // ---------------------------------------------------------------------
  // The depth-first cycle search (`findCycle`)
  // ---------------------------------------------------------------------

  /**
   * The state `findCycle` shares across its recursive calls. The ghost fields
   * record what the search knows: `rank` gives every finished node its
   * finishing time, and `cycle` holds the edges whose ids and targets were
   * pushed onto `cycleEdges` and `involvedNodes`.
   */
  class CycleSearch {
    const edges: seq<Edge>
    ghost const universe: set<string>
    var visited: set<string>
    var recursionStack: set<string>
    var cycleEdges: seq<string>
    var involvedNodes: seq<string>
    ghost var cycle: seq<Edge>
    ghost var rank: map<string, nat>
    ghost var clock: nat

    ghost predicate Valid()
      reads this
    {
      && visited == recursionStack + rank.Keys
      && recursionStack !! rank.Keys
      && visited <= universe
      && (forall e :: e in edges ==> e.target in universe)
      && (forall v :: v in rank ==> rank[v] < clock)
      && Ranked(edges, rank)
      && cycleEdges == EdgeIds(cycle)
      && involvedNodes == EdgeTargets(cycle)
    }

    constructor (edges: seq<Edge>, start: string)
      ensures Valid() && this.edges == edges && start in universe
      ensures visited == {} && recursionStack == {} && cycle == []
    {
      this.edges := edges;
      universe := SearchUniverse(edges, start);
      visited, recursionStack := {}, {};
      cycleEdges, involvedNodes := [], [];
      cycle, rank, clock := [], map[], 0;
    }

    /**
     * Visits `nodeId`. On `true` the edges pushed, deepest first, are a back
     * path from `nodeId` closed by an edge into the stack; on `false` the node
     * has finished and the stack is as it was.
     */
    method FindCycle(nodeId: string) returns (found: bool)
      requires Valid() && nodeId in universe && nodeId !in visited && cycle == []
      modifies this
      decreases universe - visited, 0
      ensures old(visited) <= visited
      ensures found ==> && ReportsCycle(edges, cycle, nodeId, old(recursionStack))
                        && cycleEdges == EdgeIds(cycle) && involvedNodes == EdgeTargets(cycle)
      ensures !found ==> && Valid() && nodeId in rank && old(rank).Keys <= rank.Keys
                         && recursionStack == old(recursionStack) && cycle == []
    {
      visited := visited + {nodeId};
      recursionStack := recursionStack + {nodeId};
      var outgoingEdges := EdgesFrom(edges, nodeId);
      for i := 0 to |outgoingEdges|
        invariant Valid()
        invariant old(visited) + {nodeId} <= visited
        invariant recursionStack == old(recursionStack) + {nodeId}
        invariant nodeId !in rank && old(rank).Keys <= rank.Keys
        invariant cycle == []
        invariant forall j :: 0 <= j < i ==> outgoingEdges[j].target in rank
      {
        found := Explore(nodeId, outgoingEdges[i]);
        if found {
          return true;
        }
      }
      FinishKeepsRanked(edges, rank, nodeId, clock, outgoingEdges);
      recursionStack := recursionStack - {nodeId};
      rank := rank[nodeId := clock];
      clock := clock + 1;
      return false;
    }

    /**
     * One round of the loop over the out-edges of `nodeId`, the node on top
     * of the stack: descend into an unvisited target, or report an edge back
     * into the stack.
     */
    method Explore(nodeId: string, edge: Edge) returns (found: bool)
      requires Valid() && nodeId in recursionStack && cycle == []
      requires edge in edges && edge.source == nodeId
      modifies this
      decreases universe - visited, 1
      ensures old(visited) <= visited
      ensures found ==> && ReportsCycle(edges, cycle, nodeId, old(recursionStack) - {nodeId})
                        && cycleEdges == EdgeIds(cycle) && involvedNodes == EdgeTargets(cycle)
      ensures !found ==> && Valid() && edge.target in rank && old(rank).Keys <= rank.Keys
                         && recursionStack == old(recursionStack) && cycle == []
    {
      if edge.target !in visited {
        var sub := FindCycle(edge.target);
        if sub {
          assert old(recursionStack) - {nodeId} + {nodeId} == old(recursionStack);
          ExtendReport(edges, cycle, edge, nodeId, old(recursionStack) - {nodeId});
          cycleEdges := cycleEdges + [edge.id];
          involvedNodes := involvedNodes + [edge.target];
          cycle := cycle + [edge];
          return true;
        }
      } else if edge.target in recursionStack {
        cycleEdges := cycleEdges + [edge.id];
        involvedNodes := involvedNodes + [edge.target];
        cycle := cycle + [edge];
        return true;
      }
      return false;
    }
  }

  /** The loop over end nodes: one error per end node that has outgoing edges. */
  method CheckEndNodes(endNodes: seq<Node>, edges: seq<Edge>, issues0: seq<Issue>) returns (issues: seq<Issue>)
    ensures issues == issues0 + EndOutgoingIssues(endNodes, edges)
  {
    issues := issues0;
    for k := 0 to |endNodes|
      invariant issues == issues0 + EndOutgoingIssues(endNodes[..k], edges)
    {
      var endNode := endNodes[k];
      var endNodeOutgoing := EdgesFrom(edges, endNode.id);
      EndOutgoingStep(endNodes, edges, k);
      SeqAppendAssoc(issues0, EndOutgoingIssues(endNodes[..k], edges), EndOutgoingIssue(endNode, edges));
      if |endNodeOutgoing| > 0 {
        issues := issues + [Issue(Error, EndOutgoingMessage, Some([endNode.id]), Some(EdgeIds(endNodeOutgoing)))];
      }
    }
    assert endNodes[..|endNodes|] == endNodes;
  }

  /** One more end node adds what that node pushes. */
  lemma EndOutgoingStep(ends: seq<Node>, edges: seq<Edge>, k: nat)
    requires k < |ends|
    ensures EndOutgoingIssues(ends[..k + 1], edges) == EndOutgoingIssues(ends[..k], edges) + EndOutgoingIssue(ends[k], edges)
  {
    assert ends[..k + 1][..k] == ends[..k];
  }

  /** One more non-end node adds what that node pushes. */
  lemma DeadEndStep(nonEnds: seq<Node>, edges: seq<Edge>, k: nat)
    requires k < |nonEnds|
    ensures DeadEndWarnings(nonEnds[..k + 1], edges) == DeadEndWarnings(nonEnds[..k], edges) + DeadEndIssue(nonEnds[k], edges)
  {
    assert nonEnds[..k + 1][..k] == nonEnds[..k];
  }

  /** The loop over non-end nodes: one warning per node without outgoing edges. */
  method CheckDeadEnds(nonEndNodes: seq<Node>, edges: seq<Edge>, issues0: seq<Issue>) returns (issues: seq<Issue>)
    ensures issues == issues0 + DeadEndWarnings(nonEndNodes, edges)
  {
    issues := issues0;
    for k := 0 to |nonEndNodes|
      invariant issues == issues0 + DeadEndWarnings(nonEndNodes[..k], edges)
    {
      var node := nonEndNodes[k];
      var outgoingEdges := EdgesFrom(edges, node.id);
      if |outgoingEdges| == 0 {
        issues := issues + [Issue(Warning, DeadEndMessage(node.data.labelText), Some([node.id]), None)];
      }
      DeadEndStep(nonEndNodes, edges, k);
      SeqAppendAssoc(issues0, DeadEndWarnings(nonEndNodes[..k], edges), DeadEndIssue(node, edges));
    }
    assert nonEndNodes[..|nonEndNodes|] == nonEndNodes;
  }

  /**
   * The cycle-detection block: a search from the start node; the lists it
   * fills are empty exactly when no cycle is reachable, and otherwise come
   * from a reported back path.
   */
  method DetectCycle(edges: seq<Edge>, startId: string) returns (cycleEdges: seq<string>, involvedNodes: seq<string>)
    ensures cycleEdges == [] <==> !CycleReachable(edges, startId)
    ensures cycleEdges != [] ==>
      exists c :: ReportsCycle(edges, c, startId, {}) && cycleEdges == EdgeIds(c) && involvedNodes == EdgeTargets(c)
  {
    var search := new CycleSearch(edges, startId);
    var found := search.FindCycle(startId);
    cycleEdges, involvedNodes := search.cycleEdges, search.involvedNodes;
    if found {
      ReportedCycleIsReachable(edges, search.cycle, startId);
    } else {
      RankedStartHasNoCycle(edges, search.rank, startId);
    }
  }

  /** The start-node count check. */
  method CheckStartCount(startNodes: seq<Node>, ghost nodes: seq<Node>) returns (issues: seq<Issue>)
    requires startNodes == NodesOfKind(nodes, StartKind)
    ensures issues == StartCardinalityIssues(nodes)
  {
    issues := [];
    if |startNodes| == 0 {
      issues := issues + [MissingStart];
    } else if |startNodes| > 1 {
      issues := issues + [MultipleStart(startNodes)];
    }
  }

  /** The end-node presence check. */
  method CheckEndPresence(endNodes: seq<Node>, ghost nodes: seq<Node>, issues0: seq<Issue>) returns (issues: seq<Issue>)
    requires endNodes == NodesOfKind(nodes, EndKind)
    ensures issues == issues0 + EndPresenceIssues(nodes)
  {
    issues := issues0;
    if |endNodes| == 0 {
      issues := issues + [MissingEnd];
    }
  }

  /** The unconnected-nodes check, with the `edges.forEach` loop. */
  method CheckUnconnected(nodes: seq<Node>, edges: seq<Edge>, issues0: seq<Issue>) returns (issues: seq<Issue>)
    ensures issues == issues0 + UnconnectedIssues(nodes, edges)
  {
    var connectedNodeIds := CollectConnectedIds(edges);
    var unconnectedNodes := NodesNotIn(nodes, connectedNodeIds);
    issues := issues0;
    if |unconnectedNodes| > 0 {
      issues := issues + [Issue(Error, NatToString(|unconnectedNodes|) + UnconnectedSuffix,
                                Some(NodeIds(unconnectedNodes)), None)];
    }
  }

  /** The check that the single start node has no incoming edges. */
  method CheckStartIncoming(startNodes: seq<Node>, ghost nodes: seq<Node>, edges: seq<Edge>, issues0: seq<Issue>)
    returns (issues: seq<Issue>)
    requires startNodes == NodesOfKind(nodes, StartKind)
    ensures issues == issues0 + StartIncomingIssues(nodes, edges)
  {
    issues := issues0;
    if |startNodes| == 1 {
      var startNodeId := startNodes[0].id;
      var startNodeIncoming := EdgesInto(edges, startNodeId);
      if |startNodeIncoming| > 0 {
        issues := issues + [Issue(Error, StartIncomingMessage, Some([startNodeId]), Some(EdgeIds(startNodeIncoming)))];
      }
    }
  }

  /**
   * The cycle check: a search from the single start node, if there is one.
   * The source also tests `!hasForLoop` here, which always holds at this point.
   */
  method CheckCycle(startNodes: seq<Node>, ghost nodes: seq<Node>, edges: seq<Edge>, issues0: seq<Issue>)
    returns (issues: seq<Issue>)
    requires startNodes == NodesOfKind(nodes, StartKind)
    ensures |issues0| <= |issues| && issues[..|issues0|] == issues0
    ensures CycleReport(nodes, edges, issues[|issues0|..])
  {
    issues := issues0;
    if |startNodes| == 1 {
      var cycleEdges, involvedNodes := DetectCycle(edges, startNodes[0].id);
      if |cycleEdges| > 0 {
        issues := issues + [Issue(Error, CycleMessage, Some(involvedNodes), Some(cycleEdges))];
        assert issues[|issues0|..] == [issues[|issues0|]];
      } else {
        assert issues[|issues0|..] == [];
      }
    } else {
      assert issues[|issues0|..] == [];
    }
  }

  /** `validateFlowchart(nodes, edges)` */
  method ValidateFlowchart(nodes: seq<Node>, edges: seq<Edge>) returns (r: ValidationResult)
    ensures Conforms(nodes, edges, r)
  {
    var issues: seq<Issue> := [];
    var hasForLoop := HasKind(nodes, ForLoopKind);
    if hasForLoop {
      var startNodes := NodesOfKind(nodes, StartKind);
      var endNodes := NodesOfKind(nodes, EndKind);
      if |startNodes| == 0 {
        issues := issues + [MissingStart];
      }
      if |endNodes| == 0 {
        issues := issues + [MissingEnd];
      }
      return Summarize(issues);
    }

    if |nodes| == 0 {
      return EmptyResult;
    }

    var startNodes := NodesOfKind(nodes, StartKind);
    issues := CheckStartCount(startNodes, nodes);
    var endNodes := NodesOfKind(nodes, EndKind);
    issues := CheckEndPresence(endNodes, nodes, issues);
    issues := CheckUnconnected(nodes, edges, issues);
    issues := CheckStartIncoming(startNodes, nodes, edges, issues);
    issues := CheckEndNodes(endNodes, edges, issues);
    issues := CheckDeadEnds(NodesNotOfKind(nodes, EndKind), edges, issues);
    ghost var structural := issues;
    assert structural == StructuralIssues(nodes, edges);
    issues := CheckCycle(startNodes, nodes, edges, issues);
    r := Summarize(issues);
  }
}

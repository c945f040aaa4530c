/**
 * The editor's state store, `FlowchartProvider` in
 * src/contexts/FlowchartContext.tsx: four state cells (the current chart,
 * the saved charts, the live nodes and the live edges), the operations that
 * overwrite them, and the store's own short-circuiting validator.
 *
 * `nanoid()`, `Date.now()` and the answer to `window.prompt` are parameters
 * of the operations that use them. The saved list lives in memory only.
 */
module FlowchartContext {
  import opened Wrappers
  import opened Text
  import opened Graph

  /** A chart record; `modified` is optional, as in the source's interface. */
  datatype Flowchart = Flowchart(
    id: string,
    name: string,
    nodes: seq<Node>,
    edges: seq<Edge>,
    createdAt: int,
    updatedAt: int,
    modified: Option<bool>)

  const UntitledName := "Untitled Flowchart"

  // ---------------------------------------------------------------------
  // The expressions the operations are built from
  // ---------------------------------------------------------------------

  /** The `setCurrentFlowchart` updater of the four updaters: mark a chart modified, keep no chart as none. */
  function MarkModified(current: Option<Flowchart>): (r: Option<Flowchart>)
    ensures r.Some? <==> current.Some?
    ensures r.Some? ==> r.value.modified == Some(true) && r.value.(modified := current.value.modified) == current.value
  {
    match current
    case None => None
    case Some(f) => Some(f.(modified := Some(true)))
  }

  /** `nds.map(...)` in `updateNodeData`: the nodes with `id` get `data`, wholesale. */
  function WithNodeData(nodes: seq<Node>, id: string, data: Data): (r: seq<Node>)
    ensures |r| == |nodes|
    ensures forall i :: 0 <= i < |nodes| ==>
      && r[i].id == nodes[i].id && r[i].kind == nodes[i].kind && r[i].position == nodes[i].position
      && r[i].data == (if nodes[i].id == id then data else nodes[i].data)
  {
    if nodes == [] then []
    else [if nodes[0].id == id then nodes[0].(data := data) else nodes[0]] + WithNodeData(nodes[1..], id, data)
  }

  /**
   * `eds.map(...)` in `updateEdgeData`: the edges with `id` get `data`, and
   * `animated` when one is given.
   */
  function WithEdgeData(edges: seq<Edge>, id: string, data: Data, animated: Option<bool>): (r: seq<Edge>)
    ensures |r| == |edges|
    ensures forall i :: 0 <= i < |edges| ==>
      && r[i].(data := edges[i].data, animated := edges[i].animated) == edges[i]
      && r[i].data == (if edges[i].id == id then data else edges[i].data)
      && r[i].animated == (if edges[i].id == id && animated.Some? then animated.value else edges[i].animated)
  {
    if edges == [] then []
    else
      var e := edges[0];
      [if e.id == id then e.(data := data, animated := if animated.Some? then animated.value else e.animated) else e]
      + WithEdgeData(edges[1..], id, data, animated)
  }

  /** The record `newFlowchart` builds. */
  function EmptyFlowchart(id: string, createdAt: int, updatedAt: int): (f: Flowchart)
    ensures f.id == id && f.name == UntitledName && f.nodes == [] && f.edges == []
    ensures f.createdAt == createdAt && f.updatedAt == updatedAt && f.modified == None
  {
    Flowchart(id, UntitledName, [], [], createdAt, updatedAt, None)
  }

  /** The name `saveFlowchart` saves under: the prompt answer replaces only the default name, and only when non-empty. */
  function SaveName(name: string, answer: Option<string>): (r: string)
    ensures r != name ==> name == UntitledName && answer == Some(r) && r != ""
    ensures name == UntitledName && answer.Some? && answer.value != "" ==> r == answer.value
  {
    if name == UntitledName && answer.Some? && answer.value != "" then answer.value else name
  }

  /** `savedFlowcharts.find((flow) => flow.id === id)`: the first record with that id. */
  function FindById(saved: seq<Flowchart>, id: string): (r: Option<Flowchart>)
    ensures r.None? <==> forall f :: f in saved ==> f.id != id
    ensures r.Some? ==> exists i :: && 0 <= i < |saved| && saved[i] == r.value && r.value.id == id
                                  && forall j :: 0 <= j < i ==> saved[j].id != id
  {
    if saved == [] then None
    else if saved[0].id == id then Some(saved[0])
    else
      var r := FindById(saved[1..], id);
      assert forall f :: f in saved ==> f == saved[0] || f in saved[1..];
      if r.Some? then
        var i :| && 0 <= i < |saved[1..]| && saved[1..][i] == r.value
                 && forall j :: 0 <= j < i ==> saved[1..][j].id != id;
        assert saved[i + 1] == r.value;
        r
      else r
  }

  /** `savedFlowcharts.map((flow) => flow.id === f.id ? f : flow)` */
  function ReplaceById(saved: seq<Flowchart>, f: Flowchart): (r: seq<Flowchart>)
    ensures |r| == |saved|
    ensures forall i :: 0 <= i < |saved| ==> r[i] == (if saved[i].id == f.id then f else saved[i])
  {
    if saved == [] then [] else [if saved[0].id == f.id then f else saved[0]] + ReplaceById(saved[1..], f)
  }

  /** The saved list after saving `f`: replaced in place when its id is known, appended otherwise. */
  function Upsert(saved: seq<Flowchart>, f: Flowchart): (r: seq<Flowchart>)
    ensures (exists g :: g in saved && g.id == f.id) ==>
      && |r| == |saved|
      && forall i :: 0 <= i < |saved| ==> r[i] == (if saved[i].id == f.id then f else saved[i])
    ensures (forall g :: g in saved ==> g.id != f.id) ==> r == saved + [f]
  {
    var updated := ReplaceById(saved, f);
    if FindById(saved, f.id).None? then
      assert updated == saved;
      updated + [f]
    else updated
  }

  /** `savedFlowcharts.filter((flow) => flow.id !== id)` */
  function RemoveById(saved: seq<Flowchart>, id: string): (r: seq<Flowchart>)
    ensures forall f :: f in r <==> f in saved && f.id != id
    ensures |r| <= |saved|
  {
    if saved == [] then []
    else (if saved[0].id != id then [saved[0]] else []) + RemoveById(saved[1..], id)
  }

  // ---------------------------------------------------------------------
  // The store
  // ---------------------------------------------------------------------

  /** What the store's validator returns: `{valid, message}`. */
  datatype LegacyResult = LegacyResult(valid: bool, message: string)

  const LegacyEmpty := "Flowchart is empty"
  const LegacyMissingStart := "Missing start node"
  const LegacyMultipleStart := "Multiple start nodes detected"
  const LegacyMissingEnd := "Missing end node"
  const LegacyUnconnectedSuffix := " unconnected node(s) detected"
  const LegacyStartIncoming := "Start node should not have incoming connections"
  const LegacyEndOutgoing := "End nodes should not have outgoing connections"
  const LegacyCycle := "Cycle detected in flowchart"
  const LegacyValid := "Flowchart is valid"

  /** Some end node among `ends` has an outgoing edge. */
  predicate SomeEndHasOutgoing(ends: seq<Node>, edges: seq<Edge>)
  {
    exists n :: n in ends && |EdgesFrom(edges, n.id)| > 0
  }

  /**
   * The store validator's chain of early returns, over what each check
   * measures: the first check that fails decides the answer, in the
   * source's order.
   */
  function LegacyOutcome(nodeCount: nat, startCount: nat, endCount: nat, looseCount: nat,
                         startIncoming: bool, endOutgoing: bool, cycle: bool): (r: LegacyResult)
    ensures r.valid <==> && nodeCount > 0 && startCount == 1 && endCount > 0 && looseCount == 0
                         && !startIncoming && !endOutgoing && !cycle
    ensures r.valid <==> r.message == LegacyValid
    ensures nodeCount == 0 ==> r.message == LegacyEmpty
    ensures nodeCount > 0 && startCount == 0 ==> r.message == LegacyMissingStart
    ensures nodeCount > 0 && startCount > 1 ==> r.message == LegacyMultipleStart
    ensures nodeCount > 0 && startCount == 1 && endCount == 0 ==> r.message == LegacyMissingEnd
    ensures nodeCount > 0 && startCount == 1 && endCount > 0 && looseCount > 0 ==>
      r.message == NatToString(looseCount) + LegacyUnconnectedSuffix
    ensures nodeCount > 0 && startCount == 1 && endCount > 0 && looseCount == 0 && startIncoming ==>
      r.message == LegacyStartIncoming
    ensures nodeCount > 0 && startCount == 1 && endCount > 0 && looseCount == 0 && !startIncoming && endOutgoing ==>
      r.message == LegacyEndOutgoing
    ensures nodeCount > 0 && startCount == 1 && endCount > 0 && looseCount == 0 && !startIncoming && !endOutgoing && cycle ==>
      r.message == LegacyCycle
  {
    assert LegacyValid[17] == 'd' && LegacyEmpty[17] == 'y' && LegacyMissingStart[17] == 'e';
    assert |NatToString(looseCount) + LegacyUnconnectedSuffix| > |LegacyValid|;
    if nodeCount == 0 then LegacyResult(false, LegacyEmpty)
    else if startCount == 0 then LegacyResult(false, LegacyMissingStart)
    else if startCount > 1 then LegacyResult(false, LegacyMultipleStart)
    else if endCount == 0 then LegacyResult(false, LegacyMissingEnd)
    else if looseCount > 0 then LegacyResult(false, NatToString(looseCount) + LegacyUnconnectedSuffix)
    else if startIncoming then LegacyResult(false, LegacyStartIncoming)
    else if endOutgoing then LegacyResult(false, LegacyEndOutgoing)
    else if cycle then LegacyResult(false, LegacyCycle)
    else LegacyResult(true, LegacyValid)
  }

  /**
   * The store validator's answer on `nodes` and `edges`. The start id only
   * matters once exactly one start node exists.
   */
  ghost function LegacyVerdict(nodes: seq<Node>, edges: seq<Edge>): LegacyResult
  {
    var starts := NodesOfKind(nodes, StartKind);
    var startId := if |starts| == 1 then starts[0].id else "";
    var ends := NodesOfKind(nodes, EndKind);
    LegacyOutcome(|nodes|, |starts|, |ends|, |NodesNotIn(nodes, ConnectedIds(edges))|,
                  |EdgesInto(edges, startId)| > 0, SomeEndHasOutgoing(ends, edges), CycleReachable(edges, startId))
  }

  /**
   * The state `hasCycle` shares across its recursive calls, with the same
   * ghost bookkeeping as the full validator's search: finishing times in
   * `rank`, the back path found in `cycle`.
   */
  class LegacyCycleSearch {
    const edges: seq<Edge>
    ghost const universe: set<string>
    var visited: set<string>
    var recursionStack: set<string>
    ghost var cycle: seq<Edge>
    ghost var rank: map<string, nat>
    ghost var clock: nat

    ghost predicate Valid()
      reads this
    {
      && visited == recursionStack + rank.Keys
      && recursionStack !! rank.Keys
      && visited <= universe
      && (forall e :: e in edges ==> e.target in universe)
      && (forall v :: v in rank ==> rank[v] < clock)
      && Ranked(edges, rank)
    }

    constructor (edges: seq<Edge>, start: string)
      ensures Valid() && this.edges == edges && start in universe
      ensures visited == {} && recursionStack == {} && cycle == []
    {
      this.edges := edges;
      universe := SearchUniverse(edges, start);
      visited, recursionStack := {}, {};
      cycle, rank, clock := [], map[], 0;
    }

    /**
     * `hasCycle(nodeId)`. On an already visited node it only takes the node
     * off the stack; the validator never calls it that way.
     */
    method HasCycle(nodeId: string) returns (found: bool)
      requires Valid() && nodeId in universe && cycle == []
      modifies this
      decreases universe - visited, 0
      ensures old(visited) <= visited
      ensures nodeId in old(visited) ==>
        && !found && visited == old(visited) && recursionStack == old(recursionStack) - {nodeId}
        && rank == old(rank) && cycle == []
      ensures nodeId !in old(visited) && found ==> ReportsCycle(edges, cycle, nodeId, old(recursionStack))
      ensures nodeId !in old(visited) && !found ==>
        && Valid() && nodeId in rank && old(rank).Keys <= rank.Keys
        && recursionStack == old(recursionStack) && cycle == []
    {
      if nodeId in visited {
        recursionStack := recursionStack - {nodeId};
        return false;
      }
      visited := visited + {nodeId};
      recursionStack := recursionStack + {nodeId};
      var outgoingEdges := EdgesFrom(edges, nodeId);
      for i := 0 to |outgoingEdges|
        invariant Valid()
        invariant old(visited) + {nodeId} <= visited
        invariant recursionStack == old(recursionStack) + {nodeId}
        invariant nodeId !in rank && old(rank).Keys <= rank.Keys
        invariant cycle == []
        invariant forall j :: 0 <= j < i ==> outgoingEdges[j].target in rank
      {
        found := Step(nodeId, outgoingEdges[i]);
        if found {
          return true;
        }
      }
      FinishKeepsRanked(edges, rank, nodeId, clock, outgoingEdges);
      recursionStack := recursionStack - {nodeId};
      rank := rank[nodeId := clock];
      clock := clock + 1;
      return false;
    }

    /**
     * One round of the loop over the out-edges of `nodeId`: descend into an
     * unvisited target, then (whether or not it was visited) report an edge
     * into the stack.
     */
    method Step(nodeId: string, edge: Edge) returns (found: bool)
      requires Valid() && nodeId in recursionStack && cycle == []
      requires edge in edges && edge.source == nodeId
      modifies this
      decreases universe - visited, 1
      ensures old(visited) <= visited
      ensures found ==> ReportsCycle(edges, cycle, nodeId, old(recursionStack) - {nodeId})
      ensures !found ==> && Valid() && edge.target in rank && old(rank).Keys <= rank.Keys
                         && recursionStack == old(recursionStack) && cycle == []
    {
      if edge.target !in visited {
        var sub := HasCycle(edge.target);
        if sub {
          assert old(recursionStack) - {nodeId} + {nodeId} == old(recursionStack);
          ExtendReport(edges, cycle, edge, nodeId, old(recursionStack) - {nodeId});
          cycle := cycle + [edge];
          return true;
        }
      }
      if edge.target in recursionStack {
        cycle := cycle + [edge];
        return true;
      }
      return false;
    }
  }

  /** `hasCycle(startNodeId)` on fresh sets. */
  method DetectLegacyCycle(edges: seq<Edge>, startId: string) returns (found: bool)
    ensures found <==> CycleReachable(edges, startId)
  {
    var search := new LegacyCycleSearch(edges, startId);
    found := search.HasCycle(startId);
    if found {
      ReportedCycleIsReachable(edges, search.cycle, startId);
    } else {
      RankedStartHasNoCycle(edges, search.rank, startId);
    }
  }

  /** The loop over end nodes, returning at the first one with outgoing edges. */
  method AnyEndHasOutgoing(endNodes: seq<Node>, edges: seq<Edge>) returns (found: bool)
    ensures found <==> SomeEndHasOutgoing(endNodes, edges)
  {
    for k := 0 to |endNodes|
      invariant forall j :: 0 <= j < k ==> |EdgesFrom(edges, endNodes[j].id)| == 0
    {
      var endNodeOutgoing := EdgesFrom(edges, endNodes[k].id);
      if |endNodeOutgoing| > 0 {
        return true;
      }
    }
    return false;
  }

  /** `FlowchartProvider`'s state cells and the operations it hands to the editor. */
  class FlowchartStore {
    var currentFlowchart: Option<Flowchart>
    var savedFlowcharts: seq<Flowchart>
    var nodes: seq<Node>
    var edges: seq<Edge>

    /** The initial state, before the mount effects run. */
    constructor ()
      ensures currentFlowchart == None && savedFlowcharts == [] && nodes == [] && edges == []
    {
      currentFlowchart := None;
      savedFlowcharts := [];
      nodes := [];
      edges := [];
    }

    /** The raw `setNodes`: the modified flag is left alone. */
    method SetNodes(newNodes: seq<Node>)
      modifies this
      ensures nodes == newNodes
      ensures currentFlowchart == old(currentFlowchart) && savedFlowcharts == old(savedFlowcharts) && edges == old(edges)
    {
      nodes := newNodes;
    }

    /** The raw `setEdges`: the modified flag is left alone. */
    method SetEdges(newEdges: seq<Edge>)
      modifies this
      ensures edges == newEdges
      ensures currentFlowchart == old(currentFlowchart) && savedFlowcharts == old(savedFlowcharts) && nodes == old(nodes)
    {
      edges := newEdges;
    }

    /** `updateNodes`: set the nodes and mark the current chart modified. */
    method UpdateNodes(newNodes: seq<Node>)
      modifies this
      ensures nodes == newNodes && currentFlowchart == MarkModified(old(currentFlowchart))
      ensures savedFlowcharts == old(savedFlowcharts) && edges == old(edges)
    {
      nodes := newNodes;
      currentFlowchart := MarkModified(currentFlowchart);
    }

    /** `updateEdges`: set the edges and mark the current chart modified. */
    method UpdateEdges(newEdges: seq<Edge>)
      modifies this
      ensures edges == newEdges && currentFlowchart == MarkModified(old(currentFlowchart))
      ensures savedFlowcharts == old(savedFlowcharts) && nodes == old(nodes)
    {
      edges := newEdges;
      currentFlowchart := MarkModified(currentFlowchart);
    }

    /** `updateNodeData(nodeId, data)` */
    method UpdateNodeData(nodeId: string, data: Data)
      modifies this
      ensures nodes == WithNodeData(old(nodes), nodeId, data) && currentFlowchart == MarkModified(old(currentFlowchart))
      ensures savedFlowcharts == old(savedFlowcharts) && edges == old(edges)
    {
      nodes := WithNodeData(nodes, nodeId, data);
      currentFlowchart := MarkModified(currentFlowchart);
    }

    /** `updateEdgeData(edgeId, data, animated?)`; an absent `animated` is `None`. */
    method UpdateEdgeData(edgeId: string, data: Data, animated: Option<bool>)
      modifies this
      ensures edges == WithEdgeData(old(edges), edgeId, data, animated)
      ensures currentFlowchart == MarkModified(old(currentFlowchart))
      ensures savedFlowcharts == old(savedFlowcharts) && nodes == old(nodes)
    {
      edges := WithEdgeData(edges, edgeId, data, animated);
      currentFlowchart := MarkModified(currentFlowchart);
    }

    /** `newFlowchart()`; `freshId` is `nanoid()`, the two times the two `Date.now()` calls. */
    method NewFlowchart(freshId: string, createdAt: int, updatedAt: int)
      modifies this
      ensures currentFlowchart == Some(EmptyFlowchart(freshId, createdAt, updatedAt))
      ensures nodes == [] && edges == [] && savedFlowcharts == old(savedFlowcharts)
    {
      currentFlowchart := Some(EmptyFlowchart(freshId, createdAt, updatedAt));
      nodes := [];
      edges := [];
    }

    /** The mount effect: start a new chart when there is none. */
    method EnsureCurrent(freshId: string, createdAt: int, updatedAt: int)
      modifies this
      ensures old(currentFlowchart).Some? ==>
        currentFlowchart == old(currentFlowchart) && nodes == old(nodes) && edges == old(edges)
      ensures old(currentFlowchart).None? ==>
        currentFlowchart == Some(EmptyFlowchart(freshId, createdAt, updatedAt)) && nodes == [] && edges == []
      ensures savedFlowcharts == old(savedFlowcharts)
    {
      if currentFlowchart.None? {
        NewFlowchart(freshId, createdAt, updatedAt);
      }
    }

    /**
     * `saveFlowchart()`. `answer` is what `window.prompt` returns (`None` for
     * a cancelled prompt); it is asked for only under the default name.
     * `now` is `Date.now()`.
     */
    method SaveFlowchart(answer: Option<string>, now: int)
      modifies this
      ensures old(currentFlowchart).None? ==>
        currentFlowchart == None && savedFlowcharts == old(savedFlowcharts)
      ensures old(currentFlowchart).Some? ==>
        var c := old(currentFlowchart).value;
        var saved := c.(name := SaveName(c.name, answer), nodes := old(nodes), edges := old(edges),
                        updatedAt := now, modified := Some(false));
        currentFlowchart == Some(saved) && savedFlowcharts == Upsert(old(savedFlowcharts), saved)
      ensures nodes == old(nodes) && edges == old(edges)
    {
      if currentFlowchart.None? {
        return;
      }
      var current := currentFlowchart.value;
      var flowchartName := current.name;
      if flowchartName == UntitledName {
        if answer.Some? && answer.value != "" {
          flowchartName := answer.value;
        }
      }
      var updatedFlowchart := current.(name := flowchartName, nodes := nodes, edges := edges,
                                       updatedAt := now, modified := Some(false));
      currentFlowchart := Some(updatedFlowchart);
      var updatedFlowcharts := ReplaceById(savedFlowcharts, updatedFlowchart);
      if FindById(savedFlowcharts, updatedFlowchart.id).None? {
        updatedFlowcharts := updatedFlowcharts + [updatedFlowchart];
      }
      savedFlowcharts := updatedFlowcharts;
    }

    /** `loadFlowchart(flowchart)` */
    method LoadFlowchart(flowchart: Flowchart)
      modifies this
      ensures currentFlowchart == Some(flowchart.(modified := Some(false)))
      ensures nodes == flowchart.nodes && edges == flowchart.edges && savedFlowcharts == old(savedFlowcharts)
    {
      currentFlowchart := Some(flowchart.(modified := Some(false)));
      nodes := flowchart.nodes;
      edges := flowchart.edges;
    }

    /** `loadSavedFlowchart(id)`: load the first saved record with that id, if any. */
    method LoadSavedFlowchart(id: string)
      modifies this
      ensures FindById(old(savedFlowcharts), id).None? ==>
        && currentFlowchart == old(currentFlowchart) && nodes == old(nodes) && edges == old(edges)
      ensures FindById(old(savedFlowcharts), id).Some? ==>
        var f := FindById(old(savedFlowcharts), id).value;
        currentFlowchart == Some(f.(modified := Some(false))) && nodes == f.nodes && edges == f.edges
      ensures savedFlowcharts == old(savedFlowcharts)
    {
      var flowchart := FindById(savedFlowcharts, id);
      if flowchart.Some? {
        LoadFlowchart(flowchart.value);
      }
    }

    /**
     * `deleteFlowchart(id)`: drop the saved records with that id, after
     * starting a new chart if it is the current one; the last three
     * parameters feed that `newFlowchart()`.
     */
    method DeleteFlowchart(id: string, freshId: string, createdAt: int, updatedAt: int)
      modifies this
      ensures savedFlowcharts == RemoveById(old(savedFlowcharts), id)
      ensures old(currentFlowchart).Some? && old(currentFlowchart).value.id == id ==>
        currentFlowchart == Some(EmptyFlowchart(freshId, createdAt, updatedAt)) && nodes == [] && edges == []
      ensures !(old(currentFlowchart).Some? && old(currentFlowchart).value.id == id) ==>
        currentFlowchart == old(currentFlowchart) && nodes == old(nodes) && edges == old(edges)
    {
      if currentFlowchart.Some? && currentFlowchart.value.id == id {
        NewFlowchart(freshId, createdAt, updatedAt);
      }
      savedFlowcharts := RemoveById(savedFlowcharts, id);
    }

    /** The store's own `validateFlowchart()`: the first failing check on the live nodes and edges. */
    method ValidateFlowchart() returns (r: LegacyResult)
      ensures r == LegacyVerdict(nodes, edges)
    {
      if |nodes| == 0 {
        return LegacyResult(false, LegacyEmpty);
      }
      var startNodes := NodesOfKind(nodes, StartKind);
      if |startNodes| == 0 {
        return LegacyResult(false, LegacyMissingStart);
      }
      if |startNodes| > 1 {
        return LegacyResult(false, LegacyMultipleStart);
      }
      var endNodes := NodesOfKind(nodes, EndKind);
      if |endNodes| == 0 {
        return LegacyResult(false, LegacyMissingEnd);
      }
      var connectedNodeIds := CollectConnectedIds(edges);
      var unconnectedNodes := NodesNotIn(nodes, connectedNodeIds);
      if |unconnectedNodes| > 0 {
        return LegacyResult(false, NatToString(|unconnectedNodes|) + LegacyUnconnectedSuffix);
      }
      var startNodeId := startNodes[0].id;
      var startNodeIncoming := EdgesInto(edges, startNodeId);
      if |startNodeIncoming| > 0 {
        return LegacyResult(false, LegacyStartIncoming);
      }
      var endOutgoing := AnyEndHasOutgoing(endNodes, edges);
      if endOutgoing {
        return LegacyResult(false, LegacyEndOutgoing);
      }
      var cycle := DetectLegacyCycle(edges, startNodeId);
      if cycle {
        return LegacyResult(false, LegacyCycle);
      }
      return LegacyResult(true, LegacyValid);
    }
  }
}

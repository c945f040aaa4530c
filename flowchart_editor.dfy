/**
 * The two "add" operations of src/components/FlowchartEditor.tsx:
 * `onConnect` builds an edge from a React Flow connection and appends it
 * through `updateEdges`; `onDrop` builds a node of the dropped type and
 * appends it through the raw `setNodes`.
 *
 * `Date.now()` is the parameter `now`; the dropped type, whether the
 * renderer's bounding box was found, and the projected drop position are
 * parameters of `OnDrop`.
 */
module FlowchartEditor {
  import opened Wrappers
  import opened Text
  import opened Graph
  import opened FlowchartContext

  /** React Flow's `Connection`; each field may be null. */
  datatype Connection = Connection(
    source: Option<string>,
    target: Option<string>,
    sourceHandle: Option<string>,
    targetHandle: Option<string>)

  const CustomEdgeKind := "custom"

  /** A JavaScript string value that is truthy: present and non-empty. */
  predicate Truthy(s: Option<string>)
  {
    s.Some? && s.value != ""
  }

  /** The edge `onConnect` builds from a connection with both ends. */
  function ConnectionEdge(source: string, target: string, sourceHandle: Option<string>, targetHandle: Option<string>, now: nat): (e: Edge)
    ensures e.source == source && e.target == target
    ensures e.sourceHandle == sourceHandle && e.targetHandle == targetHandle
    ensures e.kind == CustomEdgeKind && e.data == Data("", map[]) && !e.animated
    ensures e.id == "e" + source + "-" + target + "-" + NatToString(now)
  {
    Edge("e" + source + "-" + target + "-" + NatToString(now), source, target, CustomEdgeKind,
         sourceHandle, targetHandle, Data("", map[]), false)
  }

  /** `toUpperCase` on one character; lower-case ASCII letters are mapped, every other character is kept. */
  function UpperChar(c: char): (u: char)
    ensures 'a' <= c <= 'z' ==> 'A' <= u <= 'Z' && u as int - c as int == 'A' as int - 'a' as int
    ensures !('a' <= c <= 'z') ==> u == c
  {
    if 'a' <= c <= 'z' then (c as int - 'a' as int + 'A' as int) as char else c
  }

  /** `s.charAt(0).toUpperCase() + s.slice(1)` */
  function Capitalize(s: string): (r: string)
    ensures |r| == |s|
    ensures |s| > 0 ==> r[0] == UpperChar(s[0]) && r[1..] == s[1..]
  {
    if s == [] then [] else [UpperChar(s[0])] + s[1..]
  }

  /** The label of a dropped node: "New " and the capitalised type. */
  function NewNodeLabel(nodeType: string): (r: string)
    ensures |r| == |nodeType| + 4 && r[..4] == "New " && r[4..] == Capitalize(nodeType)
  {
    "New " + Capitalize(nodeType)
  }

  /** The node `onDrop` builds. */
  function DroppedNode(nodeType: string, position: Position, now: nat): (n: Node)
    ensures n.id == nodeType + "_" + NatToString(now) && n.kind == nodeType && n.position == position
    ensures n.data == Data(NewNodeLabel(nodeType), map[])
  {
    Node(nodeType + "_" + NatToString(now), nodeType, position, Data(NewNodeLabel(nodeType), map[]))
  }

  /** `onConnect(connection)` */
  method OnConnect(store: FlowchartStore, connection: Connection, now: nat)
    modifies store
    ensures !(Truthy(connection.source) && Truthy(connection.target)) ==>
      && store.edges == old(store.edges) && store.currentFlowchart == old(store.currentFlowchart)
    ensures Truthy(connection.source) && Truthy(connection.target) ==>
      && store.edges == old(store.edges) + [ConnectionEdge(connection.source.value, connection.target.value,
                                                          connection.sourceHandle, connection.targetHandle, now)]
      && store.currentFlowchart == MarkModified(old(store.currentFlowchart))
    ensures store.nodes == old(store.nodes) && store.savedFlowcharts == old(store.savedFlowcharts)
  {
    if !Truthy(connection.source) || !Truthy(connection.target) {
      return;
    }
    var newEdge := ConnectionEdge(connection.source.value, connection.target.value,
                                  connection.sourceHandle, connection.targetHandle, now);
    store.UpdateEdges(store.edges + [newEdge]);
  }

  /**
   * `onDrop(event)`: `nodeType` is the dragged type string, `hasBounds`
   * whether the renderer element was found, `position` the projected drop
   * point.
   */
  method OnDrop(store: FlowchartStore, nodeType: string, hasBounds: bool, position: Position, now: nat)
    modifies store
    ensures nodeType == "" || !hasBounds ==> store.nodes == old(store.nodes)
    ensures nodeType != "" && hasBounds ==> store.nodes == old(store.nodes) + [DroppedNode(nodeType, position, now)]
    ensures store.edges == old(store.edges) && store.currentFlowchart == old(store.currentFlowchart)
    ensures store.savedFlowcharts == old(store.savedFlowcharts)
  {
    if nodeType == "" {
      return;
    }
    if !hasBounds {
      return;
    }
    var newNode := DroppedNode(nodeType, position, now);
    store.SetNodes(store.nodes + [newNode]);
  }

  // ---------------------------------------------------------------------
  // What the additions mean for the validators
  // ---------------------------------------------------------------------

  /** Capitalising twice is capitalising once. */
  lemma CapitalizeIdempotent(s: string)
    ensures Capitalize(Capitalize(s)) == Capitalize(s)
  {
    if s != [] {
      assert Capitalize(s)[0] == UpperChar(s[0]);
    }
  }

  /** After a connection both its ends count as connected, and so does every node that already was. */
  lemma ConnectingTouches(edges: seq<Edge>, e: Edge)
    ensures Touched(edges + [e], e.source) && Touched(edges + [e], e.target)
    ensures forall id :: Touched(edges, id) ==> Touched(edges + [e], id)
  {
    assert e in edges + [e];
  }

  /** A connection from a node to itself is kept, and then a cycle is reachable from that node. */
  lemma SelfLoopMakesCycle(edges: seq<Edge>, e: Edge)
    requires e.source == e.target
    ensures CycleReachable(edges + [e], e.source)
  {
    var w := [e];
    assert e in edges + [e];
    assert IsWalk(edges + [e], e.source, w) && Revisits(e.source, w);
  }

  /**
   * After a drop the node is selected by its type, after the nodes already
   * of that type; dropping a `forloop` node switches the full validator to
   * its reduced rule set.
   */
  lemma DropAddsOfKind(nodes: seq<Node>, nodeType: string, position: Position, now: nat)
    ensures var n := DroppedNode(nodeType, position, now);
      && HasKind(nodes + [n], nodeType)
      && NodesOfKind(nodes + [n], nodeType) == NodesOfKind(nodes, nodeType) + [n]
  {
    var n := DroppedNode(nodeType, position, now);
    assert n in nodes + [n];
    NodesOfKindAppend(nodes, [n], nodeType);
  }
}

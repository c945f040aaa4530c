/**
 * Laws of the store's expressions: what the per-element updaters leave
 * alone, and how saving (an upsert by id), finding and deleting interact.
 */
module StoreProperties {
  import opened Wrappers
  import opened Graph
  import opened FlowchartContext

  /** Marking an already marked chart changes nothing. */
  lemma MarkModifiedIdempotent(current: Option<Flowchart>)
    ensures MarkModified(MarkModified(current)) == MarkModified(current)
  {
  }

  /** `updateNodeData` with an id no node has leaves the nodes as they were. */
  lemma {:induction false} UnknownNodeIdKeepsNodes(nodes: seq<Node>, id: string, data: Data)
    requires forall n :: n in nodes ==> n.id != id
    ensures WithNodeData(nodes, id, data) == nodes
  {
    if nodes != [] {
      UnknownNodeIdKeepsNodes(nodes[1..], id, data);
    }
  }

  /** `updateNodeData` keeps the node ids, hence their order and number. */
  lemma NodeDataKeepsIds(nodes: seq<Node>, id: string, data: Data)
    ensures NodeIds(WithNodeData(nodes, id, data)) == NodeIds(nodes)
  {
  }

  /** Applying the same node update twice is applying it once. */
  lemma NodeDataIdempotent(nodes: seq<Node>, id: string, data: Data)
    ensures WithNodeData(WithNodeData(nodes, id, data), id, data) == WithNodeData(nodes, id, data)
  {
  }

  /** `updateEdgeData` with an id no edge has leaves the edges as they were. */
  lemma {:induction false} UnknownEdgeIdKeepsEdges(edges: seq<Edge>, id: string, data: Data, animated: Option<bool>)
    requires forall e :: e in edges ==> e.id != id
    ensures WithEdgeData(edges, id, data, animated) == edges
  {
    if edges != [] {
      UnknownEdgeIdKeepsEdges(edges[1..], id, data, animated);
    }
  }

  /** `updateEdgeData` keeps each edge's endpoints, so the graph the validators see is unchanged. */
  lemma EdgeDataKeepsGraph(edges: seq<Edge>, id: string, data: Data, animated: Option<bool>)
    ensures var r := WithEdgeData(edges, id, data, animated);
      forall i :: 0 <= i < |edges| ==> r[i].id == edges[i].id && r[i].source == edges[i].source && r[i].target == edges[i].target
  {
  }

  /** After saving `f`, looking up its id finds `f`. */
  lemma FindAfterUpsert(saved: seq<Flowchart>, f: Flowchart)
    ensures FindById(Upsert(saved, f), f.id) == Some(f)
  {
    var r := Upsert(saved, f);
    UpsertContains(saved, f);
    UpsertKeepsOthers(saved, f);
    var found := FindById(r, f.id);
    var i :| 0 <= i < |r| && r[i] == found.value && found.value.id == f.id;
    assert r[i] in r;
  }

  /** The saved list holds `f` after saving it. */
  lemma UpsertContains(saved: seq<Flowchart>, f: Flowchart)
    ensures f in Upsert(saved, f)
  {
    var r := Upsert(saved, f);
    if exists g :: g in saved && g.id == f.id {
      var g :| g in saved && g.id == f.id;
      var i :| 0 <= i < |saved| && saved[i] == g;
      assert r[i] == f;
    } else {
      assert r[|saved|] == f;
    }
  }

  /** Saving keeps every record with another id and adds nothing but `f`. */
  lemma UpsertKeepsOthers(saved: seq<Flowchart>, f: Flowchart)
    ensures forall g :: g in saved && g.id != f.id ==> g in Upsert(saved, f)
    ensures forall g :: g in Upsert(saved, f) ==> g == f || (g in saved && g.id != f.id)
    ensures |Upsert(saved, f)| == if FindById(saved, f.id).Some? then |saved| else |saved| + 1
  {
    var r := Upsert(saved, f);
    if exists g :: g in saved && g.id == f.id {
      forall g | g in saved && g.id != f.id ensures g in r {
        var i :| 0 <= i < |saved| && saved[i] == g;
        assert r[i] == g;
      }
      forall g | g in r ensures g == f || (g in saved && g.id != f.id) {
        var i :| 0 <= i < |r| && r[i] == g;
      }
    }
  }

  /** Saving the same record twice is saving it once. */
  lemma UpsertIdempotent(saved: seq<Flowchart>, f: Flowchart)
    ensures Upsert(Upsert(saved, f), f) == Upsert(saved, f)
  {
    var r := Upsert(saved, f);
    UpsertContains(saved, f);
    UpsertKeepsOthers(saved, f);
    var rr := Upsert(r, f);
    assert |rr| == |r|;
    forall i | 0 <= i < |r| ensures rr[i] == r[i] {
      assert r[i] in r;
    }
  }

  /** Deleting by an id no record has keeps the saved list. */
  lemma {:induction false} RemoveUnknownKeeps(saved: seq<Flowchart>, id: string)
    requires forall f :: f in saved ==> f.id != id
    ensures RemoveById(saved, id) == saved
  {
    if saved != [] {
      RemoveUnknownKeeps(saved[1..], id);
    }
  }

  /** Deleting after saving under the same id is deleting without saving. */
  lemma {:induction false} RemoveAfterReplace(saved: seq<Flowchart>, f: Flowchart)
    ensures RemoveById(ReplaceById(saved, f), f.id) == RemoveById(saved, f.id)
  {
    if saved != [] {
      RemoveAfterReplace(saved[1..], f);
      assert ReplaceById(saved, f)[1..] == ReplaceById(saved[1..], f);
    }
  }

  /** Deleting a record just saved removes every trace of that save. */
  lemma RemoveAfterUpsert(saved: seq<Flowchart>, f: Flowchart)
    ensures RemoveById(Upsert(saved, f), f.id) == RemoveById(saved, f.id)
  {
    RemoveAfterReplace(saved, f);
    if FindById(saved, f.id).None? {
      RemoveAppend(ReplaceById(saved, f), f, f.id);
    }
  }

  /** The filter distributes over an appended record. */
  lemma {:induction false} RemoveAppend(saved: seq<Flowchart>, f: Flowchart, id: string)
    ensures RemoveById(saved + [f], id) == RemoveById(saved, id) + (if f.id != id then [f] else [])
  {
    if saved != [] {
      assert (saved + [f])[1..] == saved[1..] + [f];
      RemoveAppend(saved[1..], f, id);
    } else {
      assert [] + [f] == [f];
    }
  }
}

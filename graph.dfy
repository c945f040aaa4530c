/** Small shared helpers: an optional value and decimal rendering of naturals. */
module Wrappers {

  /** A value that may be absent (JavaScript's `undefined` / `null`). */
  datatype Option<+T> = None | Some(value: T)
}

module Text {

  /** The decimal digit of `d`. */
  function DigitChar(d: nat): (c: char)
    requires d < 10
    ensures '0' <= c <= '9' && c as int - '0' as int == d
  {
    ('0' as int + d) as char
  }

  /** The natural number a string of decimal digits denotes, most significant digit first. */
  ghost function DecimalValue(s: string): nat
    requires forall i :: 0 <= i < |s| ==> '0' <= s[i] <= '9'
  {
    if s == [] then 0 else 10 * DecimalValue(s[..|s| - 1]) + (s[|s| - 1] as int - '0' as int)
  }

  /**
   * Decimal rendering of a natural, as a template literal `${n}` prints it:
   * digits only, denoting `n`, with a leading zero only for zero itself.
   */
  function NatToString(n: nat): (r: string)
    ensures |r| > 0
    ensures forall i :: 0 <= i < |r| ==> '0' <= r[i] <= '9'
    ensures DecimalValue(r) == n
    ensures r[0] == '0' <==> n == 0
    decreases n
  {
    if n < 10 then [DigitChar(n)]
    else
      var init := NatToString(n / 10);
      var r := init + [DigitChar(n % 10)];
      assert r[..|r| - 1] == init;
      r
  }

  /** Different numbers are rendered differently. */
  lemma NatToStringInjective(m: nat, n: nat)
    ensures NatToString(m) == NatToString(n) ==> m == n
  {
  }
}

/**
 * The graph vocabulary shared by both validators, the store and the editor:
 * React Flow's node and edge records, the `filter`/`map` selections the
 * validators make over them, and the theory of walks and reachable cycles
 * that their depth-first searches are proved against.
 */
module Graph {
  import opened Wrappers

  /** Canvas position; owned by the renderer and never interpreted here. */
  datatype Position = Position(x: int, y: int)

  /** The `data` payload of a node or edge: its `label` (`labelText`, since `label` is a Dafny keyword) and the remaining keys. */
  datatype Data = Data(labelText: string, extra: map<string, string>)

  /** A React Flow node; `kind` is its `type` field. */
  datatype Node = Node(id: string, kind: string, position: Position, data: Data)

  /** A React Flow edge; `kind` is its `type` field. */
  datatype Edge = Edge(
    id: string,
    source: string,
    target: string,
    kind: string,
    sourceHandle: Option<string>,
    targetHandle: Option<string>,
    data: Data,
    animated: bool)

  const StartKind := "start"
  const EndKind := "end"
  const ForLoopKind := "forloop"

  /** `nodes.some((node) => node.type === kind)` */
  predicate HasKind(nodes: seq<Node>, kind: string)
  {
    exists n :: n in nodes && n.kind == kind
  }

  /** `nodes.filter((node) => node.type === kind)` */
  function NodesOfKind(nodes: seq<Node>, kind: string): (r: seq<Node>)
    ensures forall n :: n in r <==> n in nodes && n.kind == kind
    ensures |r| <= |nodes|
    ensures |r| == 0 <==> !HasKind(nodes, kind)
  {
    if nodes == [] then []
    else (if nodes[0].kind == kind then [nodes[0]] else []) + NodesOfKind(nodes[1..], kind)
  }

  /** `nodes.filter((node) => node.type !== kind)` */
  function NodesNotOfKind(nodes: seq<Node>, kind: string): (r: seq<Node>)
    ensures forall n :: n in r <==> n in nodes && n.kind != kind
    ensures |r| <= |nodes|
  {
    if nodes == [] then []
    else (if nodes[0].kind != kind then [nodes[0]] else []) + NodesNotOfKind(nodes[1..], kind)
  }

  /** `nodes.filter((node) => !connected.has(node.id))` */
  function NodesNotIn(nodes: seq<Node>, connected: set<string>): (r: seq<Node>)
    ensures forall n :: n in r <==> n in nodes && n.id !in connected
    ensures |r| <= |nodes|
  {
    if nodes == [] then []
    else (if nodes[0].id !in connected then [nodes[0]] else []) + NodesNotIn(nodes[1..], connected)
  }

  /** `edges.filter((edge) => edge.source === id)` */
  function EdgesFrom(edges: seq<Edge>, id: string): (r: seq<Edge>)
    ensures forall e :: e in r <==> e in edges && e.source == id
    ensures |r| <= |edges|
  {
    if edges == [] then []
    else (if edges[0].source == id then [edges[0]] else []) + EdgesFrom(edges[1..], id)
  }

  /** `edges.filter((edge) => edge.target === id)` */
  function EdgesInto(edges: seq<Edge>, id: string): (r: seq<Edge>)
    ensures forall e :: e in r <==> e in edges && e.target == id
    ensures |r| <= |edges|
  {
    if edges == [] then []
    else (if edges[0].target == id then [edges[0]] else []) + EdgesInto(edges[1..], id)
  }

  // `filter` keeps the order and the repetitions of its input. Each law below
  // says so: the filter of a concatenation is the concatenation of the
  // filters, and a single element is kept exactly when it passes the test.
  // With the empty case in the body, this fixes the result completely.

  lemma {:induction false} NodesOfKindAppend(a: seq<Node>, b: seq<Node>, kind: string)
    ensures NodesOfKind(a + b, kind) == NodesOfKind(a, kind) + NodesOfKind(b, kind)
    ensures forall n :: NodesOfKind([n], kind) == if n.kind == kind then [n] else []
  {
    if a != [] {
      var head := if a[0].kind == kind then [a[0]] else [];
      assert (a + b)[0] == a[0] && (a + b)[1..] == a[1..] + b;
      assert NodesOfKind(a + b, kind) == head + NodesOfKind(a[1..] + b, kind);
      NodesOfKindAppend(a[1..], b, kind);
      assert NodesOfKind(a, kind) == head + NodesOfKind(a[1..], kind);
      SeqAppendAssoc(head, NodesOfKind(a[1..], kind), NodesOfKind(b, kind));
    } else {
      assert a + b == b;
      assert NodesOfKind(a, kind) == [];
    }
  }

  lemma {:induction false} NodesNotOfKindAppend(a: seq<Node>, b: seq<Node>, kind: string)
    ensures NodesNotOfKind(a + b, kind) == NodesNotOfKind(a, kind) + NodesNotOfKind(b, kind)
    ensures forall n :: NodesNotOfKind([n], kind) == if n.kind != kind then [n] else []
  {
    if a != [] {
      var head := if a[0].kind != kind then [a[0]] else [];
      assert (a + b)[0] == a[0] && (a + b)[1..] == a[1..] + b;
      assert NodesNotOfKind(a + b, kind) == head + NodesNotOfKind(a[1..] + b, kind);
      NodesNotOfKindAppend(a[1..], b, kind);
      assert NodesNotOfKind(a, kind) == head + NodesNotOfKind(a[1..], kind);
      SeqAppendAssoc(head, NodesNotOfKind(a[1..], kind), NodesNotOfKind(b, kind));
    } else {
      assert a + b == b;
      assert NodesNotOfKind(a, kind) == [];
    }
  }

  lemma {:induction false} NodesNotInAppend(a: seq<Node>, b: seq<Node>, connected: set<string>)
    ensures NodesNotIn(a + b, connected) == NodesNotIn(a, connected) + NodesNotIn(b, connected)
    ensures forall n :: NodesNotIn([n], connected) == if n.id !in connected then [n] else []
  {
    if a != [] {
      var head := if a[0].id !in connected then [a[0]] else [];
      assert (a + b)[0] == a[0] && (a + b)[1..] == a[1..] + b;
      assert NodesNotIn(a + b, connected) == head + NodesNotIn(a[1..] + b, connected);
      NodesNotInAppend(a[1..], b, connected);
      assert NodesNotIn(a, connected) == head + NodesNotIn(a[1..], connected);
      SeqAppendAssoc(head, NodesNotIn(a[1..], connected), NodesNotIn(b, connected));
    } else {
      assert a + b == b;
      assert NodesNotIn(a, connected) == [];
    }
  }

  lemma {:induction false} EdgesFromAppend(a: seq<Edge>, b: seq<Edge>, id: string)
    ensures EdgesFrom(a + b, id) == EdgesFrom(a, id) + EdgesFrom(b, id)
    ensures forall e :: EdgesFrom([e], id) == if e.source == id then [e] else []
  {
    if a != [] {
      var head := if a[0].source == id then [a[0]] else [];
      assert (a + b)[0] == a[0] && (a + b)[1..] == a[1..] + b;
      assert EdgesFrom(a + b, id) == head + EdgesFrom(a[1..] + b, id);
      EdgesFromAppend(a[1..], b, id);
      assert EdgesFrom(a, id) == head + EdgesFrom(a[1..], id);
      SeqAppendAssoc(head, EdgesFrom(a[1..], id), EdgesFrom(b, id));
    } else {
      assert a + b == b;
      assert EdgesFrom(a, id) == [];
    }
  }

  lemma {:induction false} EdgesIntoAppend(a: seq<Edge>, b: seq<Edge>, id: string)
    ensures EdgesInto(a + b, id) == EdgesInto(a, id) + EdgesInto(b, id)
    ensures forall e :: EdgesInto([e], id) == if e.target == id then [e] else []
  {
    if a != [] {
      var head := if a[0].target == id then [a[0]] else [];
      assert (a + b)[0] == a[0] && (a + b)[1..] == a[1..] + b;
      assert EdgesInto(a + b, id) == head + EdgesInto(a[1..] + b, id);
      EdgesIntoAppend(a[1..], b, id);
      assert EdgesInto(a, id) == head + EdgesInto(a[1..], id);
      SeqAppendAssoc(head, EdgesInto(a[1..], id), EdgesInto(b, id));
    } else {
      assert a + b == b;
      assert EdgesInto(a, id) == [];
    }
  }

  /** Concatenation is associative; the laws above regroup with it. */
  lemma SeqAppendAssoc<T>(x: seq<T>, y: seq<T>, z: seq<T>)
    ensures x + (y + z) == x + y + z
  {
  }

  // The id lists the validators put into issues: `NodeIds` for the
  // `nodeIds` of a node filter, `EdgeIds` (the same map over edges) for the
  // `edgeIds` of an edge filter or a reported cycle.

  /** `nodes.map((node) => node.id)` */
  function NodeIds(nodes: seq<Node>): (r: seq<string>)
    ensures |r| == |nodes|
    ensures forall i :: 0 <= i < |nodes| ==> r[i] == nodes[i].id
  {
    seq(|nodes|, i requires 0 <= i < |nodes| => nodes[i].id)
  }

  /** `edges.map((edge) => edge.id)` */
  function EdgeIds(edges: seq<Edge>): (r: seq<string>)
    ensures |r| == |edges|
    ensures forall i :: 0 <= i < |edges| ==> r[i] == edges[i].id
  {
    seq(|edges|, i requires 0 <= i < |edges| => edges[i].id)
  }

  /** The targets of a list of edges, position by position. */
  function EdgeTargets(edges: seq<Edge>): (r: seq<string>)
    ensures |r| == |edges|
    ensures forall i :: 0 <= i < |edges| ==> r[i] == edges[i].target
  {
    seq(|edges|, i requires 0 <= i < |edges| => edges[i].target)
  }

  /** Some edge has `id` as its source or its target. */
  predicate Touched(edges: seq<Edge>, id: string)
  {
    exists e :: e in edges && (e.source == id || e.target == id)
  }

  /**
   * The set the validators fill with `connectedNodeIds.add(edge.source)` and
   * `connectedNodeIds.add(edge.target)`, edge by edge.
   */
  function ConnectedIds(edges: seq<Edge>): (r: set<string>)
    ensures forall id :: id in r <==> Touched(edges, id)
  {
    if edges == [] then {}
    else
      var last := edges[|edges| - 1];
      var r := ConnectedIds(edges[..|edges| - 1]) + {last.source, last.target};
      assert forall e :: e in edges <==> e in edges[..|edges| - 1] || e == last;
      r
  }

  /** The `edges.forEach` loop both validators use to fill `connectedNodeIds`. */
  method CollectConnectedIds(edges: seq<Edge>) returns (connectedNodeIds: set<string>)
    ensures connectedNodeIds == ConnectedIds(edges)
    ensures forall id :: id in connectedNodeIds <==> Touched(edges, id)
  {
    connectedNodeIds := {};
    for k := 0 to |edges|
      invariant connectedNodeIds == ConnectedIds(edges[..k])
    {
      connectedNodeIds := connectedNodeIds + {edges[k].source};
      connectedNodeIds := connectedNodeIds + {edges[k].target};
      assert edges[..k + 1][..k] == edges[..k];
    }
    assert edges[..|edges|] == edges;
  }

  /** The set every depth-first search ranges over: the start id and every edge target. */
  function SearchUniverse(edges: seq<Edge>, start: string): (u: set<string>)
    ensures start in u
    ensures forall e :: e in edges ==> e.target in u
  {
    {start} + set e | e in edges :: e.target
  }

  // ---------------------------------------------------------------------
  // Walks and the cycles reachable from a node
  // ---------------------------------------------------------------------

  /** `w` is a walk along `edges` that leaves from `from`. */
  ghost predicate IsWalk(edges: seq<Edge>, from: string, w: seq<Edge>)
  {
    && (forall i :: 0 <= i < |w| ==> w[i] in edges)
    && (|w| > 0 ==> w[0].source == from)
    && (forall i :: 0 <= i < |w| - 1 ==> Follows(w, i))
  }

  /** The edge after position `i` of `w` starts where edge `i` ends. */
  ghost predicate Follows(w: seq<Edge>, i: nat)
    requires i < |w| - 1
  {
    w[i].target == w[i + 1].source
  }

  /** The last edge of `w` returns to a node the walk has already been at. */
  ghost predicate Revisits(from: string, w: seq<Edge>)
  {
    && |w| > 0
    && (|| w[|w| - 1].target == from
        || exists j :: 0 <= j < |w| - 1 && w[j].target == w[|w| - 1].target)
  }

  /** A directed cycle can be reached from `from`. */
  ghost predicate CycleReachable(edges: seq<Edge>, from: string)
  {
    exists w :: IsWalk(edges, from, w) && Revisits(from, w)
  }

  /** The node a walk from `from` ends at. */
  ghost function WalkEnd(from: string, w: seq<Edge>): string
  {
    if w == [] then from else w[|w| - 1].target
  }

  /** There is a non-empty closed walk at the end of a walk from `from`. */
  ghost predicate ClosedWalkReachable(edges: seq<Edge>, from: string)
  {
    exists p, c :: && IsWalk(edges, from, p) && IsWalk(edges, WalkEnd(from, p), c)
                   && |c| > 0 && WalkEnd(WalkEnd(from, p), c) == WalkEnd(from, p)
  }

  lemma RevisitingWalkHasClosedPart(edges: seq<Edge>, from: string, w: seq<Edge>)
    requires IsWalk(edges, from, w) && Revisits(from, w)
    ensures ClosedWalkReachable(edges, from)
  {
    var n := |w|;
    if w[n - 1].target == from {
      var p: seq<Edge> := [];
      assert IsWalk(edges, from, p) && IsWalk(edges, WalkEnd(from, p), w);
      assert WalkEnd(WalkEnd(from, p), w) == WalkEnd(from, p);
    } else {
      var j :| 0 <= j < n - 1 && w[j].target == w[n - 1].target;
      var p, c := w[..j + 1], w[j + 1..];
      assert WalkEnd(from, p) == w[j].target;
      forall i | 0 <= i < |p| - 1 ensures Follows(p, i) {
        assert Follows(w, i);
      }
      forall i | 0 <= i < |c| - 1 ensures Follows(c, i) {
        assert Follows(w, i + j + 1);
      }
      assert Follows(w, j);
      assert IsWalk(edges, from, p);
      assert IsWalk(edges, WalkEnd(from, p), c);
      assert WalkEnd(WalkEnd(from, p), c) == WalkEnd(from, p);
    }
  }

  lemma ClosedPartGivesRevisitingWalk(edges: seq<Edge>, from: string, p: seq<Edge>, c: seq<Edge>)
    requires IsWalk(edges, from, p) && IsWalk(edges, WalkEnd(from, p), c)
    requires |c| > 0 && WalkEnd(WalkEnd(from, p), c) == WalkEnd(from, p)
    ensures CycleReachable(edges, from)
  {
    var w := p + c;
    forall i | 0 <= i < |w| - 1 ensures Follows(w, i) {
      if i == |p| - 1 {
        assert w[i].target == WalkEnd(from, p);
      } else if i < |p| - 1 {
        assert w[i] == p[i] && w[i + 1] == p[i + 1] && Follows(p, i);
      } else {
        assert w[i] == c[i - |p|] && w[i + 1] == c[i - |p| + 1] && Follows(c, i - |p|);
      }
    }
    if p == [] {
      assert w == c;
      assert w[|w| - 1].target == from;
    } else {
      assert w[0] == p[0];
      assert w[|p| - 1].target == w[|w| - 1].target;
    }
    assert IsWalk(edges, from, w) && Revisits(from, w);
  }

  /**
   * `CycleReachable` is the textbook notion: some node reachable from `from`
   * lies on a non-empty closed walk.
   */
  lemma CycleReachableIsClosedWalk(edges: seq<Edge>, from: string)
    ensures CycleReachable(edges, from) <==> ClosedWalkReachable(edges, from)
  {
    if CycleReachable(edges, from) {
      var w: seq<Edge> :| IsWalk(edges, from, w) && Revisits(from, w);
      RevisitingWalkHasClosedPart(edges, from, w);
    }
    if ClosedWalkReachable(edges, from) {
      var p: seq<Edge>, c: seq<Edge> :| && IsWalk(edges, from, p) && IsWalk(edges, WalkEnd(from, p), c)
                                       && |c| > 0 && WalkEnd(WalkEnd(from, p), c) == WalkEnd(from, p);
      ClosedPartGivesRevisitingWalk(edges, from, p, c);
    }
  }

  // ---------------------------------------------------------------------
  // What a depth-first search reports, and why its verdicts are right
  // ---------------------------------------------------------------------

  /**
   * The edges a search reports when its visit of `u` finds a cycle, deepest
   * first: `c[0]` closes the cycle, and each later edge is the tree edge into
   * the source of the one before it, the last one leaving `u`. The sources
   * are the nodes of the search path from `u` down, each once and none of
   * them in `stack` (the nodes being visited when `u` was entered). The
   * closing edge's target was on the search stack: in `stack`, `u` itself,
   * or a target of a later edge.
   */
  ghost predicate ReportsCycle(edges: seq<Edge>, c: seq<Edge>, u: string, stack: set<string>)
  {
    && |c| > 0
    && (forall i :: 0 <= i < |c| ==> c[i] in edges)
    && c[|c| - 1].source == u
    && (forall i :: 0 <= i < |c| - 1 ==> Precedes(c, i))
    && (forall i :: 0 <= i < |c| ==> FreshSource(c, i, stack))
    && (|| c[0].target in stack
        || c[0].target == u
        || exists j :: 1 <= j < |c| && c[j].target == c[0].target)
  }

  /** Edge `i + 1` of a report is the tree edge into the source of edge `i`. */
  ghost predicate Precedes(c: seq<Edge>, i: nat)
    requires i < |c| - 1
  {
    c[i].source == c[i + 1].target
  }

  /** The source of edge `i` of a report is not in `stack` and is no later edge's source. */
  ghost predicate FreshSource(c: seq<Edge>, i: nat, stack: set<string>)
    requires i < |c|
  {
    && c[i].source !in stack
    && forall j :: i < j < |c| ==> c[i].source != c[j].source
  }

  /** Soundness: a report from the outermost visit is a cycle reachable from it. */
  lemma ReportedCycleIsReachable(edges: seq<Edge>, c: seq<Edge>, start: string)
    requires ReportsCycle(edges, c, start, {})
    ensures CycleReachable(edges, start)
  {
    var n := |c|;
    var w := seq(n, k requires 0 <= k < n => c[n - 1 - k]);
    assert IsWalk(edges, start, w) by {
      forall k | 0 <= k < n - 1 ensures Follows(w, k) {
        assert Precedes(c, n - 2 - k);
      }
    }
    if c[0].target != start {
      var j :| 1 <= j < n && c[j].target == c[0].target;
      assert w[n - 1 - j].target == w[n - 1].target;
    }
    assert Revisits(start, w);
  }

  /**
   * The search's record of finished nodes: `rank` gives each one its finishing
   * time, and every edge out of a finished node leads to a node that finished
   * earlier.
   */
  ghost predicate Ranked(edges: seq<Edge>, rank: map<string, nat>)
  {
    forall e :: e in edges && e.source in rank ==>
      e.target in rank && rank[e.target] < rank[e.source]
  }

  lemma {:induction false} RankFallsAlongWalk(edges: seq<Edge>, rank: map<string, nat>, from: string, w: seq<Edge>)
    requires Ranked(edges, rank) && from in rank && IsWalk(edges, from, w) && |w| > 0
    ensures forall i :: 0 <= i < |w| ==> w[i].source in rank && w[i].target in rank
    ensures forall k :: 0 <= k < |w| ==> rank[w[|w| - 1].target] < rank[w[k].source]
  {
    var n := |w|;
    if n > 1 {
      var v := w[..n - 1];
      forall i | 0 <= i < |v| - 1 ensures Follows(v, i) {
        assert Follows(w, i);
      }
      assert IsWalk(edges, from, v);
      RankFallsAlongWalk(edges, rank, from, v);
      assert Follows(w, n - 2);
      assert w[n - 1].source == v[n - 2].target;
    }
    assert w[n - 1] in edges;
  }

  /** Completeness: once the start node has finished, no cycle is reachable from it. */
  lemma RankedStartHasNoCycle(edges: seq<Edge>, rank: map<string, nat>, start: string)
    requires Ranked(edges, rank) && start in rank
    ensures !CycleReachable(edges, start)
  {
    forall w: seq<Edge> | IsWalk(edges, start, w) && |w| > 0 ensures !Revisits(start, w) {
      RankFallsAlongWalk(edges, rank, start, w);
      forall j | 0 <= j < |w| - 1 ensures w[j].target != w[|w| - 1].target {
        assert Follows(w, j);
      }
    }
  }

  /** A report from a child visit, extended by the tree edge into the child. */
  lemma ExtendReport(edges: seq<Edge>, c: seq<Edge>, edge: Edge, u: string, stack: set<string>)
    requires ReportsCycle(edges, c, edge.target, stack + {u}) && edge in edges && edge.source == u && u !in stack
    ensures ReportsCycle(edges, c + [edge], u, stack)
  {
    var d := c + [edge];
    assert d[|c|] == edge;
    forall i | 0 <= i < |d| - 1 ensures Precedes(d, i) {
      if i < |c| - 1 {
        assert d[i] == c[i] && d[i + 1] == c[i + 1] && Precedes(c, i);
      }
    }
    forall i | 0 <= i < |d| ensures FreshSource(d, i, stack) {
      if i < |c| {
        assert d[i] == c[i] && FreshSource(c, i, stack + {u});
        forall j | i < j < |d| ensures d[i].source != d[j].source {
          if j < |c| {
            assert d[j] == c[j];
          }
        }
      }
    }
    assert d[0] == c[0];
    if c[0].target == edge.target {
      assert d[|c|].target == d[0].target;
    } else if c[0].target !in stack + {u} {
      var j :| 1 <= j < |c| && c[j].target == c[0].target;
      assert d[j] == c[j];
    }
  }

  /** Finishing `u`, all of whose out-edges lead to finished nodes, keeps the ranking. */
  lemma FinishKeepsRanked(edges: seq<Edge>, rank: map<string, nat>, u: string, clock: nat, outgoing: seq<Edge>)
    requires Ranked(edges, rank) && u !in rank
    requires forall v :: v in rank ==> rank[v] < clock
    requires forall e :: e in outgoing <==> e in edges && e.source == u
    requires forall j :: 0 <= j < |outgoing| ==> outgoing[j].target in rank
    ensures Ranked(edges, rank[u := clock])
  {
    forall e | e in edges && e.source == u
      ensures e.target in rank && rank[e.target] < clock
    {
      var j :| 0 <= j < |outgoing| && outgoing[j] == e;
    }
  }
}

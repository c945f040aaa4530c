/**
 * What a result of `validateFlowchart` says about the chart it was computed
 * from: one lemma per rule, each about every result `Conforms` admits, so
 * each holds of what `Validations.ValidateFlowchart` returns.
 */
module ValidationProperties {
  import opened Wrappers
  import opened Text
  import opened Graph
  import opened Validations

  // ---------------------------------------------------------------------
  // Which check an issue comes from
  // ---------------------------------------------------------------------

  /** The end-node loop pushes, for each end node with outgoing edges, its own error. */
  lemma {:induction false} EndOutgoingMembers(ends: seq<Node>, edges: seq<Edge>)
    ensures forall x :: x in EndOutgoingIssues(ends, edges) <==>
      exists n :: n in ends && |EdgesFrom(edges, n.id)| > 0 && x == EndOutgoing(n, edges)
  {
    if ends != [] {
      var init := ends[..|ends| - 1];
      EndOutgoingMembers(init, edges);
      assert forall n :: n in ends <==> n in init || n == ends[|ends| - 1];
    }
  }

  /** The non-end loop pushes, for each node without outgoing edges, its own warning. */
  lemma {:induction false} DeadEndMembers(nonEnds: seq<Node>, edges: seq<Edge>)
    ensures forall x :: x in DeadEndWarnings(nonEnds, edges) <==>
      exists n :: n in nonEnds && |EdgesFrom(edges, n.id)| == 0 && x == DeadEnd(n)
  {
    if nonEnds != [] {
      var init := nonEnds[..|nonEnds| - 1];
      DeadEndMembers(init, edges);
      assert forall n :: n in nonEnds <==> n in init || n == nonEnds[|nonEnds| - 1];
    }
  }

  /** The check an issue comes from, read off its severity and message. */
  datatype CheckKind = CountCheck | EndCheck | UnconnectedCheck | IncomingCheck | OutgoingCheck | DeadEndCheck | CycleCheck

  function CheckOf(x: Issue): CheckKind
  {
    if x.severity == Warning then DeadEndCheck
    else if x.message == MissingStartMessage || x.message == MultipleStartMessage then CountCheck
    else if x.message == MissingEndMessage then EndCheck
    else if x.message == StartIncomingMessage then IncomingCheck
    else if x.message == EndOutgoingMessage then OutgoingCheck
    else if x.message == CycleMessage then CycleCheck
    else UnconnectedCheck
  }

  /** The unconnected-nodes message is none of the fixed messages. */
  lemma UnconnectedMessageIsDistinct(k: nat)
    ensures var m := NatToString(k) + UnconnectedSuffix;
      && m != MissingStartMessage && m != MultipleStartMessage && m != MissingEndMessage
      && m != StartIncomingMessage && m != EndOutgoingMessage && m != CycleMessage
  {
    var m := NatToString(k) + UnconnectedSuffix;
    assert m[0] == NatToString(k)[0];
    assert m[|m| - 1] == UnconnectedSuffix[28] == 'd';
    assert MultipleStartMessage[0] == 'M';
    assert StartIncomingMessage[46] == 's' && EndOutgoingMessage[32] == 's' && CycleMessage[30] == 't';
  }

  /** The fixed messages are pairwise distinct, so each names one check. */
  lemma FixedKinds(a: Option<seq<string>>, b: Option<seq<string>>)
    ensures CheckOf(Issue(Error, MissingStartMessage, a, b)) == CountCheck
    ensures CheckOf(Issue(Error, MultipleStartMessage, a, b)) == CountCheck
    ensures CheckOf(Issue(Error, MissingEndMessage, a, b)) == EndCheck
    ensures CheckOf(Issue(Error, StartIncomingMessage, a, b)) == IncomingCheck
    ensures CheckOf(Issue(Error, EndOutgoingMessage, a, b)) == OutgoingCheck
    ensures CheckOf(Issue(Error, CycleMessage, a, b)) == CycleCheck
  {
    assert |MissingStartMessage| == 18 && |MultipleStartMessage| == 29 && |MissingEndMessage| == 16;
    assert |StartIncomingMessage| == 47 && |EndOutgoingMessage| == 33 && |CycleMessage| == 31;
  }

  /** Each check's issues carry that check's kind. */
  lemma PieceKinds(nodes: seq<Node>, edges: seq<Edge>)
    ensures forall x :: x in StartCardinalityIssues(nodes) ==> CheckOf(x) == CountCheck
    ensures forall x :: x in EndPresenceIssues(nodes) ==> CheckOf(x) == EndCheck
    ensures forall x :: x in UnconnectedIssues(nodes, edges) ==> CheckOf(x) == UnconnectedCheck
    ensures forall x :: x in StartIncomingIssues(nodes, edges) ==> CheckOf(x) == IncomingCheck
    ensures forall x :: x in EndOutgoingIssues(NodesOfKind(nodes, EndKind), edges) ==> CheckOf(x) == OutgoingCheck
    ensures forall x :: x in DeadEndWarnings(NodesNotOfKind(nodes, EndKind), edges) ==> CheckOf(x) == DeadEndCheck
  {
    StartCountKinds(nodes);
    EndPresenceKinds(nodes);
    UnconnectedKinds(nodes, edges);
    StartIncomingKinds(nodes, edges);
    EndOutgoingKinds(NodesOfKind(nodes, EndKind), edges);
    DeadEndKinds(NodesNotOfKind(nodes, EndKind), edges);
  }

  /** The start-count check's issue carries the count kind. */
  lemma StartCountKinds(nodes: seq<Node>)
    ensures forall x :: x in StartCardinalityIssues(nodes) ==> CheckOf(x) == CountCheck
  {
    forall x | x in StartCardinalityIssues(nodes) ensures CheckOf(x) == CountCheck {
      FixedKinds(x.nodeIds, x.edgeIds);
    }
  }

  /** The end-presence check's issue carries the end kind. */
  lemma EndPresenceKinds(nodes: seq<Node>)
    ensures forall x :: x in EndPresenceIssues(nodes) ==> CheckOf(x) == EndCheck
  {
    FixedKinds(None, None);
  }

  /** The unconnected-nodes issue carries the unconnected kind. */
  lemma UnconnectedKinds(nodes: seq<Node>, edges: seq<Edge>)
    ensures forall x :: x in UnconnectedIssues(nodes, edges) ==> CheckOf(x) == UnconnectedCheck
  {
    var u := UnconnectedIssues(nodes, edges);
    if u != [] {
      UnconnectedMessageIsDistinct(|u[0].nodeIds.value|);
    }
  }

  /** The start-incoming issue carries the incoming kind. */
  lemma StartIncomingKinds(nodes: seq<Node>, edges: seq<Edge>)
    ensures forall x :: x in StartIncomingIssues(nodes, edges) ==> CheckOf(x) == IncomingCheck
  {
    forall x | x in StartIncomingIssues(nodes, edges) ensures CheckOf(x) == IncomingCheck {
      FixedKinds(x.nodeIds, x.edgeIds);
    }
  }

  /** Every issue of the end-node loop carries the end-outgoing kind. */
  lemma EndOutgoingKinds(ends: seq<Node>, edges: seq<Edge>)
    ensures forall x :: x in EndOutgoingIssues(ends, edges) ==> CheckOf(x) == OutgoingCheck
  {
    EndOutgoingMembers(ends, edges);
    forall x | x in EndOutgoingIssues(ends, edges) ensures CheckOf(x) == OutgoingCheck {
      var n :| n in ends && |EdgesFrom(edges, n.id)| > 0 && x == EndOutgoing(n, edges);
      FixedKinds(x.nodeIds, x.edgeIds);
    }
  }

  /** Every issue of the non-end loop carries the dead-end kind. */
  lemma DeadEndKinds(nonEnds: seq<Node>, edges: seq<Edge>)
    ensures forall x :: x in DeadEndWarnings(nonEnds, edges) ==> CheckOf(x) == DeadEndCheck
  {
    DeadEndMembers(nonEnds, edges);
  }

  /** Results of the full rule set split into the structural issues and the cycle report. */
  lemma SplitIssues(nodes: seq<Node>, edges: seq<Edge>, r: ValidationResult)
    requires Conforms(nodes, edges, r) && !HasKind(nodes, ForLoopKind) && nodes != []
    ensures r.issues == StructuralIssues(nodes, edges) + r.issues[|StructuralIssues(nodes, edges)|..]
    ensures CycleReport(nodes, edges, r.issues[|StructuralIssues(nodes, edges)|..])
  {
    PrefixSplit(r.issues, StructuralIssues(nodes, edges));
  }

  /** A list that starts with `s` is `s` followed by the rest. */
  lemma PrefixSplit(all: seq<Issue>, s: seq<Issue>)
    requires |s| <= |all| && all[..|s|] == s
    ensures all == s + all[|s|..]
  {
    assert all == all[..|s|] + all[|s|..];
  }

  /** The cycle search's issue carries the cycle kind. */
  lemma CycleKinds(nodes: seq<Node>, edges: seq<Edge>, cyc: seq<Issue>)
    requires CycleReport(nodes, edges, cyc)
    ensures forall x :: x in cyc ==> CheckOf(x) == CycleCheck
  {
    if cyc != [] {
      var c: seq<Edge> :| cyc[0] == CycleIssue(c);
      FixedKinds(Some(EdgeTargets(c)), Some(EdgeIds(c)));
    }
  }

  /** The structural issues, sorted by kind: each kind comes from its own check. */
  lemma StructuralByKind(p1: seq<Issue>, p2: seq<Issue>, p3: seq<Issue>, p4: seq<Issue>, p5: seq<Issue>, p6: seq<Issue>, cyc: seq<Issue>)
    requires forall x :: x in p1 ==> CheckOf(x) == CountCheck
    requires forall x :: x in p2 ==> CheckOf(x) == EndCheck
    requires forall x :: x in p3 ==> CheckOf(x) == UnconnectedCheck
    requires forall x :: x in p4 ==> CheckOf(x) == IncomingCheck
    requires forall x :: x in p5 ==> CheckOf(x) == OutgoingCheck
    requires forall x :: x in p6 ==> CheckOf(x) == DeadEndCheck
    requires forall x :: x in cyc ==> CheckOf(x) == CycleCheck
    ensures forall x :: x in p1 + p2 + p3 + p4 + p5 + p6 + cyc ==>
        && (CheckOf(x) == CountCheck <==> x in p1)
        && (CheckOf(x) == EndCheck <==> x in p2)
        && (CheckOf(x) == UnconnectedCheck <==> x in p3)
        && (CheckOf(x) == IncomingCheck <==> x in p4)
        && (CheckOf(x) == OutgoingCheck <==> x in p5)
        && (CheckOf(x) == DeadEndCheck <==> x in p6)
        && (CheckOf(x) == CycleCheck <==> x in cyc)
  {
  }

  /** Issues of the full rule set, sorted by kind: each kind comes from its own check. */
  lemma IssuesByKind(nodes: seq<Node>, edges: seq<Edge>, r: ValidationResult)
    requires Conforms(nodes, edges, r) && !HasKind(nodes, ForLoopKind) && nodes != []
    ensures var cyc := r.issues[|StructuralIssues(nodes, edges)|..];
      forall x :: x in r.issues ==>
        && (CheckOf(x) == CountCheck <==> x in StartCardinalityIssues(nodes))
        && (CheckOf(x) == EndCheck <==> x in EndPresenceIssues(nodes))
        && (CheckOf(x) == UnconnectedCheck <==> x in UnconnectedIssues(nodes, edges))
        && (CheckOf(x) == IncomingCheck <==> x in StartIncomingIssues(nodes, edges))
        && (CheckOf(x) == OutgoingCheck <==> x in EndOutgoingIssues(NodesOfKind(nodes, EndKind), edges))
        && (CheckOf(x) == DeadEndCheck <==> x in DeadEndWarnings(NodesNotOfKind(nodes, EndKind), edges))
        && (CheckOf(x) == CycleCheck <==> x in cyc)
  {
    SplitIssues(nodes, edges, r);
    PieceKinds(nodes, edges);
    var s := StructuralIssues(nodes, edges);
    var cyc := r.issues[|s|..];
    CycleKinds(nodes, edges, cyc);
    StructuralByKind(StartCardinalityIssues(nodes), EndPresenceIssues(nodes), UnconnectedIssues(nodes, edges),
      StartIncomingIssues(nodes, edges), EndOutgoingIssues(NodesOfKind(nodes, EndKind), edges),
      DeadEndWarnings(NodesNotOfKind(nodes, EndKind), edges), cyc);
  }

  /** `CheckOf` in terms of severities and messages. */
  lemma KindByMessage(x: Issue)
    ensures CheckOf(x) == DeadEndCheck <==> x.severity == Warning
    ensures CheckOf(x) == CountCheck <==>
      x.severity == Error && (x.message == MissingStartMessage || x.message == MultipleStartMessage)
    ensures CheckOf(x) == EndCheck <==> x.severity == Error && x.message == MissingEndMessage
    ensures CheckOf(x) == IncomingCheck <==> x.severity == Error && x.message == StartIncomingMessage
    ensures CheckOf(x) == OutgoingCheck <==> x.severity == Error && x.message == EndOutgoingMessage
    ensures CheckOf(x) == CycleCheck <==> x.severity == Error && x.message == CycleMessage
  {
    FixedKinds(x.nodeIds, x.edgeIds);
  }

  // ---------------------------------------------------------------------
  // The result as a whole
  // ---------------------------------------------------------------------

  /** `valid` holds exactly when no issue, error or warning, was collected. */
  lemma ValidIffNoIssues(nodes: seq<Node>, edges: seq<Edge>, r: ValidationResult)
    requires Conforms(nodes, edges, r)
    ensures r.valid <==> r.issues == []
    ensures nodes != [] || HasKind(nodes, ForLoopKind) ==> r.message == (if r.valid then ValidMessage else IssuesMessage)
  {
  }

  /** Without nodes the result is the empty-chart error alone. */
  lemma EmptyChart(edges: seq<Edge>, r: ValidationResult)
    requires Conforms([], edges, r)
    ensures !r.valid && r.message == EmptyMessage
    ensures r.issues == [Issue(Error, NoNodesMessage, None, None)]
  {
    assert !HasKind([], ForLoopKind);
  }

  /**
   * A `forloop` node reduces the rules to the presence of start and end
   * nodes: nothing else is reported, and the chart is valid exactly when both
   * kinds are present.
   */
  lemma ForLoopChart(nodes: seq<Node>, edges: seq<Edge>, r: ValidationResult)
    requires Conforms(nodes, edges, r) && HasKind(nodes, ForLoopKind)
    ensures forall x :: x in r.issues ==> x == MissingStart || x == MissingEnd
    ensures r.valid <==> HasKind(nodes, StartKind) && HasKind(nodes, EndKind)
    ensures MissingStart in r.issues <==> !HasKind(nodes, StartKind)
    ensures MissingEnd in r.issues <==> !HasKind(nodes, EndKind)
  {
    var l := LoopIssues(nodes);
    assert r.issues == l;
    if HasKind(nodes, StartKind) && HasKind(nodes, EndKind) {
      assert l == [];
    } else if !HasKind(nodes, StartKind) {
      assert MissingStart in l;
    } else {
      assert MissingEnd in l;
    }
  }

  // ---------------------------------------------------------------------
  // The full rule set, check by check
  // ---------------------------------------------------------------------

  /**
   * The first issue reports a start node count other than one. With several
   * start nodes it lists all of them, in node order, and it is the only
   * count error; the start-incoming check and the cycle search are skipped.
   */
  lemma StartCountReport(nodes: seq<Node>, edges: seq<Edge>, r: ValidationResult)
    requires Conforms(nodes, edges, r) && !HasKind(nodes, ForLoopKind) && nodes != []
    ensures var starts := NodesOfKind(nodes, StartKind);
      && (|starts| == 0 ==> r.issues[0] == MissingStart)
      && (|starts| > 1 ==> r.issues[0] == Issue(Error, MultipleStartMessage, Some(NodeIds(starts)), None))
      && (forall x :: x in r.issues && CheckOf(x) == CountCheck ==> |starts| != 1 && x == r.issues[0])
      && (|starts| > 1 ==> forall x :: x in r.issues ==> CheckOf(x) != IncomingCheck && CheckOf(x) != CycleCheck)
  {
    IssuesByKind(nodes, edges, r);
    var starts := NodesOfKind(nodes, StartKind);
    var s := StructuralIssues(nodes, edges);
    if |starts| != 1 {
      assert r.issues[0] == s[0] == StartCardinalityIssues(nodes)[0];
    }
  }

  /**
   * One error exactly when some node is neither the source nor the target of
   * an edge; it lists those nodes in node order and its message carries their
   * number.
   */
  lemma UnconnectedReport(nodes: seq<Node>, edges: seq<Edge>, r: ValidationResult)
    requires Conforms(nodes, edges, r) && !HasKind(nodes, ForLoopKind) && nodes != []
    ensures (exists x :: x in r.issues && CheckOf(x) == UnconnectedCheck) <==>
      exists n :: n in nodes && !Touched(edges, n.id)
    ensures forall x :: x in r.issues && CheckOf(x) == UnconnectedCheck ==>
      var loose := NodesNotIn(nodes, ConnectedIds(edges));
      && x == Issue(Error, NatToString(|loose|) + UnconnectedSuffix, Some(NodeIds(loose)), None)
      && (forall id :: id in NodeIds(loose) <==> exists n :: n in nodes && n.id == id && !Touched(edges, id))
  {
    IssuesByKind(nodes, edges, r);
    SplitIssues(nodes, edges, r);
    var u := UnconnectedIssues(nodes, edges);
    if u != [] {
      assert u[0] in StructuralIssues(nodes, edges);
      PieceKinds(nodes, edges);
    }
  }

  /**
   * With exactly one start node, one error exactly when an edge enters it,
   * naming the start node and, in edge order, every edge into it.
   */
  lemma StartIncomingReport(nodes: seq<Node>, edges: seq<Edge>, r: ValidationResult)
    requires Conforms(nodes, edges, r) && !HasKind(nodes, ForLoopKind) && nodes != []
    ensures var starts := NodesOfKind(nodes, StartKind);
      (exists x :: x in r.issues && CheckOf(x) == IncomingCheck) <==>
        |starts| == 1 && exists e :: e in edges && e.target == starts[0].id
    ensures forall x :: x in r.issues && CheckOf(x) == IncomingCheck ==>
      var id := NodesOfKind(nodes, StartKind)[0].id;
      x == Issue(Error, StartIncomingMessage, Some([id]), Some(EdgeIds(EdgesInto(edges, id))))
  {
    IssuesByKind(nodes, edges, r);
    SplitIssues(nodes, edges, r);
    var p := StartIncomingIssues(nodes, edges);
    if p != [] {
      assert p[0] in StructuralIssues(nodes, edges);
      PieceKinds(nodes, edges);
    }
  }

  /** Each end node with outgoing edges gets its own error listing them, and there are no others. */
  lemma EndOutgoingReport(nodes: seq<Node>, edges: seq<Edge>, r: ValidationResult)
    requires Conforms(nodes, edges, r) && !HasKind(nodes, ForLoopKind) && nodes != []
    ensures forall x :: x in r.issues && CheckOf(x) == OutgoingCheck ==>
      exists n :: n in nodes && n.kind == EndKind && |EdgesFrom(edges, n.id)| > 0 && x == EndOutgoing(n, edges)
    ensures forall n :: n in nodes && n.kind == EndKind && |EdgesFrom(edges, n.id)| > 0 ==>
      EndOutgoing(n, edges) in r.issues
  {
    IssuesByKind(nodes, edges, r);
    SplitIssues(nodes, edges, r);
    EndOutgoingMembers(NodesOfKind(nodes, EndKind), edges);
  }

  /**
   * The warnings are exactly one per node other than an end node that has no
   * outgoing edge, naming it and quoting its label.
   */
  lemma DeadEndReport(nodes: seq<Node>, edges: seq<Edge>, r: ValidationResult)
    requires Conforms(nodes, edges, r) && !HasKind(nodes, ForLoopKind) && nodes != []
    ensures forall x :: x in r.issues && x.severity == Warning ==>
      exists n :: n in nodes && n.kind != EndKind && |EdgesFrom(edges, n.id)| == 0 && x == DeadEnd(n)
    ensures forall n :: n in nodes && n.kind != EndKind && |EdgesFrom(edges, n.id)| == 0 ==>
      Issue(Warning, DeadEndMessage(n.data.labelText), Some([n.id]), None) in r.issues
  {
    var s := StructuralIssues(nodes, edges);
    var d := DeadEndWarnings(NodesNotOfKind(nodes, EndKind), edges);
    SplitIssues(nodes, edges, r);
    PieceKinds(nodes, edges);
    CycleKinds(nodes, edges, r.issues[|s|..]);
    WarningsFromLastPiece(StartCardinalityIssues(nodes), EndPresenceIssues(nodes), UnconnectedIssues(nodes, edges),
      StartIncomingIssues(nodes, edges), EndOutgoingIssues(NodesOfKind(nodes, EndKind), edges), d, r.issues[|s|..]);
    DeadEndMembers(NodesNotOfKind(nodes, EndKind), edges);
  }

  /** Only the dead-end piece of a report holds warnings. */
  lemma WarningsFromLastPiece(p1: seq<Issue>, p2: seq<Issue>, p3: seq<Issue>, p4: seq<Issue>, p5: seq<Issue>, d: seq<Issue>, cyc: seq<Issue>)
    requires forall x :: x in p1 ==> CheckOf(x) == CountCheck
    requires forall x :: x in p2 ==> CheckOf(x) == EndCheck
    requires forall x :: x in p3 ==> CheckOf(x) == UnconnectedCheck
    requires forall x :: x in p4 ==> CheckOf(x) == IncomingCheck
    requires forall x :: x in p5 ==> CheckOf(x) == OutgoingCheck
    requires forall x :: x in cyc ==> CheckOf(x) == CycleCheck
    ensures forall x :: x in p1 + p2 + p3 + p4 + p5 + d + cyc && x.severity == Warning ==> x in d
    ensures forall x :: x in d ==> x in p1 + p2 + p3 + p4 + p5 + d + cyc
  {
  }

  /** What `CycleReport` admits: nothing, or one issue built from a reported back path. */
  lemma CycleReportShape(nodes: seq<Node>, edges: seq<Edge>, cyc: seq<Issue>)
    requires CycleReport(nodes, edges, cyc)
    ensures |cyc| <= 1 && forall x :: x in cyc ==> x == cyc[0]
    ensures var starts := NodesOfKind(nodes, StartKind);
      cyc != [] <==> |starts| == 1 && CycleReachable(edges, starts[0].id)
    ensures cyc != [] ==> exists c :: && ReportsCycle(edges, c, NodesOfKind(nodes, StartKind)[0].id, {})
                                      && cyc[0] == Issue(Error, CycleMessage, Some(EdgeTargets(c)), Some(EdgeIds(c)))
  {
  }

  /**
   * The cycle search, run only with exactly one start node, adds one last
   * issue exactly when a cycle is reachable from the start node; its edge ids
   * are a back path closed by an edge into the search stack, with each
   * node id the target of the edge at the same position.
   */
  lemma CycleSearchReport(nodes: seq<Node>, edges: seq<Edge>, r: ValidationResult)
    requires Conforms(nodes, edges, r) && !HasKind(nodes, ForLoopKind) && nodes != []
    ensures var starts := NodesOfKind(nodes, StartKind);
      (exists x :: x in r.issues && CheckOf(x) == CycleCheck) <==>
        |starts| == 1 && CycleReachable(edges, starts[0].id)
    ensures forall x :: x in r.issues && CheckOf(x) == CycleCheck ==>
      && x == r.issues[|r.issues| - 1]
      && exists c :: && ReportsCycle(edges, c, NodesOfKind(nodes, StartKind)[0].id, {})
                     && x == Issue(Error, CycleMessage, Some(EdgeTargets(c)), Some(EdgeIds(c)))
  {
    var s := StructuralIssues(nodes, edges);
    var cyc := r.issues[|s|..];
    var starts := NodesOfKind(nodes, StartKind);
    IssuesByKind(nodes, edges, r);
    SplitIssues(nodes, edges, r);
    CycleReportShape(nodes, edges, cyc);
    CycleIssueIsLast(r.issues, s, cyc, edges, if |starts| == 1 then starts[0].id else "");
  }

  /** A report whose one issue of the cycle kind, built from a back path, can only come last. */
  lemma CycleIssueIsLast(all: seq<Issue>, s: seq<Issue>, cyc: seq<Issue>, edges: seq<Edge>, start: string)
    requires all == s + cyc && |cyc| <= 1
    requires forall x :: x in all ==> (CheckOf(x) == CycleCheck <==> x in cyc)
    requires cyc != [] ==> exists c :: && ReportsCycle(edges, c, start, {})
                                       && cyc[0] == Issue(Error, CycleMessage, Some(EdgeTargets(c)), Some(EdgeIds(c)))
    ensures (exists x :: x in all && CheckOf(x) == CycleCheck) <==> cyc != []
    ensures forall x :: x in all && CheckOf(x) == CycleCheck ==>
      && x == all[|all| - 1]
      && exists c :: && ReportsCycle(edges, c, start, {})
                     && x == Issue(Error, CycleMessage, Some(EdgeTargets(c)), Some(EdgeIds(c)))
  {
    if cyc != [] {
      assert cyc[0] in all && all[|all| - 1] == cyc[0];
    }
  }

  /** No end node has an outgoing edge exactly when the end-node loop pushes nothing. */
  lemma NoEndOutgoing(nodes: seq<Node>, edges: seq<Edge>)
    ensures EndOutgoingIssues(NodesOfKind(nodes, EndKind), edges) == [] <==>
      forall n :: n in nodes && n.kind == EndKind ==> |EdgesFrom(edges, n.id)| == 0
  {
    var ends := NodesOfKind(nodes, EndKind);
    var p := EndOutgoingIssues(ends, edges);
    EndOutgoingMembers(ends, edges);
    forall n | n in nodes && n.kind == EndKind && |EdgesFrom(edges, n.id)| > 0 ensures EndOutgoing(n, edges) in p {
      assert n in ends;
    }
    if p != [] {
      assert p[0] in p;
      var n :| n in ends && |EdgesFrom(edges, n.id)| > 0 && p[0] == EndOutgoing(n, edges);
      assert n in nodes && n.kind == EndKind;
    }
  }

  /** Every other node has an outgoing edge exactly when the non-end loop pushes nothing. */
  lemma NoDeadEnd(nodes: seq<Node>, edges: seq<Edge>)
    ensures DeadEndWarnings(NodesNotOfKind(nodes, EndKind), edges) == [] <==>
      forall n :: n in nodes && n.kind != EndKind ==> |EdgesFrom(edges, n.id)| > 0
  {
    var nonEnds := NodesNotOfKind(nodes, EndKind);
    var p := DeadEndWarnings(nonEnds, edges);
    DeadEndMembers(nonEnds, edges);
    forall n | n in nodes && n.kind != EndKind && |EdgesFrom(edges, n.id)| == 0 ensures DeadEnd(n) in p {
      assert n in nonEnds;
    }
    if p != [] {
      assert p[0] in p;
      var n :| n in nonEnds && |EdgesFrom(edges, n.id)| == 0 && p[0] == DeadEnd(n);
      assert n in nodes && n.kind != EndKind;
    }
  }

  /** The structural conditions for a valid chart: everything but the cycle search. */
  predicate StructurallySound(nodes: seq<Node>, edges: seq<Edge>)
  {
    var starts := NodesOfKind(nodes, StartKind);
    && |starts| == 1
    && HasKind(nodes, EndKind)
    && (forall n :: n in nodes ==> Touched(edges, n.id))
    && (forall e :: e in edges ==> e.target != starts[0].id)
    && (forall n :: n in nodes && n.kind == EndKind ==> |EdgesFrom(edges, n.id)| == 0)
    && (forall n :: n in nodes && n.kind != EndKind ==> |EdgesFrom(edges, n.id)| > 0)
  }

  lemma NoStructuralIssues(nodes: seq<Node>, edges: seq<Edge>)
    ensures StructuralIssues(nodes, edges) == [] <==> StructurallySound(nodes, edges)
  {
    NoEndOutgoing(nodes, edges);
    NoDeadEnd(nodes, edges);
    EmptyConcat(StartCardinalityIssues(nodes), EndPresenceIssues(nodes), UnconnectedIssues(nodes, edges),
      StartIncomingIssues(nodes, edges), EndOutgoingIssues(NodesOfKind(nodes, EndKind), edges),
      DeadEndWarnings(NodesNotOfKind(nodes, EndKind), edges));
  }

  /** A concatenation of pieces is empty exactly when every piece is. */
  lemma EmptyConcat(p1: seq<Issue>, p2: seq<Issue>, p3: seq<Issue>, p4: seq<Issue>, p5: seq<Issue>, p6: seq<Issue>)
    ensures p1 + p2 + p3 + p4 + p5 + p6 == [] <==>
      p1 == [] && p2 == [] && p3 == [] && p4 == [] && p5 == [] && p6 == []
  {
    assert |p1 + p2 + p3 + p4 + p5 + p6| == |p1| + |p2| + |p3| + |p4| + |p5| + |p6|;
  }

  /** The full rule set's conditions for a valid chart. */
  ghost predicate WellFormed(nodes: seq<Node>, edges: seq<Edge>)
  {
    && StructurallySound(nodes, edges)
    && !CycleReachable(edges, NodesOfKind(nodes, StartKind)[0].id)
  }

  /**
   * Without a `forloop` node, a chart is valid exactly when it has one start
   * node without incoming edges, an end node, no unconnected node, no end
   * node with and no other node without outgoing edges, and no cycle
   * reachable from the start node. (The empty chart has no start node.)
   */
  lemma ValidIffWellFormed(nodes: seq<Node>, edges: seq<Edge>, r: ValidationResult)
    requires Conforms(nodes, edges, r) && !HasKind(nodes, ForLoopKind)
    ensures r.valid <==> WellFormed(nodes, edges)
  {
    if nodes == [] {
      assert NodesOfKind(nodes, StartKind) == [];
    } else {
      SplitIssues(nodes, edges, r);
      var s := StructuralIssues(nodes, edges);
      var cyc := r.issues[|s|..];
      CycleReportShape(nodes, edges, cyc);
      NoStructuralIssues(nodes, edges);
      assert r.issues == [] <==> s == [] && cyc == [];
    }
  }
}

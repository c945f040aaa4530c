/**
 * The store's short-circuiting validator against the full one of
 * src/utils/flowchartValidations.ts: on charts without a `forloop` node the
 * store accepts exactly the charts on which the full validator reports no
 * error (it may still warn about dead ends, which the store does not check).
 */
module ValidatorAgreement {
  import opened Text
  import opened Graph
  import opened Validations
  import opened ValidationProperties
  import opened FlowchartContext

  /** Every check of the store validator passes. */
  ghost predicate LegacySound(nodes: seq<Node>, edges: seq<Edge>)
  {
    var starts := NodesOfKind(nodes, StartKind);
    && nodes != []
    && |starts| == 1
    && HasKind(nodes, EndKind)
    && (forall n :: n in nodes ==> Touched(edges, n.id))
    && (forall e :: e in edges ==> e.target != starts[0].id)
    && (forall n :: n in nodes && n.kind == EndKind ==> |EdgesFrom(edges, n.id)| == 0)
    && !CycleReachable(edges, starts[0].id)
  }

  /** The store validator says valid exactly when every check passes. */
  lemma LegacyValidIff(nodes: seq<Node>, edges: seq<Edge>)
    ensures LegacyVerdict(nodes, edges).valid <==> LegacySound(nodes, edges)
  {
    var starts := NodesOfKind(nodes, StartKind);
    NoLooseIff(nodes, edges);
    if |starts| == 1 {
      NoIncomingIff(edges, starts[0].id);
    }
    SomeEndIff(nodes, edges);
  }

  /** No node is left out of the connected set exactly when every node is touched by an edge. */
  lemma NoLooseIff(nodes: seq<Node>, edges: seq<Edge>)
    ensures |NodesNotIn(nodes, ConnectedIds(edges))| == 0 <==> forall n :: n in nodes ==> Touched(edges, n.id)
  {
    var loose := NodesNotIn(nodes, ConnectedIds(edges));
    if |loose| > 0 {
      assert loose[0] in loose;
    }
  }

  /** No edge enters `id` exactly when the filter for edges into `id` is empty. */
  lemma NoIncomingIff(edges: seq<Edge>, id: string)
    ensures |EdgesInto(edges, id)| == 0 <==> forall e :: e in edges ==> e.target != id
  {
    var into := EdgesInto(edges, id);
    if |into| > 0 {
      assert into[0] in into;
    }
  }

  /** The loop over end nodes finds one with outgoing edges exactly when the chart has one. */
  lemma SomeEndIff(nodes: seq<Node>, edges: seq<Edge>)
    ensures SomeEndHasOutgoing(NodesOfKind(nodes, EndKind), edges) <==>
      !(forall n :: n in nodes && n.kind == EndKind ==> |EdgesFrom(edges, n.id)| == 0)
  {
  }

  /** Every issue is a warning exactly when each check other than the dead-end loop pushed nothing. */
  lemma OnlyWarningsIff(nodes: seq<Node>, edges: seq<Edge>, r: ValidationResult)
    requires Conforms(nodes, edges, r) && !HasKind(nodes, ForLoopKind) && nodes != []
    ensures (forall x :: x in r.issues ==> x.severity == Warning) <==>
      && StartCardinalityIssues(nodes) == [] && EndPresenceIssues(nodes) == []
      && UnconnectedIssues(nodes, edges) == [] && StartIncomingIssues(nodes, edges) == []
      && EndOutgoingIssues(NodesOfKind(nodes, EndKind), edges) == []
      && r.issues[|StructuralIssues(nodes, edges)|..] == []
  {
    SplitIssues(nodes, edges, r);
    PieceKinds(nodes, edges);
    var cyc := r.issues[|StructuralIssues(nodes, edges)|..];
    CycleKinds(nodes, edges, cyc);
    forall x | x in r.issues ensures x.severity == Warning <==> CheckOf(x) == DeadEndCheck {
      KindByMessage(x);
    }
    OnlyDeadEndsIff(r.issues, StartCardinalityIssues(nodes), EndPresenceIssues(nodes), UnconnectedIssues(nodes, edges),
      StartIncomingIssues(nodes, edges), EndOutgoingIssues(NodesOfKind(nodes, EndKind), edges),
      DeadEndWarnings(NodesNotOfKind(nodes, EndKind), edges), cyc);
  }

  /**
   * In an issue list made of pieces each attributed to one check, where the
   * warnings are exactly the dead-end issues, all issues are warnings exactly
   * when every piece other than the dead-end one is empty.
   */
  lemma OnlyDeadEndsIff(issues: seq<Issue>, p1: seq<Issue>, p2: seq<Issue>, p3: seq<Issue>, p4: seq<Issue>, p5: seq<Issue>,
                        p6: seq<Issue>, cyc: seq<Issue>)
    requires issues == p1 + p2 + p3 + p4 + p5 + p6 + cyc
    requires forall x :: x in issues ==> (x.severity == Warning <==> CheckOf(x) == DeadEndCheck)
    requires forall x :: x in p1 ==> CheckOf(x) == CountCheck
    requires forall x :: x in p2 ==> CheckOf(x) == EndCheck
    requires forall x :: x in p3 ==> CheckOf(x) == UnconnectedCheck
    requires forall x :: x in p4 ==> CheckOf(x) == IncomingCheck
    requires forall x :: x in p5 ==> CheckOf(x) == OutgoingCheck
    requires forall x :: x in p6 ==> CheckOf(x) == DeadEndCheck
    requires forall x :: x in cyc ==> CheckOf(x) == CycleCheck
    ensures (forall x :: x in issues ==> x.severity == Warning) <==>
      p1 == [] && p2 == [] && p3 == [] && p4 == [] && p5 == [] && cyc == []
  {
    if p1 != [] { assert p1[0] in issues; }
    if p2 != [] { assert p2[0] in issues; }
    if p3 != [] { assert p3[0] in issues; }
    if p4 != [] { assert p4[0] in issues; }
    if p5 != [] { assert p5[0] in issues; }
    if cyc != [] { assert cyc[0] in issues; }
    if p1 == [] && p2 == [] && p3 == [] && p4 == [] && p5 == [] && cyc == [] {
      assert issues == p6;
    }
  }

  /**
   * Without a `forloop` node, the store's validator accepts a chart exactly
   * when the full validator reports no error about it.
   */
  lemma LegacyAcceptsIffNoErrors(nodes: seq<Node>, edges: seq<Edge>, r: ValidationResult)
    requires Conforms(nodes, edges, r) && !HasKind(nodes, ForLoopKind)
    ensures LegacyVerdict(nodes, edges).valid <==> forall x :: x in r.issues ==> x.severity == Warning
  {
    LegacyValidIff(nodes, edges);
    if nodes == [] {
      assert r.issues[0] in r.issues;
    } else {
      OnlyWarningsIff(nodes, edges, r);
      SplitIssues(nodes, edges, r);
      var cyc := r.issues[|StructuralIssues(nodes, edges)|..];
      CycleReportShape(nodes, edges, cyc);
      NoEndOutgoing(nodes, edges);
    }
  }
}

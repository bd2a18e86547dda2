/**
 * The graph of the repository's graph tests, and what the model says about it:
 * its compiled map, its automatic successors and some of its shortest paths.
 */
module Fixtures {
  import opened TransitionKeys
  import opened Errors
  import opened Adjacency
  import opened Paths
  import opened Service
  import opened Graph


  const FailedNode: Node := Node("FAILED", Single(Leaf("FULFILLED")))
  const ProcessingNode: Node :=
    Node("PROCESSING", List([Leaf("SYNCHRONIZED"), Leaf("EXPIRED"), Leaf("CANCELLED")]))
  const SynchronizedNode: Node :=
    Node("SYNCHRONIZED", List([Leaf("FULFILLED"), Sub(FailedNode), Leaf("CANCELLED")]))
  const Root: Node :=
    Node("CREATED", List([Sub(ProcessingNode), Sub(SynchronizedNode), Leaf("EXPIRED"), Leaf("CANCELLED")]))

  const Manual: set<State> := {"FAILED", "EXPIRED", "CANCELLED"}

  /** The map the tree compiles to: each state's children in declaration order. */
  const Expected: Adj := map[
    "CREATED" := ["PROCESSING", "SYNCHRONIZED", "EXPIRED", "CANCELLED"],
    "PROCESSING" := ["SYNCHRONIZED", "EXPIRED", "CANCELLED"],
    "SYNCHRONIZED" := ["FULFILLED", "FAILED", "CANCELLED"],
    "FAILED" := ["FULFILLED"]]

  /** The edges of the tree in the order the depth-first walk produces them. */
  const RootEdgeList: seq<Edge> :=
    [("CREATED", "PROCESSING"), ("PROCESSING", "SYNCHRONIZED"), ("PROCESSING", "EXPIRED"),
     ("PROCESSING", "CANCELLED"), ("CREATED", "SYNCHRONIZED"), ("SYNCHRONIZED", "FULFILLED"),
     ("SYNCHRONIZED", "FAILED"), ("FAILED", "FULFILLED"), ("SYNCHRONIZED", "CANCELLED"),
     ("CREATED", "EXPIRED"), ("CREATED", "CANCELLED")]

  lemma RootEdges()
    ensures Edges(Root) == RootEdgeList
  {
    assert Edges(FailedNode) == [("FAILED", "FULFILLED")] by {
      assert EdgesUpTo(FailedNode, 1) == [] + [("FAILED", "FULFILLED")] + [];
    }
    assert Edges(ProcessingNode) ==
             [("PROCESSING", "SYNCHRONIZED"), ("PROCESSING", "EXPIRED"), ("PROCESSING", "CANCELLED")] by {
      assert EdgesUpTo(ProcessingNode, 1) == [("PROCESSING", "SYNCHRONIZED")];
      assert EdgesUpTo(ProcessingNode, 2) == [("PROCESSING", "SYNCHRONIZED"), ("PROCESSING", "EXPIRED")];
    }
    assert Edges(SynchronizedNode) ==
             [("SYNCHRONIZED", "FULFILLED"), ("SYNCHRONIZED", "FAILED"), ("FAILED", "FULFILLED"),
              ("SYNCHRONIZED", "CANCELLED")] by {
      assert EdgesUpTo(SynchronizedNode, 1) == [("SYNCHRONIZED", "FULFILLED")];
      assert EdgesUpTo(SynchronizedNode, 2) ==
               [("SYNCHRONIZED", "FULFILLED"), ("SYNCHRONIZED", "FAILED"), ("FAILED", "FULFILLED")];
    }
    assert EdgesUpTo(Root, 1) ==
             [("CREATED", "PROCESSING"), ("PROCESSING", "SYNCHRONIZED"), ("PROCESSING", "EXPIRED"),
              ("PROCESSING", "CANCELLED")];
    assert EdgesUpTo(Root, 2) ==
             [("CREATED", "PROCESSING"), ("PROCESSING", "SYNCHRONIZED"), ("PROCESSING", "EXPIRED"),
              ("PROCESSING", "CANCELLED"), ("CREATED", "SYNCHRONIZED"), ("SYNCHRONIZED", "FULFILLED"),
              ("SYNCHRONIZED", "FAILED"), ("FAILED", "FULFILLED"), ("SYNCHRONIZED", "CANCELLED")];
    assert EdgesUpTo(Root, 3) == EdgesUpTo(Root, 2) + [("CREATED", "EXPIRED")];
  }

  /**
   * The tree compiles to the map the tests expect: every child appended to
   * its parent's list, in declaration order.
   */
  lemma CompileRoot()
    ensures Compile(Root) == Expected
  {
    forall s | s in Expected ensures Targets(Edges(Root), s) == Expected[s] != [] {
      KeyedTargets(s);
    }
    RootSources();
    CompileFromTargets(Root, Expected);
  }

  lemma KeyedTargets(s: State)
    requires s in Expected
    ensures Targets(Edges(Root), s) == Expected[s]
  {
    if s == "CREATED" {
      TargetsCreated();
    } else if s == "PROCESSING" {
      TargetsProcessing();
    } else if s == "SYNCHRONIZED" {
      TargetsSynchronized();
    } else {
      TargetsFailed();
    }
  }

  lemma TargetsCreated()
    ensures Targets(Edges(Root), "CREATED") == ["PROCESSING", "SYNCHRONIZED", "EXPIRED", "CANCELLED"]
  {
    RootEdges();
    assert Targets(RootEdgeList, "CREATED") == ["PROCESSING", "SYNCHRONIZED", "EXPIRED", "CANCELLED"];
  }

  lemma TargetsProcessing()
    ensures Targets(Edges(Root), "PROCESSING") == ["SYNCHRONIZED", "EXPIRED", "CANCELLED"]
  {
    RootEdges();
    assert Targets(RootEdgeList, "PROCESSING") == ["SYNCHRONIZED", "EXPIRED", "CANCELLED"];
  }

  lemma TargetsSynchronized()
    ensures Targets(Edges(Root), "SYNCHRONIZED") == ["FULFILLED", "FAILED", "CANCELLED"]
  {
    RootEdges();
    assert Targets(RootEdgeList, "SYNCHRONIZED") == ["FULFILLED", "FAILED", "CANCELLED"];
  }

  lemma TargetsFailed()
    ensures Targets(Edges(Root), "FAILED") == ["FULFILLED"]
  {
    RootEdges();
    assert Targets(RootEdgeList, "FAILED") == ["FULFILLED"];
  }

  /** Only the four states with a key are the source of an edge. */
  lemma RootSources()
    ensures forall e :: e in Edges(Root) ==> e.0 in Expected
  {
    RootEdges();
  }

  lemma {:induction false} TargetsNone(es: seq<Edge>, s: State)
    requires forall e :: e in es ==> e.0 != s
    ensures Targets(es, s) == []
    decreases |es|
  {
    if es != [] {
      assert es[0] in es;
      TargetsNone(es[1..], s);
    }
  }

  /** Without the manual states, the successors of CREATED keep PROCESSING then SYNCHRONIZED. */
  lemma AutomaticSuccessorsOfCreated()
    ensures WithoutManual(["PROCESSING", "SYNCHRONIZED", "EXPIRED", "CANCELLED"], {"FAILED", "EXPIRED", "CANCELLED"})
            == ["PROCESSING", "SYNCHRONIZED"]
  {
    assert ["PROCESSING", "SYNCHRONIZED", "EXPIRED", "CANCELLED"][1..] == ["SYNCHRONIZED", "EXPIRED", "CANCELLED"];
    AutomaticSuccessorsOfProcessing();
  }

  /** Without the manual states, the successors of PROCESSING keep SYNCHRONIZED alone. */
  lemma AutomaticSuccessorsOfProcessing()
    ensures WithoutManual(["SYNCHRONIZED", "EXPIRED", "CANCELLED"], {"FAILED", "EXPIRED", "CANCELLED"})
            == ["SYNCHRONIZED"]
  {
    assert ["SYNCHRONIZED", "EXPIRED", "CANCELLED"][1..] == ["EXPIRED", "CANCELLED"];
    assert ["EXPIRED", "CANCELLED"][1..] == ["CANCELLED"] && ["CANCELLED"][1..] == [];
  }

  /** Without the manual states, the successors of SYNCHRONIZED keep FULFILLED alone. */
  lemma AutomaticSuccessorsOfSynchronized()
    ensures WithoutManual(["FULFILLED", "FAILED", "CANCELLED"], {"FAILED", "EXPIRED", "CANCELLED"})
            == ["FULFILLED"]
  {
    assert ["FULFILLED", "FAILED", "CANCELLED"][1..] == ["FAILED", "CANCELLED"];
    assert ["FAILED", "CANCELLED"][1..] == ["CANCELLED"] && ["CANCELLED"][1..] == [];
  }

  /** Without the manual states, the successors of FAILED keep FULFILLED. */
  lemma AutomaticSuccessorsOfFailed()
    ensures WithoutManual(["FULFILLED"], {"FAILED", "EXPIRED", "CANCELLED"}) == ["FULFILLED"]
  {
    assert ["FULFILLED"][1..] == [];
  }

  /** The graph of the tests, with FAILED, EXPIRED and CANCELLED manual and lenient search. */
  lemma TestGraph(g: StateMachineGraph)
    requires g.Valid() && g.options == Options(Root, Some(["FAILED", "EXPIRED", "CANCELLED"]), Some(false))
    ensures g.adj == Expected && g.manual == Manual && !g.strict
  {
    CompileRoot();
    assert forall x :: x in g.manual <==> x in ["FAILED", "EXPIRED", "CANCELLED"];
  }

  /** In the graph of the tests, the automatic next states of CREATED are PROCESSING then SYNCHRONIZED. */
  lemma GraphNextStatesOfCreated(g: StateMachineGraph)
    requires g.Valid() && g.options == Options(Root, Some(["FAILED", "EXPIRED", "CANCELLED"]), Some(false))
    ensures g.GetNextStates("CREATED", false) == ["PROCESSING", "SYNCHRONIZED"]
  {
    TestGraph(g);
    assert Successors(g.adj, "CREATED") == ["PROCESSING", "SYNCHRONIZED", "EXPIRED", "CANCELLED"];
    AutomaticSuccessorsOfCreated();
  }

  /** In the graph of the tests, the automatic next states of PROCESSING are SYNCHRONIZED alone. */
  lemma GraphNextStatesOfProcessing(g: StateMachineGraph)
    requires g.Valid() && g.options == Options(Root, Some(["FAILED", "EXPIRED", "CANCELLED"]), Some(false))
    ensures g.GetNextStates("PROCESSING", false) == ["SYNCHRONIZED"]
  {
    TestGraph(g);
    assert Successors(g.adj, "PROCESSING") == ["SYNCHRONIZED", "EXPIRED", "CANCELLED"];
    AutomaticSuccessorsOfProcessing();
  }

  /** In the graph of the tests, the automatic next states of SYNCHRONIZED are FULFILLED alone. */
  lemma GraphNextStatesOfSynchronized(g: StateMachineGraph)
    requires g.Valid() && g.options == Options(Root, Some(["FAILED", "EXPIRED", "CANCELLED"]), Some(false))
    ensures g.GetNextStates("SYNCHRONIZED", false) == ["FULFILLED"]
  {
    TestGraph(g);
    assert Successors(g.adj, "SYNCHRONIZED") == ["FULFILLED", "FAILED", "CANCELLED"];
    AutomaticSuccessorsOfSynchronized();
  }

  /** In the graph of the tests, the automatic next states of FAILED are FULFILLED. */
  lemma GraphNextStatesOfFailed(g: StateMachineGraph)
    requires g.Valid() && g.options == Options(Root, Some(["FAILED", "EXPIRED", "CANCELLED"]), Some(false))
    ensures g.GetNextStates("FAILED", false) == ["FULFILLED"]
  {
    TestGraph(g);
    assert Successors(g.adj, "FAILED") == ["FULFILLED"];
    AutomaticSuccessorsOfFailed();
  }

  /** The only two-step route from CREATED to FULFILLED goes through SYNCHRONIZED. */
  lemma CreatedToFulfilled()
    ensures BfsPath(Expected, "CREATED", "FULFILLED", ["SYNCHRONIZED", "FULFILLED"])
  {
    var p := ["CREATED", "SYNCHRONIZED", "FULFILLED"];
    assert ["CREATED"] + ["SYNCHRONIZED", "FULFILLED"] == p;
    assert IsEdge(Expected, "CREATED", "SYNCHRONIZED") && IsEdge(Expected, "SYNCHRONIZED", "FULFILLED");
    assert PathFromTo(Expected, p, "CREATED", "FULFILLED");
    forall q | PathFromTo(Expected, q, "CREATED", "FULFILLED") ensures |p| <= |q| {
      assert IsEdge(Expected, q[0], q[1]);
    }
    forall q | PathFromTo(Expected, q, "CREATED", "FULFILLED") && |q| == |p|
      ensures LexLeq(Choices(Expected, p), Choices(Expected, q))
    {
      assert IsEdge(Expected, q[0], q[1]) && IsEdge(Expected, q[1], q[2]);
      assert q == p;
    }
  }

  /** PROCESSING reaches FAILED through SYNCHRONIZED. */
  lemma ProcessingToFailed()
    ensures BfsPath(Expected, "PROCESSING", "FAILED", ["SYNCHRONIZED", "FAILED"])
  {
    var p := ["PROCESSING", "SYNCHRONIZED", "FAILED"];
    assert ["PROCESSING"] + ["SYNCHRONIZED", "FAILED"] == p;
    assert IsEdge(Expected, "PROCESSING", "SYNCHRONIZED") && IsEdge(Expected, "SYNCHRONIZED", "FAILED");
    assert PathFromTo(Expected, p, "PROCESSING", "FAILED");
    forall q | PathFromTo(Expected, q, "PROCESSING", "FAILED") ensures |p| <= |q| {
      assert IsEdge(Expected, q[0], q[1]);
    }
    forall q | PathFromTo(Expected, q, "PROCESSING", "FAILED") && |q| == |p|
      ensures LexLeq(Choices(Expected, p), Choices(Expected, q))
    {
      assert IsEdge(Expected, q[0], q[1]) && IsEdge(Expected, q[1], q[2]);
      assert q == p;
    }
  }

  /** Nothing leads back to CREATED: the other states only lead among themselves. */
  lemma NothingReachesCreated(a: State)
    requires a in {"PROCESSING", "SYNCHRONIZED", "FULFILLED", "FAILED", "CANCELLED", "EXPIRED"}
    ensures !Reachable(Expected, a, "CREATED")
  {
    var inside := {"PROCESSING", "SYNCHRONIZED", "FULFILLED", "FAILED", "CANCELLED", "EXPIRED"};
    ClosedSetUnreachable(Expected, inside, a, "CREATED");
  }

  /** SYNCHRONIZED never returns to PROCESSING. */
  lemma SynchronizedNeverReachesProcessing()
    ensures !Reachable(Expected, "SYNCHRONIZED", "PROCESSING")
  {
    var inside := {"SYNCHRONIZED", "FULFILLED", "FAILED", "CANCELLED"};
    ClosedSetUnreachable(Expected, inside, "SYNCHRONIZED", "PROCESSING");
  }

  /** A diamond: both routes from "a" to "d" are shortest; the one through the first-listed successor wins. */
  const Diamond: Adj := map["a" := ["b", "c"], "b" := ["d"], "c" := ["d"]]

  lemma DiamondTieBreak()
    ensures BfsPath(Diamond, "a", "d", ["b", "d"])
    ensures !BfsPath(Diamond, "a", "d", ["c", "d"])
  {
    var p := ["a", "b", "d"];
    var other := ["a", "c", "d"];
    assert ["a"] + ["b", "d"] == p && ["a"] + ["c", "d"] == other;
    DiamondChoices();
    var cp, co := Choices(Diamond, p), Choices(Diamond, other);
    assert LexLess(cp, co) by {
      assert cp[..0] == co[..0];
    }
    forall q | PathFromTo(Diamond, q, "a", "d") ensures |p| <= |q| {
      DiamondPaths(q);
    }
    forall q | PathFromTo(Diamond, q, "a", "d") && |q| == |p|
      ensures LexLeq(cp, Choices(Diamond, q))
    {
      DiamondPaths(q);
    }
    LexAsymmetric(cp, co);
  }

  /** The two routes of the diamond and the choices each makes. */
  lemma DiamondChoices()
    ensures PathFromTo(Diamond, ["a", "b", "d"], "a", "d") && Choices(Diamond, ["a", "b", "d"]) == [0, 0]
    ensures PathFromTo(Diamond, ["a", "c", "d"], "a", "d") && Choices(Diamond, ["a", "c", "d"]) == [1, 0]
  {
    var p := ["a", "b", "d"];
    var other := ["a", "c", "d"];
    assert IsEdge(Diamond, "a", "b") && IsEdge(Diamond, "b", "d");
    assert IsEdge(Diamond, "a", "c") && IsEdge(Diamond, "c", "d");
    assert IsPath(Diamond, p) && IsPath(Diamond, other);
    ChoicesSplit(Diamond, p);
    assert p[..2] == ["a", "b"];
    ChoicesSplit(Diamond, p[..2]);
    assert p[..2][..1] == ["a"];
    ChoicesSplit(Diamond, other);
    assert other[..2] == ["a", "c"];
    ChoicesSplit(Diamond, other[..2]);
    assert other[..2][..1] == ["a"];
  }

  /** Every route from "a" to "d" in the diamond has at least three states, and those with three are the two routes. */
  lemma DiamondPaths(q: seq<State>)
    requires PathFromTo(Diamond, q, "a", "d")
    ensures |q| >= 3
    ensures |q| == 3 ==> q == ["a", "b", "d"] || q == ["a", "c", "d"]
  {
    assert IsEdge(Diamond, q[0], q[1]);
    if |q| == 3 {
      assert IsEdge(Diamond, q[1], q[2]);
    }
  }

  /**
   * The guards of the service tests: one approves pending to processed, one
   * approves processed to synchronized, one rejects failed to fulfilled.
   */
  const TestGuards: Guards := map[
    "pending->processed" := (e: Snapshot) => Approve,
    "processed->synchronized" := (e: Snapshot) => Approve,
    "failed->fulfilled" := (e: Snapshot) => Reject("Failed")]

  /** Walking pending, processed, synchronized, fulfilled asks each of the two guards on the way once. */
  lemma WalkWithGuards(fields: Fields)
    ensures WalkPath(TestGuards, "pending", fields, ["processed", "synchronized", "fulfilled"])
            == Walk("fulfilled", 3, None, ["pending->processed", "processed->synchronized"])
  {
    assert AsTransition("pending", "processed") == "pending->processed";
    assert ["processed", "synchronized", "fulfilled"][1..] == ["synchronized", "fulfilled"];
    WalkFromProcessed(fields);
    assert [AsTransition("pending", "processed")] + ["processed->synchronized"]
           == ["pending->processed", "processed->synchronized"];
  }

  /** From processed, the walk to fulfilled asks only the guard of its first step. */
  lemma WalkFromProcessed(fields: Fields)
    ensures WalkPath(TestGuards, "processed", fields, ["synchronized", "fulfilled"])
            == Walk("fulfilled", 2, None, ["processed->synchronized"])
  {
    assert AsTransition("processed", "synchronized") == "processed->synchronized";
    assert AsTransition("synchronized", "fulfilled") == "synchronized->fulfilled";
    assert ["synchronized", "fulfilled"][1..] == ["fulfilled"] && ["fulfilled"][1..] == [];
    assert WalkPath(TestGuards, "synchronized", fields, ["fulfilled"]) == Walk("fulfilled", 1, None, []);
  }

  /** A step without a guard is taken and asks nobody. */
  lemma WalkWithoutGuard(fields: Fields)
    ensures WalkPath(TestGuards, "synchronized", fields, ["fulfilled"]) == Walk("fulfilled", 1, None, [])
  {
    assert AsTransition("synchronized", "fulfilled") == "synchronized->fulfilled";
    assert ["fulfilled"][1..] == [];
  }

  /** The rejecting guard leaves the state as it was and its error is the outcome. */
  lemma WalkRejected(fields: Fields)
    ensures WalkPath(TestGuards, "failed", fields, ["fulfilled"])
            == Walk("failed", 0, Some(GuardRejected("Failed")), ["failed->fulfilled"])
    ensures Message(GuardRejected("Failed")) == "Failed"
  {
    assert AsTransition("failed", "fulfilled") == "failed->fulfilled";
    WalkStep(TestGuards, "failed", fields, ["fulfilled"]);
  }

  /** A small tree: "a" leads to the manual "b" and to "c", which leads to "d". */
  const Small: Node := Node("a", List([Leaf("b"), Sub(Node("c", Single(Leaf("d"))))]))

  const SmallMap: Adj := map["a" := ["b", "c"], "c" := ["d"]]

  const SmallRank: map<State, nat> := map["a" := 2, "c" := 1, "b" := 0, "d" := 0]

  lemma SmallEdges()
    ensures Edges(Small) == [("a", "b"), ("a", "c"), ("c", "d")]
  {
    var c := Node("c", Single(Leaf("d")));
    assert Edges(c) == [("c", "d")] by {
      assert EdgesUpTo(c, 1) == [] + [("c", "d")] + [];
    }
    assert EdgesUpTo(Small, 1) == [("a", "b")];
  }

  lemma CompileSmall()
    ensures Compile(Small) == SmallMap
  {
    SmallEdges();
    assert Targets([("a", "b"), ("a", "c"), ("c", "d")], "a") == ["b", "c"];
    assert Targets([("a", "b"), ("a", "c"), ("c", "d")], "c") == ["d"];
    CompileFromTargets(Small, SmallMap);
  }

  /** A map whose lists are the targets of the tree's edges, and whose keys are their sources, is the compiled map. */
  lemma CompileFromTargets(root: Node, expected: Adj)
    requires forall s :: s in expected ==> Targets(Edges(root), s) == expected[s] != []
    requires forall e :: e in Edges(root) ==> e.0 in expected
    ensures Compile(root) == expected
  {
    forall s ensures (s in Compile(root) <==> s in expected) && Successors(Compile(root), s) == Successors(expected, s) {
      CompileSuccessors(root, s);
      if s !in expected {
        TargetsNone(Edges(root), s);
      }
    }
    assert Compile(root).Keys == expected.Keys;
    forall s | s in expected ensures Compile(root)[s] == expected[s] {
      assert Successors(Compile(root), s) == Successors(expected, s);
    }
  }

  /** The graph built from the small tree with "b" manual: its map, its manual set and a ranking. */
  lemma SmallGraph(g: StateMachineGraph)
    requires g.Valid() && g.options == Options(Small, Some(["b"]), None)
    ensures g.adj == SmallMap && g.manual == {"b"} && Ranked(g.adj, SmallRank)
  {
    CompileSmall();
    SmallRanked();
    assert forall x :: x in g.manual <==> x in ["b"];
  }

  /** The ranking decreases along every edge of the small map. */
  lemma SmallRanked()
    ensures Ranked(SmallMap, SmallRank)
  {
  }

  /** The line of each state of the small tree, at the indentation the diagram gives it. */
  lemma SmallLines(g: StateMachineGraph)
    requires g.adj == SmallMap && g.manual == {"b"} && Ranked(g.adj, SmallRank)
    ensures g.Line("a", "", true) == "└─a\n"
    ensures g.Line("b", "  ", false) == "  ├─b(*)\n"
    ensures g.Line("c", "  ", true) == "  └─c\n"
    ensures g.Line("d", "    ", true) == "    └─d\n"
  {
  }

  /** The parts of the small tree's diagram, deepest first. */
  lemma DiagramLeaves(g: StateMachineGraph)
    requires g.adj == SmallMap && g.manual == {"b"} && Ranked(g.adj, SmallRank)
    ensures g.Print(SmallRank, "d", "    ", true, "") == "    └─d\n"
    ensures g.Print(SmallRank, "b", "  ", false, "") == "  ├─b(*)\n"
  {
    SmallLines(g);
  }

  lemma DiagramOfC(g: StateMachineGraph)
    requires g.adj == SmallMap && g.manual == {"b"} && Ranked(g.adj, SmallRank)
    ensures g.Print(SmallRank, "c", "  ", true, "") == "  └─c\n    └─d\n"
  {
    DiagramLeaves(g);
    SmallLines(g);
    g.PrintEntry(SmallRank, "c", "  ", true);
    g.PrintChildrenStep(SmallRank, "c", 0, "    ");
    assert g.PrintChildren(SmallRank, "c", 1, "    ", "") == "";
  }

  lemma ChildrenOfA(g: StateMachineGraph)
    requires g.adj == SmallMap && g.manual == {"b"} && Ranked(g.adj, SmallRank)
    ensures "a" in g.adj
    ensures g.PrintChildren(SmallRank, "a", 0, "  ", "") == "  ├─b(*)\n" + "  └─c\n    └─d\n"
  {
    DiagramLeaves(g);
    DiagramOfC(g);
    g.PrintChildrenStep(SmallRank, "a", 0, "  ");
    g.PrintChildrenStep(SmallRank, "a", 1, "  ");
    assert g.PrintChildren(SmallRank, "a", 2, "  ", "") == "";
  }

  lemma DiagramOfA(g: StateMachineGraph)
    requires g.adj == SmallMap && g.manual == {"b"} && Ranked(g.adj, SmallRank)
    ensures g.Print(SmallRank, "a", "", true, "") == "└─a\n" + "  ├─b(*)\n" + "  └─c\n    └─d\n"
  {
    ChildrenOfA(g);
    SmallLines(g);
    assert "" + Extension(true) == "  ";
    g.PrintEntry(SmallRank, "a", "", true);
    var children := g.PrintChildren(SmallRank, "a", 0, "  ", "");
    assert g.Print(SmallRank, "a", "", true, "") == "└─a\n" + children;
  }

  /** The diagram of the small tree, with the manual state marked. */
  lemma DiagramOfSmall(g: StateMachineGraph)
    requires g.Valid() && g.options == Options(Small, Some(["b"]), None)
    ensures Ranked(g.adj, SmallRank)
    ensures g.Diagram(SmallRank) ==
            "\n" + "└─a\n" + "  ├─b(*)\n" + "  └─c\n    └─d\n" + "\n(*) Only manual transitions"
  {
    SmallGraph(g);
    DiagramOfA(g);
    var body := g.Print(SmallRank, "a", "", true, "");
    assert g.Diagram(SmallRank) == "\n" + body + Footer;
    SmallDiagramText(body);
  }

  lemma SmallDiagramText(body: string)
    requires body == "└─a\n" + "  ├─b(*)\n" + "  └─c\n    └─d\n"
    ensures "\n" + body + Footer ==
            "\n" + "└─a\n" + "  ├─b(*)\n" + "  └─c\n    └─d\n" + "\n(*) Only manual transitions"
  {
  }
}

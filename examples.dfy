/**
 * The scenarios of the collection's test suite, stated about the model.
 * Modules a..g are the ids 0..6.
 */
module Scenarios {
  import opened Graphs
  import opened Modules
  import opened Collections

  /** The modules of "it loads modules in correct order", in the order given to the collection. */
  function OrderingModules(): seq<Module> {
    [ Module(0, "a", [], [], 0),
      Module(1, "b", [4], [], 1),
      Module(2, "c", [], [0], 2),
      Module(3, "d", [5], [0], 3),
      Module(4, "e", [5], [], 4),
      Module(5, "f", [], [], 5),
      Module(6, "g", [], [], 6) ]
  }

  /** The modules of "it inits modules in correct order": f is needed by e rather than e needing f. */
  function InitModules(): seq<Module> {
    [ Module(0, "a", [2, 3], [], 0),
      Module(1, "b", [4], [], 1),
      Module(2, "c", [], [], 2),
      Module(3, "d", [5], [], 3),
      Module(4, "e", [], [], 4),
      Module(5, "f", [], [4], 5),
      Module(6, "g", [], [], 6) ]
  }

  /**
   * The modules of "it detects cycles", with a pushed onto f's needs after
   * definition and before the collection is built.
   */
  function CycleModules(): seq<Module> {
    [ Module(0, "a", [2, 3], [], 0),
      Module(1, "b", [4], [], 1),
      Module(2, "c", [], [], 2),
      Module(3, "d", [5], [], 3),
      Module(4, "e", [5], [], 4),
      Module(5, "f", [0], [], 5),
      Module(6, "g", [], [], 6) ]
  }

  const Seven: set<Vertex> := {0, 1, 2, 3, 4, 5, 6}

  /** The dependency graph both ordering tests build. */
  const Layered: Graph := Graph(Seven, {(1, 4), (0, 2), (3, 5), (0, 3), (4, 5)})

  /** The longest chain of each module of Layered: c, f, g at 0; d, e at 1; a, b at 2. */
  const LayeredHeights: map<Vertex, nat> := map[0 := 2, 1 := 2, 2 := 0, 3 := 1, 4 := 1, 5 := 0, 6 := 0]

  /** Adding module k, which is m, to the graph built from the modules before it gives `after`. */
  lemma Step(g: Graph, ms: seq<Module>, k: nat, m: Module, before: Graph, after: Graph)
    requires k < |ms| && ms[k] == m && AddModules(g, ms[..k]) == before
    requires forall v :: v in after.vertices <==>
      v in before.vertices || v == m.id || v in m.needs || v in m.neededBy
    requires forall a: Vertex, b: Vertex :: (a, b) in after.edges <==>
      (a, b) in before.edges || (a == m.id && b in m.needs) || (b == m.id && a in m.neededBy)
    ensures AddModules(g, ms[..k + 1]) == after
  {
    assert ms[..k + 1][..k] == ms[..k];
    var built := AddModule(before, m);
    assert built.vertices == after.vertices;
    forall e ensures e in built.edges <==> e in after.edges {
      assert e == (e.0, e.1);
    }
  }

  /** The ordering test's modules build Layered. */
  lemma OrderingGraph()
    ensures AddModules(Graph({}, {}), OrderingModules()) == Layered
  {
    OrderingBuilt7(OrderingModules());
  }

  /** Building the collection one module at a time: the graph after the first module. */
  lemma OrderingBuilt1(ms: seq<Module>)
    requires ms == OrderingModules()
    ensures AddModules(Graph({}, {}), ms[..1]) == Graph({0}, {})
  {
    assert ms[..0] == [];
    Step(Graph({}, {}), ms, 0, Module(0, "a", [], [], 0), Graph({}, {}), Graph({0}, {}));
  }

  lemma OrderingBuilt2(ms: seq<Module>)
    requires ms == OrderingModules()
    ensures AddModules(Graph({}, {}), ms[..2]) == Graph({0, 1, 4}, {(1, 4)})
  {
    OrderingBuilt1(ms);
    Step(Graph({}, {}), ms, 1, Module(1, "b", [4], [], 1), Graph({0}, {}), Graph({0, 1, 4}, {(1, 4)}));
  }

  lemma OrderingBuilt3(ms: seq<Module>)
    requires ms == OrderingModules()
    ensures AddModules(Graph({}, {}), ms[..3]) == Graph({0, 1, 2, 4}, {(1, 4), (0, 2)})
  {
    OrderingBuilt2(ms);
    Step(Graph({}, {}), ms, 2, Module(2, "c", [], [0], 2), Graph({0, 1, 4}, {(1, 4)}), Graph({0, 1, 2, 4}, {(1, 4), (0, 2)}));
  }

  lemma OrderingBuilt4(ms: seq<Module>)
    requires ms == OrderingModules()
    ensures AddModules(Graph({}, {}), ms[..4]) == Graph({0, 1, 2, 3, 4, 5}, {(1, 4), (0, 2), (3, 5), (0, 3)})
  {
    OrderingBuilt3(ms);
    Step(Graph({}, {}), ms, 3, Module(3, "d", [5], [0], 3), Graph({0, 1, 2, 4}, {(1, 4), (0, 2)}), Graph({0, 1, 2, 3, 4, 5}, {(1, 4), (0, 2), (3, 5), (0, 3)}));
  }

  lemma OrderingBuilt5(ms: seq<Module>)
    requires ms == OrderingModules()
    ensures AddModules(Graph({}, {}), ms[..5]) == Graph({0, 1, 2, 3, 4, 5}, {(1, 4), (0, 2), (3, 5), (0, 3), (4, 5)})
  {
    OrderingBuilt4(ms);
    Step(Graph({}, {}), ms, 4, Module(4, "e", [5], [], 4), Graph({0, 1, 2, 3, 4, 5}, {(1, 4), (0, 2), (3, 5), (0, 3)}), Graph({0, 1, 2, 3, 4, 5}, {(1, 4), (0, 2), (3, 5), (0, 3), (4, 5)}));
  }

  lemma OrderingBuilt6(ms: seq<Module>)
    requires ms == OrderingModules()
    ensures AddModules(Graph({}, {}), ms[..6]) == Graph({0, 1, 2, 3, 4, 5}, {(1, 4), (0, 2), (3, 5), (0, 3), (4, 5)})
  {
    OrderingBuilt5(ms);
    Step(Graph({}, {}), ms, 5, Module(5, "f", [], [], 5), Graph({0, 1, 2, 3, 4, 5}, {(1, 4), (0, 2), (3, 5), (0, 3), (4, 5)}), Graph({0, 1, 2, 3, 4, 5}, {(1, 4), (0, 2), (3, 5), (0, 3), (4, 5)}));
  }

  lemma OrderingBuilt7(ms: seq<Module>)
    requires ms == OrderingModules()
    ensures AddModules(Graph({}, {}), ms) == Layered
  {
    OrderingBuilt6(ms);
    Step(Graph({}, {}), ms, 6, Module(6, "g", [], [], 6), Graph({0, 1, 2, 3, 4, 5}, {(1, 4), (0, 2), (3, 5), (0, 3), (4, 5)}), Layered);
    assert ms[..7] == ms;
  }

  /** The init-order test's modules build Layered too. */
  lemma InitGraph()
    ensures AddModules(Graph({}, {}), InitModules()) == Layered
  {
    InitBuilt7(InitModules());
  }

  /** Building the collection one module at a time: the graph after the first module. */
  lemma InitBuilt1(ms: seq<Module>)
    requires ms == InitModules()
    ensures AddModules(Graph({}, {}), ms[..1]) == Graph({0, 2, 3}, {(0, 2), (0, 3)})
  {
    assert ms[..0] == [];
    Step(Graph({}, {}), ms, 0, Module(0, "a", [2, 3], [], 0), Graph({}, {}), Graph({0, 2, 3}, {(0, 2), (0, 3)}));
  }

  lemma InitBuilt2(ms: seq<Module>)
    requires ms == InitModules()
    ensures AddModules(Graph({}, {}), ms[..2]) == Graph({0, 1, 2, 3, 4}, {(0, 2), (0, 3), (1, 4)})
  {
    InitBuilt1(ms);
    Step(Graph({}, {}), ms, 1, Module(1, "b", [4], [], 1), Graph({0, 2, 3}, {(0, 2), (0, 3)}), Graph({0, 1, 2, 3, 4}, {(0, 2), (0, 3), (1, 4)}));
  }

  lemma InitBuilt3(ms: seq<Module>)
    requires ms == InitModules()
    ensures AddModules(Graph({}, {}), ms[..3]) == Graph({0, 1, 2, 3, 4}, {(0, 2), (0, 3), (1, 4)})
  {
    InitBuilt2(ms);
    Step(Graph({}, {}), ms, 2, Module(2, "c", [], [], 2), Graph({0, 1, 2, 3, 4}, {(0, 2), (0, 3), (1, 4)}), Graph({0, 1, 2, 3, 4}, {(0, 2), (0, 3), (1, 4)}));
  }

  lemma InitBuilt4(ms: seq<Module>)
    requires ms == InitModules()
    ensures AddModules(Graph({}, {}), ms[..4]) == Graph({0, 1, 2, 3, 4, 5}, {(0, 2), (0, 3), (1, 4), (3, 5)})
  {
    InitBuilt3(ms);
    Step(Graph({}, {}), ms, 3, Module(3, "d", [5], [], 3), Graph({0, 1, 2, 3, 4}, {(0, 2), (0, 3), (1, 4)}), Graph({0, 1, 2, 3, 4, 5}, {(0, 2), (0, 3), (1, 4), (3, 5)}));
  }

  lemma InitBuilt5(ms: seq<Module>)
    requires ms == InitModules()
    ensures AddModules(Graph({}, {}), ms[..5]) == Graph({0, 1, 2, 3, 4, 5}, {(0, 2), (0, 3), (1, 4), (3, 5)})
  {
    InitBuilt4(ms);
    Step(Graph({}, {}), ms, 4, Module(4, "e", [], [], 4), Graph({0, 1, 2, 3, 4, 5}, {(0, 2), (0, 3), (1, 4), (3, 5)}), Graph({0, 1, 2, 3, 4, 5}, {(0, 2), (0, 3), (1, 4), (3, 5)}));
  }

  lemma InitBuilt6(ms: seq<Module>)
    requires ms == InitModules()
    ensures AddModules(Graph({}, {}), ms[..6]) == Graph({0, 1, 2, 3, 4, 5}, {(0, 2), (0, 3), (1, 4), (3, 5), (4, 5)})
  {
    InitBuilt5(ms);
    Step(Graph({}, {}), ms, 5, Module(5, "f", [], [4], 5), Graph({0, 1, 2, 3, 4, 5}, {(0, 2), (0, 3), (1, 4), (3, 5)}), Graph({0, 1, 2, 3, 4, 5}, {(0, 2), (0, 3), (1, 4), (3, 5), (4, 5)}));
  }

  lemma InitBuilt7(ms: seq<Module>)
    requires ms == InitModules()
    ensures AddModules(Graph({}, {}), ms) == Layered
  {
    InitBuilt6(ms);
    Step(Graph({}, {}), ms, 6, Module(6, "g", [], [], 6), Graph({0, 1, 2, 3, 4, 5}, {(0, 2), (0, 3), (1, 4), (3, 5), (4, 5)}), Layered);
    assert ms[..7] == ms;
  }

  /** The cycle test's graph: the ordering graph's shape plus the edge f -> a. */
  const Cyclic: Graph := Graph(Seven, {(0, 2), (0, 3), (1, 4), (3, 5), (4, 5), (5, 0)})

  /** The cycle test's modules build Cyclic. */
  lemma CycleGraph()
    ensures AddModules(Graph({}, {}), CycleModules()) == Cyclic
  {
    CycleBuilt7(CycleModules());
  }

  /** Building the collection one module at a time: the graph after the first module. */
  lemma CycleBuilt1(ms: seq<Module>)
    requires ms == CycleModules()
    ensures AddModules(Graph({}, {}), ms[..1]) == Graph({0, 2, 3}, {(0, 2), (0, 3)})
  {
    assert ms[..0] == [];
    Step(Graph({}, {}), ms, 0, Module(0, "a", [2, 3], [], 0), Graph({}, {}), Graph({0, 2, 3}, {(0, 2), (0, 3)}));
  }

  lemma CycleBuilt2(ms: seq<Module>)
    requires ms == CycleModules()
    ensures AddModules(Graph({}, {}), ms[..2]) == Graph({0, 1, 2, 3, 4}, {(0, 2), (0, 3), (1, 4)})
  {
    CycleBuilt1(ms);
    Step(Graph({}, {}), ms, 1, Module(1, "b", [4], [], 1), Graph({0, 2, 3}, {(0, 2), (0, 3)}), Graph({0, 1, 2, 3, 4}, {(0, 2), (0, 3), (1, 4)}));
  }

  lemma CycleBuilt3(ms: seq<Module>)
    requires ms == CycleModules()
    ensures AddModules(Graph({}, {}), ms[..3]) == Graph({0, 1, 2, 3, 4}, {(0, 2), (0, 3), (1, 4)})
  {
    CycleBuilt2(ms);
    Step(Graph({}, {}), ms, 2, Module(2, "c", [], [], 2), Graph({0, 1, 2, 3, 4}, {(0, 2), (0, 3), (1, 4)}), Graph({0, 1, 2, 3, 4}, {(0, 2), (0, 3), (1, 4)}));
  }

  lemma CycleBuilt4(ms: seq<Module>)
    requires ms == CycleModules()
    ensures AddModules(Graph({}, {}), ms[..4]) == Graph({0, 1, 2, 3, 4, 5}, {(0, 2), (0, 3), (1, 4), (3, 5)})
  {
    CycleBuilt3(ms);
    Step(Graph({}, {}), ms, 3, Module(3, "d", [5], [], 3), Graph({0, 1, 2, 3, 4}, {(0, 2), (0, 3), (1, 4)}), Graph({0, 1, 2, 3, 4, 5}, {(0, 2), (0, 3), (1, 4), (3, 5)}));
  }

  lemma CycleBuilt5(ms: seq<Module>)
    requires ms == CycleModules()
    ensures AddModules(Graph({}, {}), ms[..5]) == Graph({0, 1, 2, 3, 4, 5}, {(0, 2), (0, 3), (1, 4), (3, 5), (4, 5)})
  {
    CycleBuilt4(ms);
    Step(Graph({}, {}), ms, 4, Module(4, "e", [5], [], 4), Graph({0, 1, 2, 3, 4, 5}, {(0, 2), (0, 3), (1, 4), (3, 5)}), Graph({0, 1, 2, 3, 4, 5}, {(0, 2), (0, 3), (1, 4), (3, 5), (4, 5)}));
  }

  lemma CycleBuilt6(ms: seq<Module>)
    requires ms == CycleModules()
    ensures AddModules(Graph({}, {}), ms[..6]) == Graph({0, 1, 2, 3, 4, 5}, {(0, 2), (0, 3), (1, 4), (3, 5), (4, 5), (5, 0)})
  {
    CycleBuilt5(ms);
    Step(Graph({}, {}), ms, 5, Module(5, "f", [0], [], 5), Graph({0, 1, 2, 3, 4, 5}, {(0, 2), (0, 3), (1, 4), (3, 5), (4, 5)}), Graph({0, 1, 2, 3, 4, 5}, {(0, 2), (0, 3), (1, 4), (3, 5), (4, 5), (5, 0)}));
  }

  lemma CycleBuilt7(ms: seq<Module>)
    requires ms == CycleModules()
    ensures AddModules(Graph({}, {}), ms) == Cyclic
  {
    CycleBuilt6(ms);
    Step(Graph({}, {}), ms, 6, Module(6, "g", [], [], 6), Graph({0, 1, 2, 3, 4, 5}, {(0, 2), (0, 3), (1, 4), (3, 5), (4, 5), (5, 0)}), Cyclic);
    assert ms[..7] == ms;
  }

  lemma LayeredHeightsAreHeights()
    ensures Layered.IsHeight(LayeredHeights)
  {
    assert LayeredHeights.Keys == Seven;
    LayeredEdgesDescend();
    forall a | a in LayeredHeights ensures Layered.HasLowerSucc(LayeredHeights, a) {
      LayeredLowerSucc(a);
    }
  }

  lemma LayeredEdgesDescend()
    ensures forall a, b :: (a, b) in Layered.edges ==>
      a in LayeredHeights && b in LayeredHeights && LayeredHeights[a] > LayeredHeights[b]
  {
  }

  /** a, b, d, e each need a module one level lower; c, f, g are at height 0. */
  lemma LayeredLowerSucc(a: Vertex)
    requires a in LayeredHeights
    ensures Layered.HasLowerSucc(LayeredHeights, a)
  {
    if a == 0 {
      assert (0, 3) in Layered.edges;
    } else if a == 1 {
      assert (1, 4) in Layered.edges;
    } else if a == 3 {
      assert (3, 5) in Layered.edges;
    } else if a == 4 {
      assert (4, 5) in Layered.edges;
    }
  }

  /**
   * Every plan of the ordering test's graph has the test's three stages:
   * c, f, g; then d, e; then a, b (each stage in any order).
   */
  lemma OrderingStages(stages: seq<seq<Vertex>>)
    requires IsPlanOf(AddModules(Graph({}, {}), OrderingModules()), stages)
    ensures |stages| == 3
    ensures forall v :: v in stages[0] <==> v in {2, 5, 6}
    ensures forall v :: v in stages[1] <==> v in {3, 4}
    ensures forall v :: v in stages[2] <==> v in {0, 1}
  {
    OrderingGraph();
    LayeredStages(stages);
  }

  lemma LayeredStages(stages: seq<seq<Vertex>>)
    requires IsPlanOf(Layered, stages)
    ensures |stages| == 3
    ensures forall v :: v in stages[0] <==> v in {2, 5, 6}
    ensures forall v :: v in stages[1] <==> v in {3, 4}
    ensures forall v :: v in stages[2] <==> v in {0, 1}
  {
    var expected := [[2, 5, 6], [3, 4], [0, 1]];
    LayeredPlan();
    PlanDeterministic(Layered, stages, expected);
    ThreeStages(stages, expected);
  }

  /** Stages with the same members as the test's three stages. */
  lemma ThreeStages(stages: seq<seq<Vertex>>, expected: seq<seq<Vertex>>)
    requires expected == [[2, 5, 6], [3, 4], [0, 1]]
    requires |stages| == |expected| && forall k, v :: 0 <= k < |stages| ==> (v in stages[k] <==> v in expected[k])
    ensures |stages| == 3
    ensures forall v :: v in stages[0] <==> v in {2, 5, 6}
    ensures forall v :: v in stages[1] <==> v in {3, 4}
    ensures forall v :: v in stages[2] <==> v in {0, 1}
  {
    assert expected[0] == [2, 5, 6] && expected[1] == [3, 4] && expected[2] == [0, 1];
    forall v ensures v in stages[0] <==> v in expected[0] {}
    forall v ensures v in stages[1] <==> v in expected[1] {}
    forall v ensures v in stages[2] <==> v in expected[2] {}
  }

  lemma LayeredPlan()
    ensures IsPlanOf(Layered, [[2, 5, 6], [3, 4], [0, 1]])
  {
    LayeredHeightsAreHeights();
    assert IsStagePlan(Layered, [[2, 5, 6], [3, 4], [0, 1]], LayeredHeights);
  }

  /**
   * The cycle test's graph has the cycle a -> f -> d -> a along "needed by"
   * edges, and no plan.
   */
  lemma CycleDetected()
    ensures AddModules(Graph({}, {}), CycleModules()).Reverse().IsClosedWalk([0, 5, 3, 0])
    ensures forall stages :: !IsPlanOf(AddModules(Graph({}, {}), CycleModules()), stages)
  {
    CycleGraph();
    CyclicCycle();
  }

  lemma CyclicCycle()
    ensures Cyclic.Reverse().IsClosedWalk([0, 5, 3, 0])
    ensures forall stages :: !IsPlanOf(Cyclic, stages)
  {
    var g := Cyclic;
    assert (0, 3) in g.edges && (3, 5) in g.edges && (5, 0) in g.edges;
    assert g.IsClosedWalk([0, 3, 5, 0]);
    forall stages ensures !IsPlanOf(g, stages) {
      if IsPlanOf(g, stages) {
        PlanAcyclic(g, stages);
      }
    }
  }

  /**
   * Initialising the init-order test's collection with "hello" resolves,
   * calls every module once with "hello" and no other, and calls g, f, c before e, d,
   * and those before b, a.
   */
  lemma InitOrder(calls: seq<InitCall>, out: InitOutcome)
    requires RunOutcome(AddModules(Graph({}, {}), InitModules()), "hello", Faults({}, {}), calls, out)
    ensures out == Resolved
    ensures forall v :: v in Seven ==> v in CalledModules(calls)
    ensures forall i :: 0 <= i < |calls| ==> calls[i].target in Seven
    ensures Distinct(CalledModules(calls))
    ensures forall i :: 0 <= i < |calls| ==> calls[i].context == "hello"
    ensures forall i, j :: 0 <= i < |calls| && 0 <= j < |calls| && calls[i].target in {2, 5, 6} && calls[j].target in {3, 4} ==> i < j
    ensures forall i, j :: 0 <= i < |calls| && 0 <= j < |calls| && calls[i].target in {3, 4} && calls[j].target in {0, 1} ==> i < j
  {
    InitGraph();
    LayeredInitOrder(calls, out);
  }

  /** The init-order test's graph has no cycle, so planning it succeeds and its run is never cycle-rejected. */
  lemma InitGraphAcyclic()
    ensures AddModules(Graph({}, {}), InitModules()).Acyclic()
  {
    InitGraph();
    LayeredPlan();
    PlanAcyclic(Layered, [[2, 5, 6], [3, 4], [0, 1]]);
  }

  lemma LayeredInitOrder(calls: seq<InitCall>, out: InitOutcome)
    requires RunOutcome(Layered, "hello", Faults({}, {}), calls, out)
    ensures out == Resolved
    ensures forall v :: v in Seven ==> v in CalledModules(calls)
    ensures forall i :: 0 <= i < |calls| ==> calls[i].target in Seven
    ensures Distinct(CalledModules(calls))
    ensures forall i :: 0 <= i < |calls| ==> calls[i].context == "hello"
    ensures forall i, j :: 0 <= i < |calls| && 0 <= j < |calls| && calls[i].target in {2, 5, 6} && calls[j].target in {3, 4} ==> i < j
    ensures forall i, j :: 0 <= i < |calls| && 0 <= j < |calls| && calls[i].target in {3, 4} && calls[j].target in {0, 1} ==> i < j
  {
    LayeredHeightsAreHeights();
    LayeredBands();
    BandedInitOrder(Layered, LayeredHeights, calls, out);
  }

  /** The init-order outcome for any graph of seven modules whose heights fall into the test's three bands. */
  lemma BandedInitOrder(g: Graph, h: map<Vertex, nat>, calls: seq<InitCall>, out: InitOutcome)
    requires g.IsHeight(h) && g.vertices == Seven && RunOutcome(g, "hello", Faults({}, {}), calls, out)
    requires forall a :: a in {2, 5, 6} ==> a in h && h[a] < 1
    requires forall a :: a in {3, 4} ==> a in h && 1 <= h[a] < 2
    requires forall a :: a in {0, 1} ==> a in h && h[a] >= 2
    ensures out == Resolved
    ensures forall v :: v in Seven ==> v in CalledModules(calls)
    ensures forall i :: 0 <= i < |calls| ==> calls[i].target in Seven
    ensures Distinct(CalledModules(calls))
    ensures forall i :: 0 <= i < |calls| ==> calls[i].context == "hello"
    ensures forall i, j :: 0 <= i < |calls| && 0 <= j < |calls| && calls[i].target in {2, 5, 6} && calls[j].target in {3, 4} ==> i < j
    ensures forall i, j :: 0 <= i < |calls| && 0 <= j < |calls| && calls[i].target in {3, 4} && calls[j].target in {0, 1} ==> i < j
  {
    RunCallsInStageOrder(g, h, "hello", Faults({}, {}), calls, out);
    BandedOrder(h, calls);
  }

  lemma BandedOrder(h: map<Vertex, nat>, calls: seq<InitCall>)
    requires forall i :: 0 <= i < |calls| ==> calls[i].target in h
    requires forall i, j :: 0 <= i < j < |calls| ==> h[calls[i].target] <= h[calls[j].target]
    requires forall a :: a in {2, 5, 6} ==> a in h && h[a] < 1
    requires forall a :: a in {3, 4} ==> a in h && 1 <= h[a] < 2
    requires forall a :: a in {0, 1} ==> a in h && h[a] >= 2
    ensures forall i, j :: 0 <= i < |calls| && 0 <= j < |calls| && calls[i].target in {2, 5, 6} && calls[j].target in {3, 4} ==> i < j
    ensures forall i, j :: 0 <= i < |calls| && 0 <= j < |calls| && calls[i].target in {3, 4} && calls[j].target in {0, 1} ==> i < j
  {
    CalledByHeight(h, calls, {2, 5, 6}, {3, 4}, 1);
    CalledByHeight(h, calls, {3, 4}, {0, 1}, 2);
  }

  /** c, f, g sit at height 0, d, e at 1, and a, b at 2. */
  lemma LayeredBands()
    ensures forall a :: a in {2, 5, 6} ==> a in LayeredHeights && LayeredHeights[a] < 1
    ensures forall a :: a in {3, 4} ==> a in LayeredHeights && 1 <= LayeredHeights[a] < 2
    ensures forall a :: a in {0, 1} ==> a in LayeredHeights && LayeredHeights[a] >= 2
  {
  }

  /** In a run that calls modules by non-decreasing height, every lower module is called before every higher one. */
  lemma CalledByHeight(h: map<Vertex, nat>, calls: seq<InitCall>, lo: set<Vertex>, hi: set<Vertex>, n: nat)
    requires forall i :: 0 <= i < |calls| ==> calls[i].target in h
    requires forall i, j :: 0 <= i < j < |calls| ==> h[calls[i].target] <= h[calls[j].target]
    requires forall a :: a in lo ==> a in h && h[a] < n
    requires forall b :: b in hi ==> b in h && h[b] >= n
    ensures forall i, j :: 0 <= i < |calls| && 0 <= j < |calls| && calls[i].target in lo && calls[j].target in hi ==> i < j
  {
    forall i, j | 0 <= i < |calls| && 0 <= j < |calls| && calls[i].target in lo && calls[j].target in hi
      ensures i < j
    {
      assert h[calls[i].target] < h[calls[j].target];
    }
  }
}

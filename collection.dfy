/**
 * ModuleCollection: the dependency graph of a set of modules, the plan that
 * groups them into stages, and the staged run of their init functions,
 * performed at most once per collection.
 */
module Collections {
  import opened Wrappers
  import opened Graphs
  import opened Distances
  import opened Modules

  // ---------------------------------------------------------------------
  // Graph construction
  // ---------------------------------------------------------------------

  /** What `add` does for one module: an edge to each need, an edge from each dependant. */
  function AddModule(g: Graph, m: Module): Graph {
    Graph(
      g.vertices + {m.id} + (set n | n in m.needs) + (set n | n in m.neededBy),
      g.edges + (set n | n in m.needs :: (m.id, n)) + (set n | n in m.neededBy :: (n, m.id)))
  }

  /** `add` over a list of modules, in list order. */
  function AddModules(g: Graph, ms: seq<Module>): Graph
    decreases |ms|
  {
    if ms == [] then g else AddModule(AddModules(g, ms[..|ms| - 1]), ms[|ms| - 1])
  }

  /** Some module of the list is v, or names v as a need or a dependant. */
  ghost predicate Mentions(ms: seq<Module>, v: Vertex) {
    exists i :: 0 <= i < |ms| && (v == ms[i].id || v in ms[i].needs || v in ms[i].neededBy)
  }

  /** Some module of the list declares "a depends on b": b is a need of a, or a a dependant of b. */
  ghost predicate Declares(ms: seq<Module>, a: Vertex, b: Vertex) {
    exists i :: 0 <= i < |ms| && ((a == ms[i].id && b in ms[i].needs) || (b == ms[i].id && a in ms[i].neededBy))
  }

  /** Adding modules adds exactly the vertices they mention and the edges they declare, and removes nothing. */
  lemma {:induction false} AddModulesAdds(g: Graph, ms: seq<Module>)
    ensures forall v :: v in AddModules(g, ms).vertices <==> v in g.vertices || Mentions(ms, v)
    ensures forall a: Vertex, b: Vertex :: (a, b) in AddModules(g, ms).edges <==> (a, b) in g.edges || Declares(ms, a, b)
    decreases |ms|
  {
    if ms != [] {
      var init, last := ms[..|ms| - 1], ms[|ms| - 1];
      AddModulesAdds(g, init);
      MentionsSnoc(ms);
      DeclaresSnoc(ms);
    }
  }

  /** The last module of a list mentions what it names; the others mention the rest. */
  lemma MentionsSnoc(ms: seq<Module>)
    requires ms != []
    ensures forall v :: Mentions(ms, v) <==>
      (|| Mentions(ms[..|ms| - 1], v)
       || v == ms[|ms| - 1].id || v in ms[|ms| - 1].needs || v in ms[|ms| - 1].neededBy)
  {
    var init, last := ms[..|ms| - 1], ms[|ms| - 1];
    forall v
      ensures Mentions(ms, v) <==> Mentions(init, v) || v == last.id || v in last.needs || v in last.neededBy
    {
      if Mentions(ms, v) {
        var i :| 0 <= i < |ms| && (v == ms[i].id || v in ms[i].needs || v in ms[i].neededBy);
        if i < |init| {
          assert init[i] == ms[i];
        }
      }
      if Mentions(init, v) {
        var i :| 0 <= i < |init| && (v == init[i].id || v in init[i].needs || v in init[i].neededBy);
        assert ms[i] == init[i];
      }
    }
  }

  /** The last module of a list declares its own edges; the others declare the rest. */
  lemma DeclaresSnoc(ms: seq<Module>)
    requires ms != []
    ensures forall a: Vertex, b: Vertex :: Declares(ms, a, b) <==>
      (|| Declares(ms[..|ms| - 1], a, b)
       || (a == ms[|ms| - 1].id && b in ms[|ms| - 1].needs)
       || (b == ms[|ms| - 1].id && a in ms[|ms| - 1].neededBy))
  {
    var init, last := ms[..|ms| - 1], ms[|ms| - 1];
    forall a: Vertex, b: Vertex
      ensures Declares(ms, a, b) <==> Declares(init, a, b) || (a == last.id && b in last.needs) || (b == last.id && a in last.neededBy)
    {
      if Declares(ms, a, b) {
        var i :| 0 <= i < |ms| && ((a == ms[i].id && b in ms[i].needs) || (b == ms[i].id && a in ms[i].neededBy));
        if i < |init| {
          assert init[i] == ms[i];
        }
      }
      if Declares(init, a, b) {
        var i :| 0 <= i < |init| && ((a == init[i].id && b in init[i].needs) || (b == init[i].id && a in init[i].neededBy));
        assert ms[i] == init[i];
      }
    }
  }

  /** Adding the same modules a second time changes nothing: the graph has set semantics. */
  lemma AddModulesIdempotent(g: Graph, ms: seq<Module>)
    ensures AddModules(AddModules(g, ms), ms) == AddModules(g, ms)
  {
    var once := AddModules(g, ms);
    AddModulesAdds(g, ms);
    AddModulesAdds(once, ms);
    assert AddModules(once, ms).vertices == once.vertices;
    forall e ensures e in AddModules(once, ms).edges <==> e in once.edges {
      assert e == (e.0, e.1);
    }
    assert AddModules(once, ms).edges == once.edges;
  }

  /** Edges only ever join vertices of the graph. */
  lemma AddModulesValid(g: Graph, ms: seq<Module>)
    requires g.Valid()
    ensures AddModules(g, ms).Valid()
  {
    var r := AddModules(g, ms);
    AddModulesAdds(g, ms);
    forall e | e in r.edges ensures e.0 in r.vertices && e.1 in r.vertices {
      if !(e in g.edges) {
        assert Declares(ms, e.0, e.1);
        var i :| 0 <= i < |ms| && ((e.0 == ms[i].id && e.1 in ms[i].needs) || (e.1 == ms[i].id && e.0 in ms[i].neededBy));
        assert Mentions(ms, e.0) && Mentions(ms, e.1);
      }
    }
  }

  /** The argument of `add`: a single module, or an iterable of modules. */
  datatype ModulesArg = One(single: Module) | Many(modules: seq<Module>)

  predicate IsIterable(arg: ModulesArg) {
    arg.Many?
  }

  /** A single module is treated as the one-element list holding it. */
  function AsList(arg: ModulesArg): seq<Module> {
    if IsIterable(arg) then arg.modules else [arg.single]
  }

  // ---------------------------------------------------------------------
  // Stage plans
  // ---------------------------------------------------------------------

  /**
   * stages groups the vertices of g by height h: stage k holds, once each,
   * exactly the modules whose longest dependency chain to a leaf has k
   * edges, and no stage is empty.
   */
  ghost predicate IsStagePlan(g: Graph, stages: seq<seq<Vertex>>, h: map<Vertex, nat>) {
    && g.IsHeight(h)
    && (forall k, i :: 0 <= k < |stages| && 0 <= i < |stages[k]| ==> stages[k][i] in h && h[stages[k][i]] == k)
    && (forall u :: u in h ==> h[u] < |stages| && u in stages[h[u]])
    && (forall k :: 0 <= k < |stages| ==> Distinct(stages[k]) && stages[k] != [])
  }

  /** No vertex occurs twice. */
  ghost predicate Distinct(s: seq<Vertex>) {
    forall i, j :: 0 <= i < j < |s| ==> s[i] != s[j]
  }

  ghost predicate IsPlanOf(g: Graph, stages: seq<seq<Vertex>>) {
    exists h :: IsStagePlan(g, stages, h)
  }

  /**
   * A module's stage index is the length of its longest dependency chain to
   * a leaf; the leaves are exactly stage 0.
   */
  lemma PlanStageIsLongestChain(g: Graph, stages: seq<seq<Vertex>>, k: nat, v: Vertex)
    requires IsPlanOf(g, stages) && k < |stages| && v in stages[k]
    ensures v in g.vertices
    ensures exists w :: g.IsWalk(w) && w[0] == v && |w| - 1 == k && w[|w| - 1] in g.Leaves()
    ensures forall w :: g.IsWalk(w) && w[0] == v ==> |w| - 1 <= k
    ensures k == 0 <==> v in g.Leaves()
  {
    var h := PlanHeight(g, stages, k, v);
    HeightIsLongestChain(g, h, v);
    if k == 0 {
      HeightZeroIsLeaf(g, h, v);
    } else {
      assert g.HasLowerSucc(h, v);
    }
  }

  /** The height that a plan's stage index stands for. */
  lemma PlanHeight(g: Graph, stages: seq<seq<Vertex>>, k: nat, v: Vertex) returns (h: map<Vertex, nat>)
    requires IsPlanOf(g, stages) && k < |stages| && v in stages[k]
    ensures g.IsHeight(h) && v in g.vertices && h[v] == k
  {
    h :| IsStagePlan(g, stages, h);
  }

  /** A module runs in a later stage than everything it depends on. */
  lemma PlanOrdersDependencies(g: Graph, stages: seq<seq<Vertex>>, a: Vertex, b: Vertex, i: nat, j: nat)
    requires IsPlanOf(g, stages) && (a, b) in g.edges
    requires i < |stages| && a in stages[i] && j < |stages| && b in stages[j]
    ensures i > j
  {
    var h :| IsStagePlan(g, stages, h);
  }

  /** Every module of the graph is in exactly one stage, once; nothing else is in any stage. */
  lemma PlanCoversEachOnce(g: Graph, stages: seq<seq<Vertex>>, v: Vertex)
    requires IsPlanOf(g, stages)
    ensures v in g.vertices <==> exists k :: 0 <= k < |stages| && v in stages[k]
    ensures forall k1, k2 :: 0 <= k1 < |stages| && 0 <= k2 < |stages| && v in stages[k1] && v in stages[k2] ==> k1 == k2
    ensures forall k, i, j :: 0 <= k < |stages| && 0 <= i < j < |stages[k]| ==> stages[k][i] != stages[k][j]
  {
    var h :| IsStagePlan(g, stages, h);
    if v in g.vertices {
      assert v in stages[h[v]];
    }
    forall k | 0 <= k < |stages| ensures Distinct(stages[k]) {
    }
  }

  /** The plan of a graph is unique up to the order inside each stage. */
  lemma PlanDeterministic(g: Graph, s1: seq<seq<Vertex>>, s2: seq<seq<Vertex>>)
    requires IsPlanOf(g, s1) && IsPlanOf(g, s2)
    ensures |s1| == |s2|
    ensures forall k, v :: 0 <= k < |s1| ==> (v in s1[k] <==> v in s2[k])
  {
    var h1 :| IsStagePlan(g, s1, h1);
    var h2 :| IsStagePlan(g, s2, h2);
    HeightUnique(g, h1, h2);
    PlanNotLonger(g, s1, s2, h1);
    PlanNotLonger(g, s2, s1, h1);
  }

  lemma PlanNotLonger(g: Graph, s1: seq<seq<Vertex>>, s2: seq<seq<Vertex>>, h: map<Vertex, nat>)
    requires IsStagePlan(g, s1, h) && IsStagePlan(g, s2, h)
    ensures |s1| <= |s2|
    ensures forall k, v :: 0 <= k < |s1| && v in s1[k] ==> v in s2[k]
  {
    if |s1| > 0 {
      var k := |s1| - 1;
      assert s1[k] != [];
      var v := s1[k][0];
      assert v in s1[k];
      assert v in h && h[v] == k;
      assert h[v] < |s2|;
    }
    forall k, v | 0 <= k < |s1| && v in s1[k] ensures v in s2[k] {
      assert v in h && h[v] == k;
    }
  }

  /** A graph with a plan has no cycle. */
  lemma PlanAcyclic(g: Graph, stages: seq<seq<Vertex>>)
    requires IsPlanOf(g, stages)
    ensures g.Acyclic()
  {
    var h :| IsStagePlan(g, stages, h);
    HeightAcyclic(g, h);
  }

  // ---------------------------------------------------------------------
  // Planning steps
  // ---------------------------------------------------------------------

  /** The clone of base after adding the edge leaf -> root for each leaf in ls. */
  function Linked(base: Graph, root: Vertex, ls: set<Vertex>): Graph {
    Graph(
      base.vertices + (if ls == {} then {} else {root}),
      base.edges + (set l | l in ls :: (l, root)))
  }

  lemma LinkedValid(base: Graph, root: Vertex, ls: set<Vertex>)
    requires base.Valid() && ls <= base.vertices
    ensures Linked(base, root, ls).Valid()
  {
  }

  /** A reference no vertex of the graph uses: `new Module('__root__', [], [], ...)`. */
  method FreshVertex(used: set<Vertex>) returns (r: Vertex)
    ensures r !in used
  {
    r := 0;
    var todo := used;
    while todo != {}
      invariant todo <= used
      invariant forall x :: x in used && x !in todo ==> x < r
      decreases todo
    {
      var x :| x in todo;
      if r <= x {
        r := x + 1;
      }
      todo := todo - {x};
    }
  }

  /**
   * Bucket k holds, once each, exactly the vertices at distance k, and the
   * last bucket is not empty.
   */
  ghost predicate IsGrouping(d: map<Vertex, nat>, buckets: seq<seq<Vertex>>) {
    && (forall k, i :: 0 <= k < |buckets| && 0 <= i < |buckets[k]| ==> buckets[k][i] in d && d[buckets[k][i]] == k)
    && (forall u :: u in d ==> d[u] < |buckets| && u in buckets[d[u]])
    && (forall k :: 0 <= k < |buckets| ==> Distinct(buckets[k]))
    && (|buckets| > 0 ==> exists u :: u in d && d[u] == |buckets| - 1)
  }

  /** The heights read off distances from the root: one less than the distance. */
  function HeightsFrom(vs: set<Vertex>, d: map<Vertex, nat>): (h: map<Vertex, nat>)
    requires forall v :: v in vs ==> v in d && d[v] >= 1
    ensures h.Keys == vs && forall v :: v in h ==> d[v] == h[v] + 1
  {
    map v | v in vs :: d[v] - 1
  }

  /**
   * The reduce that puts each vertex into the bucket of its distance:
   * bucket k holds, once each, the vertices at distance k.
   */
  method GroupByDistance(d: map<Vertex, nat>) returns (buckets: seq<seq<Vertex>>)
    ensures IsGrouping(d, buckets)
  {
    buckets := [];
    var todo := d.Keys;
    while todo != {}
      invariant todo <= d.Keys
      invariant forall k, i :: 0 <= k < |buckets| && 0 <= i < |buckets[k]| ==>
        buckets[k][i] in d && buckets[k][i] !in todo && d[buckets[k][i]] == k
      invariant forall u :: u in d && u !in todo ==> d[u] < |buckets| && u in buckets[d[u]]
      invariant forall k :: 0 <= k < |buckets| ==> Distinct(buckets[k])
      invariant |buckets| > 0 ==> exists u :: u in d && u !in todo && d[u] == |buckets| - 1
      decreases todo
    {
      var u :| u in todo;
      var k := d[u];
      if |buckets| <= k {
        // map[k] = map[k] || [] on a sparse array: the holes below k read as empty
        buckets := buckets + seq(k + 1 - |buckets|, _ => []);
      }
      assert u !in buckets[k];
      buckets := buckets[k := buckets[k] + [u]];
      todo := todo - {u};
    }
  }

  /** In the augmented reversed graph the root is at distance 0 and every module at least 1. */
  lemma DistancesPositive(g: Graph, root: Vertex, d: map<Vertex, nat>)
    requires g.Valid() && root !in g.vertices
    requires d.Keys == Linked(g, root, g.Leaves()).vertices
    requires IsDistances(Linked(g, root, g.Leaves()).Reverse(), d)
    ensures forall v :: v in g.vertices ==> d[v] >= 1
    ensures root in d ==> d[root] == 0
  {
    var a := Linked(g, root, g.Leaves());
    var r := a.Reverse();
    if root in d {
      assert forall p :: (root, p) !in a.edges;
      assert HasTightPred(r, d, root);
    }
    forall v | v in g.vertices ensures d[v] >= 1 {
      if v in g.Leaves() {
        assert (v, root) in a.edges;
        assert (root, v) in r.edges;
      } else {
        var w :| (v, w) in g.edges;
        assert (w, v) in r.edges;
      }
    }
  }

  /**
   * One less than the distance from the root is a height of the graph:
   * the longest chain from a module down to a leaf.
   */
  lemma DistancesGiveHeights(g: Graph, root: Vertex, d: map<Vertex, nat>, h: map<Vertex, nat>)
    requires g.Valid() && root !in g.vertices
    requires d.Keys == Linked(g, root, g.Leaves()).vertices
    requires IsDistances(Linked(g, root, g.Leaves()).Reverse(), d)
    requires root in d ==> d[root] == 0
    requires h.Keys == g.vertices && forall v :: v in h ==> d[v] == h[v] + 1
    ensures g.IsHeight(h)
  {
    forall x, y | (x, y) in g.edges ensures x in h && y in h && h[x] > h[y] {
      DistancesDescend(g, root, d, h, x, y);
    }
    forall x | x in h ensures g.HasLowerSucc(h, x) {
      assert HasTightPred(Linked(g, root, g.Leaves()).Reverse(), d, x);
      DistancesTightSucc(g, root, d, h, x);
    }
  }

  /** An edge of g climbs at least one step in the reversed linked graph, so it goes down in h. */
  lemma DistancesDescend(g: Graph, root: Vertex, d: map<Vertex, nat>, h: map<Vertex, nat>, x: Vertex, y: Vertex)
    requires g.Valid() && (x, y) in g.edges
    requires d.Keys == Linked(g, root, g.Leaves()).vertices
    requires IsDistances(Linked(g, root, g.Leaves()).Reverse(), d)
    requires h.Keys == g.vertices && forall v :: v in h ==> d[v] == h[v] + 1
    ensures x in h && y in h && h[x] > h[y]
  {
    assert (y, x) in Linked(g, root, g.Leaves()).Reverse().edges;
  }

  /** A vertex of positive height has the predecessor that makes its distance tight as a successor one lower. */
  lemma DistancesTightSucc(g: Graph, root: Vertex, d: map<Vertex, nat>, h: map<Vertex, nat>, x: Vertex)
    requires g.Valid() && root !in g.vertices
    requires d.Keys == Linked(g, root, g.Leaves()).vertices
    requires root in d ==> d[root] == 0
    requires h.Keys == g.vertices && forall v :: v in h ==> d[v] == h[v] + 1
    requires x in h && HasTightPred(Linked(g, root, g.Leaves()).Reverse(), d, x)
    ensures g.HasLowerSucc(h, x)
  {
    var r := Linked(g, root, g.Leaves()).Reverse();
    if h[x] > 0 {
      var p :| (p, x) in r.edges && p in d && d[x] == d[p] + 1;
      LinkedPred(g, root, p, x);
      assert p != root;
      assert p in h && h[x] == h[p] + 1;
    }
  }

  /** In the reversed linked graph, an edge into a module reverses an edge of g unless it leaves the root. */
  lemma LinkedPred(g: Graph, root: Vertex, p: Vertex, x: Vertex)
    requires (p, x) in Linked(g, root, g.Leaves()).Reverse().edges
    ensures p == root || (x, p) in g.edges
  {
    assert (x, p) in Linked(g, root, g.Leaves()).edges;
  }

  /** The root has no incoming edge in the reversed graph, so no cycle passes through it. */
  lemma CycleAvoidsRoot(g: Graph, root: Vertex, w: seq<Vertex>)
    requires g.Valid() && root !in g.vertices
    requires Linked(g, root, g.Leaves()).Reverse().IsClosedWalk(w)
    ensures g.Reverse().IsClosedWalk(w)
  {
    var a := Linked(g, root, g.Leaves());
    var r := a.Reverse();
    var n := |w|;
    forall i | 0 <= i < n ensures w[i] != root {
      var j := if i == 0 then n - 1 else i;
      assert (w[j - 1], w[j]) in r.edges;
      assert (w[j], w[j - 1]) in a.edges;
    }
    forall i | 0 <= i < n - 1 ensures (w[i], w[i + 1]) in g.Reverse().edges {
      assert (w[i], w[i + 1]) in r.edges;
      assert (w[i + 1], w[i]) in a.edges;
    }
    assert (w[0], w[1]) in r.edges;
    assert (w[1], w[0]) in a.edges;
  }

  /** Dropping bucket 0 (the root) leaves a plan of the graph. */
  lemma BucketsArePlan(g: Graph, d: map<Vertex, nat>, h: map<Vertex, nat>, buckets: seq<seq<Vertex>>)
    requires g.IsHeight(h) && forall v :: v in h ==> v in d && d[v] == h[v] + 1
    requires forall u :: u in d && u !in h ==> d[u] == 0
    requires forall k, i :: 0 <= k < |buckets| && 0 <= i < |buckets[k]| ==> buckets[k][i] in d && d[buckets[k][i]] == k
    requires forall u :: u in d ==> d[u] < |buckets| && u in buckets[d[u]]
    requires forall k :: 0 <= k < |buckets| ==> Distinct(buckets[k])
    requires |buckets| > 0 ==> exists u :: u in d && d[u] == |buckets| - 1
    ensures IsStagePlan(g, if |buckets| > 0 then buckets[1..] else [], h)
  {
    var stages := if |buckets| > 0 then buckets[1..] else [];
    forall k, u | 0 <= k < |stages| && u in stages[k] ensures u in h && h[u] == k {
      assert u in buckets[k + 1];
    }
    forall u | u in h ensures h[u] < |stages| && u in stages[h[u]] {
      assert u in buckets[h[u] + 1];
    }
    forall k | 0 <= k < |stages| ensures Distinct(stages[k]) && stages[k] != [] {
      assert stages[k] == buckets[k + 1];
      var top :| top in d && d[top] == |buckets| - 1;
      assert top in h;
      HeightNoGaps(g, h, top, k);
      var u :| u in h && h[u] == k;
      assert u in stages[k];
    }
  }

  /** The distances from the root, grouped into buckets, give a plan once bucket 0 is dropped. */
  lemma DistancesPlan(g: Graph, root: Vertex, d: map<Vertex, nat>, buckets: seq<seq<Vertex>>)
    requires g.Valid() && root !in g.vertices
    requires d.Keys == Linked(g, root, g.Leaves()).vertices
    requires IsDistances(Linked(g, root, g.Leaves()).Reverse(), d)
    requires IsGrouping(d, buckets)
    ensures IsPlanOf(g, if |buckets| > 0 then buckets[1..] else [])
  {
    DistancesPositive(g, root, d);
    var h := HeightsFrom(g.vertices, d);
    DistancesGiveHeights(g, root, d, h);
    forall u | u in d && u !in h ensures d[u] == 0 {
      assert u == root;
    }
    BucketsArePlan(g, d, h, buckets);
  }

  // ---------------------------------------------------------------------
  // The staged run
  // ---------------------------------------------------------------------

  /** The caller's initialisation context, passed unchanged to every init function. */
  type Context = string

  /** One call of a module's init function. */
  datatype InitCall = InitCall(target: Vertex, context: Context)

  /** How the promise returned by `init` settles. */
  datatype InitOutcome = Resolved | CycleRejected(cycle: seq<Vertex>) | StageRejected(stage: nat)

  /** `stage.map(x => x.init(context))`: one call per module, in the stage's order. */
  ghost function Launch(stage: seq<Vertex>, ctx: Context): (calls: seq<InitCall>)
    ensures |calls| == |stage|
    ensures forall i :: 0 <= i < |stage| ==> calls[i] == InitCall(stage[i], ctx)
  {
    seq(|stage|, i requires 0 <= i < |stage| => InitCall(stage[i], ctx))
  }

  /**
   * How the modules' init functions behave when called: an init function of
   * `rejects` returns a promise that rejects, one of `throws` throws before
   * returning anything (an init function need not be async), the others
   * return a promise that resolves, or nothing.
   */
  datatype Faults = Faults(rejects: set<Vertex>, throws: set<Vertex>)

  /**
   * The modules whose init functions `stage.map(x => x.init(context))`
   * calls: the whole stage, or the stage up to and including the first
   * module whose init throws, where the map stops.
   */
  function Launched(stage: seq<Vertex>, throws: set<Vertex>): (l: seq<Vertex>)
    ensures |l| <= |stage| && l == stage[..|l|]
    ensures forall j :: 0 <= j < |l| - 1 ==> l[j] !in throws
    ensures |l| < |stage| ==> |l| > 0 && l[|l| - 1] in throws
  {
    if stage == [] then []
    else if stage[0] in throws then [stage[0]]
    else
      var rest := Launched(stage[1..], throws);
      assert [stage[0]] + stage[1..][..|rest|] == stage[..|rest| + 1];
      [stage[0]] + rest
  }

  /** A stage none of whose init functions throws is launched in full. */
  lemma LaunchedNoThrow(stage: seq<Vertex>, throws: set<Vertex>)
    requires forall i :: 0 <= i < |stage| ==> stage[i] !in throws
    ensures Launched(stage, throws) == stage
  {
  }

  /** A stage holding a throwing init function is launched up to a throwing one, which is the last. */
  lemma LaunchedStopsAtThrow(stage: seq<Vertex>, throws: set<Vertex>, i: nat)
    requires i < |stage| && stage[i] in throws
    ensures |Launched(stage, throws)| > 0 && Launched(stage, throws)[|Launched(stage, throws)| - 1] in throws
  {
    var l := Launched(stage, throws);
    if |l| == |stage| {
      assert l == stage;
    }
  }

  /** The launch of a stage whose first throwing init is module i's ends with module i. */
  lemma LaunchedFirstThrow(stage: seq<Vertex>, throws: set<Vertex>, i: nat)
    requires i < |stage| && stage[i] in throws
    requires forall j :: 0 <= j < i ==> stage[j] !in throws
    ensures Launched(stage, throws) == stage[..i + 1]
  {
    var l := Launched(stage, throws);
    assert l[i] == stage[i];
  }

  /** Some init function of the stage throws, or returns a promise that rejects. */
  ghost predicate StageFails(stage: seq<Vertex>, faults: Faults) {
    exists i :: 0 <= i < |stage| && (stage[i] in faults.rejects || stage[i] in faults.throws)
  }

  /**
   * The run from stage k: launch a stage, wait for all of it, stop if any of
   * it threw or rejected.
   */
  ghost function Staged(stages: seq<seq<Vertex>>, ctx: Context, faults: Faults, k: nat)
    : (seq<InitCall>, InitOutcome)
    decreases |stages| - k
  {
    if k >= |stages| then ([], Resolved)
    else if StageFails(stages[k], faults) then (Launch(Launched(stages[k], faults.throws), ctx), StageRejected(k))
    else
      var rest := Staged(stages, ctx, faults, k + 1);
      (Launch(stages[k], ctx) + rest.0, rest.1)
  }

  ghost function Flatten(stages: seq<seq<Vertex>>): seq<Vertex> {
    if stages == [] then [] else stages[0] + Flatten(stages[1..])
  }

  lemma LaunchAppend(a: seq<Vertex>, b: seq<Vertex>, ctx: Context)
    ensures Launch(a + b, ctx) == Launch(a, ctx) + Launch(b, ctx)
  {
  }

  /**
   * The run from stage k launches stages k, k+1, ... in order, and stops
   * in the first stage with a throwing or rejecting init, after launching
   * that stage up to its first throwing init, or resolves after the last.
   */
  lemma {:induction false} StagedShape(stages: seq<seq<Vertex>>, ctx: Context, faults: Faults, k: nat)
    requires k <= |stages|
    ensures Staged(stages, ctx, faults, k).1.Resolved? || Staged(stages, ctx, faults, k).1.StageRejected?
    ensures Staged(stages, ctx, faults, k).1.Resolved? ==>
      && (forall j :: k <= j < |stages| ==> !StageFails(stages[j], faults))
      && Staged(stages, ctx, faults, k).0 == Launch(Flatten(stages[k..]), ctx)
    ensures Staged(stages, ctx, faults, k).1.StageRejected? ==>
      var n := Staged(stages, ctx, faults, k).1.stage;
      && k <= n < |stages|
      && StageFails(stages[n], faults)
      && (forall j :: k <= j < n ==> !StageFails(stages[j], faults))
      && Staged(stages, ctx, faults, k).0 == Launch(Flatten(stages[k..n]) + Launched(stages[n], faults.throws), ctx)
    decreases |stages| - k
  {
    if k < |stages| {
      assert stages[k..][1..] == stages[k + 1..];
      if !StageFails(stages[k], faults) {
        StagedShape(stages, ctx, faults, k + 1);
        var rest := Staged(stages, ctx, faults, k + 1);
        if rest.1.Resolved? {
          LaunchAppend(stages[k], Flatten(stages[k + 1..]), ctx);
        } else {
          var n := rest.1.stage;
          var tail := Launched(stages[n], faults.throws);
          assert stages[k..n][1..] == stages[k + 1..n];
          assert Flatten(stages[k..n]) + tail == stages[k] + (Flatten(stages[k + 1..n]) + tail);
          LaunchAppend(stages[k], Flatten(stages[k + 1..n]) + tail, ctx);
        }
      } else {
        assert stages[k..k] == [];
        assert Flatten(stages[k..k]) + Launched(stages[k], faults.throws) == Launched(stages[k], faults.throws);
      }
    } else {
      assert stages[k..] == [];
    }
  }

  /**
   * Flattening stages base, base+1, ... lists each module of those heights
   * exactly once, nothing else, and in order of height.
   */
  lemma {:induction false} FlattenByHeight(h: map<Vertex, nat>, ss: seq<seq<Vertex>>, base: nat)
    requires IsLayering(h, ss, base)
    ensures Distinct(Flatten(ss))
    ensures forall u :: u in h ==> (u in Flatten(ss) <==> base <= h[u] < base + |ss|)
    ensures forall i :: 0 <= i < |Flatten(ss)| ==> Flatten(ss)[i] in h && base <= h[Flatten(ss)[i]] < base + |ss|
    ensures forall i, j :: 0 <= i < j < |Flatten(ss)| ==> h[Flatten(ss)[i]] <= h[Flatten(ss)[j]]
    decreases |ss|
  {
    if ss != [] {
      LayeringTail(h, ss, base);
      FlattenByHeight(h, ss[1..], base + 1);
      var fr := Flatten(ss[1..]);
      assert Flatten(ss) == ss[0] + fr;
      ConcatByHeight(h, ss[0], fr, base, base + |ss|);
      forall u | u in h ensures u in Flatten(ss) <==> base <= h[u] < base + |ss| {
        assert u in Flatten(ss) <==> u in ss[0] || u in fr;
        if h[u] == base {
          assert u in ss[0];
        }
      }
    }
  }

  /** ss[i] lists, once each, exactly the vertices of height base + i. */
  ghost predicate IsLayering(h: map<Vertex, nat>, ss: seq<seq<Vertex>>, base: nat) {
    && (forall k, i :: 0 <= k < |ss| && 0 <= i < |ss[k]| ==> ss[k][i] in h && h[ss[k][i]] == base + k)
    && (forall u :: u in h && base <= h[u] < base + |ss| ==> u in ss[h[u] - base])
    && (forall i :: 0 <= i < |ss| ==> Distinct(ss[i]))
  }

  lemma LayeringTail(h: map<Vertex, nat>, ss: seq<seq<Vertex>>, base: nat)
    requires IsLayering(h, ss, base) && ss != []
    ensures IsLayering(h, ss[1..], base + 1)
    ensures forall u :: u in ss[0] ==> u in h && h[u] == base
    ensures Distinct(ss[0])
    ensures forall u :: u in h && h[u] == base ==> u in ss[0]
  {
    var rest := ss[1..];
    forall i, u | 0 <= i < |rest| && u in rest[i] ensures u in h && h[u] == base + 1 + i {
      assert u in ss[i + 1];
    }
    forall u | u in h && base + 1 <= h[u] < base + 1 + |rest| ensures u in rest[h[u] - base - 1] {
      assert rest[h[u] - base - 1] == ss[h[u] - base];
    }
    forall i | 0 <= i < |rest| ensures Distinct(rest[i]) {
      assert rest[i] == ss[i + 1];
    }
  }

  /** One layer followed by higher layers in order stays distinct and ordered by height. */
  lemma ConcatByHeight(h: map<Vertex, nat>, a: seq<Vertex>, b: seq<Vertex>, base: nat, top: nat)
    requires forall u :: u in a ==> u in h && h[u] == base
    requires base < top && Distinct(a) && Distinct(b)
    requires forall i :: 0 <= i < |b| ==> b[i] in h && base < h[b[i]] < top
    requires forall i, j :: 0 <= i < j < |b| ==> h[b[i]] <= h[b[j]]
    ensures Distinct(a + b)
    ensures forall i :: 0 <= i < |a + b| ==> (a + b)[i] in h && base <= h[(a + b)[i]] < top
    ensures forall i, j :: 0 <= i < j < |a + b| ==> h[(a + b)[i]] <= h[(a + b)[j]]
  {
    var f, n := a + b, |a|;
    forall i | 0 <= i < |f| ensures f[i] in h && base <= h[f[i]] < top {
      if i < n {
        assert f[i] in a;
      } else {
        assert f[i] == b[i - n];
      }
    }
    forall i, j | 0 <= i < j < |f| ensures h[f[i]] <= h[f[j]] && f[i] != f[j] {
      if j < n {
        assert f[i] == a[i] && f[j] == a[j];
      } else if i < n {
        assert f[i] in a && f[j] == b[j - n];
      } else {
        assert f[i] == b[i - n] && f[j] == b[j - n];
      }
    }
  }

  /** The modules whose init functions were called, in call order. */
  ghost function CalledModules(calls: seq<InitCall>): (ms: seq<Vertex>)
    ensures |ms| == |calls| && forall i :: 0 <= i < |calls| ==> ms[i] == calls[i].target
  {
    seq(|calls|, i requires 0 <= i < |calls| => calls[i].target)
  }

  lemma LaunchCalls(stage: seq<Vertex>, ctx: Context)
    ensures CalledModules(Launch(stage, ctx)) == stage
  {
  }

  /**
   * What a run of `init`'s body may produce on graph g: a cycle and no
   * calls, or the staged run of a plan of g.
   */
  ghost predicate RunOutcome(g: Graph, ctx: Context, faults: Faults, calls: seq<InitCall>, out: InitOutcome) {
    || (out.CycleRejected? && calls == [] && g.Reverse().IsClosedWalk(out.cycle))
    || (exists stages :: IsPlanOf(g, stages) && Staged(stages, ctx, faults, 0) == (calls, out))
  }

  /**
   * `stage.map(x => x.init(context))`, then whether the `Promise.all` over
   * the results rejects: the map stops at the first init function that
   * throws, and the stage fails when a called init throws or returns a
   * promise that rejects.
   */
  method LaunchStage(stage: seq<Vertex>, ctx: Context, faults: Faults) returns (calls: seq<InitCall>, failed: bool)
    ensures calls == Launch(Launched(stage, faults.throws), ctx)
    ensures failed <==> StageFails(stage, faults)
  {
    calls := [];
    failed := false;
    var i := 0;
    while i < |stage|
      invariant 0 <= i <= |stage|
      invariant calls == Launch(stage[..i], ctx)
      invariant forall j :: 0 <= j < i ==> stage[j] !in faults.throws
      invariant failed <==> exists j :: 0 <= j < i && stage[j] in faults.rejects
    {
      LaunchAppend(stage[..i], [stage[i]], ctx);
      assert stage[..i] + [stage[i]] == stage[..i + 1];
      calls := calls + [InitCall(stage[i], ctx)];
      assert calls == Launch(stage[..i + 1], ctx);
      if stage[i] in faults.throws {
        // the map throws here: no later init function of the stage is called
        LaunchedFirstThrow(stage, faults.throws, i);
        return calls, true;
      }
      failed := failed || stage[i] in faults.rejects;
      i := i + 1;
    }
    assert stage[..i] == stage;
    LaunchedNoThrow(stage, faults.throws);
  }

  /**
   * `for (const stage of stages) await Promise.all(...)`: each stage is
   * launched and awaited before the next; the first stage with a throwing
   * or rejecting init ends the run.
   */
  method RunStages(stages: seq<seq<Vertex>>, ctx: Context, faults: Faults)
    returns (out: InitOutcome, calls: seq<InitCall>)
    ensures (calls, out) == Staged(stages, ctx, faults, 0)
  {
    calls := [];
    var k := 0;
    while k < |stages|
      invariant 0 <= k <= |stages|
      invariant Staged(stages, ctx, faults, 0).0 == calls + Staged(stages, ctx, faults, k).0
      invariant Staged(stages, ctx, faults, 0).1 == Staged(stages, ctx, faults, k).1
    {
      var launched, failed := LaunchStage(stages[k], ctx, faults);
      ghost var here := Staged(stages, ctx, faults, k);
      if failed {
        assert here == (launched, StageRejected(k));
        return StageRejected(k), calls + launched;
      }
      LaunchedNoThrow(stages[k], faults.throws);
      ghost var next := Staged(stages, ctx, faults, k + 1);
      assert here.0 == launched + next.0 && here.1 == next.1;
      assert calls + here.0 == (calls + launched) + next.0;
      calls := calls + launched;
      k := k + 1;
    }
    assert Staged(stages, ctx, faults, k) == ([], Resolved);
    assert calls + [] == calls;
    out := Resolved;
  }

  /** The staged run of a plan is one of the outcomes `init` may settle with. */
  lemma StagedIsOutcome(g: Graph, stages: seq<seq<Vertex>>, ctx: Context, faults: Faults,
                        calls: seq<InitCall>, out: InitOutcome)
    requires IsPlanOf(g, stages) && Staged(stages, ctx, faults, 0) == (calls, out)
    ensures RunOutcome(g, ctx, faults, calls, out)
  {
  }

  /**
   * The whole run from stage 0: the calls of its first n stages, n being
   * where it stopped, followed, when it stopped early, by the launched part
   * of stage n.
   */
  lemma StagedPrefix(stages: seq<seq<Vertex>>, ctx: Context, faults: Faults) returns (n: nat)
    ensures n <= |stages|
    ensures !Staged(stages, ctx, faults, 0).1.CycleRejected?
    ensures forall j :: 0 <= j < n ==> !StageFails(stages[j], faults)
    ensures Staged(stages, ctx, faults, 0).1.Resolved? ==>
      n == |stages| && Staged(stages, ctx, faults, 0).0 == Launch(Flatten(stages[..n]), ctx)
    ensures Staged(stages, ctx, faults, 0).1.StageRejected? ==>
      && n == Staged(stages, ctx, faults, 0).1.stage
      && n < |stages|
      && StageFails(stages[n], faults)
      && Staged(stages, ctx, faults, 0).0 == Launch(Flatten(stages[..n]) + Launched(stages[n], faults.throws), ctx)
  {
    StagedShape(stages, ctx, faults, 0);
    var out := Staged(stages, ctx, faults, 0).1;
    n := if out.Resolved? then |stages| else out.stage;
    assert stages[0..n] == stages[..n];
    if out.Resolved? {
      assert stages[0..] == stages[..n];
    }
  }

  /** The first n stages of a plan, flattened: each module of height below n once, by height. */
  lemma PlanPrefix(g: Graph, stages: seq<seq<Vertex>>, h: map<Vertex, nat>, n: nat)
    requires IsStagePlan(g, stages, h) && n <= |stages|
    ensures Distinct(Flatten(stages[..n]))
    ensures forall u :: u in h ==> (u in Flatten(stages[..n]) <==> h[u] < n)
    ensures forall i :: 0 <= i < |Flatten(stages[..n])| ==> Flatten(stages[..n])[i] in h
    ensures forall i, j :: 0 <= i < j < |Flatten(stages[..n])| ==>
      h[Flatten(stages[..n])[i]] <= h[Flatten(stages[..n])[j]]
  {
    var ss := stages[..n];
    forall i, u | 0 <= i < |ss| && u in ss[i] ensures u in h && h[u] == i {
      assert ss[i] == stages[i];
    }
    forall u | u in h && h[u] < |ss| ensures u in ss[h[u]] {
      assert ss[h[u]] == stages[h[u]];
    }
    forall i | 0 <= i < |ss| ensures Distinct(ss[i]) {
      assert ss[i] == stages[i];
    }
    assert IsLayering(h, ss, 0);
    FlattenByHeight(h, ss, 0);
  }

  /** When no stage below n fails, no module of height below n throws or rejects. */
  lemma AcceptedStages(g: Graph, stages: seq<seq<Vertex>>, h: map<Vertex, nat>, faults: Faults, n: nat)
    requires IsStagePlan(g, stages, h) && n <= |stages|
    requires forall j :: 0 <= j < n ==> !StageFails(stages[j], faults)
    ensures forall v :: v in h && h[v] < n ==> v !in faults.rejects && v !in faults.throws
  {
    forall v | v in h && h[v] < n ensures v !in faults.rejects && v !in faults.throws {
      assert v in stages[h[v]];
      var i :| 0 <= i < |stages[h[v]]| && stages[h[v]][i] == v;
      assert !StageFails(stages[h[v]], faults);
    }
  }

  /**
   * The launched part of a failing stage n: distinct modules of height n,
   * one of them throwing or rejecting; all of the stage when no module of
   * height n throws.
   */
  lemma LaunchedLayer(g: Graph, stages: seq<seq<Vertex>>, h: map<Vertex, nat>, faults: Faults, n: nat)
    requires IsStagePlan(g, stages, h) && n < |stages| && StageFails(stages[n], faults)
    ensures Distinct(Launched(stages[n], faults.throws))
    ensures forall i :: 0 <= i < |Launched(stages[n], faults.throws)| ==>
      Launched(stages[n], faults.throws)[i] in h && h[Launched(stages[n], faults.throws)[i]] == n
    ensures var l := Launched(stages[n], faults.throws);
      exists i :: 0 <= i < |l| && (l[i] in faults.rejects || l[i] in faults.throws)
    ensures (forall u :: u in h && h[u] == n ==> u !in faults.throws) ==>
      forall u :: u in h && h[u] == n ==> u in Launched(stages[n], faults.throws)
  {
    var s := stages[n];
    var l := Launched(s, faults.throws);
    assert Distinct(s);
    forall i | 0 <= i < |l| ensures l[i] == s[i] {
      assert l == s[..|l|];
    }
    if i :| 0 <= i < |s| && s[i] in faults.throws {
      LaunchedStopsAtThrow(s, faults.throws, i);
    } else {
      LaunchedNoThrow(s, faults.throws);
    }
    if forall u :: u in h && h[u] == n ==> u !in faults.throws {
      forall i | 0 <= i < |s| ensures s[i] !in faults.throws {
        assert s[i] in h && h[s[i]] == n;
      }
      LaunchedNoThrow(s, faults.throws);
    }
  }

  /** Modules below height n ordered by height, then modules of height n: distinct and ordered still. */
  lemma AppendLayer(h: map<Vertex, nat>, f: seq<Vertex>, tail: seq<Vertex>, n: nat)
    requires Distinct(f) && forall i :: 0 <= i < |f| ==> f[i] in h && h[f[i]] < n
    requires forall i, j :: 0 <= i < j < |f| ==> h[f[i]] <= h[f[j]]
    requires Distinct(tail) && forall i :: 0 <= i < |tail| ==> tail[i] in h && h[tail[i]] == n
    ensures Distinct(f + tail)
    ensures forall i :: 0 <= i < |f + tail| ==> (f + tail)[i] in h && h[(f + tail)[i]] <= n
    ensures forall i, j :: 0 <= i < j < |f + tail| ==> h[(f + tail)[i]] <= h[(f + tail)[j]]
  {
  }

  /**
   * A run calls init functions stage after stage: every call gets the
   * caller's context, heights never decrease along the calls, no module is
   * called twice, and only the last call may be to a throwing init. A
   * resolved run called every module, none of which threw or rejected. A
   * run rejected at stage k called every module below height k, none of
   * which threw or rejected, and only modules of height k besides, one of
   * which threw or rejected; it called all of height k unless one of them
   * throws.
   */
  lemma RunCallsInStageOrder(g: Graph, h: map<Vertex, nat>, ctx: Context, faults: Faults,
                             calls: seq<InitCall>, out: InitOutcome)
    requires g.IsHeight(h) && RunOutcome(g, ctx, faults, calls, out)
    ensures !out.CycleRejected?
    ensures forall i :: 0 <= i < |calls| ==> calls[i].context == ctx && calls[i].target in g.vertices
    ensures forall i, j :: 0 <= i < j < |calls| ==> h[calls[i].target] <= h[calls[j].target]
    ensures Distinct(CalledModules(calls))
    ensures forall i :: 0 <= i < |calls| - 1 ==> calls[i].target !in faults.throws
    ensures out.Resolved? ==>
      forall v :: v in g.vertices ==> v in CalledModules(calls) && v !in faults.rejects && v !in faults.throws
    ensures out.StageRejected? ==>
      && (forall v :: v in g.vertices && h[v] < out.stage ==>
            v in CalledModules(calls) && v !in faults.rejects && v !in faults.throws)
      && (forall i :: 0 <= i < |calls| ==> h[calls[i].target] <= out.stage)
      && ((forall v :: v in g.vertices && h[v] == out.stage ==> v !in faults.throws) ==>
            forall v :: v in g.vertices && h[v] == out.stage ==> v in CalledModules(calls))
      && (exists i :: 0 <= i < |calls| && h[calls[i].target] == out.stage &&
            (calls[i].target in faults.rejects || calls[i].target in faults.throws))
  {
    if out.CycleRejected? && calls == [] && g.Reverse().IsClosedWalk(out.cycle) {
      assert g.Valid() by {
        forall e | e in g.edges ensures e.0 in g.vertices && e.1 in g.vertices {
          assert (e.0, e.1) in g.edges;
        }
      }
      ReversedClosedWalk(g, out.cycle);
      HeightAcyclic(g, h);
    } else {
      var stages :| IsPlanOf(g, stages) && Staged(stages, ctx, faults, 0) == (calls, out);
      var h' :| IsStagePlan(g, stages, h');
      HeightUnique(g, h, h');
      var f, tail, n := PlannedRun(g, stages, h, ctx, faults);
      LayeredCalls(h, f, tail, n, ctx, faults, calls);
    }
  }

  /**
   * The staged run of a plan with heights h, stopped at stage n: the
   * modules below height n, in height order and none of them faulty, then,
   * when the run stopped early, the launched part of stage n.
   */
  lemma PlannedRun(g: Graph, stages: seq<seq<Vertex>>, h: map<Vertex, nat>, ctx: Context, faults: Faults)
    returns (f: seq<Vertex>, tail: seq<Vertex>, n: nat)
    requires IsStagePlan(g, stages, h)
    ensures Staged(stages, ctx, faults, 0).0 == Launch(f + tail, ctx)
    ensures !Staged(stages, ctx, faults, 0).1.CycleRejected?
    ensures Staged(stages, ctx, faults, 0).1.Resolved? ==> tail == [] && forall u :: u in h ==> h[u] < n
    ensures Staged(stages, ctx, faults, 0).1.StageRejected? ==>
      && n == Staged(stages, ctx, faults, 0).1.stage
      && (exists j :: 0 <= j < |tail| && (tail[j] in faults.rejects || tail[j] in faults.throws))
      && ((forall u :: u in h && h[u] == n ==> u !in faults.throws) ==> forall u :: u in h && h[u] == n ==> u in tail)
    ensures forall u :: u in h ==> (u in f <==> h[u] < n)
    ensures forall u :: u in h && h[u] < n ==> u !in faults.rejects && u !in faults.throws
    ensures Distinct(f) && forall i :: 0 <= i < |f| ==> f[i] in h && h[f[i]] < n && f[i] !in faults.throws
    ensures forall i, j :: 0 <= i < j < |f| ==> h[f[i]] <= h[f[j]]
    ensures Distinct(tail) && forall i :: 0 <= i < |tail| ==> tail[i] in h && h[tail[i]] == n
    ensures forall i :: 0 <= i < |tail| - 1 ==> tail[i] !in faults.throws
  {
    var out := Staged(stages, ctx, faults, 0).1;
    n := StagedPrefix(stages, ctx, faults);
    PlanPrefix(g, stages, h, n);
    AcceptedStages(g, stages, h, faults, n);
    f := Flatten(stages[..n]);
    forall i | 0 <= i < |f| ensures f[i] in h && h[f[i]] < n && f[i] !in faults.throws {
      assert f[i] in f;
    }
    if out.StageRejected? {
      tail := Launched(stages[n], faults.throws);
      LaunchedLayer(g, stages, h, faults, n);
    } else {
      tail := [];
      assert f + tail == f;
    }
  }

  /**
   * Launching modules below height n in height order, then distinct modules
   * of height n: the calls go in height order, once each, only the last may
   * be to a throwing init, and a faulty module among the latter is called.
   */
  lemma LayeredCalls(h: map<Vertex, nat>, f: seq<Vertex>, tail: seq<Vertex>, n: nat, ctx: Context,
                     faults: Faults, calls: seq<InitCall>)
    requires calls == Launch(f + tail, ctx)
    requires Distinct(f) && forall i :: 0 <= i < |f| ==> f[i] in h && h[f[i]] < n && f[i] !in faults.throws
    requires forall i, j :: 0 <= i < j < |f| ==> h[f[i]] <= h[f[j]]
    requires Distinct(tail) && forall i :: 0 <= i < |tail| ==> tail[i] in h && h[tail[i]] == n
    requires forall i :: 0 <= i < |tail| - 1 ==> tail[i] !in faults.throws
    ensures CalledModules(calls) == f + tail && Distinct(f + tail)
    ensures forall i :: 0 <= i < |calls| ==> calls[i].context == ctx && calls[i].target in h && h[calls[i].target] <= n
    ensures forall i, j :: 0 <= i < j < |calls| ==> h[calls[i].target] <= h[calls[j].target]
    ensures forall i :: 0 <= i < |calls| - 1 ==> calls[i].target !in faults.throws
    ensures (exists j :: 0 <= j < |tail| && (tail[j] in faults.rejects || tail[j] in faults.throws)) ==>
      exists i :: 0 <= i < |calls| && h[calls[i].target] == n &&
        (calls[i].target in faults.rejects || calls[i].target in faults.throws)
  {
    AppendLayer(h, f, tail, n);
    LaunchedInOrder(h, f + tail, ctx, calls);
    forall i | 0 <= i < |calls| - 1 ensures calls[i].target !in faults.throws {
      if i >= |f| {
        assert calls[i].target == tail[i - |f|];
      }
    }
    if j :| 0 <= j < |tail| && (tail[j] in faults.rejects || tail[j] in faults.throws) {
      assert calls[|f| + j].target == tail[j];
    }
  }

  /** Launching a distinct list of modules ordered by height calls them in that order, once each. */
  lemma LaunchedInOrder(h: map<Vertex, nat>, f: seq<Vertex>, ctx: Context, calls: seq<InitCall>)
    requires calls == Launch(f, ctx)
    requires Distinct(f) && forall i :: 0 <= i < |f| ==> f[i] in h
    requires forall i, j :: 0 <= i < j < |f| ==> h[f[i]] <= h[f[j]]
    ensures forall i :: 0 <= i < |calls| ==> calls[i].context == ctx && calls[i].target in h
    ensures forall i, j :: 0 <= i < j < |calls| ==> h[calls[i].target] <= h[calls[j].target]
    ensures CalledModules(calls) == f
  {
    LaunchCalls(f, ctx);
  }

  // ---------------------------------------------------------------------
  // The collection
  // ---------------------------------------------------------------------

  class ModuleCollection {
    /** The dependency graph, grown by `add`. */
    var graph: Graph
    /** The `once` slot around `init`: empty until the first call stores its outcome. */
    var initSlot: Option<InitOutcome>
    /** Every init call the collection has made, in order. */
    ghost var initCalls: seq<InitCall>

    ghost predicate Valid()
      reads this
    {
      graph.Valid() && (initSlot.None? ==> initCalls == [])
    }

    /** `new ModuleCollection(modules?)`: an empty graph, then `add(modules)` when given. */
    constructor (modules: Option<seq<Module>>)
      ensures Valid() && initSlot.None? && initCalls == []
      ensures graph == if modules.None? then Graph({}, {}) else AddModules(Graph({}, {}), modules.value)
    {
      graph := Graph({}, {});
      initSlot := None;
      initCalls := [];
      new;
      if modules.Some? {
        Add(Many(modules.value));
      }
    }

    /** `add(modules)`: a single module is added as the list holding it. */
    method Add(arg: ModulesArg)
      requires Valid()
      modifies this`graph
      ensures Valid()
      ensures graph == AddModules(old(graph), AsList(arg))
    {
      var ms := AsList(arg);
      ghost var base := graph;
      var i := 0;
      while i < |ms|
        invariant 0 <= i <= |ms|
        invariant graph == AddModules(base, ms[..i])
      {
        AddOne(ms[i]);
        assert ms[..i + 1][..i] == ms[..i];
        i := i + 1;
      }
      assert ms[..i] == ms;
      AddModulesValid(base, ms);
    }

    /** One module of `add`: its vertex, an edge to each need, an edge from each dependant. */
    method AddOne(m: Module)
      modifies this`graph
      ensures graph == AddModule(old(graph), m)
    {
      graph := graph.AddVertex(m.id);
      AddNeeds(m);
      AddNeededBy(m);
    }

    /** `for (let need of module.needs) graph.addEdge(module, need)`. */
    method AddNeeds(m: Module)
      requires m.id in graph.vertices
      modifies this`graph
      ensures graph.vertices == old(graph.vertices) + (set n | n in m.needs)
      ensures graph.edges == old(graph.edges) + (set n | n in m.needs :: (m.id, n))
    {
      var j := 0;
      while j < |m.needs|
        invariant 0 <= j <= |m.needs|
        invariant graph.vertices == old(graph.vertices) + (set n | n in m.needs[..j])
        invariant graph.edges == old(graph.edges) + (set n | n in m.needs[..j] :: (m.id, n))
      {
        assert m.needs[..j + 1] == m.needs[..j] + [m.needs[j]];
        graph := graph.AddEdge(m.id, m.needs[j]);
        j := j + 1;
      }
      assert m.needs[..j] == m.needs;
    }

    /** `for (let neededBy of module.neededBy) graph.addEdge(neededBy, module)`. */
    method AddNeededBy(m: Module)
      requires m.id in graph.vertices
      modifies this`graph
      ensures graph.vertices == old(graph.vertices) + (set n | n in m.neededBy)
      ensures graph.edges == old(graph.edges) + (set n | n in m.neededBy :: (n, m.id))
    {
      var j := 0;
      while j < |m.neededBy|
        invariant 0 <= j <= |m.neededBy|
        invariant graph.vertices == old(graph.vertices) + (set n | n in m.neededBy[..j])
        invariant graph.edges == old(graph.edges) + (set n | n in m.neededBy[..j] :: (n, m.id))
      {
        assert m.neededBy[..j + 1] == m.neededBy[..j] + [m.neededBy[j]];
        graph := graph.AddEdge(m.neededBy[j], m.id);
        j := j + 1;
      }
      assert m.neededBy[..j] == m.neededBy;
    }

    /**
     * `getInitStages()`: the stages of a plan of the graph, or the cycle
     * (read along "needed by" edges) that makes planning impossible.  The
     * collection's graph is only read: planning works on a clone.
     */
    method GetInitStages() returns (r: Result<seq<seq<Vertex>>, seq<Vertex>>)
      requires Valid()
      ensures r.Success? ==> IsPlanOf(graph, r.value)
      ensures r.Failure? ==> graph.Reverse().IsClosedWalk(r.error)
      ensures r.Success? <==> graph.Acyclic()
    {
      var root := FreshVertex(graph.vertices);
      var g := graph;
      var leaves := g.Leaves();
      var todo := leaves;
      while todo != {}
        invariant todo <= leaves
        invariant g == Linked(graph, root, leaves - todo)
        decreases todo
      {
        var leaf :| leaf in todo;
        g := g.AddEdge(leaf, root);
        todo := todo - {leaf};
        assert g == Linked(graph, root, leaves - todo);
      }
      assert leaves - todo == leaves;
      LinkedValid(graph, root, leaves);
      var distances := LongestDistances(g.Reverse());
      if distances.Failure? {
        CycleAvoidsRoot(graph, root, distances.error);
        ReversedClosedWalk(graph, distances.error);
        return Failure(distances.error);
      }
      var buckets := GroupByDistance(distances.value);
      // drop the first stage, which holds the root
      var stages := if |buckets| > 0 then buckets[1..] else [];
      DistancesPlan(graph, root, distances.value, buckets);
      PlanAcyclic(graph, stages);
      r := Success(stages);
    }

    /**
     * The body of `init`: plan, then run each stage's init functions and
     * wait for all of them before the next stage.
     */
    method Run(ctx: Context, faults: Faults) returns (out: InitOutcome, calls: seq<InitCall>)
      requires Valid()
      ensures RunOutcome(graph, ctx, faults, calls, out)
      ensures out.CycleRejected? <==> !graph.Acyclic()
    {
      var planned := GetInitStages();
      if planned.Failure? {
        return CycleRejected(planned.error), [];
      }
      out, calls := RunStages(planned.value, ctx, faults);
      StagedShape(planned.value, ctx, faults, 0);
      StagedIsOutcome(graph, planned.value, ctx, faults, calls, out);
    }

    /**
     * `init(context)`, wrapped in `once`: the first call runs the staged
     * initialisation and stores its outcome; every later call returns that
     * outcome and calls no init function. The wrapped body is async, so a
     * throwing init or a cycle settles its promise rather than escaping
     * `once`, and the outcome is stored whatever it is.
     */
    method Init(ctx: Context, faults: Faults) returns (out: InitOutcome)
      requires Valid()
      modifies this`initSlot, this`initCalls
      ensures Valid()
      ensures initSlot == Some(out)
      ensures old(initSlot).Some? ==> out == old(initSlot).value && initCalls == old(initCalls)
      ensures old(initSlot).None? ==> RunOutcome(graph, ctx, faults, initCalls, out)
      ensures old(initSlot).None? ==> (out.CycleRejected? <==> !graph.Acyclic())
    {
      // The latch of `Latch.Once`, written out over this object's fields:
      // that class wraps a function value, while the body here is a method
      // that also records the init calls it makes.
      if initSlot.None? {
        var result, calls := Run(ctx, faults);
        initSlot := Some(result);
        initCalls := calls;
      }
      out := initSlot.value;
    }
  }
}

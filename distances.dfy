/**
 * Longest-path distances over a graph, the service the planner asks of the
 * graph library.  Modelled as a memoised depth-first search over incoming
 * edges that keeps the current recursion stack and, on meeting a vertex that
 * is still on it, reports the cycle it has walked.
 */
module Distances {
  import opened Wrappers
  import opened Graphs

  /**
   * d gives each vertex it covers the length of the longest walk that ends
   * there and starts at a source (a vertex with no incoming edge): every
   * incoming edge comes from a covered vertex at least one lower, and every
   * vertex above 0 has an incoming edge from exactly one lower.
   */
  ghost predicate IsDistances(g: Graph, d: map<Vertex, nat>) {
    && (forall p, v :: (p, v) in g.edges && v in d ==> p in d && d[v] >= d[p] + 1)
    && (forall v {:trigger HasTightPred(g, d, v)} :: v in d ==> HasTightPred(g, d, v))
  }

  /** v is a source at distance 0, or has a predecessor exactly one lower. */
  ghost predicate HasTightPred(g: Graph, d: map<Vertex, nat>, v: Vertex)
    requires v in d
  {
    d[v] == 0 || exists p :: (p, v) in g.edges && p in d && d[v] == d[p] + 1
  }

  /** The recursion stack: each vertex has an edge into the one pushed before it. */
  ghost predicate IsPredChain(g: Graph, s: seq<Vertex>) {
    && (forall i :: 0 <= i < |s| ==> s[i] in g.vertices)
    && (forall i :: 0 <= i < |s| - 1 ==> (s[i + 1], s[i]) in g.edges)
  }

  /** Meeting stack[i] again as a predecessor of the top v closes a cycle through v. */
  lemma ClosingWalk(g: Graph, stack: seq<Vertex>, i: nat, v: Vertex)
    requires IsPredChain(g, stack) && |stack| >= 1 && stack[|stack| - 1] == v
    requires i < |stack| && (stack[i], v) in g.edges
    ensures g.IsClosedWalk(Rev(stack[i..]) + [v])
  {
    var part := stack[i..];
    var w := Rev(part) + [v];
    var n := |part|;
    forall j | 0 <= j < |w| - 1 ensures (w[j], w[j + 1]) in g.edges {
      if j < n - 1 {
        assert w[j] == stack[|stack| - 1 - j] && w[j + 1] == stack[|stack| - 2 - j];
      } else {
        assert w[j] == stack[i] && w[j + 1] == v;
      }
    }
  }

  /** Covering one more vertex whose predecessors are all covered keeps the distances right. */
  lemma ExtendDistances(g: Graph, m: map<Vertex, nat>, v: Vertex, best: nat)
    requires IsDistances(g, m) && v !in m
    requires forall p :: (p, v) in g.edges ==> p in m && best >= m[p] + 1
    requires best == 0 || exists p :: (p, v) in g.edges && p in m && best == m[p] + 1
    ensures IsDistances(g, m[v := best])
  {
    var m' := m[v := best];
    forall u | u in m' ensures HasTightPred(g, m', u) {
      if u == v {
        if best > 0 {
          var p :| (p, v) in g.edges && p in m && best == m[p] + 1;
          assert p in m' && m'[p] == m[p];
        }
      } else {
        assert HasTightPred(g, m, u);
        if m[u] > 0 {
          var p :| (p, u) in g.edges && p in m && m[u] == m[p] + 1;
          assert p in m' && m'[p] == m[p];
        }
      }
    }
  }

  /** Depth-first visit of v, the top of the recursion stack, given the distances found so far. */
  method Visit(g: Graph, v: Vertex, stack: seq<Vertex>, d: map<Vertex, nat>)
    returns (r: Result<map<Vertex, nat>, seq<Vertex>>)
    requires g.Valid() && d.Keys <= g.vertices && IsDistances(g, d)
    requires IsPredChain(g, stack) && |stack| >= 1 && stack[|stack| - 1] == v
    requires forall i :: 0 <= i < |stack| ==> stack[i] !in d
    requires forall i :: 0 <= i < |stack| - 1 ==> stack[i] != v
    ensures r.Success? ==> r.value.Keys <= g.vertices && v in r.value && IsDistances(g, r.value)
    ensures r.Success? ==> forall u :: u in d ==> u in r.value && r.value[u] == d[u]
    ensures r.Success? ==> forall i :: 0 <= i < |stack| - 1 ==> stack[i] !in r.value
    ensures r.Failure? ==> g.IsClosedWalk(r.error)
    decreases g.vertices - (set u | u in stack), 1
  {
    var preds := set p | p in g.vertices && (p, v) in g.edges;
    var todo := preds;
    var m := d;
    var best: nat := 0;
    ghost var tight := v;
    while todo != {}
      invariant todo <= preds
      invariant m.Keys <= g.vertices && IsDistances(g, m)
      invariant forall u :: u in d ==> u in m && m[u] == d[u]
      invariant forall i :: 0 <= i < |stack| ==> stack[i] !in m
      invariant forall p :: p in preds && p !in todo ==> p in m && best >= m[p] + 1
      invariant best == 0 || (tight in preds && tight !in todo && tight in m && best == m[tight] + 1)
      decreases todo
    {
      var p :| p in todo;
      var sub := VisitPred(g, v, p, stack, m);
      if sub.Failure? {
        return sub;
      }
      ghost var m0, best0 := m, best;
      m := sub.value;
      if best < m[p] + 1 {
        best, tight := m[p] + 1, p;
      }
      todo := todo - {p};
      forall q | q in preds && q !in todo ensures q in m && best >= m[q] + 1 {
        if q != p {
          assert q in m0 && best0 >= m0[q] + 1;
        }
      }
    }
    assert best == 0 || ((tight, v) in g.edges && tight in m && best == m[tight] + 1);
    ExtendDistances(g, m, v, best);
    r := Success(m[v := best]);
  }

  /** One predecessor p of the top v: a cycle if p is on the stack, else p visited unless already known. */
  method VisitPred(g: Graph, v: Vertex, p: Vertex, stack: seq<Vertex>, d: map<Vertex, nat>)
    returns (r: Result<map<Vertex, nat>, seq<Vertex>>)
    requires g.Valid() && d.Keys <= g.vertices && IsDistances(g, d)
    requires IsPredChain(g, stack) && |stack| >= 1 && stack[|stack| - 1] == v
    requires forall i :: 0 <= i < |stack| ==> stack[i] !in d
    requires p in g.vertices && (p, v) in g.edges
    ensures r.Success? ==> r.value.Keys <= g.vertices && p in r.value && IsDistances(g, r.value)
    ensures r.Success? ==> forall u :: u in d ==> u in r.value && r.value[u] == d[u]
    ensures r.Success? ==> forall i :: 0 <= i < |stack| ==> stack[i] !in r.value
    ensures r.Failure? ==> g.IsClosedWalk(r.error)
    decreases g.vertices - (set u | u in stack), 0
  {
    if i :| 0 <= i < |stack| && stack[i] == p {
      ClosingWalk(g, stack, i, v);
      return Failure(Rev(stack[i..]) + [v]);
    }
    if p in d {
      return Success(d);
    }
    assert p in g.vertices - (set u | u in stack);
    assert (set u | u in stack + [p]) == (set u | u in stack) + {p};
    r := Visit(g, p, stack + [p], d);
    if r.Success? {
      forall i | 0 <= i < |stack| ensures stack[i] !in r.value {
        assert (stack + [p])[i] == stack[i];
      }
    }
  }

  /**
   * The longest distance of every vertex from a source, or a cycle of the
   * graph when one stands in the way.
   */
  method LongestDistances(g: Graph) returns (r: Result<map<Vertex, nat>, seq<Vertex>>)
    requires g.Valid()
    ensures r.Success? ==> r.value.Keys == g.vertices && IsDistances(g, r.value)
    ensures r.Failure? ==> g.IsClosedWalk(r.error)
  {
    var d: map<Vertex, nat> := map[];
    var todo := g.vertices;
    while todo != {}
      invariant todo <= g.vertices
      invariant d.Keys <= g.vertices && g.vertices - todo <= d.Keys
      invariant IsDistances(g, d)
      decreases todo
    {
      var v :| v in todo;
      if v !in d {
        var res := Visit(g, v, [v], d);
        if res.Failure? {
          return res;
        }
        d := res.value;
      }
      todo := todo - {v};
    }
    r := Success(d);
  }

  /** A graph with distances has no cycle: distances rise strictly along every edge. */
  lemma DistancesAcyclic(g: Graph, d: map<Vertex, nat>)
    requires g.Valid() && d.Keys == g.vertices && IsDistances(g, d)
    ensures g.Acyclic()
  {
    forall w | g.IsClosedWalk(w) ensures false {
      DistancesRiseAlongWalk(g, d, w);
    }
  }

  lemma {:induction false} DistancesRiseAlongWalk(g: Graph, d: map<Vertex, nat>, w: seq<Vertex>)
    requires g.Valid() && d.Keys == g.vertices && IsDistances(g, d) && g.IsWalk(w)
    ensures w[|w| - 1] in d && d[w[|w| - 1]] >= d[w[0]] + |w| - 1
  {
    if |w| > 1 {
      var init := w[..|w| - 1];
      assert g.IsWalk(init) by {
        forall i | 0 <= i < |init| - 1 ensures (init[i], init[i + 1]) in g.edges {
          assert (w[i], w[i + 1]) in g.edges;
        }
      }
      DistancesRiseAlongWalk(g, d, init);
      assert (w[|w| - 2], w[|w| - 1]) in g.edges;
    }
  }
}

/**
 * The directed graph the module collection is built on.  The library class
 * that implements it is not part of this model, so the graph is described by
 * its value: a set of vertices and a set of edges.  An edge (a, b) means
 * "a depends on b; b runs first".
 */
module Graphs {

  /** A vertex stands for a module reference: equal vertices are the same module object. */
  type Vertex = nat

  datatype Graph = Graph(vertices: set<Vertex>, edges: set<(Vertex, Vertex)>)
  {
    /** Every edge joins two vertices of the graph. */
    ghost predicate Valid() {
      forall e :: e in edges ==> e.0 in vertices && e.1 in vertices
    }

    /** Adding a vertex is idempotent. */
    function AddVertex(v: Vertex): Graph {
      Graph(vertices + {v}, edges)
    }

    /** Adding an edge is idempotent and adds both endpoints as vertices. */
    function AddEdge(a: Vertex, b: Vertex): Graph {
      Graph(vertices + {a, b}, edges + {(a, b)})
    }

    /** The vertices with no outgoing edge: the modules that depend on nothing. */
    function Leaves(): (ls: set<Vertex>)
      ensures forall v :: v in ls <==> v in vertices && forall w :: (v, w) !in edges
    {
      set v | v in vertices && forall e | e in edges :: e.0 != v
    }

    /** The same vertices with every edge flipped. */
    function Reverse(): (r: Graph)
      ensures r.vertices == vertices
      ensures forall a, b :: (a, b) in r.edges <==> (b, a) in edges
    {
      var flipped := set e | e in edges :: (e.1, e.0);
      assert forall a, b :: (b, a) in edges ==> (a, b) in flipped by {
        forall a, b | (b, a) in edges ensures (a, b) in flipped {
          var e := (b, a);
          assert (e.1, e.0) in flipped;
        }
      }
      Graph(vertices, flipped)
    }

    /** A walk follows edges from its first vertex to its last. */
    ghost predicate IsWalk(w: seq<Vertex>) {
      && |w| >= 1
      && w[0] in vertices
      && forall i :: 0 <= i < |w| - 1 ==> (w[i], w[i + 1]) in edges
    }

    /** A closed walk returns to the vertex it started from: the graph has a cycle. */
    ghost predicate IsClosedWalk(w: seq<Vertex>) {
      IsWalk(w) && |w| >= 2 && w[0] == w[|w| - 1]
    }

    ghost predicate Acyclic() {
      forall w :: !IsClosedWalk(w)
    }

    /**
     * h gives every vertex the length of its longest dependency chain down to
     * a leaf, stated locally: every edge goes strictly down, and every vertex
     * above 0 has an edge going down by exactly one.
     */
    ghost predicate IsHeight(h: map<Vertex, nat>) {
      && h.Keys == vertices
      && (forall a, b :: (a, b) in edges ==> a in h && b in h && h[a] > h[b])
      && (forall a {:trigger HasLowerSucc(h, a)} :: a in h ==> HasLowerSucc(h, a))
    }

    /** a is at height 0, or has an edge to a vertex exactly one lower. */
    ghost predicate HasLowerSucc(h: map<Vertex, nat>, a: Vertex)
      requires a in h
    {
      h[a] == 0 || exists b :: (a, b) in edges && b in h && h[a] == h[b] + 1
    }
  }

  /** The sequence read backwards. */
  function Rev(s: seq<Vertex>): (r: seq<Vertex>)
    ensures |r| == |s|
    ensures forall i :: 0 <= i < |s| ==> r[i] == s[|s| - 1 - i]
  {
    if s == [] then [] else Rev(s[1..]) + [s[0]]
  }

  /** A cycle of the reversed graph, read backwards, is a cycle of the graph. */
  lemma ReversedClosedWalk(g: Graph, w: seq<Vertex>)
    requires g.Valid()
    requires g.Reverse().IsClosedWalk(w)
    ensures g.IsClosedWalk(Rev(w))
    ensures !g.Acyclic()
  {
    var r := Rev(w);
    var n := |w|;
    forall i | 0 <= i < n - 1 ensures (r[i], r[i + 1]) in g.edges {
      assert (w[n - 2 - i], w[n - 1 - i]) in g.Reverse().edges;
    }
    assert g.IsClosedWalk(r);
  }

  /** Along any walk the height drops by at least one per edge. */
  lemma {:induction false} HeightBoundsWalk(g: Graph, h: map<Vertex, nat>, w: seq<Vertex>)
    requires g.IsHeight(h) && g.IsWalk(w)
    ensures w[|w| - 1] in h
    ensures h[w[0]] >= |w| - 1 + h[w[|w| - 1]]
  {
    if |w| > 1 {
      assert (w[0], w[1]) in g.edges;
      var tail := w[1..];
      assert g.IsWalk(tail) by {
        forall i | 0 <= i < |tail| - 1 ensures (tail[i], tail[i + 1]) in g.edges {
          assert (w[i + 1], w[i + 2]) in g.edges;
        }
      }
      HeightBoundsWalk(g, h, tail);
    }
  }

  lemma HeightZeroIsLeaf(g: Graph, h: map<Vertex, nat>, v: Vertex)
    requires g.IsHeight(h) && v in g.vertices && h[v] == 0
    ensures v in g.Leaves()
  {
  }

  /** From every vertex a walk to a leaf descends one height at a time. */
  lemma {:induction false} TightWalk(g: Graph, h: map<Vertex, nat>, v: Vertex) returns (w: seq<Vertex>)
    requires g.IsHeight(h) && v in g.vertices
    ensures g.IsWalk(w) && w[0] == v && |w| == h[v] + 1
    ensures w[|w| - 1] in g.Leaves()
    ensures forall i :: 0 <= i < |w| ==> w[i] in h && h[w[i]] == h[v] - i
    decreases h[v]
  {
    assert g.HasLowerSucc(h, v);
    if h[v] == 0 {
      w := [v];
      HeightZeroIsLeaf(g, h, v);
    } else {
      var b :| (v, b) in g.edges && b in h && h[v] == h[b] + 1;
      var rest := TightWalk(g, h, b);
      w := [v] + rest;
      ghost var n := |rest|;
      assert |w| == n + 1;
      assert w[n] == rest[n - 1];
      forall i | 0 <= i < |w| ensures w[i] in h && h[w[i]] == h[v] - i {
        if i > 0 {
          assert w[i] == rest[i - 1];
        }
      }
      forall i | 0 <= i < |w| - 1 ensures (w[i], w[i + 1]) in g.edges {
        if i > 0 {
          assert w[i] == rest[i - 1] && w[i + 1] == rest[i];
        }
      }
    }
  }

  /**
   * A height is the length of the longest dependency chain to a leaf: some
   * walk from v to a leaf has that many edges, and no walk from v has more.
   */
  lemma HeightIsLongestChain(g: Graph, h: map<Vertex, nat>, v: Vertex)
    requires g.IsHeight(h) && v in g.vertices
    ensures exists w :: g.IsWalk(w) && w[0] == v && |w| - 1 == h[v] && w[|w| - 1] in g.Leaves()
    ensures forall w :: g.IsWalk(w) && w[0] == v ==> |w| - 1 <= h[v]
  {
    var t := TightWalk(g, h, v);
    forall w | g.IsWalk(w) && w[0] == v ensures |w| - 1 <= h[v] {
      HeightBoundsWalk(g, h, w);
    }
  }

  /** Heights are determined by the graph alone. */
  lemma HeightUnique(g: Graph, h1: map<Vertex, nat>, h2: map<Vertex, nat>)
    requires g.IsHeight(h1) && g.IsHeight(h2)
    ensures h1 == h2
  {
    forall v | v in g.vertices ensures h1[v] == h2[v] {
      var w1 := TightWalk(g, h1, v);
      HeightBoundsWalk(g, h2, w1);
      var w2 := TightWalk(g, h2, v);
      HeightBoundsWalk(g, h1, w2);
    }
  }

  /** A graph that has heights has no cycle. */
  lemma HeightAcyclic(g: Graph, h: map<Vertex, nat>)
    requires g.IsHeight(h)
    ensures g.Acyclic()
  {
    forall w | g.IsClosedWalk(w) ensures false {
      HeightBoundsWalk(g, h, w);
    }
  }

  /** Every height between 0 and the height of an existing vertex is taken by some vertex. */
  lemma HeightNoGaps(g: Graph, h: map<Vertex, nat>, v: Vertex, j: nat)
    requires g.IsHeight(h) && v in g.vertices && j <= h[v]
    ensures exists u :: u in h && h[u] == j
  {
    var w := TightWalk(g, h, v);
    assert w[h[v] - j] in h && h[w[h[v] - j]] == j;
  }
}

/** Triangle-to-triangle adjacency by shared undirected edges. Both
    partitioners build it the same way: an edge dictionary from every
    (min, max) vertex pair to the triangles that use it, then a link between
    every pair of triangles listed under one edge. */
module Adjacency {
  import opened MeshModel

  /** An undirected edge as the ordered key (min, max). */
  datatype Edge = Edge(lo: int, hi: int)

  /** The key of the undirected edge {a, b}. */
  function MakeEdge(a: int, b: int): (e: Edge)
    ensures e.lo <= e.hi
    ensures (e.lo == a && e.hi == b) || (e.lo == b && e.hi == a)
  {
    if a < b then Edge(a, b) else Edge(b, a)
  }

  /** The key does not depend on the direction the edge is walked. */
  lemma MakeEdgeUndirected(a: int, b: int)
    ensures MakeEdge(a, b) == MakeEdge(b, a)
  {
  }

  /** The three edges of triangle `t`, in the order (i0,i1), (i1,i2), (i2,i0). */
  function EdgesOf(tris: seq<int>, t: nat): (es: seq<Edge>)
    requires t < TriangleCount(tris)
    ensures |es| == 3
  {
    var i0, i1, i2 := tris[3 * t], tris[3 * t + 1], tris[3 * t + 2];
    [MakeEdge(i0, i1), MakeEdge(i1, i2), MakeEdge(i2, i0)]
  }

  /** One copy of `t` for every entry of `es` equal to `e`, in order. */
  function Hits(es: seq<Edge>, e: Edge, t: nat): (r: seq<nat>)
    ensures forall x: int :: x in r <==> x == t && e in es
  {
    if es == [] then []
    else
      assert es == es[..|es| - 1] + [es[|es| - 1]];
      Hits(es[..|es| - 1], e, t) + (if es[|es| - 1] == e then [t] else [])
  }

  /** The list the edge dictionary holds for `e` once the first `upTo`
      triangles are scanned: each triangle using `e`, once per use. */
  function TrianglesOn(tris: seq<int>, e: Edge, upTo: nat): (r: seq<nat>)
    requires upTo <= TriangleCount(tris)
    ensures forall x: int :: x in r <==> 0 <= x < upTo && e in EdgesOf(tris, x)
  {
    if upTo == 0 then [] else TrianglesOn(tris, e, upTo - 1) + Hits(EdgesOf(tris, upTo - 1), e, upTo - 1)
  }

  /** Triangles `a` and `b` have an undirected edge in common. */
  ghost predicate SharesEdge(tris: seq<int>, a: nat, b: nat)
  {
    a < TriangleCount(tris) && b < TriangleCount(tris) &&
    exists e :: e in EdgesOf(tris, a) && e in EdgesOf(tris, b)
  }

  /** Positions j < k of `list` hold the pair {a, b}. */
  ghost predicate PairAt(list: seq<nat>, j: int, k: int, a: nat, b: nat)
  {
    0 <= j < k < |list| && ((list[j] == a && list[k] == b) || (list[j] == b && list[k] == a))
  }

  /** Some pair of positions of `list` holds {a, b}. */
  ghost predicate Linked(list: seq<nat>, a: nat, b: nat)
  {
    exists j, k :: PairAt(list, j, k, a, b)
  }

  /** Some pair (j', k') before (j, k) in loop order holds {a, b}. */
  ghost predicate LinkedBefore(list: seq<nat>, j: int, k: int, a: nat, b: nat)
  {
    exists j', k' :: PairAt(list, j', k', a, b) && (j' < j || (j' == j && k' < k))
  }

  /** Two different triangles of one list are linked as soon as both occur. */
  lemma LinkedIffBoth(list: seq<nat>, a: nat, b: nat)
    requires a != b
    ensures Linked(list, a, b) <==> a in list && b in list
  {
    if a in list && b in list {
      var i :| 0 <= i < |list| && list[i] == a;
      var j :| 0 <= j < |list| && list[j] == b;
      if i < j {
        assert PairAt(list, i, j, a, b);
      } else {
        assert PairAt(list, j, i, a, b);
      }
    }
  }

  lemma LinkedBeforeStep(list: seq<nat>, j: int, k: int, a: nat, b: nat)
    ensures LinkedBefore(list, j, k + 1, a, b) <==> LinkedBefore(list, j, k, a, b) || PairAt(list, j, k, a, b)
  {
    if LinkedBefore(list, j, k + 1, a, b) {
      var j', k' :| PairAt(list, j', k', a, b) && (j' < j || (j' == j && k' < k + 1));
      if !(j' < j || (j' == j && k' < k)) {
        assert j' == j && k' == k;
      }
    }
    if PairAt(list, j, k, a, b) {
      assert PairAt(list, j, k, a, b) && (j < j || (j == j && k < k + 1));
    }
  }

  /** Add the adjacency links of one edge's triangle list: every pair of
      positions j < k links list[j] and list[k] in both directions. */
  method LinkTriangles(adj: seq<seq<nat>>, list: seq<nat>) returns (adj': seq<seq<nat>>)
    requires forall x :: x in list ==> x < |adj|
    ensures |adj'| == |adj|
    ensures forall a, x :: 0 <= a < |adj| && x in adj'[a] ==> x in adj[a] || x in list
    ensures forall a, b :: 0 <= a < |adj| && 0 <= b < |adj| ==>
              (b in adj'[a] <==> b in adj[a] || Linked(list, a, b))
  {
    adj' := adj;
    for j := 0 to |list|
      invariant |adj'| == |adj|
      invariant forall a, x :: 0 <= a < |adj| && x in adj'[a] ==> x in adj[a] || x in list
      invariant forall a, b :: 0 <= a < |adj| && 0 <= b < |adj| ==>
                  (b in adj'[a] <==> b in adj[a] || LinkedBefore(list, j, 0, a, b))
    {
      forall a, b ensures LinkedBefore(list, j, 0, a, b) <==> LinkedBefore(list, j, j + 1, a, b) {
        if LinkedBefore(list, j, j + 1, a, b) {
          var j', k' :| PairAt(list, j', k', a, b) && (j' < j || (j' == j && k' < j + 1));
        }
      }
      for k := j + 1 to |list|
        invariant |adj'| == |adj|
        invariant forall a, x :: 0 <= a < |adj| && x in adj'[a] ==> x in adj[a] || x in list
        invariant forall a, b :: 0 <= a < |adj| && 0 <= b < |adj| ==>
                    (b in adj'[a] <==> b in adj[a] || LinkedBefore(list, j, k, a, b))
      {
        var t0, t1 := list[j], list[k];
        assert t0 in list && t1 in list;
        adj' := adj'[t0 := adj'[t0] + [t1]];
        adj' := adj'[t1 := adj'[t1] + [t0]];
        forall a, b ensures LinkedBefore(list, j, k + 1, a, b) <==> LinkedBefore(list, j, k, a, b) || PairAt(list, j, k, a, b) {
          LinkedBeforeStep(list, j, k, a, b);
        }
      }
      forall a, b ensures LinkedBefore(list, j, |list|, a, b) <==> LinkedBefore(list, j + 1, 0, a, b) {
        if LinkedBefore(list, j + 1, 0, a, b) {
          var j', k' :| PairAt(list, j', k', a, b) && (j' < j + 1 || (j' == j + 1 && k' < 0));
          assert j' < j || (j' == j && k' < |list|);
        }
      }
    }
    forall a, b ensures LinkedBefore(list, |list|, 0, a, b) <==> Linked(list, a, b) {
      if Linked(list, a, b) {
        var j', k' :| PairAt(list, j', k', a, b);
        assert j' < |list|;
      }
    }
  }

  /** Some edge already handled links `a` and `b`. */
  ghost predicate LinkedVia(edgeToTriangles: map<Edge, seq<nat>>, done: set<Edge>, a: nat, b: nat)
  {
    exists e :: e in done && e in edgeToTriangles && Linked(edgeToTriangles[e], a, b)
  }

  /** The edge dictionary's content: every edge used by some triangle maps to
      the list of triangles using it, in scan order. */
  ghost predicate EdgeMapOf(tris: seq<int>, edgeToTriangles: map<Edge, seq<nat>>)
  {
    && (forall e :: e in edgeToTriangles <==> TrianglesOn(tris, e, TriangleCount(tris)) != [])
    && (forall e :: e in edgeToTriangles ==> edgeToTriangles[e] == TrianglesOn(tris, e, TriangleCount(tris)))
  }

  /** The list filed under `e`, empty when `e` is not a key. */
  function Lookup(edgeToTriangles: map<Edge, seq<nat>>, e: Edge): seq<nat>
  {
    if e in edgeToTriangles then edgeToTriangles[e] else []
  }

  lemma HitsStep(edges: seq<Edge>, j: nat, e: Edge, t: nat)
    requires j < |edges|
    ensures Hits(edges[..j + 1], e, t) == Hits(edges[..j], e, t) + (if edges[j] == e then [t] else [])
  {
    assert edges[..j + 1][..j] == edges[..j];
  }

  /** Filing `t` under one more edge of `edges` extends exactly that
      edge's list. */
  lemma FiledStep(edgeToTriangles0: map<Edge, seq<nat>>, edgeToTriangles: map<Edge, seq<nat>>, edges: seq<Edge>, j: nat, t: nat)
    requires j < |edges|
    requires forall e :: Lookup(edgeToTriangles, e) == Lookup(edgeToTriangles0, e) + Hits(edges[..j], e, t)
    ensures forall e :: Lookup(edgeToTriangles[edges[j] := Lookup(edgeToTriangles, edges[j]) + [t]], e) ==
                        Lookup(edgeToTriangles0, e) + Hits(edges[..j + 1], e, t)
  {
    var filed := edgeToTriangles[edges[j] := Lookup(edgeToTriangles, edges[j]) + [t]];
    forall e ensures Lookup(filed, e) == Lookup(edgeToTriangles0, e) + Hits(edges[..j + 1], e, t) {
      HitsStep(edges, j, e, t);
      var extra := if edges[j] == e then [t] else [];
      if edges[j] == e {
        assert e in filed && filed[e] == Lookup(edgeToTriangles, e) + [t];
      } else {
        assert e in filed <==> e in edgeToTriangles;
        assert e in filed ==> filed[e] == edgeToTriangles[e];
        assert Lookup(filed, e) == Lookup(edgeToTriangles, e) + [];
      }
      calc {
        Lookup(filed, e);
        Lookup(edgeToTriangles, e) + extra;
        (Lookup(edgeToTriangles0, e) + Hits(edges[..j], e, t)) + extra;
        Lookup(edgeToTriangles0, e) + (Hits(edges[..j], e, t) + extra);
      }
    }
  }

  /** File triangle `i` under each of its three edges, in edge order. */
  method FileTriangle(edgeToTriangles: map<Edge, seq<nat>>, tris: seq<int>, i: nat)
    returns (filed: map<Edge, seq<nat>>)
    requires i < TriangleCount(tris)
    requires forall e :: e in edgeToTriangles ==> edgeToTriangles[e] != []
    ensures forall e :: e in filed ==> filed[e] != []
    ensures forall e :: Lookup(filed, e) == Lookup(edgeToTriangles, e) + Hits(EdgesOf(tris, i), e, i)
  {
    var edges := EdgesOf(tris, i);
    filed := edgeToTriangles;
    for j := 0 to 3
      invariant forall e :: e in filed ==> filed[e] != []
      invariant forall e :: Lookup(filed, e) == Lookup(edgeToTriangles, e) + Hits(edges[..j], e, i)
    {
      var edge := edges[j];
      var triList := if edge in filed then filed[edge] else [];
      FiledStep(edgeToTriangles, filed, edges, j, i);
      filed := filed[edge := triList + [i]];
    }
    assert edges[..3] == edges;
  }

  /** First phase: scan the triangles and file each under its three edges. */
  method BuildEdgeMap(tris: seq<int>) returns (edgeToTriangles: map<Edge, seq<nat>>)
    ensures EdgeMapOf(tris, edgeToTriangles)
  {
    var triCount := |tris| / 3;
    edgeToTriangles := map[];
    for i := 0 to triCount
      invariant forall e :: e in edgeToTriangles ==> edgeToTriangles[e] != []
      invariant forall e :: Lookup(edgeToTriangles, e) == TrianglesOn(tris, e, i)
    {
      edgeToTriangles := FileTriangle(edgeToTriangles, tris, i);
    }
    forall e ensures e in edgeToTriangles <==> TrianglesOn(tris, e, triCount) != [] {
      assert Lookup(edgeToTriangles, e) == TrianglesOn(tris, e, triCount);
    }
  }

  /** Once every edge is handled, two different triangles are linked exactly
      when they share an edge. */
  lemma LinkedViaAllEdges(tris: seq<int>, edgeToTriangles: map<Edge, seq<nat>>, a: nat, b: nat)
    requires EdgeMapOf(tris, edgeToTriangles)
    requires a < TriangleCount(tris) && b < TriangleCount(tris) && a != b
    ensures LinkedVia(edgeToTriangles, edgeToTriangles.Keys, a, b) <==> SharesEdge(tris, a, b)
  {
    if LinkedVia(edgeToTriangles, edgeToTriangles.Keys, a, b) {
      var e :| e in edgeToTriangles && Linked(edgeToTriangles[e], a, b);
      LinkedIffBoth(edgeToTriangles[e], a, b);
    }
    if SharesEdge(tris, a, b) {
      var e :| e in EdgesOf(tris, a) && e in EdgesOf(tris, b);
      assert a in TrianglesOn(tris, e, TriangleCount(tris));
      LinkedIffBoth(edgeToTriangles[e], a, b);
    }
  }

  lemma LinkedViaStep(edgeToTriangles: map<Edge, seq<nat>>, done: set<Edge>, edge: Edge, a: nat, b: nat)
    requires edge in edgeToTriangles
    ensures LinkedVia(edgeToTriangles, done + {edge}, a, b) <==>
            LinkedVia(edgeToTriangles, done, a, b) || Linked(edgeToTriangles[edge], a, b)
  {
    if Linked(edgeToTriangles[edge], a, b) {
      assert edge in done + {edge};
    }
  }

  lemma LinkedViaSymmetric(edgeToTriangles: map<Edge, seq<nat>>, done: set<Edge>, a: nat, b: nat)
    ensures LinkedVia(edgeToTriangles, done, a, b) <==> LinkedVia(edgeToTriangles, done, b, a)
  {
    if LinkedVia(edgeToTriangles, done, a, b) {
      var e :| e in done && e in edgeToTriangles && Linked(edgeToTriangles[e], a, b);
      var j, k :| PairAt(edgeToTriangles[e], j, k, a, b);
      assert PairAt(edgeToTriangles[e], j, k, b, a);
    }
    if LinkedVia(edgeToTriangles, done, b, a) {
      var e :| e in done && e in edgeToTriangles && Linked(edgeToTriangles[e], b, a);
      var j, k :| PairAt(edgeToTriangles[e], j, k, b, a);
      assert PairAt(edgeToTriangles[e], j, k, a, b);
    }
  }

  /** Second phase: for each edge of the dictionary, link every pair of
      triangles listed under it. The edges are taken in an order left open
      here, so the order of each adjacency list is not fixed; which
      triangles end up linked does not depend on it. */
  method LinkAllEdges(adj0: seq<seq<nat>>, edgeToTriangles: map<Edge, seq<nat>>) returns (adj: seq<seq<nat>>)
    requires forall t :: 0 <= t < |adj0| ==> adj0[t] == []
    requires forall e, x :: e in edgeToTriangles && x in edgeToTriangles[e] ==> x < |adj0|
    ensures |adj| == |adj0|
    ensures forall t, x :: 0 <= t < |adj| && x in adj[t] ==> x < |adj|
    ensures forall a, b :: 0 <= a < |adj| && 0 <= b < |adj| ==>
              (b in adj[a] <==> LinkedVia(edgeToTriangles, edgeToTriangles.Keys, a, b))
  {
    var triCount := |adj0|;
    adj := adj0;
    var rest := edgeToTriangles.Keys;
    ghost var done: set<Edge> := {};
    while rest != {}
      invariant rest + done == edgeToTriangles.Keys && rest !! done
      invariant |adj| == triCount
      invariant forall t, x :: 0 <= t < triCount && x in adj[t] ==> x < triCount
      invariant forall a, b :: 0 <= a < triCount && 0 <= b < triCount ==>
                  (b in adj[a] <==> LinkedVia(edgeToTriangles, done, a, b))
      decreases rest
    {
      var edge :| edge in rest;
      var connectedTris := edgeToTriangles[edge];
      assert forall x :: x in connectedTris ==> x < triCount;
      // an edge used by a single triangle (a boundary edge) creates no link
      ghost var before := adj;
      if |connectedTris| >= 2 {
        adj := LinkTriangles(adj, connectedTris);
      }
      forall t, x | 0 <= t < triCount && x in adj[t] ensures x < triCount {
        assert x in before[t] || x in connectedTris;
      }
      forall a, b | 0 <= a < triCount && 0 <= b < triCount
        ensures LinkedVia(edgeToTriangles, done + {edge}, a, b) <==>
                LinkedVia(edgeToTriangles, done, a, b) || Linked(connectedTris, a, b)
      {
        LinkedViaStep(edgeToTriangles, done, edge, a, b);
      }
      assert |connectedTris| < 2 ==> forall a, b :: !Linked(connectedTris, a, b);
      rest := rest - {edge};
      done := done + {edge};
    }
    assert done == edgeToTriangles.Keys;
  }

  /** Build the adjacency of every triangle. The result has one list per
      triangle; two different triangles are linked exactly when they share an
      undirected edge, and the relation is symmetric. */
  method BuildTriangleAdjacency(tris: seq<int>) returns (adj: seq<seq<nat>>)
    ensures |adj| == TriangleCount(tris)
    ensures forall t, x :: 0 <= t < |adj| && x in adj[t] ==> x < |adj|
    ensures forall a, b :: 0 <= a < |adj| && 0 <= b < |adj| ==> (b in adj[a] <==> a in adj[b])
    ensures forall a, b :: 0 <= a < |adj| && 0 <= b < |adj| && a != b ==>
              (b in adj[a] <==> SharesEdge(tris, a, b))
  {
    var triCount := |tris| / 3;
    var edgeToTriangles := BuildEdgeMap(tris);

    adj := [];
    for i := 0 to triCount
      invariant |adj| == i
      invariant forall t :: 0 <= t < i ==> adj[t] == []
    {
      adj := adj + [[]];
    }

    adj := LinkAllEdges(adj, edgeToTriangles);

    forall a, b | 0 <= a < triCount && 0 <= b < triCount && a != b
      ensures b in adj[a] <==> SharesEdge(tris, a, b)
    {
      LinkedViaAllEdges(tris, edgeToTriangles, a, b);
    }
    forall a, b | 0 <= a < triCount && 0 <= b < triCount
      ensures b in adj[a] <==> a in adj[b]
    {
      LinkedViaSymmetric(edgeToTriangles, edgeToTriangles.Keys, a, b);
    }
  }
}

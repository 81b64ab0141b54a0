/** The legacy meshlet partitioner. It walks the triangle adjacency graph
    breadth first like the current one, but a meshlet keeps its triangles'
    global corner indices and a set of the vertices they use, and its
    triangle budget is 124. */
module LegacyMeshletGenerator {
  import opened MeshModel
  import opened MeshletGenerator
  import Adjacency

  /** Per-meshlet triangle budget of the legacy partitioner. */
  const LEGACY_MAX_TRIANGLES: nat := 124

  /** A legacy meshlet: the global corner indices of its triangles, three
      per triangle, and the set of vertices they use. */
  datatype LegacyMeshlet = LegacyMeshlet(triangles: seq<int>, vertices: set<int>)

  ghost function CornerSet(s: seq<int>): set<int>
  {
    set v | v in s
  }

  /** Adding corners to a vertex set grows it by at most the number of
      corners that were missing from it. */
  lemma {:induction false} UnionBound(held: set<int>, vs: seq<int>)
    ensures |held + CornerSet(vs)| <= |held| + MissingCount(vs, held)
  {
    if vs != [] {
      var init := vs[..|vs| - 1];
      var last := vs[|vs| - 1];
      UnionBound(held, init);
      assert vs == init + [last];
      assert held + CornerSet(vs) == (held + CornerSet(init)) + {last};
      if last in held {
        assert held + CornerSet(vs) == held + CornerSet(init);
      }
    }
  }

  /** Meshlet `m` holds exactly the triangles `cur`, within both budgets. */
  ghost predicate Holds(tris: seq<int>, m: LegacyMeshlet, cur: seq<nat>)
  {
    && InRange(cur, TriangleCount(tris)) && |cur| <= LEGACY_MAX_TRIANGLES
    && m.triangles == Corners(tris, cur)
    && m.vertices == CornerSet(Corners(tris, cur))
    && |m.vertices| <= MAX_VERTICES
  }

  /** The count of a triangle's corners the meshlet does not hold yet. */
  method CountNewVertices(triVerts: seq<int>, vertices: set<int>) returns (newVertsCount: nat)
    ensures newVertsCount == MissingCount(triVerts, vertices)
  {
    newVertsCount := 0;
    for c := 0 to |triVerts|
      invariant newVertsCount == MissingCount(triVerts[..c], vertices)
    {
      MissingStep(triVerts, c, vertices);
      if triVerts[c] !in vertices {
        newVertsCount := newVertsCount + 1;
      }
    }
    assert triVerts[..|triVerts|] == triVerts;
  }

  /** Append triangle `t`, already checked against both budgets, to the
      legacy meshlet: its corners go on the corner list and into the vertex
      set. */
  method LegacyTake(tris: seq<int>, t: nat, meshlet: LegacyMeshlet, ghost cur: seq<nat>) returns (meshlet': LegacyMeshlet)
    requires t < TriangleCount(tris)
    requires Holds(tris, meshlet, cur)
    requires |meshlet.triangles| / 3 + 1 <= LEGACY_MAX_TRIANGLES
    requires |meshlet.vertices| + MissingCount(TriangleAt(tris, t), meshlet.vertices) <= MAX_VERTICES
    ensures Holds(tris, meshlet', cur + [t])
  {
    var triVerts := TriangleAt(tris, t);
    var triangles := meshlet.triangles + triVerts;
    var vertices := AddVertices(meshlet.vertices, triVerts);
    meshlet' := LegacyMeshlet(triangles, vertices);
    HoldsSnoc(tris, meshlet, cur, t);
  }

  /** Add each corner to the vertex set, one at a time. */
  method AddVertices(held: set<int>, triVerts: seq<int>) returns (vertices: set<int>)
    ensures vertices == held + CornerSet(triVerts)
  {
    vertices := held;
    for c := 0 to |triVerts|
      invariant vertices == held + CornerSet(triVerts[..c])
    {
      assert triVerts[..c + 1] == triVerts[..c] + [triVerts[c]];
      vertices := vertices + {triVerts[c]};
    }
    assert triVerts[..|triVerts|] == triVerts;
  }

  /** Appending a triangle's corners and adding them to the vertex set
      extends what the meshlet holds by that triangle. */
  lemma HoldsSnoc(tris: seq<int>, meshlet: LegacyMeshlet, cur: seq<nat>, t: nat)
    requires t < TriangleCount(tris)
    requires Holds(tris, meshlet, cur)
    requires |meshlet.triangles| / 3 + 1 <= LEGACY_MAX_TRIANGLES
    requires |meshlet.vertices| + MissingCount(TriangleAt(tris, t), meshlet.vertices) <= MAX_VERTICES
    ensures Holds(tris, LegacyMeshlet(meshlet.triangles + TriangleAt(tris, t),
                                      meshlet.vertices + CornerSet(TriangleAt(tris, t))), cur + [t])
  {
    var triVerts := TriangleAt(tris, t);
    CornersSnoc(tris, cur, t);
    UnionBound(meshlet.vertices, triVerts);
    assert CornerSet(Corners(tris, cur + [t])) == meshlet.vertices + CornerSet(triVerts);
  }

  /** Add a triangle that passed both budget checks: append its corners,
      add them to the vertex set, mark it visited and queue its unvisited
      neighbours. */
  method LegacyAccept(tris: seq<int>, adj: seq<seq<nat>>, visited: array<bool>, currentTri: nat,
                      meshlet: LegacyMeshlet, ghost cur: seq<nat>, ghost placed: seq<nat>, queue: seq<nat>)
    returns (meshlet': LegacyMeshlet, ghost cur': seq<nat>, queue': seq<nat>)
    requires |adj| == TriangleCount(tris) == visited.Length
    requires forall t, x :: 0 <= t < |adj| && x in adj[t] ==> x < |adj|
    requires currentTri < visited.Length && !visited[currentTri]
    requires Tracks(visited[..], placed + cur)
    requires Holds(tris, meshlet, cur)
    requires |meshlet.triangles| / 3 + 1 <= LEGACY_MAX_TRIANGLES
    requires |meshlet.vertices| + MissingCount(TriangleAt(tris, currentTri), meshlet.vertices) <= MAX_VERTICES
    requires forall i :: 0 <= i < |queue| ==> queue[i] < visited.Length
    modifies visited
    ensures cur' == cur + [currentTri]
    ensures Tracks(visited[..], placed + cur')
    ensures Holds(tris, meshlet', cur')
    ensures forall i :: 0 <= i < |queue'| ==> queue'[i] < visited.Length
    ensures visited[currentTri] && queue' == queue + UnvisitedNeighbors(adj[currentTri], visited[..])
  {
    meshlet' := LegacyTake(tris, currentTri, meshlet, cur);
    TracksMark(visited[..], placed + cur, currentTri);
    visited[currentTri] := true;
    cur' := cur + [currentTri];
    assert placed + cur' == (placed + cur) + [currentTri];
    queue' := QueueNeighbors(adj, visited, currentTri, queue);
  }

  /** The breadth-first walk of one legacy meshlet, seeded at `triIndex`. */
  method LegacyGrow(tris: seq<int>, adj: seq<seq<nat>>, visited: array<bool>, triIndex: nat, ghost placed: seq<nat>)
    returns (meshlet: LegacyMeshlet, ghost cur: seq<nat>)
    requires |adj| == TriangleCount(tris) == visited.Length
    requires forall t, x :: 0 <= t < |adj| && x in adj[t] ==> x < |adj|
    requires triIndex < visited.Length && !visited[triIndex]
    requires Tracks(visited[..], placed)
    modifies visited
    ensures Tracks(visited[..], placed + cur)
    ensures 1 <= |cur| && cur[0] == triIndex
    ensures Holds(tris, meshlet, cur)
  {
    var n := visited.Length;
    meshlet := LegacyMeshlet([], {});
    cur := [];
    assert placed + cur == placed;
    var queue: seq<nat> := [triIndex];
    while |queue| > 0
      invariant forall i :: 0 <= i < |queue| ==> queue[i] < n
      invariant Tracks(visited[..], placed + cur)
      invariant Holds(tris, meshlet, cur)
      invariant cur == [] ==> queue == [triIndex]
      invariant cur != [] ==> cur[0] == triIndex
      decreases Unvisited(visited[..]), |queue|
    {
      var currentTri := queue[0];
      queue := queue[1..];
      if visited[currentTri] {
        continue;
      }
      var triVerts := TriangleAt(tris, currentTri);
      var newVertsCount := CountNewVertices(triVerts, meshlet.vertices);
      if |meshlet.triangles| / 3 + 1 > LEGACY_MAX_TRIANGLES || |meshlet.vertices| + newVertsCount > MAX_VERTICES {
        continue;
      }
      meshlet, cur, queue := LegacyAccept(tris, adj, visited, currentTri, meshlet, cur, placed, queue);
    }
  }

  /** The legacy meshlets emitted so far: meshlet `k` holds the triangles
      `parts[k]` and is not empty. */
  ghost predicate LegacyEmitted(tris: seq<int>, meshlets: seq<LegacyMeshlet>, parts: seq<seq<nat>>)
  {
    && |parts| == |meshlets|
    && forall k :: 0 <= k < |meshlets| ==> 1 <= |parts[k]| && Holds(tris, meshlets[k], parts[k])
  }

  ghost predicate LegacyScanned(tris: seq<int>, visited: seq<bool>, triIndex: nat,
                                meshlets: seq<LegacyMeshlet>, parts: seq<seq<nat>>)
  {
    && Covers(Flatten(parts), triIndex)
    && Tracks(visited, Flatten(parts))
    && LegacyEmitted(tris, meshlets, parts)
  }

  /** One step of the legacy seed scan. */
  method LegacyScanSeed(tris: seq<int>, adj: seq<seq<nat>>, visited: array<bool>, triIndex: nat,
                        meshlets: seq<LegacyMeshlet>, ghost parts: seq<seq<nat>>)
    returns (meshlets': seq<LegacyMeshlet>, ghost parts': seq<seq<nat>>)
    requires |adj| == TriangleCount(tris) == visited.Length
    requires forall t, x :: 0 <= t < |adj| && x in adj[t] ==> x < |adj|
    requires triIndex < visited.Length
    requires LegacyScanned(tris, visited[..], triIndex, meshlets, parts)
    modifies visited
    ensures LegacyScanned(tris, visited[..], triIndex + 1, meshlets', parts')
  {
    ghost var placed := Flatten(parts);
    if visited[triIndex] {
      CoversStep(placed, [], triIndex);
      assert placed + [] == placed;
      return meshlets, parts;
    }
    var meshlet, cur := LegacyGrow(tris, adj, visited, triIndex, placed);
    CoversStep(placed, cur, triIndex);
    meshlets', parts' := meshlets, parts;
    if |meshlet.triangles| > 0 {
      LegacyEmitKeeps(tris, meshlets, parts, meshlet, cur);
      meshlets' := meshlets + [meshlet];
      parts' := parts + [cur];
      assert parts'[..|parts|] == parts;
      assert Flatten(parts') == placed + cur;
    }
  }

  /** Appending a non-empty meshlet that holds `cur` keeps the emitted
      meshlets sound. */
  lemma LegacyEmitKeeps(tris: seq<int>, meshlets: seq<LegacyMeshlet>, parts: seq<seq<nat>>,
                        meshlet: LegacyMeshlet, cur: seq<nat>)
    requires LegacyEmitted(tris, meshlets, parts)
    requires 1 <= |cur| && Holds(tris, meshlet, cur)
    ensures LegacyEmitted(tris, meshlets + [meshlet], parts + [cur])
  {
    var ms', parts' := meshlets + [meshlet], parts + [cur];
    forall k | 0 <= k < |ms'| ensures 1 <= |parts'[k]| && Holds(tris, ms'[k], parts'[k]) {
      if k < |meshlets| {
        assert ms'[k] == meshlets[k] && parts'[k] == parts[k];
      }
    }
  }

  /** The meshlets' global corner lists, concatenated in meshlet order. */
  function AllCorners(ms: seq<LegacyMeshlet>): seq<int>
  {
    if ms == [] then [] else AllCorners(ms[..|ms| - 1]) + ms[|ms| - 1].triangles
  }

  /** One returned legacy meshlet on its own: whole triangles, not empty,
      within both budgets, and holding the set of its corners' vertices. */
  ghost predicate LegacyMeshletSound(m: LegacyMeshlet)
  {
    && 3 <= |m.triangles| <= 3 * LEGACY_MAX_TRIANGLES && |m.triangles| % 3 == 0
    && m.vertices == CornerSet(m.triangles) && |m.vertices| <= MAX_VERTICES
  }

  /** What the returned meshlets promise on their own: none is empty, each
      is within both budgets and holds the set of its corners' vertices, and
      together they draw every triangle of the mesh exactly once. */
  ghost predicate LegacyPartitionsMesh(tris: seq<int>, ms: seq<LegacyMeshlet>)
  {
    && (forall k :: 0 <= k < |ms| ==> LegacyMeshletSound(ms[k]))
    && exists order: seq<nat> :: IsTriangleOrder(order, TriangleCount(tris)) && AllCorners(ms) == Corners(tris, order)
  }

  /** The concatenated corner lists of meshlets holding `parts` are the
      corners of the flattened triangle order. */
  lemma {:induction false} AllCornersFlatten(tris: seq<int>, ms: seq<LegacyMeshlet>, parts: seq<seq<nat>>)
    requires |parts| == |ms|
    requires forall k :: 0 <= k < |ms| ==> Holds(tris, ms[k], parts[k])
    ensures InRange(Flatten(parts), TriangleCount(tris))
    ensures AllCorners(ms) == Corners(tris, Flatten(parts))
  {
    FlattenInRange(parts, TriangleCount(tris));
    if ms != [] {
      var n := |ms| - 1;
      forall k | 0 <= k < n ensures Holds(tris, ms[..n][k], parts[..n][k]) {
        assert ms[..n][k] == ms[k] && parts[..n][k] == parts[k];
      }
      AllCornersFlatten(tris, ms[..n], parts[..n]);
      assert Holds(tris, ms[n], parts[n]);
      CornersAppend(tris, Flatten(parts[..n]), parts[n]);
    }
  }

  /** A scan that placed every triangle leaves meshlets that partition the mesh. */
  lemma LegacyEmittedPartitions(tris: seq<int>, ms: seq<LegacyMeshlet>, parts: seq<seq<nat>>)
    requires IsTriangleOrder(Flatten(parts), TriangleCount(tris))
    requires LegacyEmitted(tris, ms, parts)
    ensures LegacyPartitionsMesh(tris, ms)
  {
    LegacyEmittedSound(tris, ms, parts);
    AllCornersFlatten(tris, ms, parts);
    ghost var order := Flatten(parts);
    assert IsTriangleOrder(order, TriangleCount(tris)) && AllCorners(ms) == Corners(tris, order);
  }

  /** Every emitted legacy meshlet is sound on its own. */
  lemma LegacyEmittedSound(tris: seq<int>, ms: seq<LegacyMeshlet>, parts: seq<seq<nat>>)
    requires LegacyEmitted(tris, ms, parts)
    ensures forall k :: 0 <= k < |ms| ==> LegacyMeshletSound(ms[k])
  {
    forall k | 0 <= k < |ms| ensures LegacyMeshletSound(ms[k]) {
      assert 1 <= |parts[k]| && Holds(tris, ms[k], parts[k]);
    }
  }

  /** Partition the mesh into legacy meshlets: every triangle lands in
      exactly one meshlet, each meshlet holds the corners of its triangles in
      the order they were taken and the set of their vertices, within both
      budgets. */
  method LegacyGenerateMeshlets(tris: seq<int>) returns (meshlets: seq<LegacyMeshlet>, ghost parts: seq<seq<nat>>)
    ensures LegacyPartitionsMesh(tris, meshlets)
    ensures IsTriangleOrder(Flatten(parts), TriangleCount(tris))
    ensures LegacyEmitted(tris, meshlets, parts)
  {
    var adj := Adjacency.BuildTriangleAdjacency(tris);
    meshlets, parts := LegacyPartition(tris, adj);
  }

  method LegacyPartition(tris: seq<int>, adj: seq<seq<nat>>) returns (meshlets: seq<LegacyMeshlet>, ghost parts: seq<seq<nat>>)
    requires |adj| == TriangleCount(tris)
    requires forall t, x :: 0 <= t < |adj| && x in adj[t] ==> x < |adj|
    ensures LegacyPartitionsMesh(tris, meshlets)
    ensures IsTriangleOrder(Flatten(parts), TriangleCount(tris))
    ensures LegacyEmitted(tris, meshlets, parts)
  {
    var triangleCount := |tris| / 3;
    var visited := new bool[triangleCount](_ => false);
    meshlets, parts := [], [];
    UnvisitedNone(visited[..]);
    for triIndex := 0 to triangleCount
      invariant LegacyScanned(tris, visited[..], triIndex, meshlets, parts)
    {
      meshlets, parts := LegacyScanSeed(tris, adj, visited, triIndex, meshlets, parts);
    }
    forall t | 0 <= t < triangleCount ensures visited[t] {
      assert t in Flatten(parts);
    }
    UnvisitedAll(visited[..]);
    LegacyEmittedPartitions(tris, meshlets, parts);
  }
}

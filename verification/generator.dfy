/** The current meshlet partitioner: a breadth-first walk over the triangle
    adjacency graph that grows one meshlet at a time until its vertex or
    triangle budget would be exceeded, then emits it into the flat
    meshlet-vertex and meshlet-triangle buffers. */
module MeshletGenerator {
  import opened MeshModel
  import Adjacency

  /** The `(byte)` cast of a local vertex index: its low eight bits. */
  function ToByte(x: int): (b: int)
    ensures 0 <= b < 256
    ensures 0 <= x < 256 ==> b == x
  {
    x % 256
  }

  /** How many of the corners `vs` are not in `held` yet; a corner that
      occurs twice is counted twice, as both partitioners' counts over the
      three corners of a triangle do. */
  function MissingCount(vs: seq<int>, held: set<int>): (c: nat)
    ensures c <= |vs|
  {
    if vs == [] then 0
    else MissingCount(vs[..|vs| - 1], held) + (if vs[|vs| - 1] in held then 0 else 1)
  }

  lemma {:induction false} MissingPrefix(vs: seq<int>, k: nat, held: set<int>)
    requires k <= |vs|
    ensures MissingCount(vs[..k], held) <= MissingCount(vs, held)
  {
    if k < |vs| {
      var init := vs[..|vs| - 1];
      assert init[..k] == vs[..k];
      MissingPrefix(init, k, held);
    } else {
      assert vs[..k] == vs;
    }
  }

  lemma MissingStep(vs: seq<int>, c: nat, held: set<int>)
    requires c < |vs|
    ensures MissingCount(vs[..c + 1], held) ==
              MissingCount(vs[..c], held) + (if vs[c] in held then 0 else 1)
    ensures MissingCount(vs[..c + 1], held) <= MissingCount(vs, held)
  {
    assert vs[..c + 1][..c] == vs[..c];
    MissingPrefix(vs, c + 1, held);
  }

  /** Number of triangles not yet visited. */
  function Unvisited(visited: seq<bool>): (c: nat)
    ensures c <= |visited|
  {
    if visited == [] then 0
    else Unvisited(visited[..|visited| - 1]) + (if visited[|visited| - 1] then 0 else 1)
  }

  lemma {:induction false} UnvisitedNone(visited: seq<bool>)
    requires forall i :: 0 <= i < |visited| ==> !visited[i]
    ensures Unvisited(visited) == |visited|
  {
    if visited != [] {
      UnvisitedNone(visited[..|visited| - 1]);
    }
  }

  lemma {:induction false} UnvisitedAll(visited: seq<bool>)
    requires forall i :: 0 <= i < |visited| ==> visited[i]
    ensures Unvisited(visited) == 0
  {
    if visited != [] {
      UnvisitedAll(visited[..|visited| - 1]);
    }
  }

  /** Marking one unvisited triangle lowers the count by exactly one. */
  lemma {:induction false} UnvisitedMark(visited: seq<bool>, t: nat)
    requires t < |visited| && !visited[t]
    ensures Unvisited(visited[t := true]) == Unvisited(visited) - 1
  {
    var last := |visited| - 1;
    var marked := visited[t := true];
    if t == last {
      assert marked[..last] == visited[..last];
    } else {
      assert marked[..last] == visited[..last][t := true];
      UnvisitedMark(visited[..last], t);
    }
  }

  /** The meshlet-local vertex map agrees with the local vertex list: each
      global vertex of the meshlet maps to its position in the list. */
  ghost predicate LocalMap(localVertMap: map<int, int>, vertList: seq<int>)
  {
    && (forall v :: v in localVertMap <==> v in vertList)
    && (forall i :: 0 <= i < |vertList| ==> vertList[i] in localVertMap && localVertMap[vertList[i]] == i)
    && |localVertMap| == |vertList|
  }

  /** Registering a new vertex under the next local index keeps the map and
      the list in agreement. */
  lemma LocalMapPush(localVertMap: map<int, int>, vertList: seq<int>, v: int)
    requires LocalMap(localVertMap, vertList) && v !in localVertMap
    ensures LocalMap(localVertMap[v := |vertList|], vertList + [v])
  {
    var m := localVertMap[v := |vertList|];
    var l := vertList + [v];
    forall i | 0 <= i < |l| ensures l[i] in m && m[l[i]] == i {
      if i < |vertList| {
        assert l[i] == vertList[i];
      }
    }
  }

  /** One more corner: the first-seen vertex list grows by that corner
      exactly when it is new. */
  lemma DedupStep(prefix: seq<int>, rest: seq<int>, c: nat)
    requires c < |rest|
    ensures Dedup(prefix + rest[..c + 1]) ==
              if rest[c] in Dedup(prefix + rest[..c]) then Dedup(prefix + rest[..c])
              else Dedup(prefix + rest[..c]) + [rest[c]]
  {
    var s := prefix + rest[..c + 1];
    assert s[..|s| - 1] == prefix + rest[..c];
  }

  /** The state of the corner loop after the first `c` corners: the list is
      the first-seen vertices of `before` and those corners, it extends the
      starting list, and it grew by at most the corners that were missing. */
  ghost predicate AddedUpTo(before: seq<int>, triVerts: seq<int>, c: nat, localVertMap0: map<int, int>, vertList0: seq<int>,
                            localVertMap: map<int, int>, vertList: seq<int>)
    requires c <= |triVerts|
  {
    && LocalMap(localVertMap, vertList)
    && vertList == Dedup(before + triVerts[..c])
    && localVertMap0.Keys <= localVertMap.Keys
    && |vertList| <= |vertList0| + MissingCount(triVerts[..c], localVertMap0.Keys)
    && vertList0 <= vertList
    && (forall j :: 0 <= j < c ==> triVerts[j] in localVertMap)
  }

  /** A corner the meshlet already holds changes nothing. */
  lemma AddedKeep(before: seq<int>, triVerts: seq<int>, c: nat, localVertMap0: map<int, int>, vertList0: seq<int>,
                  localVertMap: map<int, int>, vertList: seq<int>)
    requires c < |triVerts| && triVerts[c] in localVertMap
    requires AddedUpTo(before, triVerts, c, localVertMap0, vertList0, localVertMap, vertList)
    ensures AddedUpTo(before, triVerts, c + 1, localVertMap0, vertList0, localVertMap, vertList)
  {
    MissingStep(triVerts, c, localVertMap0.Keys);
    DedupStep(before, triVerts, c);
    LookupLocal(localVertMap, vertList, triVerts[c]);
  }

  /** A new corner gets the next local index, which stays below the vertex
      budget. */
  lemma AddedPush(before: seq<int>, triVerts: seq<int>, c: nat, localVertMap0: map<int, int>, vertList0: seq<int>,
                  localVertMap: map<int, int>, vertList: seq<int>)
    requires c < |triVerts| && triVerts[c] !in localVertMap
    requires AddedUpTo(before, triVerts, c, localVertMap0, vertList0, localVertMap, vertList)
    requires |vertList0| + MissingCount(triVerts, localVertMap0.Keys) <= MAX_VERTICES
    ensures |vertList| < MAX_VERTICES
    ensures AddedUpTo(before, triVerts, c + 1, localVertMap0, vertList0,
                      localVertMap[triVerts[c] := |vertList|], vertList + [triVerts[c]])
  {
    var v := triVerts[c];
    MissingStep(triVerts, c, localVertMap0.Keys);
    DedupStep(before, triVerts, c);
    assert v !in localVertMap0.Keys;
    LocalMapPush(localVertMap, vertList, v);
  }

  /** Give each corner in `triVerts` that the meshlet does not hold yet the
      next local index, in corner order. */
  method AddCorners(triVerts: seq<int>, localVertMap: map<int, int>, vertList: seq<int>, ghost before: seq<int>)
    returns (localVertMap': map<int, int>, vertList': seq<int>)
    requires LocalMap(localVertMap, vertList) && vertList == Dedup(before)
    requires |localVertMap| + MissingCount(triVerts, localVertMap.Keys) <= MAX_VERTICES
    ensures LocalMap(localVertMap', vertList')
    ensures vertList' == Dedup(before + triVerts) && |vertList'| <= MAX_VERTICES
    ensures vertList <= vertList'
    ensures forall j :: 0 <= j < |triVerts| ==> triVerts[j] in localVertMap'
  {
    localVertMap', vertList' := localVertMap, vertList;
    assert before + triVerts[..0] == before;
    for c := 0 to |triVerts|
      invariant AddedUpTo(before, triVerts, c, localVertMap, vertList, localVertMap', vertList')
    {
      var v := triVerts[c];
      if v in localVertMap' {
        AddedKeep(before, triVerts, c, localVertMap, vertList, localVertMap', vertList');
      } else {
        AddedPush(before, triVerts, c, localVertMap, vertList, localVertMap', vertList');
        var localIndex := ToByte(|localVertMap'|);
        localVertMap' := localVertMap'[v := localIndex];
        vertList' := vertList' + [v];
      }
    }
    assert triVerts[..|triVerts|] == triVerts;
    MissingPrefix(triVerts, |triVerts|, localVertMap.Keys);
  }

  /** Add triangle `t` to the meshlet under construction: register its
      corners, then append their three local indices. */
  method AddTriangle(tris: seq<int>, t: nat, localVertMap: map<int, int>, vertList: seq<int>,
                     triIndices: seq<int>, ghost before: seq<int>)
    returns (localVertMap': map<int, int>, vertList': seq<int>, triIndices': seq<int>)
    requires t < TriangleCount(tris)
    requires LocalMap(localVertMap, vertList) && vertList == Dedup(before)
    requires LocalIndicesValid(vertList, triIndices) && Decode(vertList, triIndices) == before
    requires |localVertMap| + MissingCount(TriangleAt(tris, t), localVertMap.Keys) <= MAX_VERTICES
    ensures LocalMap(localVertMap', vertList')
    ensures vertList' == Dedup(before + TriangleAt(tris, t)) && |vertList'| <= MAX_VERTICES
    ensures LocalIndicesValid(vertList', triIndices')
    ensures Decode(vertList', triIndices') == before + TriangleAt(tris, t)
  {
    var triVerts := TriangleAt(tris, t);
    localVertMap', vertList' := AddCorners(triVerts, localVertMap, vertList, before);
    triIndices' := triIndices + LocalTriangle(localVertMap', vertList', triVerts);
    LocalTriangleDecodes(localVertMap', vertList, vertList', triIndices, before, triVerts);
  }

  /** The local indices of a triangle's three corners: looked up through
      the meshlet's vertex list they give the corners back. */
  function LocalTriangle(localVertMap: map<int, int>, ghost vertList: seq<int>, triVerts: seq<int>): (local: seq<int>)
    requires LocalMap(localVertMap, vertList)
    requires |triVerts| == 3 && forall j :: 0 <= j < 3 ==> triVerts[j] in localVertMap
    ensures LocalIndicesValid(vertList, local) && Decode(vertList, local) == triVerts
  {
    LookupLocal(localVertMap, vertList, triVerts[0]);
    LookupLocal(localVertMap, vertList, triVerts[1]);
    LookupLocal(localVertMap, vertList, triVerts[2]);
    [localVertMap[triVerts[0]], localVertMap[triVerts[1]], localVertMap[triVerts[2]]]
  }

  /** Appending a triangle's local indices appends its corners to what the
      local triangle list decodes to. */
  lemma LocalTriangleDecodes(localVertMap: map<int, int>, vertList: seq<int>, vertList': seq<int>,
                             triIndices: seq<int>, before: seq<int>, triVerts: seq<int>)
    requires LocalMap(localVertMap, vertList') && vertList <= vertList'
    requires |triVerts| == 3 && forall j :: 0 <= j < 3 ==> triVerts[j] in localVertMap
    requires LocalIndicesValid(vertList, triIndices) && Decode(vertList, triIndices) == before
    ensures LocalIndicesValid(vertList', triIndices + LocalTriangle(localVertMap, vertList', triVerts))
    ensures Decode(vertList', triIndices + LocalTriangle(localVertMap, vertList', triVerts)) == before + triVerts
  {
    var local := LocalTriangle(localVertMap, vertList', triVerts);
    var triIndices' := triIndices + local;
    forall q | |triIndices| <= q < |triIndices'|
      ensures 0 <= triIndices'[q] < |vertList'| && vertList'[triIndices'[q]] == triVerts[q - |triIndices|]
    {
      var j := q - |triIndices|;
      assert triIndices'[q] == local[j];
      assert Decode(vertList', local)[j] == vertList'[local[j]];
    }
    DecodeAppend(vertList, vertList', triIndices, triIndices', before, triVerts);
  }

  /** Looking a vertex of the meshlet up in the local map gives its
      position in the local vertex list. */
  lemma LookupLocal(localVertMap: map<int, int>, vertList: seq<int>, v: int)
    requires LocalMap(localVertMap, vertList) && (v in vertList || v in localVertMap)
    ensures v in vertList && v in localVertMap && 0 <= localVertMap[v] < |vertList| && vertList[localVertMap[v]] == v
  {
    var i :| 0 <= i < |vertList| && vertList[i] == v;
  }

  /** Growing the vertex list at its end keeps earlier local indices
      decoding to the same vertices. */
  lemma DecodeAppend(vertList: seq<int>, vertList': seq<int>, triIndices: seq<int>, triIndices': seq<int>,
                     before: seq<int>, added: seq<int>)
    requires vertList <= vertList'
    requires LocalIndicesValid(vertList, triIndices) && Decode(vertList, triIndices) == before
    requires triIndices <= triIndices' && |triIndices'| == |triIndices| + |added|
    requires forall q :: |triIndices| <= q < |triIndices'| ==>
               0 <= triIndices'[q] < |vertList'| && vertList'[triIndices'[q]] == added[q - |triIndices|]
    ensures LocalIndicesValid(vertList', triIndices')
    ensures Decode(vertList', triIndices') == before + added
  {
    forall q | 0 <= q < |triIndices'|
      ensures 0 <= triIndices'[q] < |vertList'| && Decode(vertList', triIndices')[q] == (before + added)[q]
    {
      if q < |triIndices| {
        assert triIndices'[q] == triIndices[q];
        assert Decode(vertList, triIndices)[q] == vertList[triIndices[q]];
      }
    }
  }

  /** `visited` marks exactly the triangles of `order`, each listed once, and
      the unvisited count is what is left. */
  ghost predicate Tracks(visited: seq<bool>, order: seq<nat>)
  {
    && InRange(order, |visited|) && Distinct(order)
    && (forall t :: 0 <= t < |visited| ==> (visited[t] <==> t in order))
    && Unvisited(visited) + |order| == |visited|
  }

  lemma TracksMark(visited: seq<bool>, order: seq<nat>, t: nat)
    requires Tracks(visited, order) && t < |visited| && !visited[t]
    ensures Tracks(visited[t := true], order + [t])
  {
    UnvisitedMark(visited, t);
  }

  /** The meshlet under construction holds the triangles `cur`: its local
      map and vertex list agree, the list is their distinct corners in
      first-seen order, and the local triangle list decodes to their corners. */
  ghost predicate Building(tris: seq<int>, localVertMap: map<int, int>, vertList: seq<int>, triIndices: seq<int>, cur: seq<nat>)
  {
    && InRange(cur, TriangleCount(tris)) && |cur| <= MAX_TRIANGLES && |triIndices| == 3 * |cur|
    && LocalMap(localVertMap, vertList)
    && vertList == Dedup(Corners(tris, cur)) && |vertList| <= MAX_VERTICES
    && LocalIndicesValid(vertList, triIndices) && Decode(vertList, triIndices) == Corners(tris, cur)
  }

  /** Add triangle `t`, already checked against both budgets, to the
      meshlet under construction. */
  method Take(tris: seq<int>, t: nat, localVertMap: map<int, int>, vertList: seq<int>, triIndices: seq<int>, ghost cur: seq<nat>)
    returns (localVertMap': map<int, int>, vertList': seq<int>, triIndices': seq<int>)
    requires Building(tris, localVertMap, vertList, triIndices, cur) && t < TriangleCount(tris)
    requires |triIndices| / 3 + 1 <= MAX_TRIANGLES
    requires |localVertMap| + MissingCount(TriangleAt(tris, t), localVertMap.Keys) <= MAX_VERTICES
    ensures Building(tris, localVertMap', vertList', triIndices', cur + [t])
  {
    localVertMap', vertList', triIndices' := AddTriangle(tris, t, localVertMap, vertList, triIndices, Corners(tris, cur));
    CornersSnoc(tris, cur, t);
  }

  /** The breadth-first walk of one meshlet, seeded at `triIndex`: pop a
      triangle, skip it when visited or when it would break a budget,
      otherwise add it, mark it and queue its unvisited neighbours. */
  method GrowMeshlet(tris: seq<int>, adj: seq<seq<nat>>, visited: array<bool>, triIndex: nat, ghost placed: seq<nat>)
    returns (vertList: seq<int>, triIndices: seq<int>, ghost cur: seq<nat>)
    requires |adj| == TriangleCount(tris) == visited.Length
    requires forall t, x :: 0 <= t < |adj| && x in adj[t] ==> x < |adj|
    requires triIndex < visited.Length && !visited[triIndex]
    requires Tracks(visited[..], placed)
    modifies visited
    ensures Tracks(visited[..], placed + cur)
    ensures 1 <= |cur| && cur[0] == triIndex
    ensures exists localVertMap :: Building(tris, localVertMap, vertList, triIndices, cur)
  {
    var n := visited.Length;
    var localVertMap: map<int, int> := map[];
    vertList, triIndices, cur := [], [], [];
    assert placed + cur == placed;
    var queue: seq<nat> := [triIndex];
    while |queue| > 0
      invariant forall i :: 0 <= i < |queue| ==> queue[i] < n
      invariant Tracks(visited[..], placed + cur)
      invariant Building(tris, localVertMap, vertList, triIndices, cur)
      invariant cur == [] ==> queue == [triIndex]
      invariant cur != [] ==> cur[0] == triIndex
      decreases Unvisited(visited[..]), |queue|
    {
      var currentTri := queue[0];
      queue := queue[1..];
      if visited[currentTri] {
        continue;
      }
      var newVerts := MissingCount(TriangleAt(tris, currentTri), localVertMap.Keys);
      if |triIndices| / 3 + 1 > MAX_TRIANGLES || |localVertMap| + newVerts > MAX_VERTICES {
        continue;
      }
      localVertMap, vertList, triIndices, cur, queue :=
        Accept(tris, adj, visited, currentTri, localVertMap, vertList, triIndices, cur, placed, queue);
    }
  }

  /** The entries of a neighbour list that are not yet visited, in list
      order: what the walk queues after accepting a triangle. */
  function UnvisitedNeighbors(neighbors: seq<nat>, visited: seq<bool>): (r: seq<nat>)
    requires forall x :: x in neighbors ==> x < |visited|
    ensures forall i :: 0 <= i < |r| ==> r[i] < |visited| && !visited[r[i]]
    ensures forall x :: x in r <==> x in neighbors && x < |visited| && !visited[x]
    decreases |neighbors|
  {
    if neighbors == [] then []
    else
      var init, x := neighbors[..|neighbors| - 1], neighbors[|neighbors| - 1];
      assert neighbors == init + [x] && x in neighbors;
      assert forall y :: y in init ==> y in neighbors;
      var rest := UnvisitedNeighbors(init, visited);
      if visited[x] then rest else rest + [x]
  }

  /** Take a triangle that passed both budget checks: add it to the
      meshlet, mark it visited and queue its unvisited neighbours. */
  method Accept(tris: seq<int>, adj: seq<seq<nat>>, visited: array<bool>, currentTri: nat,
                localVertMap: map<int, int>, vertList: seq<int>, triIndices: seq<int>, ghost cur: seq<nat>,
                ghost placed: seq<nat>, queue: seq<nat>)
    returns (localVertMap': map<int, int>, vertList': seq<int>, triIndices': seq<int>, ghost cur': seq<nat>, queue': seq<nat>)
    requires |adj| == TriangleCount(tris) == visited.Length
    requires forall t, x :: 0 <= t < |adj| && x in adj[t] ==> x < |adj|
    requires currentTri < visited.Length && !visited[currentTri]
    requires Tracks(visited[..], placed + cur)
    requires Building(tris, localVertMap, vertList, triIndices, cur)
    requires |triIndices| / 3 + 1 <= MAX_TRIANGLES
    requires |localVertMap| + MissingCount(TriangleAt(tris, currentTri), localVertMap.Keys) <= MAX_VERTICES
    requires forall i :: 0 <= i < |queue| ==> queue[i] < visited.Length
    modifies visited
    ensures cur' == cur + [currentTri]
    ensures Tracks(visited[..], placed + cur')
    ensures Building(tris, localVertMap', vertList', triIndices', cur')
    ensures forall i :: 0 <= i < |queue'| ==> queue'[i] < visited.Length
    ensures visited[currentTri] && queue' == queue + UnvisitedNeighbors(adj[currentTri], visited[..])
  {
    localVertMap', vertList', triIndices' := Take(tris, currentTri, localVertMap, vertList, triIndices, cur);
    TracksMark(visited[..], placed + cur, currentTri);
    visited[currentTri] := true;
    cur' := cur + [currentTri];
    assert placed + cur' == (placed + cur) + [currentTri];
    queue' := QueueNeighbors(adj, visited, currentTri, queue);
  }

  /** Queue every neighbour of `currentTri` that is not visited yet, in
      adjacency-list order, behind the triangles already queued. */
  method QueueNeighbors(adj: seq<seq<nat>>, visited: array<bool>, currentTri: nat, queue: seq<nat>)
    returns (queue': seq<nat>)
    requires |adj| == visited.Length && currentTri < |adj|
    requires forall t, x :: 0 <= t < |adj| && x in adj[t] ==> x < |adj|
    requires forall i :: 0 <= i < |queue| ==> queue[i] < visited.Length
    ensures forall i :: 0 <= i < |queue'| ==> queue'[i] < visited.Length
    ensures queue' == queue + UnvisitedNeighbors(adj[currentTri], visited[..])
  {
    queue' := queue;
    var neighbors := adj[currentTri];
    assert forall x :: x in neighbors ==> x < visited.Length;
    for ni := 0 to |neighbors|
      invariant forall x :: x in neighbors[..ni] ==> x in neighbors
      invariant forall i :: 0 <= i < |queue'| ==> queue'[i] < visited.Length
      invariant queue' == queue + UnvisitedNeighbors(neighbors[..ni], visited[..])
    {
      var neighbor := neighbors[ni];
      assert neighbor in neighbors && neighbors[..ni + 1] == neighbors[..ni] + [neighbor];
      if !visited[neighbor] {
        queue' := queue' + [neighbor];
      }
    }
    assert neighbors[..|neighbors|] == neighbors;
  }

  /** The meshlets emitted so far: they tile the buffers, keep the budgets,
      and meshlet `k` encodes the triangles `parts[k]`. */
  ghost predicate Emitted(tris: seq<int>, ms: seq<Meshlet>, vb: seq<int>, tb: seq<int>, parts: seq<seq<nat>>)
  {
    && |parts| == |ms|
    && Tiled(ms, vb, tb)
    && forall k :: 0 <= k < |ms| ==> EmittedMeshlet(tris, ms[k], vb, tb, parts[k])
  }

  /** One emitted meshlet: within both budgets, non-empty, and encoding the
      triangles `part`. */
  ghost predicate EmittedMeshlet(tris: seq<int>, m: Meshlet, vb: seq<int>, tb: seq<int>, part: seq<nat>)
  {
    && 1 <= m.triangleCount <= MAX_TRIANGLES
    && m.vertexCount <= MAX_VERTICES
    && Encodes(tris, m, vb, tb, part)
  }

  lemma EmitKeepsEmitted(tris: seq<int>, ms: seq<Meshlet>, vb: seq<int>, tb: seq<int>, parts: seq<seq<nat>>,
                         localVertMap: map<int, int>, vl: seq<int>, ti: seq<int>, cur: seq<nat>)
    requires Emitted(tris, ms, vb, tb, parts)
    requires Building(tris, localVertMap, vl, ti, cur) && 1 <= |cur|
    ensures Emitted(tris, ms + [Meshlet(|vb|, |vl|, |tb|, |cur|)], vb + vl, tb + ti, parts + [cur])
  {
    var m := Meshlet(|vb|, |vl|, |tb|, |cur|);
    TiledAppend(ms, vb, tb, vl, ti, |cur|);
    EncodesEmitted(tris, vb, tb, vl, ti, cur);
    var ms', parts' := ms + [m], parts + [cur];
    assert EmittedMeshlet(tris, m, vb + vl, tb + ti, cur);
    forall k | 0 <= k < |ms'| ensures EmittedMeshlet(tris, ms'[k], vb + vl, tb + ti, parts'[k]) {
      if k < |ms| {
        assert ms'[k] == ms[k] && parts'[k] == parts[k];
        EncodesExtend(tris, ms[k], vb, tb, vl, ti, parts[k]);
      } else {
        assert ms'[k] == m && parts'[k] == cur;
      }
    }
  }

  /** Every triangle below `upTo` has been placed in some meshlet. */
  ghost predicate Covers(placed: seq<nat>, upTo: nat)
  {
    forall t :: 0 <= t < upTo ==> t in placed
  }

  lemma CoversStep(placed: seq<nat>, cur: seq<nat>, triIndex: nat)
    requires Covers(placed, triIndex)
    requires triIndex in placed || (|cur| >= 1 && cur[0] == triIndex)
    ensures Covers(placed + cur, triIndex + 1)
  {
    forall t | 0 <= t < triIndex + 1 ensures t in placed + cur {
      if t < triIndex || triIndex in placed {
        assert t in placed;
      } else {
        assert (placed + cur)[|placed|] == t;
      }
    }
  }

  /** Append the finished meshlet's descriptor and its two local lists. */
  method EmitMeshlet(tris: seq<int>, meshlets: seq<Meshlet>, vertexBuffer: seq<int>, triangleBuffer: seq<int>,
                     ghost parts: seq<seq<nat>>, vertList: seq<int>, triIndices: seq<int>, ghost cur: seq<nat>)
    returns (meshlets': seq<Meshlet>, vertexBuffer': seq<int>, triangleBuffer': seq<int>)
    requires Emitted(tris, meshlets, vertexBuffer, triangleBuffer, parts)
    requires 1 <= |cur| && exists localVertMap :: Building(tris, localVertMap, vertList, triIndices, cur)
    ensures Emitted(tris, meshlets', vertexBuffer', triangleBuffer', parts + [cur])
    ensures meshlets' == meshlets + [meshlets'[|meshlets|]] && meshlets'[|meshlets|].vertexOffset == |vertexBuffer|
    ensures vertexBuffer' == vertexBuffer + vertList && triangleBuffer' == triangleBuffer + triIndices
  {
    var meshlet := Meshlet(|vertexBuffer|, |vertList|, |triangleBuffer|, |triIndices| / 3);
    ghost var localVertMap :| Building(tris, localVertMap, vertList, triIndices, cur);
    assert meshlet == Meshlet(|vertexBuffer|, |vertList|, |triangleBuffer|, |cur|);
    EmitKeepsEmitted(tris, meshlets, vertexBuffer, triangleBuffer, parts, localVertMap, vertList, triIndices, cur);
    meshlets' := meshlets + [meshlet];
    vertexBuffer' := vertexBuffer + vertList;
    triangleBuffer' := triangleBuffer + triIndices;
  }

  /** What the returned buffers promise on their own: the meshlets tile the
      two buffers within both budgets, and reindexing them draws every
      triangle of the mesh exactly once. */
  ghost predicate PartitionsMesh(tris: seq<int>, ms: seq<Meshlet>, vb: seq<int>, tb: seq<int>)
  {
    && Tiled(ms, vb, tb)
    && (forall k :: 0 <= k < |ms| ==> 1 <= ms[k].triangleCount <= MAX_TRIANGLES && ms[k].vertexCount <= MAX_VERTICES)
    && Decodable(ms, vb, tb)
    && exists order: seq<nat> :: IsTriangleOrder(order, TriangleCount(tris)) && Reindex(ms, vb, tb) == Corners(tris, order)
  }

  /** A scan that placed every triangle leaves buffers that partition the mesh. */
  lemma EmittedPartitions(tris: seq<int>, ms: seq<Meshlet>, vb: seq<int>, tb: seq<int>, parts: seq<seq<nat>>)
    requires IsTriangleOrder(Flatten(parts), TriangleCount(tris))
    requires Emitted(tris, ms, vb, tb, parts)
    ensures PartitionsMesh(tris, ms, vb, tb)
  {
    ReindexRoundTrip(tris, ms, vb, tb, parts);
  }

  /** Partition the mesh into meshlets. Every triangle lands in exactly one
      meshlet; the meshlets tile the two flat buffers in order, respect the
      budgets, and each one decodes back to the corners of its triangles. */
  method GenerateMeshlets(tris: seq<int>)
    returns (meshlets: seq<Meshlet>, vertexBuffer: seq<int>, triangleBuffer: seq<int>, ghost parts: seq<seq<nat>>)
    ensures PartitionsMesh(tris, meshlets, vertexBuffer, triangleBuffer)
    ensures IsTriangleOrder(Flatten(parts), TriangleCount(tris))
    ensures Emitted(tris, meshlets, vertexBuffer, triangleBuffer, parts)
  {
    var adj := Adjacency.BuildTriangleAdjacency(tris);
    meshlets, vertexBuffer, triangleBuffer, parts := Partition(tris, adj);
  }

  /** The scan state after the first `triIndex` seeds: every triangle below
      `triIndex` is placed, `visited` marks exactly the placed triangles, and
      the emitted meshlets hold them meshlet by meshlet. */
  ghost predicate Scanned(tris: seq<int>, visited: seq<bool>, triIndex: nat, meshlets: seq<Meshlet>,
                          vertexBuffer: seq<int>, triangleBuffer: seq<int>, parts: seq<seq<nat>>)
  {
    && Covers(Flatten(parts), triIndex)
    && Tracks(visited, Flatten(parts))
    && Emitted(tris, meshlets, vertexBuffer, triangleBuffer, parts)
  }

  /** One step of the seed scan: a triangle that is still unvisited seeds a
      meshlet, which is grown and emitted; a visited one is skipped. */
  method ScanSeed(tris: seq<int>, adj: seq<seq<nat>>, visited: array<bool>, triIndex: nat,
                  meshlets: seq<Meshlet>, vertexBuffer: seq<int>, triangleBuffer: seq<int>, ghost parts: seq<seq<nat>>)
    returns (meshlets': seq<Meshlet>, vertexBuffer': seq<int>, triangleBuffer': seq<int>, ghost parts': seq<seq<nat>>)
    requires |adj| == TriangleCount(tris) == visited.Length
    requires forall t, x :: 0 <= t < |adj| && x in adj[t] ==> x < |adj|
    requires triIndex < visited.Length
    requires Scanned(tris, visited[..], triIndex, meshlets, vertexBuffer, triangleBuffer, parts)
    modifies visited
    ensures Scanned(tris, visited[..], triIndex + 1, meshlets', vertexBuffer', triangleBuffer', parts')
  {
    ghost var placed := Flatten(parts);
    if visited[triIndex] {
      CoversStep(placed, [], triIndex);
      assert placed + [] == placed;
      return meshlets, vertexBuffer, triangleBuffer, parts;
    }
    var vertList, triIndices, cur := GrowMeshlet(tris, adj, visited, triIndex, placed);
    // The walk always takes its seed triangle, so the meshlet is never empty.
    meshlets', vertexBuffer', triangleBuffer' := EmitMeshlet(tris, meshlets, vertexBuffer, triangleBuffer, parts, vertList, triIndices, cur);
    CoversStep(placed, cur, triIndex);
    parts' := parts + [cur];
    assert parts'[..|parts|] == parts;
    assert Flatten(parts') == placed + cur;
  }

  /** The seed scan: every triangle not yet visited seeds a new meshlet. */
  method Partition(tris: seq<int>, adj: seq<seq<nat>>)
    returns (meshlets: seq<Meshlet>, vertexBuffer: seq<int>, triangleBuffer: seq<int>, ghost parts: seq<seq<nat>>)
    requires |adj| == TriangleCount(tris)
    requires forall t, x :: 0 <= t < |adj| && x in adj[t] ==> x < |adj|
    ensures PartitionsMesh(tris, meshlets, vertexBuffer, triangleBuffer)
    ensures IsTriangleOrder(Flatten(parts), TriangleCount(tris))
    ensures Emitted(tris, meshlets, vertexBuffer, triangleBuffer, parts)
  {
    var triangleCount := |tris| / 3;
    var visited := new bool[triangleCount](_ => false);
    meshlets, vertexBuffer, triangleBuffer, parts := [], [], [], [];
    UnvisitedNone(visited[..]);
    for triIndex := 0 to triangleCount
      invariant Scanned(tris, visited[..], triIndex, meshlets, vertexBuffer, triangleBuffer, parts)
    {
      meshlets, vertexBuffer, triangleBuffer, parts :=
        ScanSeed(tris, adj, visited, triIndex, meshlets, vertexBuffer, triangleBuffer, parts);
    }
    forall t | 0 <= t < triangleCount ensures visited[t] {
      assert t in Flatten(parts);
    }
    UnvisitedAll(visited[..]);
    EmittedPartitions(tris, meshlets, vertexBuffer, triangleBuffer, parts);
  }
}

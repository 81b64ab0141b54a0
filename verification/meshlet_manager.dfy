/** The reference-counted meshlet cache: one entry per source mesh, built on
    first use (partition, convert to a global index buffer, allocate GPU
    buffers), shared by every instance drawing that mesh, and purged when its
    last instance releases it. */
module MeshletCache {
  import opened MeshModel
  import MeshletGenerator

  datatype Option<T> = None | Some(value: T)

  /** The vertex attributes of a source mesh, one list per channel. A mesh
      without normals or tangents has an empty list for that channel. */
  datatype MeshAttributes = MeshAttributes(positions: seq<int>, normals: seq<int>, tangents: seq<int>)

  /** One vertex of the converted mesh: its position, normal and tangent. */
  datatype Vertex = Vertex(position: int, normal: int, tangent: int)

  /** A converted vertex no corner has written. */
  const NoVertex: Vertex := Vertex(0, 0, 0)

  /** The number of vertices whose three attributes can all be read. */
  function AttributeCount(attrs: MeshAttributes): (n: nat)
    ensures n <= |attrs.positions| && n <= |attrs.normals| && n <= |attrs.tangents|
    ensures n == |attrs.positions| || n == |attrs.normals| || n == |attrs.tangents|
  {
    var m := if |attrs.positions| <= |attrs.normals| then |attrs.positions| else |attrs.normals|;
    if m <= |attrs.tangents| then m else |attrs.tangents|
  }

  /** The attributes of vertex `v`, read from all three channels. */
  function VertexOf(attrs: MeshAttributes, v: int): Vertex
    requires 0 <= v < AttributeCount(attrs)
  {
    Vertex(attrs.positions[v], attrs.normals[v], attrs.tangents[v])
  }

  /** Every value of `s` indexes both the converted vertex arrays (sized by the
      meshlet vertex buffer) and the source mesh's vertex attributes. */
  ghost predicate Fits(s: seq<int>, vertexCount: nat, meshVertexCount: nat)
  {
    forall x :: x in s ==> 0 <= x < vertexCount && x < meshVertexCount
  }

  /** The reindex pass has written `done` at the front of the index array, and
      the vertex array holds the source attribute of exactly the vertices named
      so far (the rest keep their default). */
  ghost predicate Placed(indices: seq<int>, vertices: seq<Vertex>, attrs: MeshAttributes, done: seq<int>)
  {
    && |done| <= |indices|
    && indices[..|done|] == done
    && Fits(done, |vertices|, AttributeCount(attrs))
    && forall v :: 0 <= v < |vertices| ==> vertices[v] == if v in done then VertexOf(attrs, v) else NoVertex
  }

  /** What the reindex pass has produced once it reaches local corner `q` of
      meshlet `k`. */
  ghost function Converted(ms: seq<Meshlet>, vb: seq<int>, tb: seq<int>, k: nat, q: nat): seq<int>
    requires Decodable(ms, vb, tb) && k < |ms|
    requires 0 <= ms[k].triangleCount && q <= 3 * ms[k].triangleCount
  {
    assert Decodable(ms[..k], vb, tb) by {
      forall i | 0 <= i < k ensures ms[..k][i] == ms[i] { }
    }
    Reindex(ms[..k], vb, tb) + Decode(VertexSlice(ms[k], vb), TriangleSlice(ms[k], tb))[..q]
  }

  /** Each meshlet's part of the reindexed buffer starts where the earlier
      meshlets' parts end. */
  lemma {:induction false} ReindexPrefix(ms: seq<Meshlet>, vb: seq<int>, tb: seq<int>, k: nat)
    requires Decodable(ms, vb, tb) && k <= |ms|
    ensures Decodable(ms[..k], vb, tb)
    ensures Reindex(ms[..k], vb, tb) <= Reindex(ms, vb, tb)
  {
    assert Decodable(ms[..k], vb, tb) by {
      forall i | 0 <= i < k ensures ms[..k][i] == ms[i] { }
    }
    if k < |ms| {
      var init := ms[..|ms| - 1];
      assert init[..k] == ms[..k];
      ReindexPrefix(init, vb, tb, k);
    } else {
      assert ms[..k] == ms;
    }
  }

  /** A local corner of a meshlet names a vertex inside the meshlet's slice
      of the vertex buffer. */
  lemma CornerInBounds(ms: seq<Meshlet>, vb: seq<int>, tb: seq<int>, k: nat, q: nat)
    requires Decodable(ms, vb, tb) && k < |ms|
    requires 0 <= q < 3 * ms[k].triangleCount
    ensures 0 <= ms[k].triangleOffset + q < |tb|
    ensures 0 <= tb[ms[k].triangleOffset + q] < ms[k].vertexCount
    ensures 0 <= ms[k].vertexOffset + tb[ms[k].triangleOffset + q] < |vb|
    ensures Decode(VertexSlice(ms[k], vb), TriangleSlice(ms[k], tb))[q]
         == vb[ms[k].vertexOffset + tb[ms[k].triangleOffset + q]]
  {
    var m := ms[k];
    assert InBounds(m, |vb|, |tb|);
    assert TriangleSlice(m, tb)[q] == tb[m.triangleOffset + q];
  }

  /** The pass writes local corner `q` of meshlet `k` at position
      `triangleOffset + q`. */
  lemma ConvertedLength(ms: seq<Meshlet>, vb: seq<int>, tb: seq<int>, k: nat, q: nat)
    requires Tiled(ms, vb, tb) && Decodable(ms, vb, tb) && k < |ms|
    requires q <= 3 * ms[k].triangleCount
    ensures |Converted(ms, vb, tb, k, q)| == ms[k].triangleOffset + q
  {
    ReindexPrefix(ms, vb, tb, k);
    ReindexLength(ms[..k], vb, tb);
  }

  /** What the pass has produced is a prefix of the whole reindexed buffer. */
  lemma ConvertedPrefix(ms: seq<Meshlet>, vb: seq<int>, tb: seq<int>, k: nat, q: nat)
    requires Decodable(ms, vb, tb) && k < |ms|
    requires 0 <= ms[k].triangleCount && q <= 3 * ms[k].triangleCount
    ensures Converted(ms, vb, tb, k, q) <= Reindex(ms, vb, tb)
  {
    var d := Decode(VertexSlice(ms[k], vb), TriangleSlice(ms[k], tb));
    ReindexPrefix(ms, vb, tb, k);
    ReindexPrefix(ms, vb, tb, k + 1);
    assert ms[..k + 1][..k] == ms[..k];
    assert Reindex(ms[..k + 1], vb, tb) == Reindex(ms[..k], vb, tb) + d;
    assert d[..q] <= d;
  }

  /** Reaching the next local corner appends the global vertex it names. */
  lemma ConvertedStep(ms: seq<Meshlet>, vb: seq<int>, tb: seq<int>, k: nat, q: nat)
    requires Decodable(ms, vb, tb) && k < |ms|
    requires 0 <= q < 3 * ms[k].triangleCount
    ensures Converted(ms, vb, tb, k, q + 1)
         == Converted(ms, vb, tb, k, q) + [Decode(VertexSlice(ms[k], vb), TriangleSlice(ms[k], tb))[q]]
  {
    var d := Decode(VertexSlice(ms[k], vb), TriangleSlice(ms[k], tb));
    assert d[..q + 1] == d[..q] + [d[q]];
  }

  /** Before its first corner the pass has produced the earlier meshlets'
      part of the buffer; after its last, its own part as well. */
  lemma ConvertedEnds(ms: seq<Meshlet>, vb: seq<int>, tb: seq<int>, k: nat)
    requires Tiled(ms, vb, tb) && Decodable(ms, vb, tb) && k < |ms|
    ensures 0 <= ms[k].triangleCount
    ensures Decodable(ms[..k], vb, tb) && Decodable(ms[..k + 1], vb, tb)
    ensures Converted(ms, vb, tb, k, 0) == Reindex(ms[..k], vb, tb)
    ensures Converted(ms, vb, tb, k, 3 * ms[k].triangleCount) == Reindex(ms[..k + 1], vb, tb)
  {
    ReindexPrefix(ms, vb, tb, k);
    ReindexPrefix(ms, vb, tb, k + 1);
    assert ms[..k + 1][..k] == ms[..k];
    var d := Decode(VertexSlice(ms[k], vb), TriangleSlice(ms[k], tb));
    assert d[..0] == [] && d[..|d|] == d;
  }

  /** The global vertex a local corner names occurs in the reindexed
      buffer. */
  lemma CornerReindexed(ms: seq<Meshlet>, vb: seq<int>, tb: seq<int>, k: nat, q: nat)
    requires Decodable(ms, vb, tb) && k < |ms|
    requires 0 <= q < 3 * ms[k].triangleCount
    ensures 0 <= ms[k].triangleOffset + q < |tb|
    ensures 0 <= ms[k].vertexOffset + tb[ms[k].triangleOffset + q] < |vb|
    ensures vb[ms[k].vertexOffset + tb[ms[k].triangleOffset + q]] in Reindex(ms, vb, tb)
  {
    CornerInBounds(ms, vb, tb, k, q);
    ConvertedStep(ms, vb, tb, k, q);
    ConvertedPrefix(ms, vb, tb, k, q + 1);
    var c := Converted(ms, vb, tb, k, q);
    assert Converted(ms, vb, tb, k, q + 1)[|c|] == Reindex(ms, vb, tb)[|c|];
  }

  /** Write one corner: copy the vertex's attribute and its global index. */
  method PlaceCorner(indices: array<int>, vertices: array<Vertex>, attrs: MeshAttributes, p: nat, v: int, ghost done: seq<int>)
    returns (ok: bool)
    requires p == |done| < indices.Length
    requires Placed(indices[..], vertices[..], attrs, done)
    modifies indices, vertices
    ensures ok <==> 0 <= v < vertices.Length && v < AttributeCount(attrs)
    ensures ok ==> Placed(indices[..], vertices[..], attrs, done + [v])
  {
    // the position, normal and tangent reads each throw past the end of their list
    if !(0 <= v < |attrs.positions| && v < vertices.Length && v < |attrs.normals| && v < |attrs.tangents|) {
      return false;
    }
    vertices[v] := VertexOf(attrs, v);
    indices[p] := v;
    ok := true;
    assert indices[..p + 1] == indices[..p] + [v];
  }

  /** Reindex local corner `q` of meshlet `k`: look up the global vertex it
      names and place it at the corner's own position. */
  method ReindexCorner(ms: seq<Meshlet>, vb: seq<int>, tb: seq<int>, attrs: MeshAttributes,
                       indices: array<int>, vertices: array<Vertex>, k: nat, q: nat, ghost done: seq<int>)
    returns (ok: bool, ghost done': seq<int>)
    requires Tiled(ms, vb, tb) && Decodable(ms, vb, tb)
    requires k < |ms| && q < 3 * ms[k].triangleCount
    requires indices.Length == |tb| && vertices.Length == |vb|
    requires done == Converted(ms, vb, tb, k, q)
    requires Placed(indices[..], vertices[..], attrs, done)
    modifies indices, vertices
    ensures ok ==> done' == Converted(ms, vb, tb, k, q + 1)
    ensures ok ==> Placed(indices[..], vertices[..], attrs, done')
    ensures !ok ==> !Fits(Reindex(ms, vb, tb), |vb|, AttributeCount(attrs))
  {
    var m := ms[k];
    CornerInBounds(ms, vb, tb, k, q);
    ConvertedLength(ms, vb, tb, k, q);
    ConvertedStep(ms, vb, tb, k, q);
    var v := vb[m.vertexOffset + tb[m.triangleOffset + q]];
    ok := PlaceCorner(indices, vertices, attrs, m.triangleOffset + q, v, done);
    done' := done + [v];
    if !ok {
      CornerReindexed(ms, vb, tb, k, q);
    }
  }

  /** Reindex triangle `t` of meshlet `k`: its three local corners become
      global vertex indices at the triangle's own position. */
  method PlaceTriangle(ms: seq<Meshlet>, vb: seq<int>, tb: seq<int>, attrs: MeshAttributes,
                       indices: array<int>, vertices: array<Vertex>, k: nat, t: nat, ghost done: seq<int>)
    returns (ok: bool, ghost done': seq<int>)
    requires Tiled(ms, vb, tb) && Decodable(ms, vb, tb)
    requires k < |ms| && t < ms[k].triangleCount
    requires indices.Length == |tb| && vertices.Length == |vb|
    requires done == Converted(ms, vb, tb, k, 3 * t)
    requires Placed(indices[..], vertices[..], attrs, done)
    modifies indices, vertices
    ensures ok ==> done' == Converted(ms, vb, tb, k, 3 * t + 3)
    ensures ok ==> Placed(indices[..], vertices[..], attrs, done')
    ensures !ok ==> !Fits(Reindex(ms, vb, tb), |vb|, AttributeCount(attrs))
  {
    ok, done' := ReindexCorner(ms, vb, tb, attrs, indices, vertices, k, 3 * t, done);
    if !ok {
      return;
    }
    ok, done' := ReindexCorner(ms, vb, tb, attrs, indices, vertices, k, 3 * t + 1, done');
    if !ok {
      return;
    }
    ok, done' := ReindexCorner(ms, vb, tb, attrs, indices, vertices, k, 3 * t + 2, done');
  }

  /** Reindex every triangle of meshlet `k`, in order. */
  method ReindexMeshlet(ms: seq<Meshlet>, vb: seq<int>, tb: seq<int>, attrs: MeshAttributes,
                        indices: array<int>, vertices: array<Vertex>, k: nat, ghost done: seq<int>)
    returns (ok: bool, ghost done': seq<int>)
    requires Tiled(ms, vb, tb) && Decodable(ms, vb, tb) && k < |ms|
    requires indices.Length == |tb| && vertices.Length == |vb|
    requires Decodable(ms[..k], vb, tb) && done == Reindex(ms[..k], vb, tb)
    requires Placed(indices[..], vertices[..], attrs, done)
    modifies indices, vertices
    ensures ok ==> Decodable(ms[..k + 1], vb, tb) && done' == Reindex(ms[..k + 1], vb, tb)
    ensures ok ==> Placed(indices[..], vertices[..], attrs, done')
    ensures !ok ==> !Fits(Reindex(ms, vb, tb), |vb|, AttributeCount(attrs))
  {
    var m := ms[k];
    ConvertedEnds(ms, vb, tb, k);
    done' := done;
    ok := true;
    for t := 0 to m.triangleCount
      invariant done' == Converted(ms, vb, tb, k, 3 * t)
      invariant Placed(indices[..], vertices[..], attrs, done')
    {
      ok, done' := PlaceTriangle(ms, vb, tb, attrs, indices, vertices, k, t, done');
      if !ok {
        return;
      }
    }
  }

  /** The reindex pass of a cache miss: turn the meshlets' local triangles
      back into one global index buffer and gather the vertex attributes they
      name. It fails (the source's index-out-of-range exception) exactly when
      some global index does not fit the converted vertex arrays or one of
      the attribute lists. */
  method ConvertMesh(ms: seq<Meshlet>, vb: seq<int>, tb: seq<int>, attrs: MeshAttributes)
    returns (ok: bool, indices: array<int>, vertices: array<Vertex>)
    requires Tiled(ms, vb, tb) && Decodable(ms, vb, tb)
    ensures fresh(indices) && fresh(vertices)
    ensures indices.Length == |tb| && vertices.Length == |vb|
    ensures ok <==> Fits(Reindex(ms, vb, tb), |vb|, AttributeCount(attrs))
    ensures ok ==> indices[..] == Reindex(ms, vb, tb)
    ensures ok ==> forall v :: 0 <= v < |vb| ==> vertices[v] == if v in indices[..] then VertexOf(attrs, v) else NoVertex
  {
    indices := new int[|tb|](_ => 0);
    vertices := new Vertex[|vb|](_ => NoVertex);
    ghost var done: seq<int> := [];
    assert ms[..0] == [];
    for k := 0 to |ms|
      invariant Decodable(ms[..k], vb, tb) && done == Reindex(ms[..k], vb, tb)
      invariant Placed(indices[..], vertices[..], attrs, done)
    {
      ok, done := ReindexMeshlet(ms, vb, tb, attrs, indices, vertices, k, done);
      if !ok {
        return;
      }
    }
    assert ms[..|ms|] == ms;
    ReindexLength(ms, vb, tb);
    assert indices[..] == indices[..|done|];
    ok := true;
  }

  type MeshId = int
  type ObjectId = int
  type TransformId = int
  /** Identity of a CPU-side cache object or of a GPU/native resource. */
  type Handle = nat

  /** One cached mesh. `id` is the identity of the cache object itself (the
      release call finds the entry by it); the other handles are the GPU
      resources the entry owns. `indices` and `vertices` are the converted
      mesh's index buffer and (position) attribute array. */
  datatype CacheEntry = CacheEntry(
    id: Handle,
    meshlets: seq<Meshlet>,
    cullDataCount: nat,
    indices: seq<int>,
    vertices: seq<Vertex>,
    convertedMesh: Handle,
    cullingDataBuffer: Handle,
    meshletBuffer: Handle,
    vertexBuffer: Handle,
    indexBuffer: Handle,
    refCounter: nat)

  /** A persistent native array: absent, or allocated with its contents. */
  datatype NativeArray = NotCreated | Created(handle: Handle, items: seq<int>)

  /** The instances drawing one mesh, their transforms, and the per-instance
      matrix and bounds arrays rebuilt when the instance list changes. */
  datatype ReferenceData = ReferenceData(objects: seq<ObjectId>, transforms: seq<TransformId>,
                                         matrixArray: NativeArray, boundArray: NativeArray)

  const EmptyReference: ReferenceData := ReferenceData([], [], NotCreated, NotCreated)

  /** List removal: drop the first occurrence of `x`, if any. */
  function RemoveFirst<T(==)>(s: seq<T>, x: T): (r: seq<T>)
    ensures x in s ==> |r| == |s| - 1
    ensures x !in s ==> r == s
    ensures multiset(r) == multiset(s) - multiset{x}
  {
    if s == [] then []
    else
      assert s == [s[0]] + s[1..];
      if s[0] == x then s[1..] else [s[0]] + RemoveFirst(s[1..], x)
  }

  /** Add an instance and its transform to a mesh's reference data. */
  function Register(r: ReferenceData, obj: ObjectId, tr: TransformId): ReferenceData
  {
    r.(objects := r.objects + [obj], transforms := r.transforms + [tr])
  }

  /** Remove an instance and its transform from a mesh's reference data. */
  function Unregister(r: ReferenceData, obj: ObjectId, tr: TransformId): ReferenceData
  {
    r.(objects := RemoveFirst(r.objects, obj), transforms := RemoveFirst(r.transforms, tr))
  }

  /** The reference count agrees with both instance lists. */
  ghost predicate Balanced(e: CacheEntry, r: ReferenceData)
  {
    e.refCounter == |r.objects| == |r.transforms|
  }

  /** Acquiring keeps the count in step with the lists. */
  lemma RegisterBalanced(e: CacheEntry, r: ReferenceData, obj: ObjectId, tr: TransformId)
    requires Balanced(e, r)
    ensures Balanced(e.(refCounter := e.refCounter + 1), Register(r, obj, tr))
  {
  }

  /** Releasing a registered instance keeps the count in step with the lists. */
  lemma ReleaseBalanced(e: CacheEntry, r: ReferenceData, obj: ObjectId, tr: TransformId)
    requires Balanced(e, r) && obj in r.objects && tr in r.transforms
    ensures e.refCounter >= 1
    ensures Balanced(e.(refCounter := e.refCounter - 1), Unregister(r, obj, tr))
  {
  }

  /** Releasing an instance that was never registered still decrements the
      count, while the lists stay as they were. */
  lemma ReleaseUnregisteredUnbalances(e: CacheEntry, r: ReferenceData, obj: ObjectId, tr: TransformId)
    requires Balanced(e, r) && e.refCounter >= 1 && obj !in r.objects
    ensures !Balanced(e.(refCounter := e.refCounter - 1), Unregister(r, obj, tr))
  {
  }

  /** The GPU resources an entry owns. */
  function Buffers(e: CacheEntry): set<Handle>
  {
    {e.convertedMesh, e.cullingDataBuffer, e.meshletBuffer, e.vertexBuffer, e.indexBuffer}
  }

  /** The resources a global release frees for an entry: the meshlet and
      culling buffers and the converted mesh. */
  function ReleaseAllBuffers(e: CacheEntry): set<Handle>
  {
    {e.convertedMesh, e.cullingDataBuffer, e.meshletBuffer}
  }

  function ArrayHandle(a: NativeArray): set<Handle>
  {
    if a.Created? then {a.handle} else {}
  }

  function ArrayHandles(r: ReferenceData): set<Handle>
  {
    ArrayHandle(r.matrixArray) + ArrayHandle(r.boundArray)
  }

  /** The handle of an array allocated with a length other than `n`. */
  function StaleHandle(a: NativeArray, n: nat): set<Handle>
  {
    if a.Created? && |a.items| != n then {a.handle} else {}
  }

  /** The arrays of `r` that no longer match its instance count. */
  function Stale(r: ReferenceData): set<Handle>
  {
    StaleHandle(r.matrixArray, |r.transforms|) + StaleHandle(r.boundArray, |r.transforms|)
  }

  ghost function StaleIn(refs: map<MeshId, ReferenceData>, meshes: set<MeshId>): set<Handle>
  {
    set m, h | m in meshes && m in refs && h in Stale(refs[m]) :: h
  }

  ghost function ReleaseAllDisposes(cache: map<MeshId, CacheEntry>, refs: map<MeshId, ReferenceData>): set<Handle>
  {
    (set m, h | m in cache && h in ReleaseAllBuffers(cache[m]) :: h)
    + (set m, h | m in refs && h in ArrayHandle(refs[m].matrixArray) :: h)
  }

  /** The handles allocated while the counter moved from `lo` to `hi`. */
  ghost function Range(lo: nat, hi: nat): (r: set<Handle>)
    ensures forall h :: h in r <==> lo <= h < hi
    decreases hi
  {
    if hi <= lo then {} else Range(lo, hi - 1) + {hi - 1}
  }

  /** A stale array is one of the arrays the reference data holds. */
  lemma StaleOwned(r: ReferenceData)
    ensures Stale(r) <= ArrayHandles(r)
  {
  }

  lemma NonEmpty(s: set<MeshId>)
    requires s != {}
    ensures exists x :: x in s
  {
    if forall y :: y !in s {
      assert false;
    }
  }

  /** Some element of a non-empty set, as a set iteration visits it. */
  method Pick(s: set<MeshId>) returns (x: MeshId)
    requires s != {}
    ensures x in s
  {
    NonEmpty(s);
    x :| x in s;
  }

  /** `a'` is `a` brought to the length of `want`: kept as it is when its
      length already matches (its contents are not refreshed), otherwise a
      new array filled from `want`. */
  ghost predicate Resized(a: NativeArray, a': NativeArray, want: seq<int>)
  {
    && a'.Created? && |a'.items| == |want|
    && if a.Created? && |a.items| == |want| then a' == a else a'.items == want
  }

  /** `r'` is `r` after the dirty rebuild: one matrix per transform and one
      bounds entry per instance, for as many instances as there are
      transforms. */
  ghost predicate Refreshed(r: ReferenceData, r': ReferenceData)
  {
    && |r.transforms| <= |r.objects|
    && r'.objects == r.objects && r'.transforms == r.transforms
    && Resized(r.matrixArray, r'.matrixArray, r.transforms)
    && Resized(r.boundArray, r'.boundArray, r.objects[..|r.transforms|])
  }

  /** A rebuild settles the arrays: afterwards neither is stale, and a second
      rebuild keeps both as they are. */
  lemma RefreshSettles(r: ReferenceData, r': ReferenceData)
    requires Refreshed(r, r')
    ensures Stale(r') == {}
    ensures |r'.matrixArray.items| == |r'.boundArray.items| == |r'.transforms|
    ensures forall r'' :: Refreshed(r', r'') ==> r'' == r'
  {
  }

  /** What a cache miss builds from a mesh's triangles and vertex
      attributes: one culling record per meshlet, an index buffer that draws
      every triangle of the mesh exactly once (grouped meshlet by meshlet),
      and the attributes of exactly the vertices that buffer uses. */
  ghost predicate Built(tris: seq<int>, attrs: MeshAttributes, e: CacheEntry)
  {
    && e.cullDataCount == |e.meshlets|
    && Converts(tris, attrs, e.indices, e.vertices)
  }

  /** `indices` draws every triangle of the mesh exactly once, and
      `vertices` holds the attributes of exactly the vertices it uses. */
  ghost predicate Converts(tris: seq<int>, attrs: MeshAttributes, indices: seq<int>, vertices: seq<Vertex>)
  {
    && (exists order :: IsTriangleOrder(order, TriangleCount(tris)) && indices == Corners(tris, order))
    && Fits(indices, |vertices|, AttributeCount(attrs))
    && forall v :: 0 <= v < |vertices| ==> vertices[v] == if v in indices then VertexOf(attrs, v) else NoVertex
  }

  /** The condition under which the build of a cache miss succeeds: every
      vertex index of the mesh's whole triangles indexes the converted
      arrays (sized by the meshlet vertex buffer) and all three attribute
      lists. */
  ghost predicate Convertible(tris: seq<int>, vertexCount: nat, attrs: MeshAttributes)
  {
    Fits(tris[..3 * TriangleCount(tris)], vertexCount, AttributeCount(attrs))
  }

  /** Two index lists with the same values fit the same arrays. */
  lemma SameValuesFit(s: seq<int>, s': seq<int>, vertexCount: nat, meshVertexCount: nat)
    requires forall x :: x in s <==> x in s'
    ensures Fits(s, vertexCount, meshVertexCount) <==> Fits(s', vertexCount, meshVertexCount)
  {
  }

  /** The build of a cache miss: partition the mesh into meshlets and
      reindex them into the converted mesh's index buffer and vertex
      attributes. It succeeds exactly when the mesh is convertible, and then
      the index buffer is the meshlets decoded in order. */
  method BuildConvertedMesh(tris: seq<int>, attrs: MeshAttributes)
    returns (ok: bool, meshlets: seq<Meshlet>, vertexBuffer: seq<int>, triangleBuffer: seq<int>,
             indices: seq<int>, vertices: seq<Vertex>)
    ensures MeshletGenerator.PartitionsMesh(tris, meshlets, vertexBuffer, triangleBuffer)
    ensures ok <==> Convertible(tris, |vertexBuffer|, attrs)
    ensures ok ==> indices == Reindex(meshlets, vertexBuffer, triangleBuffer) && Converts(tris, attrs, indices, vertices)
  {
    ghost var parts;
    meshlets, vertexBuffer, triangleBuffer, parts := MeshletGenerator.GenerateMeshlets(tris);
    ReindexRoundTrip(tris, meshlets, vertexBuffer, triangleBuffer, parts);
    CornerValues(tris, Flatten(parts));
    SameValuesFit(Reindex(meshlets, vertexBuffer, triangleBuffer), tris[..3 * TriangleCount(tris)],
                  |vertexBuffer|, AttributeCount(attrs));
    var indexArray, vertexArray;
    ok, indexArray, vertexArray := ConvertMesh(meshlets, vertexBuffer, triangleBuffer, attrs);
    indices, vertices := indexArray[..], vertexArray[..];
    if ok {
      assert IsTriangleOrder(Flatten(parts), TriangleCount(tris)) && indices == Corners(tris, Flatten(parts));
    }
  }

  /** The outcome of a cache miss on a mesh: the generator partitions the
      mesh into `ms` over the buffers `vb` and `tb`; the miss succeeds
      exactly when the mesh is convertible, and then the new entry holds
      those meshlets, their decoded index buffer and one reference. */
  ghost predicate MissOutcome(tris: seq<int>, attrs: MeshAttributes, ms: seq<Meshlet>, vb: seq<int>, tb: seq<int>,
                              r: Option<CacheEntry>)
  {
    && MeshletGenerator.PartitionsMesh(tris, ms, vb, tb)
    && (r.Some? <==> Convertible(tris, |vb|, attrs))
    && (r.Some? ==>
          && r.value.meshlets == ms && r.value.indices == Reindex(ms, vb, tb)
          && Built(tris, attrs, r.value) && r.value.refCounter == 1)
  }

  /** The cache's invariant over its state: both maps have the same keys,
      every cached mesh is referenced at least once, entry identities are
      distinct, and every handle in use was allocated. */
  ghost predicate ValidState(cache: map<MeshId, CacheEntry>, refs: map<MeshId, ReferenceData>, next: nat, live: set<Handle>)
  {
    && cache.Keys == refs.Keys
    && (forall m :: m in cache ==> 1 <= cache[m].refCounter && cache[m].id < next)
    && (forall m, m' :: m in cache && m' in cache && cache[m].id == cache[m'].id ==> m == m')
    && (forall m, h :: m in refs && h in ArrayHandles(refs[m]) ==> h < next)
    && (forall h :: h in live ==> h < next)
  }

  /** Every cached mesh's count agrees with its instance lists. */
  ghost predicate AllBalanced(cache: map<MeshId, CacheEntry>, refs: map<MeshId, ReferenceData>)
  {
    forall m :: m in cache && m in refs ==> Balanced(cache[m], refs[m])
  }

  /** A cache hit keeps the invariant and the balance. */
  lemma AcquireHitValid(cache: map<MeshId, CacheEntry>, refs: map<MeshId, ReferenceData>, next: nat, live: set<Handle>,
                        mesh: MeshId, obj: ObjectId, tr: TransformId)
    requires ValidState(cache, refs, next, live) && mesh in cache
    ensures mesh in refs
    ensures ValidState(cache[mesh := cache[mesh].(refCounter := cache[mesh].refCounter + 1)],
                       refs[mesh := Register(refs[mesh], obj, tr)], next, live)
    ensures AllBalanced(cache, refs) ==>
              AllBalanced(cache[mesh := cache[mesh].(refCounter := cache[mesh].refCounter + 1)],
                          refs[mesh := Register(refs[mesh], obj, tr)])
  {
    assert ArrayHandles(Register(refs[mesh], obj, tr)) == ArrayHandles(refs[mesh]);
    if AllBalanced(cache, refs) {
      RegisterBalanced(cache[mesh], refs[mesh], obj, tr);
    }
  }

  /** A cache miss that allocates entry `e` keeps the invariant and the
      balance. */
  lemma AcquireMissValid(cache: map<MeshId, CacheEntry>, refs: map<MeshId, ReferenceData>, next: nat, live: set<Handle>,
                         mesh: MeshId, obj: ObjectId, tr: TransformId, e: CacheEntry, next': nat)
    requires ValidState(cache, refs, next, live) && mesh !in cache
    requires e.id == next && next' == next + 6 && e.refCounter == 1
    requires forall h :: h in Buffers(e) ==> next <= h < next'
    ensures ValidState(cache[mesh := e], refs[mesh := Register(EmptyReference, obj, tr)], next', live + Buffers(e))
    ensures Buffers(e) !! live
    ensures AllBalanced(cache, refs) ==> AllBalanced(cache[mesh := e], refs[mesh := Register(EmptyReference, obj, tr)])
  {
    assert ArrayHandles(Register(EmptyReference, obj, tr)) == {};
  }

  /** The last release of a mesh keeps the invariant and the balance. */
  lemma PurgeValid(cache: map<MeshId, CacheEntry>, refs: map<MeshId, ReferenceData>, next: nat, live: set<Handle>,
                   k: MeshId, live': set<Handle>)
    requires ValidState(cache, refs, next, live) && live' <= live
    ensures ValidState(cache - {k}, refs - {k}, next, live')
    ensures AllBalanced(cache, refs) ==> AllBalanced(cache - {k}, refs - {k})
  {
  }

  /** An update that keeps both key sets, every entry's identity and every
      reference's arrays, and leaves every count positive, keeps the
      invariant. */
  lemma SameShapeValid(cache: map<MeshId, CacheEntry>, refs: map<MeshId, ReferenceData>, next: nat, live: set<Handle>,
                       cache': map<MeshId, CacheEntry>, refs': map<MeshId, ReferenceData>)
    requires ValidState(cache, refs, next, live)
    requires cache'.Keys == cache.Keys && refs'.Keys == refs.Keys
    requires forall m :: m in cache' ==> cache'[m].id == cache[m].id && cache'[m].refCounter >= 1
    requires forall m :: m in refs' ==> ArrayHandles(refs'[m]) == ArrayHandles(refs[m])
    ensures ValidState(cache', refs', next, live)
  {
  }

  /** A release that is not the last keeps the invariant. */
  lemma DecrementValid(cache: map<MeshId, CacheEntry>, refs: map<MeshId, ReferenceData>, next: nat, live: set<Handle>,
                       k: MeshId, obj: ObjectId, tr: TransformId,
                       cache': map<MeshId, CacheEntry>, refs': map<MeshId, ReferenceData>)
    requires ValidState(cache, refs, next, live) && k in cache && cache[k].refCounter > 1
    requires cache' == cache[k := cache[k].(refCounter := cache[k].refCounter - 1)]
    requires k in refs && refs' == refs[k := Unregister(refs[k], obj, tr)]
    ensures ValidState(cache', refs', next, live)
  {
    assert cache'.Keys == cache.Keys;
    assert refs'.Keys == refs.Keys;
    assert ArrayHandles(refs'[k]) == ArrayHandles(refs[k]);
    SameShapeValid(cache, refs, next, live, cache', refs');
  }

  /** A release that is not the last keeps the balance when the released
      instance was registered. */
  lemma DecrementBalanced(cache: map<MeshId, CacheEntry>, refs: map<MeshId, ReferenceData>,
                          k: MeshId, obj: ObjectId, tr: TransformId,
                          cache': map<MeshId, CacheEntry>, refs': map<MeshId, ReferenceData>)
    requires k in cache && k in refs && cache[k].refCounter > 1
    requires cache' == cache[k := cache[k].(refCounter := cache[k].refCounter - 1)]
    requires refs' == refs[k := Unregister(refs[k], obj, tr)]
    ensures AllBalanced(cache, refs) && obj in refs[k].objects && tr in refs[k].transforms ==> AllBalanced(cache', refs')
  {
    if AllBalanced(cache, refs) && obj in refs[k].objects && tr in refs[k].transforms {
      ReleaseBalanced(cache[k], refs[k], obj, tr);
    }
  }

  /** Rebuilding one mesh's arrays keeps the invariant and the balance. */
  lemma RefreshValid(cache: map<MeshId, CacheEntry>, refs: map<MeshId, ReferenceData>, next: nat, live: set<Handle>,
                     m: MeshId, r': ReferenceData, next': nat, live': set<Handle>)
    requires ValidState(cache, refs, next, live) && m in refs && next <= next'
    requires r'.objects == refs[m].objects && r'.transforms == refs[m].transforms
    requires forall h :: h in ArrayHandles(r') ==> h < next'
    requires forall h :: h in live' ==> h < next'
    ensures ValidState(cache, refs[m := r'], next', live')
    ensures AllBalanced(cache, refs) ==> AllBalanced(cache, refs[m := r'])
  {
  }

  /** The meshes `done` have been rebuilt from `refs0` into `refs` and no
      other has changed; the handles freed and allocated since `next0` are
      accounted for in `live`. */
  ghost predicate Rebuilt(refs0: map<MeshId, ReferenceData>, live0: set<Handle>, next0: nat, done: set<MeshId>,
                          refs: map<MeshId, ReferenceData>, live: set<Handle>, next: nat)
  {
    && refs.Keys == refs0.Keys
    && (forall m :: m in refs ==> if m in done then Refreshed(refs0[m], refs[m]) else refs[m] == refs0[m])
    && next0 <= next
    && live == live0 - StaleIn(refs0, done) + Range(next0, next)
  }

  /** The rebuild loop's invariant: `done` and `pending` split the dirty
      set, the meshes `done` are rebuilt, and the cache invariant and
      balance hold of the state so far. */
  ghost predicate Rebuilding(cache: map<MeshId, CacheEntry>, refs0: map<MeshId, ReferenceData>, live0: set<Handle>,
                             next0: nat, dirty: set<MeshId>, pending: set<MeshId>, done: set<MeshId>,
                             refs: map<MeshId, ReferenceData>, live: set<Handle>, next: nat)
  {
    && ValidState(cache, refs0, next0, live0)
    && (forall m :: m in dirty && m in refs0 ==> |refs0[m].transforms| <= |refs0[m].objects|)
    && pending + done == dirty && pending !! done
    && Rebuilt(refs0, live0, next0, done, refs, live, next)
    && ValidState(cache, refs, next, live)
    && (AllBalanced(cache, refs0) ==> AllBalanced(cache, refs))
  }

  lemma RebuildStart(cache: map<MeshId, CacheEntry>, refs0: map<MeshId, ReferenceData>, next0: nat, live0: set<Handle>,
                     dirty: set<MeshId>)
    requires ValidState(cache, refs0, next0, live0)
    requires forall m :: m in dirty && m in refs0 ==> |refs0[m].transforms| <= |refs0[m].objects|
    ensures Rebuilding(cache, refs0, live0, next0, dirty, dirty, {}, refs0, live0, next0)
  {
    assert StaleIn(refs0, {}) == {};
    assert Range(next0, next0) == {};
  }

  lemma RebuildEnd(cache: map<MeshId, CacheEntry>, refs0: map<MeshId, ReferenceData>, live0: set<Handle>,
                   next0: nat, dirty: set<MeshId>, done: set<MeshId>,
                   refs: map<MeshId, ReferenceData>, live: set<Handle>, next: nat)
    requires Rebuilding(cache, refs0, live0, next0, dirty, {}, done, refs, live, next)
    ensures ValidState(cache, refs, next, live)
    ensures AllBalanced(cache, refs0) ==> AllBalanced(cache, refs)
    ensures Rebuilt(refs0, live0, next0, dirty, refs, live, next)
  {
    assert done == dirty;
  }

  /** The process-wide cache: entries and reference data keyed by source
      mesh, the reference data to rebuild at the end of the frame, and the
      live GPU and native resources. */
  class MeshletManager {
    var cacheDic: map<MeshId, CacheEntry>
    var referenceDic: map<MeshId, ReferenceData>
    var dirty: set<MeshId>
    var nextHandle: Handle
    ghost var live: set<Handle>

    ghost predicate Valid()
      reads this
    {
      ValidState(cacheDic, referenceDic, nextHandle, live)
    }

    ghost predicate Balance()
      reads this
    {
      AllBalanced(cacheDic, referenceDic)
    }

    constructor ()
      ensures Valid() && Balance()
      ensures cacheDic == map[] && referenceDic == map[] && dirty == {} && live == {}
    {
      cacheDic := map[];
      referenceDic := map[];
      dirty := {};
      nextHandle := 0;
      live := {};
    }

    /** Acquire the cache entry of `mesh` for instance `obj` with transform
        `tr`. A miss partitions the mesh, reindexes it and allocates the
        entry's resources; a hit reuses the entry. Either way the count goes
        up by one, the instance is registered and the reference data is
        marked dirty. The miss fails, changing nothing, exactly when the
        reindex pass meets an index outside the converted vertex arrays or
        past the end of one of the mesh's attribute lists. */
    method CreateMeshletCacheData(mesh: MeshId, tris: seq<int>, attrs: MeshAttributes, obj: ObjectId, tr: TransformId)
      returns (r: Option<CacheEntry>, ghost ms: seq<Meshlet>, ghost vb: seq<int>, ghost tb: seq<int>)
      requires Valid()
      modifies this
      ensures Valid()
      ensures old(Balance()) ==> Balance()
      ensures mesh in old(cacheDic) ==>
        && r == Some(old(cacheDic)[mesh].(refCounter := old(cacheDic)[mesh].refCounter + 1))
        && mesh in old(referenceDic)
        && referenceDic == old(referenceDic)[mesh := Register(old(referenceDic)[mesh], obj, tr)]
        && live == old(live)
      ensures mesh !in old(cacheDic) ==> MissOutcome(tris, attrs, ms, vb, tb, r)
      ensures mesh !in old(cacheDic) && r.Some? ==>
        && Buffers(r.value) !! old(live) && live == old(live) + Buffers(r.value)
        && referenceDic == old(referenceDic)[mesh := Register(EmptyReference, obj, tr)]
      ensures r.Some? ==> cacheDic == old(cacheDic)[mesh := r.value] && dirty == old(dirty) + {mesh}
      ensures r.None? ==>
        && mesh !in old(cacheDic)
        && cacheDic == old(cacheDic) && referenceDic == old(referenceDic)
        && dirty == old(dirty) && live == old(live)
    {
      if mesh in cacheDic {
        var e := AcquireHit(mesh, obj, tr);
        return Some(e), [], [], [];
      }
      var ok, meshlets, vertexBuffer, triangleBuffer, indices, vertices := BuildConvertedMesh(tris, attrs);
      ms, vb, tb := meshlets, vertexBuffer, triangleBuffer;
      if !ok {
        return None, ms, vb, tb;
      }
      var h := nextHandle;
      var e := CacheEntry(h, meshlets, |meshlets|, indices, vertices, h + 1, h + 2, h + 3, h + 4, h + 5, 0);
      e := e.(refCounter := e.refCounter + 1);
      AddEntry(mesh, e, obj, tr);
      r := Some(e);
    }

    /** The hit path of acquire: count the new reference and register the
        instance. */
    method AcquireHit(mesh: MeshId, obj: ObjectId, tr: TransformId) returns (e: CacheEntry)
      requires Valid() && mesh in cacheDic
      modifies this
      ensures Valid()
      ensures old(Balance()) ==> Balance()
      ensures e == old(cacheDic)[mesh].(refCounter := old(cacheDic)[mesh].refCounter + 1)
      ensures mesh in old(referenceDic)
      ensures cacheDic == old(cacheDic)[mesh := e]
      ensures referenceDic == old(referenceDic)[mesh := Register(old(referenceDic)[mesh], obj, tr)]
      ensures dirty == old(dirty) + {mesh} && live == old(live)
    {
      AcquireHitValid(cacheDic, referenceDic, nextHandle, live, mesh, obj, tr);
      e := cacheDic[mesh];
      e := e.(refCounter := e.refCounter + 1);
      cacheDic := cacheDic[mesh := e];
      referenceDic := referenceDic[mesh := Register(referenceDic[mesh], obj, tr)];
      dirty := dirty + {mesh};
    }

    /** The end of the miss path: store the new entry, allocate its
        resources, create its reference data (the two maps share their keys,
        so the mesh has none yet) and register the instance. */
    method AddEntry(mesh: MeshId, e: CacheEntry, obj: ObjectId, tr: TransformId)
      requires Valid() && mesh !in cacheDic
      requires e.id == nextHandle && e.refCounter == 1
      requires forall h :: h in Buffers(e) ==> nextHandle <= h < nextHandle + 6
      modifies this
      ensures Valid()
      ensures old(Balance()) ==> Balance()
      ensures Buffers(e) !! old(live) && live == old(live) + Buffers(e)
      ensures cacheDic == old(cacheDic)[mesh := e]
      ensures referenceDic == old(referenceDic)[mesh := Register(EmptyReference, obj, tr)]
      ensures dirty == old(dirty) + {mesh}
    {
      AcquireMissValid(cacheDic, referenceDic, nextHandle, live, mesh, obj, tr, e, nextHandle + 6);
      nextHandle := nextHandle + 6;
      live := live + Buffers(e);
      cacheDic := cacheDic[mesh := e];
      referenceDic := referenceDic[mesh := Register(EmptyReference, obj, tr)];
      dirty := dirty + {mesh};
    }

    /** Release instance `obj` (transform `tr`) from the entry whose identity
        is `id`. An unknown entry changes nothing. Otherwise the instance is
        removed and the count drops by one; the last release purges the mesh
        from both maps and frees its buffers and matrix array, any other
        release marks the reference data dirty. Other meshes are untouched. */
    method ReleaseMeshlet(id: Handle, obj: ObjectId, tr: TransformId) returns (key: Option<MeshId>)
      requires Valid()
      modifies this
      ensures Valid() && nextHandle == old(nextHandle)
      ensures key.None? <==> forall m :: m in old(cacheDic) ==> old(cacheDic)[m].id != id
      ensures key.None? ==>
        && cacheDic == old(cacheDic) && referenceDic == old(referenceDic)
        && dirty == old(dirty) && live == old(live)
      ensures key.Some? ==> key.value in old(cacheDic) && key.value in old(referenceDic) && old(cacheDic)[key.value].id == id
      ensures key.Some? ==>
                ((old(Balance()) && obj in old(referenceDic)[key.value].objects
                  && tr in old(referenceDic)[key.value].transforms) ==> Balance())
      ensures key.Some? && old(cacheDic)[key.value].refCounter == 1 ==>
        && cacheDic == old(cacheDic) - {key.value}
        && referenceDic == old(referenceDic) - {key.value}
        && dirty == old(dirty)
        && live == old(live) - Buffers(old(cacheDic)[key.value]) - ArrayHandle(old(referenceDic)[key.value].matrixArray)
      ensures key.Some? && old(cacheDic)[key.value].refCounter > 1 ==>
        && cacheDic == old(cacheDic)[key.value := old(cacheDic)[key.value].(refCounter := old(cacheDic)[key.value].refCounter - 1)]
        && referenceDic == old(referenceDic)[key.value := Unregister(old(referenceDic)[key.value], obj, tr)]
        && dirty == old(dirty) + {key.value}
        && live == old(live)
    {
      key := FindEntry(cacheDic, id);
      if key.None? {
        // The source logs an error and changes nothing.
        return;
      }
      var k := key.value;
      if cacheDic[k].refCounter - 1 <= 0 {
        Purge(k);
      } else {
        Decrement(k, obj, tr);
      }
    }

    /** The cached mesh whose entry has identity `id`, if any. */
    static method FindEntry(cache: map<MeshId, CacheEntry>, id: Handle) returns (key: Option<MeshId>)
      ensures key.None? <==> forall m :: m in cache ==> cache[m].id != id
      ensures key.Some? ==> key.value in cache && cache[key.value].id == id
    {
      if !exists m :: m in cache && cache[m].id == id {
        return None;
      }
      var k :| k in cache && cache[k].id == id;
      key := Some(k);
    }

    /** The last release of mesh `k`: free its matrix array and buffers and
        drop it from both maps. */
    method Purge(k: MeshId)
      requires Valid() && k in cacheDic
      modifies this
      ensures Valid() && nextHandle == old(nextHandle)
      ensures old(Balance()) ==> Balance()
      ensures k in old(referenceDic)
      ensures cacheDic == old(cacheDic) - {k} && referenceDic == old(referenceDic) - {k} && dirty == old(dirty)
      ensures live == old(live) - Buffers(old(cacheDic)[k]) - ArrayHandle(old(referenceDic)[k].matrixArray)
    {
      var live' := live - ArrayHandle(referenceDic[k].matrixArray) - Buffers(cacheDic[k]);
      PurgeValid(cacheDic, referenceDic, nextHandle, live, k, live');
      live := live';
      referenceDic := referenceDic - {k};
      cacheDic := cacheDic - {k};
    }

    /** A release of mesh `k` that is not the last: one reference fewer, the
        instance unregistered and the reference data marked dirty. */
    method Decrement(k: MeshId, obj: ObjectId, tr: TransformId)
      requires Valid() && k in cacheDic && cacheDic[k].refCounter > 1
      modifies this
      ensures Valid() && nextHandle == old(nextHandle) && live == old(live)
      ensures k in old(referenceDic)
      ensures old(Balance()) && obj in old(referenceDic)[k].objects && tr in old(referenceDic)[k].transforms ==> Balance()
      ensures cacheDic == old(cacheDic)[k := old(cacheDic)[k].(refCounter := old(cacheDic)[k].refCounter - 1)]
      ensures referenceDic == old(referenceDic)[k := Unregister(old(referenceDic)[k], obj, tr)]
      ensures dirty == old(dirty) + {k}
    {
      var e := cacheDic[k];
      var cache' := cacheDic[k := e.(refCounter := e.refCounter - 1)];
      assert k in referenceDic;
      var refs' := referenceDic[k := Unregister(referenceDic[k], obj, tr)];
      DecrementValid(cacheDic, referenceDic, nextHandle, live, k, obj, tr, cache', refs');
      DecrementBalanced(cacheDic, referenceDic, k, obj, tr, cache', refs');
      cacheDic, referenceDic, dirty := cache', refs', dirty + {k};
    }

    /** Release everything: free every entry's meshlet and culling buffers
        and converted mesh and every matrix array, and empty both maps and the
        dirty set. */
    method ReleaseAll()
      requires Valid()
      modifies this
      ensures Valid() && Balance()
      ensures cacheDic == map[] && referenceDic == map[] && dirty == {}
      ensures nextHandle == old(nextHandle)
      ensures live == old(live) - ReleaseAllDisposes(old(cacheDic), old(referenceDic))
    {
      live := live - ReleaseAllDisposes(cacheDic, referenceDic);
      dirty := {};
      cacheDic := map[];
      referenceDic := map[];
    }

    /** Rebuild one mesh's matrix and bounds arrays: an array whose length no
        longer matches the transform count is freed and reallocated from
        handle `next` on. */
    static method RefreshArrays(r: ReferenceData, next: Handle) returns (r': ReferenceData, next': Handle)
      requires |r.transforms| <= |r.objects|
      ensures Refreshed(r, r') && next <= next'
      ensures forall h :: h in ArrayHandles(r') ==> h in ArrayHandles(r) || next <= h < next'
    {
      var n := |r.transforms|;
      next' := next;
      // A stale array is freed; a missing one is allocated and filled.
      var matrixArray := r.matrixArray;
      if matrixArray.Created? && |matrixArray.items| != n {
        matrixArray := NotCreated;
      }
      if !matrixArray.Created? {
        matrixArray := Created(next', r.transforms);
        next' := next' + 1;
      }
      var boundArray := r.boundArray;
      if boundArray.Created? && |boundArray.items| != n {
        boundArray := NotCreated;
      }
      if !boundArray.Created? {
        boundArray := Created(next', r.objects[..|matrixArray.items|]);
        next' := next' + 1;
      }
      r' := r.(matrixArray := matrixArray, boundArray := boundArray);
    }

    /** The end-of-frame rebuild: every dirty mesh that still has reference
        data gets arrays matching its instance count, the rest is untouched,
        and the dirty set is emptied. */
    method LateUpdate()
      requires Valid()
      requires forall m :: m in dirty && m in referenceDic ==> |referenceDic[m].transforms| <= |referenceDic[m].objects|
      modifies this
      ensures Valid() && dirty == {} && cacheDic == old(cacheDic)
      ensures old(Balance()) ==> Balance()
      ensures Rebuilt(old(referenceDic), old(live), old(nextHandle), old(dirty), referenceDic, live, nextHandle)
    {
      var refs, next, lv := RebuildAll(cacheDic, referenceDic, nextHandle, live, dirty);
      referenceDic, nextHandle, live, dirty := refs, next, lv, {};
    }

    /** The rebuild loop over the dirty meshes, on the cache's state as
        values. */
    static method RebuildAll(cache: map<MeshId, CacheEntry>, refs0: map<MeshId, ReferenceData>, next0: Handle,
                             ghost live0: set<Handle>, dirty: set<MeshId>)
      returns (refs: map<MeshId, ReferenceData>, next: Handle, ghost lv: set<Handle>)
      requires ValidState(cache, refs0, next0, live0)
      requires forall m :: m in dirty && m in refs0 ==> |refs0[m].transforms| <= |refs0[m].objects|
      ensures ValidState(cache, refs, next, lv)
      ensures AllBalanced(cache, refs0) ==> AllBalanced(cache, refs)
      ensures Rebuilt(refs0, live0, next0, dirty, refs, lv, next)
    {
      refs, next, lv := refs0, next0, live0;
      var pending := dirty;
      ghost var done: set<MeshId> := {};
      RebuildStart(cache, refs0, next0, live0, dirty);
      while pending != {}
        invariant Rebuilding(cache, refs0, live0, next0, dirty, pending, done, refs, lv, next)
        decreases |pending|
      {
        pending, done, refs, lv, next := RebuildStep(cache, refs0, live0, next0, dirty, pending, done, refs, lv, next);
      }
      RebuildEnd(cache, refs0, live0, next0, dirty, done, refs, lv, next);
    }

    /** One step of the end-of-frame rebuild: take one pending mesh and
        rebuild its arrays; reference data already purged is skipped. */
    static method RebuildStep(cache: map<MeshId, CacheEntry>, ghost refs0: map<MeshId, ReferenceData>, ghost live0: set<Handle>,
                              ghost next0: Handle, ghost dirty: set<MeshId>, pending: set<MeshId>, ghost done: set<MeshId>,
                              refs: map<MeshId, ReferenceData>, ghost lv: set<Handle>, next: Handle)
      returns (pending': set<MeshId>, ghost done': set<MeshId>,
               refs': map<MeshId, ReferenceData>, ghost lv': set<Handle>, next': Handle)
      requires pending != {}
      requires Rebuilding(cache, refs0, live0, next0, dirty, pending, done, refs, lv, next)
      ensures Rebuilding(cache, refs0, live0, next0, dirty, pending', done', refs', lv', next')
      ensures |pending'| < |pending|
    {
      var m := Pick(pending);
      refs', lv', next' := refs, lv, next;
      if m in refs {
        var r';
        r', next' := RefreshArrays(refs[m], next);
        lv' := lv - Stale(refs[m]) + Range(next, next');
        RefreshValid(cache, refs, next, lv, m, r', next', lv');
        refs' := refs[m := r'];
      }
      LiveStep(refs0, done, m, live0, lv, lv', next0, next, next');
      pending', done' := pending - {m}, done + {m};
    }

    method GetOriginalMeshList() returns (meshes: set<MeshId>)
      ensures meshes == cacheDic.Keys
    {
      meshes := cacheDic.Keys;
    }

    /** The reference data of `mesh`; a mesh that is not cached has none (the
        source's dictionary lookup throws). */
    method GetMeshletReferenceData(mesh: MeshId) returns (r: Option<ReferenceData>)
      ensures r.Some? <==> mesh in referenceDic
      ensures r.Some? ==> r.value == referenceDic[mesh]
    {
      r := if mesh in referenceDic then Some(referenceDic[mesh]) else None;
    }

    /** The cache entry of `mesh`; a mesh that is not cached has none (the
        source's dictionary lookup throws). */
    method GetMeshletCacheData(mesh: MeshId) returns (r: Option<CacheEntry>)
      ensures r.Some? <==> mesh in cacheDic
      ensures r.Some? ==> r.value == cacheDic[mesh]
    {
      r := if mesh in cacheDic then Some(cacheDic[mesh]) else None;
    }
  }

  /** Bookkeeping of live handles across one step of the rebuild loop. */
  lemma LiveStep(refs0: map<MeshId, ReferenceData>, done: set<MeshId>, m: MeshId,
                 live0: set<Handle>, live1: set<Handle>, live2: set<Handle>, next0: nat, next1: nat, next2: nat)
    requires m !in done && next0 <= next1 <= next2
    requires forall m', h :: m' in refs0 && h in ArrayHandles(refs0[m']) ==> h < next0
    requires live1 == live0 - StaleIn(refs0, done) + Range(next0, next1)
    requires m in refs0 ==> live2 == live1 - Stale(refs0[m]) + Range(next1, next2)
    requires m !in refs0 ==> live2 == live1 && next2 == next1
    ensures live2 == live0 - StaleIn(refs0, done + {m}) + Range(next0, next2)
  {
    var s := if m in refs0 then Stale(refs0[m]) else {};
    if m in refs0 {
      StaleOwned(refs0[m]);
    }
    assert StaleIn(refs0, done + {m}) == StaleIn(refs0, done) + s;
    assert Range(next0, next2) == Range(next0, next1) + Range(next1, next2);
    assert forall h :: h in s ==> h < next0;
  }
}

# Meshlet pipeline model

This project models, in Dafny, the CPU side of a Unity meshlet renderer:

- **The current meshlet generator.** It partitions a triangle mesh into meshlets of at most 64 vertices and 126 triangles. It walks the triangle adjacency graph breadth first. Each meshlet stores its vertices once, in a shared vertex buffer, and its triangles as byte-sized local indices into that list.
- **The adjacency builder.** Two triangles are neighbours when they share an undirected edge.
- **The byte quantisation of cone data.**
- **The legacy generator.** Its meshlets hold global corner indices and a vertex set, with a 124-triangle budget.
- **The reference-counted meshlet cache.**
  - The first acquire of a mesh partitions it, reindexes the meshlets into a converted mesh and allocates the entry's GPU resources. Later acquires count references.
  - Releases unregister instances and free everything at the last reference.
  - A global release drops every entry.
  - An end-of-frame pass resizes the per-mesh matrix and bounds arrays of every mesh whose instance list changed.
- **The per-frame draw planning of the render pass.**
  - It decides which instances are uploaded, and how large the visible-meshlet buffer is.
  - It sets the indirect draw arguments and the culling dispatch size.
  - It disposes each recording's groups.

The generators and the cache are imperative in the source, and the model keeps that form:

- the `visited` array stays an `array<bool>`;
- queues and lists become sequences that the loops reassign;
- the reindex pass writes into arrays in place;
- the cache is a class whose two dictionaries, dirty set and handle counter are fields.

GPU buffers, native arrays and the converted mesh are opaque handles. A ghost set `live` holds the handles allocated and not yet disposed. Matrices, bounds and vertex attributes are opaque values.

The model keeps the source's leaks:

- the last release frees the matrix array but not the bounds array;
- the global release frees neither the vertex and index buffers of an entry nor any bounds array.

`live` shows each leak.

Files:

| file | contents |
|---|---|
| `mesh_model.dfy` | shared definitions: meshlet record, triangle corners, first-seen vertex lists, tiling of the flat buffers, decoding and reindexing |
| `adjacency.dfy` | edge keys, the edge-to-triangle map and the adjacency lists |
| `generator.dfy` | the current breadth-first partitioner |
| `legacy_generator.dfy` | the legacy partitioner |
| `quantize.dfy` | `PackFloatToByte` / `UnpackByteToFloat` |
| `meshlet_manager.dfy` | the reindex pass and the `MeshletManager` cache |
| `render_feature.dfy` | instance filtering, draw-group planning and per-frame release |

## Model

| member | source | states |
|---|---|---|
| MeshModel.TriangleAt | Assets/Rendering/Mesh/Scripts/Generator/MeshletGenerator.cs:64-66 | a triangle has three corners |
| MeshModel.Corners | Assets/Rendering/Mesh/Scripts/Generator/MeshletGenerator.cs:64-68 | the corners of triangles taken in a given order, three per triangle |
| MeshModel.CornerValues | Assets/Rendering/Mesh/Scripts/Generator/MeshletGenerator.cs:64-66 | listing every triangle exactly once uses exactly the vertex indices of the mesh's whole triangles |
| MeshModel.CornersAt | Assets/Rendering/Mesh/Scripts/Generator/MeshletGenerator.cs:64-66 | corner `j` of the `p`-th triangle taken is `triangles[3·order[p] + j]` |
| MeshModel.CornersAppend | Assets/Rendering/Mesh/Scripts/Generator/MeshletGenerator.cs:107-109 | the corners of two orders concatenated are the two corner lists concatenated |
| MeshModel.CornersFromMesh | Assets/Rendering/Mesh/Scripts/Generator/MeshletGenerator.cs:64-66 | every corner taken is an index of the mesh's triangle list |
| MeshModel.Dedup | Assets/Rendering/Mesh/Scripts/Generator/MeshletGenerator.cs:75-81 | a meshlet's vertex list holds exactly the corners' vertices, each once, and is no longer than the corner list |
| MeshModel.DedupPrefix | Assets/Rendering/Mesh/Scripts/Generator/MeshletGenerator.cs:75-81 | the vertex list of a shorter corner prefix is a prefix of the full one (first-seen order) |
| MeshModel.FlattenInRange | Assets/Rendering/Mesh/Scripts/Generator/MeshletGenerator.cs:48-110 | triangles placed meshlet by meshlet stay in range when concatenated |
| MeshModel.TotalsNonNegative | Assets/Rendering/Mesh/Scripts/Generator/MeshletGenerator.cs:100-105 | vertex and triangle totals of meshlets with non-negative counts are non-negative |
| MeshModel.PrefixTotals | Assets/Rendering/Mesh/Scripts/Generator/MeshletGenerator.cs:100-105 | the totals of earlier meshlets never exceed the totals of all |
| MeshModel.TiledInBounds | Assets/Rendering/Mesh/Scripts/Generator/MeshletGenerator.cs:100-109 | in contiguously tiled buffers every meshlet's vertex and triangle ranges lie inside the buffers |
| MeshModel.Decode | Assets/Rendering/Mesh/Scripts/Generator/MeshletGenerator.cs:84-86 | decoding local indices through a vertex list yields one vertex per local index |
| MeshModel.ReindexLength | Assets/Rendering/Mesh/Scripts/Generator/MeshletManager.cs:98-143 | the reindexed buffer has three indices per triangle of all meshlets, the length of the triangle buffer |
| MeshModel.ReindexRoundTrip | Assets/Rendering/Mesh/Scripts/Generator/MeshletManager.cs:100-143 | reindexing the emitted meshlets gives back the original corners of the triangles, in the order they were placed |
| MeshModel.MeshletCornerRoundTrip | Assets/Rendering/Mesh/Scripts/Generator/MeshletGenerator.cs:64-109 | for meshlet triangle `t` and corner `j` the local index is below `vertexCount`, and `vertexBuffer[vertexOffset + triangleBuffer[triangleOffset + 3t + j]]` is corner `j` of the triangle placed there |
| MeshModel.TiledAppend | Assets/Rendering/Mesh/Scripts/Generator/MeshletGenerator.cs:100-109 | a meshlet whose offsets are the current buffer lengths keeps the buffers tiled once its lists are appended |
| MeshModel.EncodesExtend | Assets/Rendering/Mesh/Scripts/Generator/MeshletGenerator.cs:107-109 | appending to the buffers keeps earlier meshlets decoding as before |
| MeshModel.EncodesEmitted | Assets/Rendering/Mesh/Scripts/Generator/MeshletGenerator.cs:100-109 | an emitted meshlet decodes to the corners of its triangles |
| MeshModel.CornersSnoc | Assets/Rendering/Mesh/Scripts/Generator/MeshletGenerator.cs:84-86 | taking one more triangle appends its three corners |
| Adjacency.MakeEdge | Assets/Rendering/Mesh/Scripts/Generator/MeshletGenerator.cs:118 | an edge key is ordered (min, max) and has the two given endpoints |
| Adjacency.MakeEdgeUndirected | Assets/Rendering/Mesh/Scripts/Generator/MeshletGenerator.cs:118 | an edge key does not depend on the order of its endpoints |
| Adjacency.EdgesOf | Assets/Rendering/Mesh/Scripts/Generator/MeshletGenerator.cs:126-131 | a triangle has three edge keys |
| Adjacency.TrianglesOn | Assets/Rendering/Mesh/Scripts/Generator/MeshletGenerator.cs:121-140 | the triangles filed under an edge are exactly those, among the first `upTo`, having that edge |
| Adjacency.LinkedIffBoth | Assets/Rendering/Mesh/Scripts/Generator/MeshletGenerator.cs:153-160 | the pair loop over an edge's triangle list links two distinct triangles iff both are on the list |
| Adjacency.LinkTriangles | Assets/Rendering/Mesh/Scripts/Generator/MeshletGenerator.cs:153-160 | after the pair loop `b` is in `adj[a]` iff it was before or the pair was linked; nothing else is added |
| Adjacency.FileTriangle | Assets/Rendering/Mesh/Scripts/Generator/MeshletGenerator.cs:133-139 | filing a triangle appends it under each of its edges and nowhere else; no filed list is empty |
| Adjacency.BuildEdgeMap | Assets/Rendering/Mesh/Scripts/Generator/MeshletGenerator.cs:120-140 | every edge maps to the triangles having it, in index order |
| Adjacency.LinkedViaAllEdges | Assets/Rendering/Mesh/Scripts/Generator/MeshletGenerator.cs:147-161 | over the whole edge map, two distinct triangles are linked iff they share an edge |
| Adjacency.LinkAllEdges | Assets/Rendering/Mesh/Scripts/Generator/MeshletGenerator.cs:147-161 | the adjacency loop links exactly the pairs sharing some filed edge, and links stay in range |
| Adjacency.BuildTriangleAdjacency | Assets/Rendering/Mesh/Scripts/Generator/MeshletGenerator.cs:114-164 | one list per triangle, entries in range, symmetric, and two distinct triangles are neighbours iff they share an undirected edge (an edge of one triangle links nothing) |
| MeshletGenerator.ToByte | Assets/Rendering/Mesh/Scripts/Generator/MeshletGenerator.cs:77 | the byte cast keeps every value in 0..255 unchanged |
| MeshletGenerator.MissingCount | Assets/Rendering/Mesh/Scripts/Generator/MeshletGenerator.cs:69 | the new-vertex count never exceeds the number of corners |
| MeshletGenerator.MissingPrefix | Assets/Rendering/Mesh/Scripts/Generator/MeshletGenerator.cs:69 | counting over a prefix of the corners gives no more than over all |
| MeshletGenerator.MissingStep | Assets/Rendering/Mesh/Scripts/Generator/MeshletGenerator.cs:69 | the count over one more corner adds one exactly when that corner is missing |
| MeshletGenerator.Unvisited | Assets/Rendering/Mesh/Scripts/Generator/MeshletGenerator.cs:42 | the number of unvisited triangles is at most the triangle count |
| MeshletGenerator.UnvisitedNone | Assets/Rendering/Mesh/Scripts/Generator/MeshletGenerator.cs:42 | at the start every triangle is unvisited |
| MeshletGenerator.UnvisitedAll | Assets/Rendering/Mesh/Scripts/Generator/MeshletGenerator.cs:88 | when every triangle is marked, none is unvisited |
| MeshletGenerator.UnvisitedMark | Assets/Rendering/Mesh/Scripts/Generator/MeshletGenerator.cs:88 | marking an unvisited triangle lowers the unvisited count by one (the queue loop's termination measure) |
| MeshletGenerator.LocalMapPush | Assets/Rendering/Mesh/Scripts/Generator/MeshletGenerator.cs:76-79 | a new vertex gets the next local index and keeps the map and the vertex list consistent |
| MeshletGenerator.DedupStep | Assets/Rendering/Mesh/Scripts/Generator/MeshletGenerator.cs:75-81 | one more corner extends the vertex list exactly when the corner is new |
| MeshletGenerator.AddCorners | Assets/Rendering/Mesh/Scripts/Generator/MeshletGenerator.cs:75-81 | adding a triangle's corners keeps the local map consistent, makes the vertex list the first-seen list of all corners so far, within 64 vertices, and maps every corner |
| MeshletGenerator.LocalTriangle | Assets/Rendering/Mesh/Scripts/Generator/MeshletGenerator.cs:84-86 | the local triangle's indices are valid positions in the meshlet's vertex list, and looking them up there gives back the triangle's three global corners |
| MeshletGenerator.LocalTriangleDecodes | Assets/Rendering/Mesh/Scripts/Generator/MeshletGenerator.cs:84-86 | appending the local triangle decodes to the old corners plus this triangle's |
| MeshletGenerator.LookupLocal | Assets/Rendering/Mesh/Scripts/Generator/MeshletGenerator.cs:84-86 | a mapped vertex's local index points back at it in the vertex list |
| MeshletGenerator.DecodeAppend | Assets/Rendering/Mesh/Scripts/Generator/MeshletGenerator.cs:84-86 | local indices appended to a growing vertex list decode to the old corners followed by the new |
| MeshletGenerator.AddTriangle | Assets/Rendering/Mesh/Scripts/Generator/MeshletGenerator.cs:75-86 | after adding a triangle the meshlet's local indices decode to exactly the corners taken so far, within 64 vertices |
| MeshletGenerator.TracksMark | Assets/Rendering/Mesh/Scripts/Generator/MeshletGenerator.cs:88 | marking a triangle visited records it as placed, once |
| MeshletGenerator.Take | Assets/Rendering/Mesh/Scripts/Generator/MeshletGenerator.cs:74-86 | taking a triangle that passed both budget checks keeps the meshlet under construction consistent |
| MeshletGenerator.Accept | Assets/Rendering/Mesh/Scripts/Generator/MeshletGenerator.cs:74-94 | an accepted triangle is appended to the meshlet and marked visited; the queue becomes the old queue followed by the triangle's unvisited neighbours in adjacency-list order |
| MeshletGenerator.QueueNeighbors | Assets/Rendering/Mesh/Scripts/Generator/MeshletGenerator.cs:90-94 | the queue becomes the old queue followed by exactly the neighbours not yet visited, in adjacency-list order, and stays in range |
| MeshletGenerator.UnvisitedNeighbors | Assets/Rendering/Mesh/Scripts/Generator/MeshletGenerator.cs:91-93 | a neighbour is queued iff it is in the adjacency list and not visited; every queued triangle is in range and unvisited |
| MeshletGenerator.GrowMeshlet | Assets/Rendering/Mesh/Scripts/Generator/MeshletGenerator.cs:56-95 | the walk from an unvisited seed places the seed first, marks exactly the triangles it takes, and builds a consistent meshlet within both budgets |
| MeshletGenerator.EmitKeepsEmitted | Assets/Rendering/Mesh/Scripts/Generator/MeshletGenerator.cs:97-109 | emitting a non-empty meshlet keeps all meshlets within budgets, tiled and decoding |
| MeshletGenerator.CoversStep | Assets/Rendering/Mesh/Scripts/Generator/MeshletGenerator.cs:48-50 | after seed `i` every triangle up to `i` is placed |
| MeshletGenerator.EmitMeshlet | Assets/Rendering/Mesh/Scripts/Generator/MeshletGenerator.cs:100-109 | the new meshlet's offsets are the buffer lengths and its lists are appended to the buffers |
| MeshletGenerator.EmittedPartitions | Assets/Rendering/Mesh/Scripts/Generator/MeshletGenerator.cs:42-110 | once every triangle is placed, the returned meshlets tile the buffers within both budgets and reindex to every triangle of the mesh exactly once |
| MeshletGenerator.ScanSeed | Assets/Rendering/Mesh/Scripts/Generator/MeshletGenerator.cs:48-110 | one seed step keeps every triangle so far placed exactly once and every meshlet valid |
| MeshletGenerator.Partition | Assets/Rendering/Mesh/Scripts/Generator/MeshletGenerator.cs:42-110 | from the returned values alone: the meshlets tile the buffers within both budgets and reindex to every triangle exactly once; and every triangle lands in exactly one meshlet; each meshlet has 1..126 triangles and at most 64 vertices, tiles the buffers and decodes to its triangles' corners |
| MeshletGenerator.GenerateMeshlets | Assets/Rendering/Mesh/Scripts/Generator/MeshletGenerator.cs:32-111 | the same, from the mesh's triangle list |
| LegacyMeshletGenerator.UnionBound | Assets/Rendering/Mesh/MeshletGenerator.cs:56-69 | adding corners grows the vertex set by at most the number counted as new |
| LegacyMeshletGenerator.CountNewVertices | Assets/Rendering/Mesh/MeshletGenerator.cs:56-59 | counts the corners missing from the vertex set (duplicates counted each time) |
| LegacyMeshletGenerator.LegacyAccept | Assets/Rendering/Mesh/MeshletGenerator.cs:66-79 | an accepted triangle's global corners are appended, its vertices added to the set, within 124 triangles and 64 vertices; the queue becomes the old queue followed by the unvisited neighbours in adjacency-list order |
| LegacyMeshletGenerator.LegacyTake | Assets/Rendering/Mesh/MeshletGenerator.cs:66-69 | appending a triangle that passed both budget checks leaves the meshlet holding exactly the corners of its triangles and their vertex set, within 124 triangles and 64 vertices |
| LegacyMeshletGenerator.AddVertices | Assets/Rendering/Mesh/MeshletGenerator.cs:68-69 | after the loop the vertex set is the old set plus every corner of the triangle |
| LegacyMeshletGenerator.HoldsSnoc | Assets/Rendering/Mesh/MeshletGenerator.cs:66-69 | appending a triangle's corners and adding them to the vertex set extends what the meshlet holds by that triangle, within both budgets |
| LegacyMeshletGenerator.LegacyGrow | Assets/Rendering/Mesh/MeshletGenerator.cs:39-80 | the walk from a seed places the seed first and builds a meshlet whose triangle list is its triangles' corners and whose vertex set is exactly their vertices |
| LegacyMeshletGenerator.LegacyScanSeed | Assets/Rendering/Mesh/MeshletGenerator.cs:28-84 | one seed step keeps every triangle so far placed once and every emitted meshlet non-empty and valid |
| LegacyMeshletGenerator.LegacyEmitKeeps | Assets/Rendering/Mesh/MeshletGenerator.cs:82-83 | adding a non-empty meshlet keeps every emitted meshlet holding its triangles within both budgets |
| LegacyMeshletGenerator.AllCornersFlatten | Assets/Rendering/Mesh/MeshletGenerator.cs:82-83 | the meshlets' corner lists, concatenated, are the corners of their triangles in placement order |
| LegacyMeshletGenerator.LegacyEmittedPartitions | Assets/Rendering/Mesh/MeshletGenerator.cs:25-86 | once every triangle is placed, the returned meshlets are non-empty, within both budgets, hold their corners' vertex sets, and together draw every triangle exactly once |
| LegacyMeshletGenerator.LegacyEmittedSound | Assets/Rendering/Mesh/MeshletGenerator.cs:82-83 | every emitted meshlet is non-empty, whole-triangle, within both budgets and holds its corners' vertex set |
| LegacyMeshletGenerator.LegacyPartition | Assets/Rendering/Mesh/MeshletGenerator.cs:25-86 | from the returned meshlets alone: they draw every triangle exactly once within both budgets; and every triangle lands in exactly one legacy meshlet; none is empty; each holds its triangles' corners in order, the set of their vertices, at most 124 triangles and 64 vertices |
| LegacyMeshletGenerator.LegacyGenerateMeshlets | Assets/Rendering/Mesh/MeshletGenerator.cs:17-87 | the same, from the mesh's triangle list |
| Quantize.RoundToInt | Assets/Rendering/Mesh/Scripts/Generator/MeshletGenerator.cs:169 | rounding is within half a unit of its input, and a tie goes to the even integer |
| Quantize.RoundInteger | Assets/Rendering/Mesh/Scripts/Generator/MeshletGenerator.cs:169 | an integer rounds to itself |
| Quantize.RoundMonotone | Assets/Rendering/Mesh/Scripts/Generator/MeshletGenerator.cs:169 | rounding never reverses order |
| Quantize.PackMonotone | Assets/Rendering/Mesh/Scripts/Generator/MeshletGenerator.cs:169 | packing is monotone non-decreasing (its result is a byte by type) |
| Quantize.PackUnpack | Assets/Rendering/Mesh/Scripts/Generator/MeshletGenerator.cs:169-170 | packing an unpacked byte gives the byte back |
| Quantize.UnpackPackError | Assets/Rendering/Mesh/Scripts/Generator/MeshletGenerator.cs:169-170 | for x in [-1, 1], unpacking the packed value is within 0.5/127 of x |
| MeshletCache.ReindexPrefix | Assets/Rendering/Mesh/Scripts/Generator/MeshletManager.cs:100-143 | the earlier meshlets' reindexed part is a prefix of the whole |
| MeshletCache.CornerInBounds | Assets/Rendering/Mesh/Scripts/Generator/MeshletManager.cs:103-113 | every triangle-buffer and vertex-buffer read of the reindex pass is in bounds, and reads the decoded corner |
| MeshletCache.ConvertedLength | Assets/Rendering/Mesh/Scripts/Generator/MeshletManager.cs:103 | the pass writes local corner `q` of a meshlet at `triangleOffset + q` |
| MeshletCache.ConvertedPrefix | Assets/Rendering/Mesh/Scripts/Generator/MeshletManager.cs:100-143 | what the pass has written so far is a prefix of the full reindexed buffer |
| MeshletCache.ConvertedStep | Assets/Rendering/Mesh/Scripts/Generator/MeshletManager.cs:111-113 | reaching the next corner appends the global vertex it names |
| MeshletCache.ConvertedEnds | Assets/Rendering/Mesh/Scripts/Generator/MeshletManager.cs:100-102 | a meshlet's pass starts after the earlier meshlets' part and ends with its own |
| MeshletCache.CornerReindexed | Assets/Rendering/Mesh/Scripts/Generator/MeshletManager.cs:111-113 | every global vertex the pass reads occurs in the reindexed buffer |
| MeshletCache.PlaceCorner | Assets/Rendering/Mesh/Scripts/Generator/MeshletManager.cs:115-141 | the write succeeds iff the global index fits the converted vertex array and all three of the mesh's attribute lists (positions, normals, tangents); then the vertex's attributes and the index are stored |
| MeshletCache.ReindexCorner | Assets/Rendering/Mesh/Scripts/Generator/MeshletManager.cs:106-141 | one corner extends the written prefix, or fails only when some reindexed index does not fit the vertex array or an attribute list |
| MeshletCache.PlaceTriangle | Assets/Rendering/Mesh/Scripts/Generator/MeshletManager.cs:102-142 | one triangle's three corners extend the written prefix, or fail only on an index that does not fit the vertex array or an attribute list |
| MeshletCache.ReindexMeshlet | Assets/Rendering/Mesh/Scripts/Generator/MeshletManager.cs:100-143 | one meshlet's triangles extend the written prefix to the reindexed buffer of the meshlets so far |
| MeshletCache.ConvertMesh | Assets/Rendering/Mesh/Scripts/Generator/MeshletManager.cs:95-143 | the pass succeeds iff every reindexed index fits the vertex array and all three attribute lists; then `indices` is the reindexed buffer and `vertices[v]` holds the attributes of vertex `v` for every used vertex and the default elsewhere |
| MeshletCache.BuildConvertedMesh | Assets/Rendering/Mesh/Scripts/Generator/MeshletManager.cs:88-147 | the meshlets partition the mesh; the build succeeds iff every vertex index of the mesh's whole triangles fits the vertex buffer's length and all three attribute lists; then the index buffer is the meshlets decoded in order, draws every triangle exactly once, and the vertex array holds exactly the used vertices' attributes |
| MeshletCache.RemoveFirst | Assets/Rendering/Mesh/Scripts/Generator/MeshletManager.cs:216-217 | removing the first occurrence shortens the list by one iff present and takes exactly one copy away |
| MeshletCache.RegisterBalanced | Assets/Rendering/Mesh/Scripts/Generator/MeshletManager.cs:176-179 | acquire keeps `refCounter` equal to both list lengths |
| MeshletCache.ReleaseBalanced | Assets/Rendering/Mesh/Scripts/Generator/MeshletManager.cs:216-218 | releasing a registered instance keeps `refCounter` equal to both list lengths |
| MeshletCache.ReleaseUnregisteredUnbalances | Assets/Rendering/Mesh/Scripts/Generator/MeshletManager.cs:216-218 | releasing an instance never registered breaks that equality: the count drops, the lists do not |
| MeshletCache.RefreshSettles | Assets/Rendering/Mesh/Scripts/Generator/MeshletManager.cs:45-66 | after a rebuild neither array is stale, both have the transform count's length, and a second rebuild changes nothing |
| MeshletCache.AcquireHitValid | Assets/Rendering/Mesh/Scripts/Generator/MeshletManager.cs:176-181 | a hit keeps the cache invariant (equal key sets, positive counts, distinct identities, allocated handles) and the balance |
| MeshletCache.AcquireMissValid | Assets/Rendering/Mesh/Scripts/Generator/MeshletManager.cs:168-181 | a miss with fresh handles keeps the invariant and the balance, and its buffers were not live |
| MeshletCache.PurgeValid | Assets/Rendering/Mesh/Scripts/Generator/MeshletManager.cs:220-232 | removing a mesh from both maps keeps the invariant and the balance |
| MeshletCache.SameShapeValid | Assets/Rendering/Mesh/Scripts/Generator/MeshletManager.cs:216-218 | an update keeping keys, identities and arrays, with positive counts, keeps the invariant |
| MeshletCache.DecrementValid | Assets/Rendering/Mesh/Scripts/Generator/MeshletManager.cs:216-218 | a release that is not the last keeps the invariant |
| MeshletCache.DecrementBalanced | Assets/Rendering/Mesh/Scripts/Generator/MeshletManager.cs:216-218 | a release that is not the last keeps the balance when the instance was registered |
| MeshletCache.RefreshValid | Assets/Rendering/Mesh/Scripts/Generator/MeshletManager.cs:45-66 | rebuilding one mesh's arrays with fresh handles keeps the invariant and the balance |
| MeshletCache.RebuildStart | Assets/Rendering/Mesh/Scripts/Generator/MeshletManager.cs:39-40 | before the rebuild loop nothing is done and nothing has changed |
| MeshletCache.RebuildEnd | Assets/Rendering/Mesh/Scripts/Generator/MeshletManager.cs:40-68 | when no mesh is pending every dirty mesh has been rebuilt |
| MeshletCache.LiveStep | Assets/Rendering/Mesh/Scripts/Generator/MeshletManager.cs:45-66 | across one rebuild step the live handles lose exactly the stale arrays of the meshes done and gain exactly the newly allocated ones |
| MeshletCache.MeshletManager.constructor | Assets/Rendering/Mesh/Scripts/Generator/MeshletManager.cs:33-36 | the cache starts empty, valid and balanced |
| MeshletCache.MeshletManager.CreateMeshletCacheData | Assets/Rendering/Mesh/Scripts/Generator/MeshletManager.cs:83-184 | a hit returns the same entry with the count up by exactly one and registers the instance; a miss partitions the mesh and succeeds iff every vertex index fits the vertex buffer's length and all three attribute lists; a successful miss builds the entry from those meshlets (one culling record per meshlet, an index buffer that is the meshlets decoded and draws every triangle once), allocates five fresh resources, starts the count at one; either way the mesh is marked dirty; a failed miss changes nothing |
| MeshletCache.MeshletManager.AcquireHit | Assets/Rendering/Mesh/Scripts/Generator/MeshletManager.cs:176-183 | the count goes up by one, the instance and its transform are appended, the mesh is dirty |
| MeshletCache.MeshletManager.AddEntry | Assets/Rendering/Mesh/Scripts/Generator/MeshletManager.cs:168-181 | the new entry and fresh reference data enter both maps together with the instance registered |
| MeshletCache.MeshletManager.ReleaseMeshlet | Assets/Rendering/Mesh/Scripts/Generator/MeshletManager.cs:212-239 | an unknown entry changes nothing; the last reference removes the mesh from both maps and frees its buffers, converted mesh and matrix array; an earlier one decrements, unregisters and marks dirty; other meshes are untouched |
| MeshletCache.MeshletManager.FindEntry | Assets/Rendering/Mesh/Scripts/Generator/MeshletManager.cs:213-215 | the lookup finds a mesh iff some cached entry has the given identity, and the mesh it finds has that identity |
| MeshletCache.MeshletManager.Purge | Assets/Rendering/Mesh/Scripts/Generator/MeshletManager.cs:220-232 | the mesh leaves both maps; its five resources and matrix array are no longer live |
| MeshletCache.MeshletManager.Decrement | Assets/Rendering/Mesh/Scripts/Generator/MeshletManager.cs:216-234 | the count drops by one, the instance and its transform are removed once, the mesh is dirty |
| MeshletCache.MeshletManager.ReleaseAll | Assets/Rendering/Mesh/Scripts/Generator/MeshletManager.cs:193-210 | both maps and the dirty set are empty, and exactly the meshlet, culling and converted-mesh resources and the matrix arrays are freed |
| MeshletCache.MeshletManager.RefreshArrays | Assets/Rendering/Mesh/Scripts/Generator/MeshletManager.cs:45-66 | each array is kept when its length matches the transform count, else replaced by a new one filled from the transforms (matrices) or instances (bounds); new handles come from the counter |
| MeshletCache.MeshletManager.LateUpdate | Assets/Rendering/Mesh/Scripts/Generator/MeshletManager.cs:38-70 | every dirty mesh's arrays are rebuilt, every other mesh is untouched, the stale arrays are freed, and the dirty set is empty |
| MeshletCache.MeshletManager.RebuildAll | Assets/Rendering/Mesh/Scripts/Generator/MeshletManager.cs:40-67 | the rebuild loop over the dirty set, with the same result on the cache's state as values |
| MeshletCache.MeshletManager.RebuildStep | Assets/Rendering/Mesh/Scripts/Generator/MeshletManager.cs:41-66 | one dirty mesh rebuilt (skipped once purged), keeping the loop invariant |
| MeshletCache.MeshletManager.GetOriginalMeshList | Assets/Rendering/Mesh/Scripts/Generator/MeshletManager.cs:72-74 | the cached meshes |
| MeshletCache.MeshletManager.GetMeshletReferenceData | Assets/Rendering/Mesh/Scripts/Generator/MeshletManager.cs:76-78 | the reference data of a cached mesh, none otherwise |
| MeshletCache.MeshletManager.GetMeshletCacheData | Assets/Rendering/Mesh/Scripts/Generator/MeshletManager.cs:80-82 | the cache entry of a cached mesh, none otherwise |
| MeshletRender.LiveIndicesSorted | Assets/Rendering/Mesh/Scripts/Renderer/MeshletRenderFeature.cs:116-124 | the positions the filter keeps are in range, live, strictly increasing, and include every live instance |
| MeshletRender.ModelBuffersIndexed | Assets/Rendering/Mesh/Scripts/Renderer/MeshletRenderFeature.cs:116-124 | the model list has one entry per live instance, built from that instance, in list order, and misses none |
| MeshletRender.ModelBuffersEmpty | Assets/Rendering/Mesh/Scripts/Renderer/MeshletRenderFeature.cs:116-127 | the model list is empty iff no instance is live |
| MeshletRender.FilterInstances | Assets/Rendering/Mesh/Scripts/Renderer/MeshletRenderFeature.cs:115-124 | the filter loop builds exactly the model list of the live instances |
| MeshletRender.ThreadGroups | Assets/Rendering/Mesh/Scripts/Renderer/MeshletRenderFeature.cs:157 | groups·64 covers every pair, one group fewer would not, and no pairs means no groups |
| MeshletRender.CopyCount | Assets/Rendering/Mesh/Scripts/Renderer/MeshletRenderFeature.cs:158 | the count copy at byte offset 4 overwrites argument 1 only |
| MeshletRender.ArgsAfterCopy | Assets/Rendering/Mesh/Scripts/Renderer/MeshletRenderFeature.cs:136-158 | the arguments drawn are [378, visible count, 0, 0, 0] |
| MeshletRender.ExecuteCullingGroup | Assets/Rendering/Mesh/Scripts/Renderer/MeshletRenderFeature.cs:114-161 | no group and no buffer iff no instance is live; otherwise three fresh buffers, the live instances' models, capacity `cullData.Count × models`, the initial arguments, the covering group count, and the first listed instance's material |
| MeshletRender.PlanStep | Assets/Rendering/Mesh/Scripts/Renderer/MeshletRenderFeature.cs:70-80 | one mesh: skipped without instances, no group when none is live, else its group appended |
| MeshletRender.PlanGroups | Assets/Rendering/Mesh/Scripts/Renderer/MeshletRenderFeature.cs:70-80 | exactly the cached meshes with a live instance get one group each, each on three consecutive fresh handles |
| MeshletRender.PlannedBound | Assets/Rendering/Mesh/Scripts/Renderer/MeshletRenderFeature.cs:70-80 | a plan over the cached meshes has at most one group per cached mesh |
| MeshletRender.FrameHandlesMember | Assets/Rendering/Mesh/Scripts/Renderer/MeshletRenderFeature.cs:104-108 | a buffer is among a list's buffers iff some group in it owns the buffer |
| MeshletRender.FrameHandlesAppend | Assets/Rendering/Mesh/Scripts/Renderer/MeshletRenderFeature.cs:78-79 | appending groups adds exactly their buffers |
| MeshletRender.GroupsBelow | Assets/Rendering/Mesh/Scripts/Renderer/MeshletRenderFeature.cs:129-136 | the planned groups' buffers are exactly the handles allocated while planning |
| MeshletRender.MeshletPass.constructor | Assets/Rendering/Mesh/Scripts/Renderer/MeshletRenderFeature.cs:39 | the per-frame list starts empty |
| MeshletRender.MeshletPass.CullAll | Assets/Rendering/Mesh/Scripts/Renderer/MeshletRenderFeature.cs:66-80 | a fresh camera buffer, then the planned groups appended to the list; the new buffers become live |
| MeshletRender.MeshletPass.ReleaseFrame | Assets/Rendering/Mesh/Scripts/Renderer/MeshletRenderFeature.cs:103-110 | every group's model, visibility and argument buffers and the camera buffer are disposed, and the list is empty |

## Left out

- `ComputeCompactCullData` (floating-point normals, cone angle and bounding sphere) is not modelled. A cache entry keeps only the number of culling records, one per meshlet.
- Quantize.PackFloatToByte and Quantize.UnpackByteToFloat work on real numbers. The rounding of the 32-bit float product `f * 127 + 128` is not modelled; `Mathf.RoundToInt`'s ties-to-even rounding is.
- Integer widths: 32-bit overflow of index and count arithmetic is not modelled (integers are unbounded). The byte cast of local indices is modelled and cannot truncate because of the 64-vertex budget.
- Vertex attributes: positions, normals and tangents are three lists of opaque values; a mesh without normals or tangents has an empty list there, so its miss fails like the source's out-of-range read. Matrices and bounds are opaque values too.
- The converted mesh's setup (`RecalculateBounds`, vertex layout, raw buffer targets, the 16-bit index format) and every GPU call (buffer creation, `SetData`, `Dispatch`, `CopyCount` on the GPU side, `DrawProceduralIndirect`, `DestroyImmediate`) are outside the model. A buffer is a handle drawn from a counter.
- The source throws an index exception when the reindex pass meets a global index outside the vertex arrays or an attribute list. The model returns `None` from `CreateMeshletCacheData`, with the state unchanged.
- Adjacency.LinkAllEdges: takes the edges in an order the model leaves open. The source follows the edge dictionary's enumeration order. So the order inside each adjacency list is not fixed, nor which triangles each meshlet receives; which triangles are linked is fixed.
- MeshletCache.MeshletManager.LateUpdate: requires each dirty mesh to have no more transforms than instances. The source reads the instance list at the transform list's positions (Assets/Rendering/Mesh/Scripts/Generator/MeshletManager.cs:63-64) and throws otherwise. The model also does not tie each transform to the instance it was registered with.
- MeshletCache.MeshletManager.GetMeshletReferenceData: returns none for a mesh that is not cached, where the source's dictionary lookup throws.
- MeshletCache.MeshletManager.GetMeshletCacheData: returns none for a mesh that is not cached, where the source's dictionary lookup throws.
- The source's dirty set holds reference-data objects. The model keys it by mesh, so a purged mesh's reference data that is still dirty is skipped by the rebuild. The source would allocate its arrays again, to be leaked.
- The fill loops of the array rebuild are modelled as the array contents (the transform list, and the instance list cut to the matrix array's length), not element by element.
- The empty-meshlet guards of both generators are unreachable: the seed triangle always fits. They are modelled by proving every meshlet non-empty.
- Both generator files carry the same `BuildTriangleAdjacency`; it is modelled once and used by both.
- `RecordRenderGraph` disposes the previous recording's groups at record time, while the culling pass runs later. They are modelled as two methods whose order the caller chooses.
- `GetMeshletObjectListFromOrignalMesh`, which the render feature calls, does not exist in the manager. The instance list is modelled as the mesh's reference data's instance list.
- Unity's "destroyed object equals null" is modelled as absence from the scene map. A destroyed first instance, whose material the source reads, is not modelled.
- `RenderMeshletGroup` (binding buffers and the indirect draw) is GPU-only and not modelled.
- A zero-length visibility buffer (a mesh with no meshlets) is rejected by Unity at creation; this is not modelled.
- MeshletRender.ThreadGroups: the source divides in 32-bit floating point before taking the ceiling; the model uses exact integer ceiling division, which differs only beyond 2^24 pairs.
- MeshletObject, the editor reload hook, the debugging and test scripts, the water passes and the camera controller are not part of this model.

/** The CPU side of the meshlet render pass: per frame, every cached mesh
    whose live instances are not all gone becomes one draw group (a model
    buffer with one entry per enabled instance, an append buffer for the
    visible meshlets, and an indirect-arguments buffer), and the groups of
    the previous recording are disposed. Matrices and GPU buffers are opaque;
    a buffer is a handle. */
module MeshletRender {
  import opened MeshModel
  import MeshletCache

  type Handle = MeshletCache.Handle
  type MeshId = MeshletCache.MeshId
  type ObjectId = MeshletCache.ObjectId

  /** An opaque matrix; `Product(a, b)` stands for the matrix product a·b. */
  datatype Matrix = Matrix(id: int) | Product(left: Matrix, right: Matrix)

  /** A scene object that still exists: whether its component is enabled,
      and its transform's local-to-world matrix. */
  datatype Instance = Instance(enabled: bool, localToWorld: Matrix)

  /** One entry of a group's model buffer. */
  datatype ModelBuffer = ModelBuffer(localToWorld: Matrix, mvp: Matrix)

  /** A planned draw group: its three per-frame buffers, the models it
      uploads, the visibility buffer's capacity, the indirect arguments, the
      culling dispatch size, the cache entry it draws, and the instance whose
      material it draws with. */
  datatype DrawGroup = DrawGroup(
    modelBuffer: Handle, visibilityBuffer: Handle, drawArgsBuffer: Handle,
    models: seq<ModelBuffer>, visibilityCapacity: nat, args: seq<nat>, threadGroups: nat,
    entry: MeshletCache.CacheEntry, materialFrom: ObjectId)

  /** Culling threads per thread group. */
  const THREADS_PER_GROUP: nat := 64

  /** Byte size of one argument and the byte offset the visible-meshlet count
      is copied to. */
  const UINT_SIZE: nat := 4
  const COUNT_OFFSET: nat := 4

  /** The indices drawn per instance of the indirect draw: one full meshlet. */
  const INDEX_COUNT_PER_INSTANCE: nat := MAX_TRIANGLES * 3

  /** An instance takes part in the frame when its object still exists (a
      destroyed object compares equal to null) and it is enabled. */
  predicate Live(scene: map<ObjectId, Instance>, o: ObjectId)
  {
    o in scene && scene[o].enabled
  }

  function ModelOf(inst: Instance, vp: Matrix): ModelBuffer
  {
    ModelBuffer(inst.localToWorld, Product(vp, inst.localToWorld))
  }

  /** The model buffer list built from an instance list, in list order. */
  function ModelBuffers(objs: seq<ObjectId>, scene: map<ObjectId, Instance>, vp: Matrix): seq<ModelBuffer>
    decreases |objs|
  {
    if objs == [] then []
    else
      var rest := ModelBuffers(objs[..|objs| - 1], scene, vp);
      var o := objs[|objs| - 1];
      if Live(scene, o) then rest + [ModelOf(scene[o], vp)] else rest
  }

  /** The positions of the live instances in the list, in increasing order. */
  function LiveIndices(objs: seq<ObjectId>, scene: map<ObjectId, Instance>): seq<nat>
    decreases |objs|
  {
    if objs == [] then []
    else
      var rest := LiveIndices(objs[..|objs| - 1], scene);
      if Live(scene, objs[|objs| - 1]) then rest + [|objs| - 1] else rest
  }

  /** The live positions are in range, live, strictly increasing, and
      include every live instance of the list. */
  lemma {:induction false} LiveIndicesSorted(objs: seq<ObjectId>, scene: map<ObjectId, Instance>)
    ensures |LiveIndices(objs, scene)| <= |objs|
    ensures forall j :: 0 <= j < |LiveIndices(objs, scene)| ==>
              LiveIndices(objs, scene)[j] < |objs| && Live(scene, objs[LiveIndices(objs, scene)[j]])
    ensures forall j, j' :: 0 <= j < j' < |LiveIndices(objs, scene)| ==>
              LiveIndices(objs, scene)[j] < LiveIndices(objs, scene)[j']
    ensures forall i :: 0 <= i < |objs| && Live(scene, objs[i]) ==> i in LiveIndices(objs, scene)
    decreases |objs|
  {
    if objs != [] {
      var n := |objs| - 1;
      var init := objs[..n];
      LiveIndicesSorted(init, scene);
      var li := LiveIndices(init, scene);
      var l := LiveIndices(objs, scene);
      assert l == if Live(scene, objs[n]) then li + [n] else li;
      forall j | 0 <= j < |li| ensures l[j] == li[j] && objs[li[j]] == init[li[j]] {
      }
      forall i | 0 <= i < |objs| && Live(scene, objs[i]) ensures i in l {
        if i < n {
          assert init[i] == objs[i];
          assert i in li;
        }
      }
    }
  }

  /** The model buffer list holds exactly one entry per live instance, taken
      in list order: entry `j` is built from the instance at the `j`-th live
      position, those positions increase, and no live instance is missed. */
  lemma {:induction false} ModelBuffersIndexed(objs: seq<ObjectId>, scene: map<ObjectId, Instance>, vp: Matrix)
    ensures |ModelBuffers(objs, scene, vp)| == |LiveIndices(objs, scene)| <= |objs|
    ensures forall j :: 0 <= j < |LiveIndices(objs, scene)| ==>
              && LiveIndices(objs, scene)[j] < |objs| && Live(scene, objs[LiveIndices(objs, scene)[j]])
              && ModelBuffers(objs, scene, vp)[j] == ModelOf(scene[objs[LiveIndices(objs, scene)[j]]], vp)
    ensures forall j, j' :: 0 <= j < j' < |LiveIndices(objs, scene)| ==>
              LiveIndices(objs, scene)[j] < LiveIndices(objs, scene)[j']
    ensures forall i :: 0 <= i < |objs| && Live(scene, objs[i]) ==> i in LiveIndices(objs, scene)
    decreases |objs|
  {
    LiveIndicesSorted(objs, scene);
    if objs != [] {
      var n := |objs| - 1;
      var init := objs[..n];
      ModelBuffersIndexed(init, scene, vp);
      var li, mi := LiveIndices(init, scene), ModelBuffers(init, scene, vp);
      var l, m := LiveIndices(objs, scene), ModelBuffers(objs, scene, vp);
      if Live(scene, objs[n]) {
        assert l == li + [n] && m == mi + [ModelOf(scene[objs[n]], vp)];
      } else {
        assert l == li && m == mi;
      }
      forall j | 0 <= j < |li| ensures l[j] == li[j] && m[j] == mi[j] && objs[li[j]] == init[li[j]] {
      }
    }
  }

  /** No model is uploaded exactly when no instance is live. */
  lemma {:induction false} ModelBuffersEmpty(objs: seq<ObjectId>, scene: map<ObjectId, Instance>, vp: Matrix)
    ensures ModelBuffers(objs, scene, vp) == [] <==> forall i :: 0 <= i < |objs| ==> !Live(scene, objs[i])
  {
    ModelBuffersIndexed(objs, scene, vp);
    if ModelBuffers(objs, scene, vp) != [] {
      var i := LiveIndices(objs, scene)[0];
      assert 0 <= i < |objs| && Live(scene, objs[i]);
    }
  }

  /** The filter loop: drop destroyed and disabled instances and build one
      model entry for each remaining one. */
  method FilterInstances(objs: seq<ObjectId>, scene: map<ObjectId, Instance>, vp: Matrix)
    returns (modelBufferList: seq<ModelBuffer>)
    ensures modelBufferList == ModelBuffers(objs, scene, vp)
  {
    modelBufferList := [];
    for i := 0 to |objs|
      invariant modelBufferList == ModelBuffers(objs[..i], scene, vp)
    {
      assert objs[..i + 1][..i] == objs[..i];
      var o := objs[i];
      if !(o in scene) || !scene[o].enabled {
        continue;
      }
      modelBufferList := modelBufferList + [ModelOf(scene[o], vp)];
    }
    assert objs[..|objs|] == objs;
  }

  /** The culling dispatch size: enough groups of 64 threads for every
      (meshlet, instance) pair, and no more. */
  function ThreadGroups(pairs: nat): (groups: nat)
    ensures groups * THREADS_PER_GROUP >= pairs
    ensures pairs > 0 ==> (groups - 1) * THREADS_PER_GROUP < pairs
    ensures groups == 0 <==> pairs == 0
  {
    (pairs + THREADS_PER_GROUP - 1) / THREADS_PER_GROUP
  }

  /** The indirect arguments as uploaded: index count per instance, instance
      count (filled in on the GPU), start index, base vertex, start instance. */
  function InitialArgs(): seq<nat>
  {
    [INDEX_COUNT_PER_INSTANCE, 0, 0, 0, 0]
  }

  /** The GPU copy of the visible-meshlet count into the arguments, at byte
      offset 4. */
  function CopyCount(args: seq<nat>, count: nat): (r: seq<nat>)
    requires |args| * UINT_SIZE > COUNT_OFFSET
    ensures |r| == |args| && r[1] == count
    ensures forall i :: 0 <= i < |args| && i != 1 ==> r[i] == args[i]
  {
    args[COUNT_OFFSET / UINT_SIZE := count]
  }

  /** After the count copy a group draws one full meshlet of indices per
      visible meshlet, from the start of its buffers. */
  lemma ArgsAfterCopy(count: nat)
    ensures |InitialArgs()| * UINT_SIZE > COUNT_OFFSET
    ensures CopyCount(InitialArgs(), count) == [378, count, 0, 0, 0]
  {
    assert INDEX_COUNT_PER_INSTANCE == 378;
  }

  /** `g` is the draw group planned for cache entry `entry` and instance
      list `objs`. */
  ghost predicate Drawn(entry: MeshletCache.CacheEntry, objs: seq<ObjectId>, scene: map<ObjectId, Instance>, vp: Matrix,
                        g: DrawGroup)
  {
    && objs != []
    && g.models == ModelBuffers(objs, scene, vp) && g.models != []
    && g.visibilityCapacity == entry.cullDataCount * |g.models|
    && g.args == InitialArgs()
    && g.threadGroups == ThreadGroups(g.visibilityCapacity)
    && g.entry == entry
    && g.materialFrom == objs[0]
  }

  /** The group's buffers are the three handles from `h` on. */
  ghost predicate AllocatedAt(g: DrawGroup, h: Handle)
  {
    g.modelBuffer == h && g.visibilityBuffer == h + 1 && g.drawArgsBuffer == h + 2
  }

  /** Plan one draw group. No group, and no buffer, when no instance is
      live; otherwise the three buffers are allocated from `next` on. */
  method ExecuteCullingGroup(entry: MeshletCache.CacheEntry, objs: seq<ObjectId>, scene: map<ObjectId, Instance>,
                             vp: Matrix, next: Handle)
    returns (r: MeshletCache.Option<DrawGroup>, next': Handle)
    ensures r.None? <==> forall i :: 0 <= i < |objs| ==> !Live(scene, objs[i])
    ensures r.None? ==> next' == next
    ensures r.Some? ==> Drawn(entry, objs, scene, vp, r.value) && AllocatedAt(r.value, next) && next' == next + 3
  {
    ModelBuffersEmpty(objs, scene, vp);
    var modelBufferList := FilterInstances(objs, scene, vp);
    if |modelBufferList| <= 0 {
      return MeshletCache.None, next;
    }
    ModelBuffersIndexed(objs, scene, vp);
    var capacity := entry.cullDataCount * |modelBufferList|;
    var g := DrawGroup(next, next + 1, next + 2, modelBufferList, capacity, InitialArgs(),
                       ThreadGroups(capacity), entry, objs[0]);
    r, next' := MeshletCache.Some(g), next + 3;
  }

  /** Mesh `m` gets a draw group: it has a non-empty instance list with at
      least one live instance. */
  ghost predicate Drawable(cache: map<MeshId, MeshletCache.CacheEntry>, refs: map<MeshId, MeshletCache.ReferenceData>,
                           scene: map<ObjectId, Instance>, vp: Matrix, m: MeshId)
  {
    m in cache && m in refs && |refs[m].objects| > 0 && ModelBuffers(refs[m].objects, scene, vp) != []
  }

  /** The groups planned for the meshes `done`, in the order `meshes`,
      allocated consecutively from `next0`. */
  ghost predicate PlannedFor(cache: map<MeshId, MeshletCache.CacheEntry>, refs: map<MeshId, MeshletCache.ReferenceData>,
                             scene: map<ObjectId, Instance>, vp: Matrix, next0: Handle, done: set<MeshId>,
                             groups: seq<DrawGroup>, meshes: seq<MeshId>, next: Handle)
  {
    && |groups| == |meshes| && next == next0 + 3 * |groups|
    && (forall i :: 0 <= i < |meshes| ==>
          && meshes[i] in done && meshes[i] in cache && meshes[i] in refs
          && Drawn(cache[meshes[i]], refs[meshes[i]].objects, scene, vp, groups[i])
          && AllocatedAt(groups[i], next0 + 3 * i))
    && (forall i, j :: 0 <= i < j < |meshes| ==> meshes[i] != meshes[j])
    && (forall m :: m in done && Drawable(cache, refs, scene, vp, m) ==> m in meshes)
  }

  /** One step of the per-mesh planning loop: a mesh without instances is
      skipped, a mesh whose instances are all gone yields no group. */
  method PlanStep(cache: map<MeshId, MeshletCache.CacheEntry>, refs: map<MeshId, MeshletCache.ReferenceData>,
                  scene: map<ObjectId, Instance>, vp: Matrix, ghost next0: Handle,
                  pending: set<MeshId>, ghost done: set<MeshId>, groups: seq<DrawGroup>, ghost meshes: seq<MeshId>, next: Handle)
    returns (pending': set<MeshId>, ghost done': set<MeshId>, groups': seq<DrawGroup>, ghost meshes': seq<MeshId>, next': Handle)
    requires pending != {} && pending <= cache.Keys && pending !! done
    requires PlannedFor(cache, refs, scene, vp, next0, done, groups, meshes, next)
    ensures pending' < pending && done' == done + (pending - pending') && pending' !! done'
    ensures PlannedFor(cache, refs, scene, vp, next0, done', groups', meshes', next')
  {
    var m := MeshletCache.Pick(pending);
    pending', done' := pending - {m}, done + {m};
    groups', meshes', next' := groups, meshes, next;
    if m !in refs || |refs[m].objects| <= 0 {
      return;
    }
    var r, next2 := ExecuteCullingGroup(cache[m], refs[m].objects, scene, vp, next);
    ModelBuffersEmpty(refs[m].objects, scene, vp);
    if r.Some? {
      groups', meshes', next' := groups + [r.value], meshes + [m], next2;
    }
  }

  /** The groups sit on consecutive handles, three each, from `next0` up to `next`. */
  ghost predicate Consecutive(groups: seq<DrawGroup>, next0: Handle, next: Handle)
  {
    && next == next0 + 3 * |groups|
    && forall i :: 0 <= i < |groups| ==> AllocatedAt(groups[i], next0 + 3 * i)
  }

  /** A list of distinct members of `s` is no longer than `s`. */
  lemma {:induction false} DistinctBound(ms: seq<MeshId>, s: set<MeshId>)
    requires forall i :: 0 <= i < |ms| ==> ms[i] in s
    requires forall i, j :: 0 <= i < j < |ms| ==> ms[i] != ms[j]
    ensures |ms| <= |s|
    decreases |ms|
  {
    if ms != [] {
      var last := ms[|ms| - 1];
      var init := ms[..|ms| - 1];
      forall i | 0 <= i < |init| ensures init[i] in s - {last} {
        assert init[i] == ms[i];
      }
      DistinctBound(init, s - {last});
    }
  }

  /** Plan a draw group for every cached mesh, as the culling pass does. */
  method PlanGroups(cache: map<MeshId, MeshletCache.CacheEntry>, refs: map<MeshId, MeshletCache.ReferenceData>,
                    scene: map<ObjectId, Instance>, vp: Matrix, next0: Handle)
    returns (groups: seq<DrawGroup>, ghost meshes: seq<MeshId>, next: Handle)
    ensures Consecutive(groups, next0, next)
    ensures PlannedFor(cache, refs, scene, vp, next0, cache.Keys, groups, meshes, next)
    ensures forall m :: m in meshes <==> Drawable(cache, refs, scene, vp, m)
  {
    groups, meshes, next := [], [], next0;
    var pending := cache.Keys;
    ghost var done: set<MeshId> := {};
    while pending != {}
      invariant pending + done == cache.Keys && pending !! done
      invariant PlannedFor(cache, refs, scene, vp, next0, done, groups, meshes, next)
      decreases pending
    {
      pending, done, groups, meshes, next := PlanStep(cache, refs, scene, vp, next0, pending, done, groups, meshes, next);
    }
    assert done == cache.Keys;
  }

  /** A plan over the cached meshes has at most one group per cached mesh. */
  lemma PlannedBound(cache: map<MeshId, MeshletCache.CacheEntry>, refs: map<MeshId, MeshletCache.ReferenceData>,
                     scene: map<ObjectId, Instance>, vp: Matrix, next0: Handle,
                     groups: seq<DrawGroup>, meshes: seq<MeshId>, next: Handle)
    requires PlannedFor(cache, refs, scene, vp, next0, cache.Keys, groups, meshes, next)
    ensures |groups| <= |cache.Keys|
  {
    DistinctBound(meshes, cache.Keys);
  }

  /** The three buffers of a group. */
  function GroupHandles(g: DrawGroup): set<Handle>
  {
    {g.modelBuffer, g.visibilityBuffer, g.drawArgsBuffer}
  }

  /** The buffers of every group in a list. */
  function FrameHandles(gs: seq<DrawGroup>): (r: set<Handle>)
    decreases |gs|
  {
    if gs == [] then {} else FrameHandles(gs[..|gs| - 1]) + GroupHandles(gs[|gs| - 1])
  }

  /** A buffer belongs to a list's frame handles exactly when one of its
      groups owns it. */
  lemma {:induction false} FrameHandlesMember(gs: seq<DrawGroup>, h: Handle)
    ensures h in FrameHandles(gs) <==> exists i :: 0 <= i < |gs| && h in GroupHandles(gs[i])
    decreases |gs|
  {
    if gs != [] {
      var init := gs[..|gs| - 1];
      FrameHandlesMember(init, h);
      if h in FrameHandles(init) {
        var i :| 0 <= i < |init| && h in GroupHandles(init[i]);
        assert gs[i] == init[i];
      }
      if exists i :: 0 <= i < |gs| && h in GroupHandles(gs[i]) {
        var i :| 0 <= i < |gs| && h in GroupHandles(gs[i]);
        if i < |init| {
          assert gs[i] == init[i];
        }
      }
    }
  }

  lemma FrameHandlesSnoc(gs: seq<DrawGroup>, g: DrawGroup)
    ensures FrameHandles(gs + [g]) == FrameHandles(gs) + GroupHandles(g)
  {
    assert (gs + [g])[..|gs|] == gs;
  }

  /** The pass: the draw groups recorded for the frame, the camera buffer,
      and the buffers still alive. */
  class MeshletPass {
    var drawList: seq<DrawGroup>
    var cameraBuffer: MeshletCache.Option<Handle>
    var nextHandle: Handle
    ghost var live: set<Handle>

    /** Every buffer the pass knows was allocated by it. */
    ghost predicate Valid()
      reads this
    {
      && (forall h :: h in live ==> h < nextHandle)
      && (forall h :: h in FrameHandles(drawList) ==> h < nextHandle)
      && (cameraBuffer.Some? ==> cameraBuffer.value < nextHandle)
    }

    constructor ()
      ensures Valid() && drawList == [] && cameraBuffer.None? && live == {}
    {
      drawList := [];
      cameraBuffer := MeshletCache.None;
      nextHandle := 0;
      live := {};
    }

    /** The culling pass: allocate the camera buffer, then plan one group per
        drawable cached mesh and append the groups to the frame's list. */
    method CullAll(manager: MeshletCache.MeshletManager, scene: map<ObjectId, Instance>, vp: Matrix)
      returns (ghost meshes: seq<MeshId>)
      requires Valid()
      modifies this
      ensures Valid()
      ensures cameraBuffer == MeshletCache.Some(old(nextHandle)) && old(nextHandle) !in old(live)
      ensures |drawList| == |old(drawList)| + |meshes| && drawList[..|old(drawList)|] == old(drawList)
      ensures PlannedFor(manager.cacheDic, manager.referenceDic, scene, vp, old(nextHandle) + 1, manager.cacheDic.Keys,
                         drawList[|old(drawList)|..], meshes, nextHandle)
      ensures forall m :: m in meshes <==> Drawable(manager.cacheDic, manager.referenceDic, scene, vp, m)
      ensures live == old(live) + MeshletCache.Range(old(nextHandle), nextHandle)
    {
      var camera := nextHandle;
      var groups, next;
      groups, meshes, next := PlanGroups(manager.cacheDic, manager.referenceDic, scene, vp, camera + 1);
      GroupsBelow(manager.cacheDic, manager.referenceDic, scene, vp, camera + 1, groups, meshes, next);
      FrameHandlesAppend(drawList, groups);
      assert (drawList + groups)[..|drawList|] == drawList;
      assert (drawList + groups)[|drawList|..] == groups;
      live := live + MeshletCache.Range(nextHandle, next);
      cameraBuffer := MeshletCache.Some(camera);
      drawList := drawList + groups;
      nextHandle := next;
    }

    /** The release at the end of recording: dispose every group's model,
        visibility and argument buffers and the camera buffer, and empty the
        list. */
    method ReleaseFrame()
      requires Valid()
      modifies this
      ensures Valid() && drawList == [] && cameraBuffer == old(cameraBuffer) && nextHandle == old(nextHandle)
      ensures live == old(live) - FrameHandles(old(drawList)) - CameraHandle(old(cameraBuffer))
    {
      var i := 0;
      while i < |drawList|
        invariant 0 <= i <= |drawList|
        invariant live == old(live) - FrameHandles(drawList[..i])
        invariant drawList == old(drawList) && cameraBuffer == old(cameraBuffer) && nextHandle == old(nextHandle)
      {
        FrameHandlesSnoc(drawList[..i], drawList[i]);
        assert drawList[..i + 1] == drawList[..i] + [drawList[i]];
        live := live - GroupHandles(drawList[i]);
        i := i + 1;
      }
      assert drawList[..|drawList|] == drawList;
      drawList := [];
      live := live - CameraHandle(cameraBuffer);
    }
  }

  function CameraHandle(b: MeshletCache.Option<Handle>): set<Handle>
  {
    if b.Some? then {b.value} else {}
  }

  /** Appending groups adds exactly their buffers. */
  lemma {:induction false} FrameHandlesAppend(gs: seq<DrawGroup>, more: seq<DrawGroup>)
    ensures FrameHandles(gs + more) == FrameHandles(gs) + FrameHandles(more)
    decreases |more|
  {
    if more == [] {
      assert gs + more == gs;
    } else {
      var init := more[..|more| - 1];
      FrameHandlesAppend(gs, init);
      assert gs + more == (gs + init) + [more[|more| - 1]];
      FrameHandlesSnoc(gs + init, more[|more| - 1]);
    }
  }

  /** Planned groups use only handles from the range they were allocated
      from. */
  lemma GroupsBelow(cache: map<MeshId, MeshletCache.CacheEntry>, refs: map<MeshId, MeshletCache.ReferenceData>,
                    scene: map<ObjectId, Instance>, vp: Matrix, next0: Handle, groups: seq<DrawGroup>,
                    meshes: seq<MeshId>, next: Handle)
    requires PlannedFor(cache, refs, scene, vp, next0, cache.Keys, groups, meshes, next)
    ensures next0 <= next
    ensures forall h: Handle :: h in FrameHandles(groups) <==> next0 <= h < next
  {
    forall h: Handle
      ensures h in FrameHandles(groups) <==> next0 <= h < next
    {
      FrameHandlesMember(groups, h);
      if next0 <= h < next {
        var i := (h - next0) / 3;
        assert 0 <= i < |groups| && AllocatedAt(groups[i], next0 + 3 * i);
        assert h in GroupHandles(groups[i]);
      }
    }
  }
}

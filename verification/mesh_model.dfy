/** Shared vocabulary of the meshlet pipeline: the meshlet descriptor, the flat
    per-mesh buffers, and the specification functions that the partitioners, the
    mesh cache and the draw planner are proved against. */
module MeshModel {

  /** Per-meshlet vertex budget. */
  const MAX_VERTICES: nat := 64
  /** Per-meshlet triangle budget of the current partitioner. */
  const MAX_TRIANGLES: nat := 126

  /** A meshlet descriptor. Both offsets index the flat per-mesh buffers:
      `triangleOffset` counts ints of the local triangle buffer, while
      `triangleCount` counts triangles (three ints each). */
  datatype Meshlet = Meshlet(vertexOffset: int, vertexCount: int, triangleOffset: int, triangleCount: int)

  /** Number of whole triangles in a flat index buffer (`triangles.Length / 3`). */
  function TriangleCount(tris: seq<int>): nat
  {
    |tris| / 3
  }

  /** The three corner vertex indices of triangle `t`. */
  function TriangleAt(tris: seq<int>, t: nat): (c: seq<int>)
    requires t < TriangleCount(tris)
    ensures |c| == 3
  {
    tris[3 * t .. 3 * t + 3]
  }

  ghost predicate InRange(order: seq<nat>, n: nat)
  {
    forall i :: 0 <= i < |order| ==> order[i] < n
  }

  ghost predicate Distinct<T>(s: seq<T>)
  {
    forall i, j :: 0 <= i < j < |s| ==> s[i] != s[j]
  }

  /** `order` lists every triangle of an `n`-triangle mesh exactly once. */
  ghost predicate IsTriangleOrder(order: seq<nat>, n: nat)
  {
    && |order| == n && InRange(order, n) && Distinct(order)
    && forall t :: 0 <= t < n ==> t in order
  }

  /** The corners of the triangles `order`, concatenated: the index buffer that
      draws those triangles in that order. */
  function Corners(tris: seq<int>, order: seq<nat>): (c: seq<int>)
    requires InRange(order, TriangleCount(tris))
    ensures |c| == 3 * |order|
  {
    if order == [] then [] else Corners(tris, order[..|order| - 1]) + TriangleAt(tris, order[|order| - 1])
  }

  lemma {:induction false} CornersAppend(tris: seq<int>, a: seq<nat>, b: seq<nat>)
    requires InRange(a, TriangleCount(tris)) && InRange(b, TriangleCount(tris))
    ensures InRange(a + b, TriangleCount(tris))
    ensures Corners(tris, a + b) == Corners(tris, a) + Corners(tris, b)
  {
    if b != [] {
      var b' := b[..|b| - 1];
      assert (a + b)[..|a + b| - 1] == a + b';
      assert (a + b)[|a + b| - 1] == b[|b| - 1];
      CornersAppend(tris, a, b');
      calc {
        Corners(tris, a + b);
        Corners(tris, a + b') + TriangleAt(tris, b[|b| - 1]);
        Corners(tris, a) + (Corners(tris, b') + TriangleAt(tris, b[|b| - 1]));
      }
    } else {
      assert a + b == a;
    }
  }

  /** Corner `j` of the `p`-th listed triangle sits at position `3p + j`. */
  lemma {:induction false} CornersAt(tris: seq<int>, order: seq<nat>, p: nat, j: nat)
    requires InRange(order, TriangleCount(tris))
    requires p < |order| && j < 3
    ensures Corners(tris, order)[3 * p + j] == tris[3 * order[p] + j]
  {
    var init := order[..|order| - 1];
    if p < |order| - 1 {
      CornersAt(tris, init, p, j);
    }
  }

  /** Every value of `Corners` is a vertex index of the mesh. */
  lemma {:induction false} CornersFromMesh(tris: seq<int>, order: seq<nat>)
    requires InRange(order, TriangleCount(tris))
    ensures forall v :: v in Corners(tris, order) ==> v in tris
  {
    if order != [] {
      CornersFromMesh(tris, order[..|order| - 1]);
      var t := order[|order| - 1];
      assert forall v :: v in TriangleAt(tris, t) ==> v in tris by {
        forall v | v in TriangleAt(tris, t) ensures v in tris {
          var i :| 0 <= i < 3 && TriangleAt(tris, t)[i] == v;
          assert tris[3 * t + i] == v;
        }
      }
    }
  }

  /** Listing every triangle once uses exactly the vertex indices of the
      mesh's whole triangles: a value is a corner iff some triangle has it. */
  lemma CornerValues(tris: seq<int>, order: seq<nat>)
    requires IsTriangleOrder(order, TriangleCount(tris))
    ensures forall x :: x in Corners(tris, order) <==> x in tris[..3 * TriangleCount(tris)]
  {
    var n := TriangleCount(tris);
    var c := Corners(tris, order);
    forall x | x in c ensures x in tris[..3 * n] {
      var k :| 0 <= k < |c| && c[k] == x;
      CornersAt(tris, order, k / 3, k % 3);
      assert tris[..3 * n][3 * order[k / 3] + k % 3] == x;
    }
    forall x | x in tris[..3 * n] ensures x in c {
      var i :| 0 <= i < 3 * n && tris[..3 * n][i] == x;
      var t := i / 3;
      assert t in order;
      var p :| 0 <= p < |order| && order[p] == t;
      CornersAt(tris, order, p, i % 3);
      assert c[3 * p + i % 3] == x;
    }
  }

  /** The distinct values of `s` in order of first appearance. */
  function Dedup(s: seq<int>): (d: seq<int>)
    ensures forall v :: v in d <==> v in s
    ensures Distinct(d)
    ensures |d| <= |s|
  {
    if s == [] then []
    else
      var d := Dedup(s[..|s| - 1]);
      if s[|s| - 1] in d then d else d + [s[|s| - 1]]
  }

  /** Appending values never reorders the vertices already listed: the
      vertex list of a prefix is a prefix of the vertex list of the whole. */
  lemma {:induction false} DedupPrefix(s: seq<int>, q: nat)
    requires q <= |s|
    ensures |Dedup(s[..q])| <= |Dedup(s)|
    ensures Dedup(s[..q]) == Dedup(s)[..|Dedup(s[..q])|]
  {
    if q < |s| {
      assert s[..|s| - 1][..q] == s[..q];
      DedupPrefix(s[..|s| - 1], q);
    } else {
      assert s[..q] == s;
    }
  }

  /** The triangles of each meshlet, concatenated in meshlet order. */
  function Flatten(parts: seq<seq<nat>>): (order: seq<nat>)
  {
    if parts == [] then [] else Flatten(parts[..|parts| - 1]) + parts[|parts| - 1]
  }

  lemma {:induction false} FlattenInRange(parts: seq<seq<nat>>, n: nat)
    requires forall k :: 0 <= k < |parts| ==> InRange(parts[k], n)
    ensures InRange(Flatten(parts), n)
  {
    if parts != [] {
      FlattenInRange(parts[..|parts| - 1], n);
    }
  }

  /** Sum of the vertex counts of `ms`. */
  function VertexTotal(ms: seq<Meshlet>): int
  {
    if ms == [] then 0 else VertexTotal(ms[..|ms| - 1]) + ms[|ms| - 1].vertexCount
  }

  /** Sum of the triangle counts of `ms`. */
  function TriangleTotal(ms: seq<Meshlet>): int
  {
    if ms == [] then 0 else TriangleTotal(ms[..|ms| - 1]) + ms[|ms| - 1].triangleCount
  }

  /** The meshlets tile the flat buffers contiguously and in order. */
  ghost predicate Tiled(ms: seq<Meshlet>, vb: seq<int>, tb: seq<int>)
  {
    && (forall k :: 0 <= k < |ms| ==>
          && ms[k].vertexCount >= 0 && ms[k].triangleCount >= 0
          && ms[k].vertexOffset == VertexTotal(ms[..k])
          && ms[k].triangleOffset == 3 * TriangleTotal(ms[..k]))
    && |vb| == VertexTotal(ms)
    && |tb| == 3 * TriangleTotal(ms)
  }

  ghost predicate InBounds(m: Meshlet, vbLen: nat, tbLen: nat)
  {
    && 0 <= m.vertexOffset && 0 <= m.vertexCount && m.vertexOffset + m.vertexCount <= vbLen
    && 0 <= m.triangleOffset && 0 <= m.triangleCount && m.triangleOffset + 3 * m.triangleCount <= tbLen
  }

  lemma {:induction false} TotalsNonNegative(ms: seq<Meshlet>)
    requires forall i :: 0 <= i < |ms| ==> ms[i].vertexCount >= 0 && ms[i].triangleCount >= 0
    ensures VertexTotal(ms) >= 0 && TriangleTotal(ms) >= 0
  {
    if ms != [] {
      TotalsNonNegative(ms[..|ms| - 1]);
    }
  }

  lemma {:induction false} PrefixTotals(ms: seq<Meshlet>, k: nat)
    requires k <= |ms|
    requires forall i :: 0 <= i < |ms| ==> ms[i].vertexCount >= 0 && ms[i].triangleCount >= 0
    ensures VertexTotal(ms[..k]) <= VertexTotal(ms)
    ensures TriangleTotal(ms[..k]) <= TriangleTotal(ms)
  {
    if k == |ms| {
      assert ms[..k] == ms;
    } else {
      var init := ms[..|ms| - 1];
      assert init[..k] == ms[..k];
      PrefixTotals(init, k);
    }
  }

  /** Tiling keeps every meshlet's ranges inside the buffers. */
  lemma TiledInBounds(ms: seq<Meshlet>, vb: seq<int>, tb: seq<int>)
    requires Tiled(ms, vb, tb)
    ensures forall k :: 0 <= k < |ms| ==> InBounds(ms[k], |vb|, |tb|)
  {
    forall k | 0 <= k < |ms| ensures InBounds(ms[k], |vb|, |tb|) {
      PrefixTotals(ms, k + 1);
      TotalsNonNegative(ms[..k]);
      assert ms[..k + 1][..k] == ms[..k];
      assert VertexTotal(ms[..k + 1]) == VertexTotal(ms[..k]) + ms[k].vertexCount;
      assert TriangleTotal(ms[..k + 1]) == TriangleTotal(ms[..k]) + ms[k].triangleCount;
    }
  }

  function VertexSlice(m: Meshlet, vb: seq<int>): seq<int>
    requires 0 <= m.vertexOffset && 0 <= m.vertexCount && m.vertexOffset + m.vertexCount <= |vb|
  {
    vb[m.vertexOffset .. m.vertexOffset + m.vertexCount]
  }

  function TriangleSlice(m: Meshlet, tb: seq<int>): seq<int>
    requires 0 <= m.triangleOffset && 0 <= m.triangleCount && m.triangleOffset + 3 * m.triangleCount <= |tb|
  {
    tb[m.triangleOffset .. m.triangleOffset + 3 * m.triangleCount]
  }

  /** Every meshlet-local index names a vertex of the meshlet. */
  ghost predicate LocalIndicesValid(verts: seq<int>, local: seq<int>)
  {
    forall q :: 0 <= q < |local| ==> 0 <= local[q] < |verts|
  }

  /** Map meshlet-local indices back to global vertex indices. */
  function Decode(verts: seq<int>, local: seq<int>): (r: seq<int>)
    requires LocalIndicesValid(verts, local)
    ensures |r| == |local|
  {
    seq(|local|, q requires 0 <= q < |local| => verts[local[q]])
  }

  /** Meshlet `m` holds exactly the triangles `part`: its vertex list is the
      distinct corners in first-seen order and its local triangle list decodes
      back to their corners. */
  ghost predicate Encodes(tris: seq<int>, m: Meshlet, vb: seq<int>, tb: seq<int>, part: seq<nat>)
  {
    && InBounds(m, |vb|, |tb|)
    && InRange(part, TriangleCount(tris))
    && m.triangleCount == |part|
    && VertexSlice(m, vb) == Dedup(Corners(tris, part))
    && LocalIndicesValid(VertexSlice(m, vb), TriangleSlice(m, tb))
    && Decode(VertexSlice(m, vb), TriangleSlice(m, tb)) == Corners(tris, part)
  }

  ghost predicate Decodable(ms: seq<Meshlet>, vb: seq<int>, tb: seq<int>)
  {
    forall k :: 0 <= k < |ms| ==>
      InBounds(ms[k], |vb|, |tb|) && LocalIndicesValid(VertexSlice(ms[k], vb), TriangleSlice(ms[k], tb))
  }

  /** The global index buffer rebuilt from the meshlet buffers, meshlet by
      meshlet: the reference definition of the cache's reindex pass. */
  function Reindex(ms: seq<Meshlet>, vb: seq<int>, tb: seq<int>): (r: seq<int>)
    requires Decodable(ms, vb, tb)
  {
    if ms == [] then []
    else
      var m := ms[|ms| - 1];
      Reindex(ms[..|ms| - 1], vb, tb) + Decode(VertexSlice(m, vb), TriangleSlice(m, tb))
  }

  /** Reindexing a tiled layout fills exactly the whole triangle buffer. */
  lemma {:induction false} ReindexLength(ms: seq<Meshlet>, vb: seq<int>, tb: seq<int>)
    requires Decodable(ms, vb, tb)
    ensures |Reindex(ms, vb, tb)| == 3 * TriangleTotal(ms)
  {
    if ms != [] {
      ReindexLength(ms[..|ms| - 1], vb, tb);
    }
  }

  /** Round trip: the buffers of meshlets that encode `parts` decode back to
      the original triangles, listed in meshlet order. */
  lemma {:induction false} ReindexRoundTrip(tris: seq<int>, ms: seq<Meshlet>, vb: seq<int>, tb: seq<int>, parts: seq<seq<nat>>)
    requires |parts| == |ms|
    requires forall k :: 0 <= k < |ms| ==> Encodes(tris, ms[k], vb, tb, parts[k])
    ensures Decodable(ms, vb, tb)
    ensures InRange(Flatten(parts), TriangleCount(tris))
    ensures Reindex(ms, vb, tb) == Corners(tris, Flatten(parts))
  {
    FlattenInRange(parts, TriangleCount(tris));
    if ms != [] {
      var n := |ms| - 1;
      forall k | 0 <= k < n ensures Encodes(tris, ms[..n][k], vb, tb, parts[..n][k]) {
        assert ms[..n][k] == ms[k] && parts[..n][k] == parts[k];
      }
      ReindexRoundTrip(tris, ms[..n], vb, tb, parts[..n]);
      assert Encodes(tris, ms[n], vb, tb, parts[n]);
      FlattenInRange(parts[..n], TriangleCount(tris));
      CornersAppend(tris, Flatten(parts[..n]), parts[n]);
      assert Reindex(ms, vb, tb) == Reindex(ms[..n], vb, tb) + Decode(VertexSlice(ms[n], vb), TriangleSlice(ms[n], tb));
    }
  }

  /** Pointwise round trip: corner `j` of the `t`-th triangle of meshlet `m`,
      looked up through the local triangle buffer and the vertex buffer, is
      corner `j` of the original triangle placed there. */
  lemma MeshletCornerRoundTrip(tris: seq<int>, m: Meshlet, vb: seq<int>, tb: seq<int>, part: seq<nat>, t: nat, j: nat)
    requires Encodes(tris, m, vb, tb, part)
    requires t < m.triangleCount && j < 3
    ensures 0 <= tb[m.triangleOffset + 3 * t + j] < m.vertexCount
    ensures vb[m.vertexOffset + tb[m.triangleOffset + 3 * t + j]] == tris[3 * part[t] + j]
  {
    var q := 3 * t + j;
    assert TriangleSlice(m, tb)[q] == tb[m.triangleOffset + q];
    assert Decode(VertexSlice(m, vb), TriangleSlice(m, tb))[q] == Corners(tris, part)[q];
    CornersAt(tris, part, t, j);
  }

  /** Appending a meshlet whose offsets are the current buffer sizes keeps
      the tiling. */
  lemma TiledAppend(ms: seq<Meshlet>, vb: seq<int>, tb: seq<int>, vl: seq<int>, ti: seq<int>, tc: nat)
    requires Tiled(ms, vb, tb)
    requires |ti| == 3 * tc
    ensures Tiled(ms + [Meshlet(|vb|, |vl|, |tb|, tc)], vb + vl, tb + ti)
  {
    var m := Meshlet(|vb|, |vl|, |tb|, tc);
    var ms' := ms + [m];
    assert ms'[..|ms|] == ms;
    forall k | 0 <= k < |ms| ensures ms'[..k] == ms[..k] {
    }
  }

  /** A meshlet's encoding only reads its own ranges of the buffers. */
  lemma EncodesExtend(tris: seq<int>, m: Meshlet, vb: seq<int>, tb: seq<int>, x: seq<int>, y: seq<int>, part: seq<nat>)
    requires Encodes(tris, m, vb, tb, part)
    ensures Encodes(tris, m, vb + x, tb + y, part)
  {
    assert VertexSlice(m, vb + x) == VertexSlice(m, vb);
    assert TriangleSlice(m, tb + y) == TriangleSlice(m, tb);
  }

  /** The meshlet emitted from a finished local vertex list and local
      triangle list encodes the triangles it grew. */
  lemma EncodesEmitted(tris: seq<int>, vb: seq<int>, tb: seq<int>, vl: seq<int>, ti: seq<int>, cur: seq<nat>)
    requires InRange(cur, TriangleCount(tris))
    requires |ti| == 3 * |cur|
    requires vl == Dedup(Corners(tris, cur))
    requires LocalIndicesValid(vl, ti) && Decode(vl, ti) == Corners(tris, cur)
    ensures Encodes(tris, Meshlet(|vb|, |vl|, |tb|, |cur|), vb + vl, tb + ti, cur)
  {
    var m := Meshlet(|vb|, |vl|, |tb|, |cur|);
    SliceOfAppend(vb, vl);
    SliceOfAppend(tb, ti);
    assert VertexSlice(m, vb + vl) == vl;
    assert TriangleSlice(m, tb + ti) == ti;
  }

  /** The appended part of `a + b` is `b`. */
  lemma SliceOfAppend(a: seq<int>, b: seq<int>)
    ensures (a + b)[|a| .. |a| + |b|] == b
  {
  }

  /** Adding one triangle at the end adds its three corners at the end. */
  lemma CornersSnoc(tris: seq<int>, order: seq<nat>, t: nat)
    requires InRange(order, TriangleCount(tris)) && t < TriangleCount(tris)
    ensures InRange(order + [t], TriangleCount(tris))
    ensures Corners(tris, order + [t]) == Corners(tris, order) + TriangleAt(tris, t)
  {
    assert (order + [t])[..|order|] == order;
  }
}

/*
 * MeshData.Combine (ModelCreator/BaseMeshCreator.cs): several meshes merged
 * into one, vertices and uvs concatenated and every mesh's triangle indices
 * shifted by the number of vertices of the meshes before it.
 */
module Mesh {
  import opened Geometry

  /** The vertex, uv and triangle-index arrays of a mesh. */
  datatype MeshData = MeshData(vertices: seq<Vec3>, uv: seq<Vec2>, triangles: seq<int>)

  /** Every index moved by `offset`. */
  function Shifted(ts: seq<int>, offset: int): seq<int>
  {
    seq(|ts|, k requires 0 <= k < |ts| => ts[k] + offset)
  }

  /** Combine reads uv[j] for every vertex j, so each mesh needs at least as many uvs as vertices. */
  predicate UVCovers(ms: seq<MeshData>)
  {
    forall i :: 0 <= i < |ms| ==> |ms[i].uv| >= |ms[i].vertices|
  }

  /** Every triangle index of the mesh names one of its vertices. */
  predicate IndicesInBounds(m: MeshData)
  {
    forall k :: 0 <= k < |m.triangles| ==> 0 <= m.triangles[k] < |m.vertices|
  }

  /** The merged mesh, one input at a time. */
  function Combined(ms: seq<MeshData>): MeshData
    requires UVCovers(ms)
  {
    if ms == [] then MeshData([], [], [])
    else
      var front := Combined(ms[..|ms| - 1]);
      var m := ms[|ms| - 1];
      MeshData(front.vertices + m.vertices, front.uv + m.uv[..|m.vertices|],
               front.triangles + Shifted(m.triangles, |front.vertices|))
  }

  function TotalVertices(ms: seq<MeshData>): nat
  {
    if ms == [] then 0 else TotalVertices(ms[..|ms| - 1]) + |ms[|ms| - 1].vertices|
  }

  function TotalTriangles(ms: seq<MeshData>): nat
  {
    if ms == [] then 0 else TotalTriangles(ms[..|ms| - 1]) + |ms[|ms| - 1].triangles|
  }

  /**
   * Combine: for each mesh its shifted triangle indices, then its vertices
   * with their uvs. A mesh with fewer uvs than vertices makes uv[j] throw.
   */
  method Combine(ms: seq<MeshData>) returns (r: Option<MeshData>)
    ensures r.None? <==> !UVCovers(ms)
    ensures r.Some? ==> r.value == Combined(ms)
  {
    var vertices: seq<Vec3> := [];
    var uv: seq<Vec2> := [];
    var triangles: seq<int> := [];
    var i := 0;
    while i < |ms|
      invariant 0 <= i <= |ms|
      invariant UVCovers(ms[..i])
      invariant MeshData(vertices, uv, triangles) == Combined(ms[..i])
    {
      var m := ms[i];
      triangles := AppendShifted(triangles, m.triangles, |vertices|);
      var ok;
      ok, vertices, uv := AppendVertices(vertices, uv, m);
      if !ok {
        return None;
      }
      CombinedStep(ms, i);
      i := i + 1;
    }
    assert ms[..i] == ms;
    r := Some(MeshData(vertices, uv, triangles));
  }

  /** The triangle loop of one mesh: its indices shifted by the vertices already merged. */
  method AppendShifted(triangles: seq<int>, ts: seq<int>, base: int) returns (out: seq<int>)
    ensures out == triangles + Shifted(ts, base)
  {
    out := triangles;
    var j := 0;
    while j < |ts|
      invariant 0 <= j <= |ts|
      invariant out == triangles + Shifted(ts, base)[..j]
    {
      assert Shifted(ts, base)[..j + 1] == Shifted(ts, base)[..j] + [ts[j] + base];
      out := out + [ts[j] + base];
      j := j + 1;
    }
    assert Shifted(ts, base)[..j] == Shifted(ts, base);
  }

  /** The vertex loop of one mesh: each vertex with its uv; a missing uv throws. */
  method AppendVertices(vertices: seq<Vec3>, uv: seq<Vec2>, m: MeshData)
    returns (ok: bool, vs: seq<Vec3>, us: seq<Vec2>)
    ensures ok <==> |m.uv| >= |m.vertices|
    ensures ok ==> vs == vertices + m.vertices && us == uv + m.uv[..|m.vertices|]
  {
    vs, us := vertices, uv;
    var j := 0;
    while j < |m.vertices|
      invariant 0 <= j <= |m.vertices| && |m.uv| >= j
      invariant vs == vertices + m.vertices[..j] && us == uv + m.uv[..j]
    {
      if j >= |m.uv| {
        return false, vs, us;
      }
      assert m.vertices[..j + 1] == m.vertices[..j] + [m.vertices[j]];
      assert m.uv[..j + 1] == m.uv[..j] + [m.uv[j]];
      vs, us := vs + [m.vertices[j]], us + [m.uv[j]];
      j := j + 1;
    }
    assert m.vertices[..j] == m.vertices;
    ok := true;
  }

  /** The merge of the first i + 1 meshes extends the merge of the first i by mesh i. */
  lemma CombinedStep(ms: seq<MeshData>, i: int)
    requires 0 <= i < |ms| && UVCovers(ms[..i]) && |ms[i].uv| >= |ms[i].vertices|
    ensures UVCovers(ms[..i + 1])
    ensures var f, m := Combined(ms[..i]), ms[i];
      Combined(ms[..i + 1]) == MeshData(f.vertices + m.vertices, f.uv + m.uv[..|m.vertices|],
                                        f.triangles + Shifted(m.triangles, |f.vertices|))
  {
    assert ms[..i + 1][..i] == ms[..i];
    assert UVCovers(ms[..i + 1]);
  }

  /** The merged mesh has every input's vertices and one uv per vertex, and every input's indices. */
  lemma {:induction false} CombinedSizes(ms: seq<MeshData>)
    requires UVCovers(ms)
    ensures |Combined(ms).vertices| == |Combined(ms).uv| == TotalVertices(ms)
    ensures |Combined(ms).triangles| == TotalTriangles(ms)
    decreases |ms|
  {
    if ms != [] {
      CombinedSizes(ms[..|ms| - 1]);
    }
  }

  /** Indices that were in bounds in their own mesh stay in bounds in the merged one. */
  lemma {:induction false} CombinedInBounds(ms: seq<MeshData>)
    requires UVCovers(ms)
    requires forall i :: 0 <= i < |ms| ==> IndicesInBounds(ms[i])
    ensures IndicesInBounds(Combined(ms))
    decreases |ms|
  {
    if ms != [] {
      var front := ms[..|ms| - 1];
      var m := ms[|ms| - 1];
      CombinedInBounds(front);
      var c := Combined(ms);
      var f := Combined(front);
      forall k | 0 <= k < |c.triangles|
        ensures 0 <= c.triangles[k] < |c.vertices|
      {
        if k >= |f.triangles| {
          assert c.triangles[k] == m.triangles[k - |f.triangles|] + |f.vertices|;
        } else {
          assert c.triangles[k] == f.triangles[k];
        }
      }
    }
  }

  /** Merging one mesh keeps its vertices and indices and trims its uvs to one per vertex. */
  lemma CombinedSingleton(m: MeshData)
    requires |m.uv| >= |m.vertices|
    ensures UVCovers([m])
    ensures Combined([m]) == MeshData(m.vertices, m.uv[..|m.vertices|], m.triangles)
  {
    assert [m][..0] == [];
    assert Shifted(m.triangles, 0) == m.triangles;
  }

  /** Shifting twice is shifting by the sum. */
  lemma ShiftedTwice(ts: seq<int>, a: int, b: int)
    ensures Shifted(Shifted(ts, a), b) == Shifted(ts, a + b)
  {
  }

  /** Shifting distributes over concatenation. */
  lemma ShiftedConcat(s: seq<int>, t: seq<int>, a: int)
    ensures Shifted(s + t, a) == Shifted(s, a) + Shifted(t, a)
  {
  }

  lemma UVCoversConcat(a: seq<MeshData>, b: seq<MeshData>)
    requires UVCovers(a) && UVCovers(b)
    ensures UVCovers(a + b)
  {
    forall i | 0 <= i < |a + b|
      ensures |(a + b)[i].uv| >= |(a + b)[i].vertices|
    {
      if i >= |a| {
        assert (a + b)[i] == b[i - |a|];
      }
    }
  }

  /**
   * Merging is associative: merging a + b is merging a, then appending the
   * merge of b with its indices shifted past a's vertices.
   */
  lemma CombinedConcat(a: seq<MeshData>, b: seq<MeshData>)
    requires UVCovers(a) && UVCovers(b)
    ensures UVCovers(a + b)
    ensures Combined(a + b).vertices == Combined(a).vertices + Combined(b).vertices
    ensures Combined(a + b).uv == Combined(a).uv + Combined(b).uv
    ensures Combined(a + b).triangles == Combined(a).triangles + Shifted(Combined(b).triangles, |Combined(a).vertices|)
  {
    UVCoversConcat(a, b);
    ConcatVertices(a, b);
    ConcatUV(a, b);
    ConcatTriangles(a, b);
  }

  /** Dropping the last mesh of a + b, for non-empty b, is dropping the last mesh of b. */
  lemma ConcatFront(a: seq<MeshData>, b: seq<MeshData>)
    requires b != []
    ensures (a + b)[..|a + b| - 1] == a + b[..|b| - 1]
    ensures (a + b)[|a + b| - 1] == b[|b| - 1]
  {
  }

  lemma {:induction false} ConcatVertices(a: seq<MeshData>, b: seq<MeshData>)
    requires UVCovers(a) && UVCovers(b) && UVCovers(a + b)
    ensures Combined(a + b).vertices == Combined(a).vertices + Combined(b).vertices
    decreases |b|
  {
    if b == [] {
      assert a + b == a;
    } else {
      var bf := b[..|b| - 1];
      ConcatFront(a, b);
      UVCoversConcat(a, bf);
      ConcatVertices(a, bf);
    }
  }

  lemma {:induction false} ConcatUV(a: seq<MeshData>, b: seq<MeshData>)
    requires UVCovers(a) && UVCovers(b) && UVCovers(a + b)
    ensures Combined(a + b).uv == Combined(a).uv + Combined(b).uv
    decreases |b|
  {
    if b == [] {
      assert a + b == a;
    } else {
      var bf := b[..|b| - 1];
      ConcatFront(a, b);
      UVCoversConcat(a, bf);
      ConcatUV(a, bf);
    }
  }

  lemma {:induction false} ConcatTriangles(a: seq<MeshData>, b: seq<MeshData>)
    requires UVCovers(a) && UVCovers(b) && UVCovers(a + b)
    ensures Combined(a + b).triangles == Combined(a).triangles + Shifted(Combined(b).triangles, |Combined(a).vertices|)
    decreases |b|
  {
    if b == [] {
      assert a + b == a;
    } else {
      var bf := b[..|b| - 1];
      var m := b[|b| - 1];
      ConcatFront(a, b);
      UVCoversConcat(a, bf);
      ConcatTriangles(a, bf);
      ConcatVertices(a, bf);
      var ca, cb, cab := Combined(a), Combined(bf), Combined(a + bf);
      var va, vb := |ca.vertices|, |cb.vertices|;
      calc {
        Combined(a + b).triangles;
        cab.triangles + Shifted(m.triangles, |cab.vertices|);
        (ca.triangles + Shifted(cb.triangles, va)) + Shifted(m.triangles, va + vb);
        { ShiftedTwice(m.triangles, vb, va); }
        ca.triangles + (Shifted(cb.triangles, va) + Shifted(Shifted(m.triangles, vb), va));
        { ShiftedConcat(cb.triangles, Shifted(m.triangles, vb), va); }
        ca.triangles + Shifted(Combined(b).triangles, va);
      }
    }
  }
}

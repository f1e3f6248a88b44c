/** The flat mesh the exporter builds: three parallel buffers (vertices,
    loops, polygons) plus its material slots, grown in place by
    `append_faces`. */
module UvMesh {
  import opened UvFaces

  /** A vertex position. */
  datatype Co = Co(x: real, y: real, z: real)

  /** A polygon of the built mesh: its run of loops and its material slot. */
  datatype Poly = Poly(loopStart: int, loopTotal: int, materialIndex: int)

  /** A solid material slot: which selected object (by position in the
      selection) and which of its materials the slot's colour is taken from. */
  datatype Slot = Slot(owner: nat, material: nat)

  /** The value held by a mesh: each loop is stored as its vertex index. */
  datatype MeshData = MeshData(vertices: seq<Co>, loops: seq<int>, polygons: seq<Poly>, materials: seq<Slot>)

  /** Every loop names an existing vertex and every polygon's run of loops
      lies within the loops. */
  predicate WellFormed(m: MeshData) {
    (forall k :: 0 <= k < |m.loops| ==> 0 <= m.loops[k] < |m.vertices|) &&
    (forall i :: 0 <= i < |m.polygons| ==>
       0 <= m.polygons[i].loopStart && 0 <= m.polygons[i].loopTotal &&
       m.polygons[i].loopStart + m.polygons[i].loopTotal <= |m.loops|)
  }

  /** The vertex made for one UV corner: `(u, v, 0)`. */
  function Lift(uv: UV): Co {
    Co(uv.u, uv.v, 0.0)
  }

  function LiftAll(uvs: seq<UV>): seq<Co> {
    seq(|uvs|, k requires 0 <= k < |uvs| => Lift(uvs[k]))
  }

  /** Python's `range(lo, lo + n)` as a list. */
  function Range(lo: int, n: nat): seq<int> {
    seq(n, k => lo + k)
  }

  lemma LiftAllAppend(a: seq<UV>, b: seq<UV>)
    ensures LiftAll(a + b) == LiftAll(a) + LiftAll(b)
  {
  }

  lemma RangeAppend(lo: int, n: nat, m: nat)
    ensures Range(lo, n) + Range(lo + n, m) == Range(lo, n + m)
  {
  }

  /** Each face's corners end within the corners of all the faces. */
  lemma FacesWithinCorners(faces: seq<Face>)
    ensures forall i :: 0 <= i < |faces| ==> |Corners(faces[..i])| + |faces[i].uvs| <= |Corners(faces)|
  {
    forall i | 0 <= i < |faces| ensures |Corners(faces[..i])| + |faces[i].uvs| <= |Corners(faces)| {
      CornersSnoc(faces, i);
      CornersPrefix(faces, i + 1);
    }
  }

  /** The polygons made for the faces when the first new vertex is `base`:
      one per face, each with its run of loops among the new ones. */
  function NewPolygons(base: int, faces: seq<Face>, mtrlOffset: int): (r: seq<Poly>)
    ensures |r| == |faces|
    ensures forall i :: 0 <= i < |r| ==>
      base <= r[i].loopStart && r[i].loopStart + r[i].loopTotal <= base + |Corners(faces)|
  {
    FacesWithinCorners(faces);
    seq(|faces|, i requires 0 <= i < |faces| =>
      Poly(base + |Corners(faces[..i])|, |faces[i].uvs|, mtrlOffset + faces[i].materialIndex))
  }

  /** The mesh after `append_faces` has added the faces. It only appends:
      vertices and loops grow by the total corner count, polygons by the
      face count, the material slots not at all, and every entry below the
      old lengths is kept. */
  function Appended(m: MeshData, faces: seq<Face>, mtrlOffset: int): (a: MeshData)
    ensures |a.vertices| == |m.vertices| + |Corners(faces)| &&
      |a.loops| == |m.loops| + |Corners(faces)| &&
      |a.polygons| == |m.polygons| + |faces|
    ensures m.vertices <= a.vertices && m.loops <= a.loops && m.polygons <= a.polygons &&
      a.materials == m.materials
  {
    var corners := Corners(faces);
    MeshData(
      m.vertices + LiftAll(corners),
      m.loops + Range(|m.vertices|, |corners|),
      m.polygons + NewPolygons(|m.vertices|, faces, mtrlOffset),
      m.materials)
  }

  /** The new polygons follow each other: each starts where the previous
      one ends, the first at `base`, and the last ends after all corners. */
  lemma NewPolygonsContiguous(base: int, faces: seq<Face>, mtrlOffset: int, i: nat)
    requires i < |faces|
    ensures var ps := NewPolygons(base, faces, mtrlOffset);
      (i == 0 ==> ps[i].loopStart == base) &&
      (i + 1 < |faces| ==> ps[i + 1].loopStart == ps[i].loopStart + ps[i].loopTotal) &&
      (i + 1 == |faces| ==> ps[i].loopStart + ps[i].loopTotal == base + |Corners(faces)|)
  {
    CornersSnoc(faces, i);
    if i + 1 == |faces| {
      assert faces[..i + 1] == faces;
    }
  }

  /** The invariant that makes the vertex count usable as the loop start:
      when the mesh is well formed and has as many loops as vertices,
      appending keeps both. */
  lemma AppendedKeepsWellFormed(m: MeshData, faces: seq<Face>, mtrlOffset: int)
    requires WellFormed(m) && |m.vertices| == |m.loops|
    ensures var a := Appended(m, faces, mtrlOffset);
      WellFormed(a) && |a.vertices| == |a.loops|
  {
  }

  /** Without that invariant the layout breaks: with more vertices than
      loops, a new polygon's run of loops goes past the last loop. */
  lemma AppendedNeedsEqualCounts(m: MeshData, faces: seq<Face>, mtrlOffset: int)
    requires |m.vertices| > |m.loops|
    requires |faces| > 0 && |faces[|faces| - 1].uvs| > 0
    ensures var a := Appended(m, faces, mtrlOffset);
      var p := a.polygons[|m.polygons| + |faces| - 1];
      p.loopStart + p.loopTotal > |a.loops|
    ensures !WellFormed(Appended(m, faces, mtrlOffset))
  {
    var a := Appended(m, faces, mtrlOffset);
    var last := |faces| - 1;
    NewPolygonsContiguous(|m.vertices|, faces, mtrlOffset, last);
    assert a.polygons[|m.polygons| + last] == NewPolygons(|m.vertices|, faces, mtrlOffset)[last];
  }

  /** What the new faces look like: corner `j` of new polygon `i` is a loop
      whose vertex lies at `(u, v, 0)` for the UV of that corner of face `i`,
      and the polygon's material index is the offset plus the face's. */
  lemma AppendedFaceGeometry(m: MeshData, faces: seq<Face>, mtrlOffset: int, i: nat, j: nat)
    requires |m.vertices| == |m.loops|
    requires i < |faces| && j < |faces[i].uvs|
    ensures var a := Appended(m, faces, mtrlOffset);
      var p := a.polygons[|m.polygons| + i];
      p.loopTotal == |faces[i].uvs| &&
      p.materialIndex == mtrlOffset + faces[i].materialIndex &&
      0 <= p.loopStart + j < |a.loops| &&
      0 <= a.loops[p.loopStart + j] < |a.vertices| &&
      a.vertices[a.loops[p.loopStart + j]] == Lift(faces[i].uvs[j])
  {
    var a := Appended(m, faces, mtrlOffset);
    var p := a.polygons[|m.polygons| + i];
    var c := |Corners(faces[..i])| + j;
    CornersAt(faces, i, j);
    assert p.loopStart + j == |m.loops| + c;
    assert a.loops[|m.loops| + c] == |m.vertices| + c;
    assert a.vertices[|m.vertices| + c] == Lift(Corners(faces)[c]);
  }

  /** The mesh the exporter builds, held in place. */
  class Mesh {
    var vertices: seq<Co>
    var loops: seq<int>
    var polygons: seq<Poly>
    var materials: seq<Slot>

    function Data(): MeshData
      reads this
    {
      MeshData(vertices, loops, polygons, materials)
    }

    /** Well formed, with one loop per vertex: the shape every mesh built
        from faces alone has. */
    predicate Valid()
      reads this
    {
      WellFormed(Data()) && |vertices| == |loops|
    }

    /** A new, empty mesh. */
    constructor ()
      ensures Data() == MeshData([], [], [], []) && Valid()
    {
      vertices, loops, polygons, materials := [], [], [], [];
    }

    /** `vertices.add(n)`: `n` new vertices at the origin. */
    method AddVertices(n: nat)
      modifies this`vertices
      ensures vertices == old(vertices) + seq(n, _ => Co(0.0, 0.0, 0.0))
    {
      vertices := vertices + seq(n, _ => Co(0.0, 0.0, 0.0));
    }

    /** `loops.add(n)`: `n` new loops on vertex 0. */
    method AddLoops(n: nat)
      modifies this`loops
      ensures loops == old(loops) + seq(n, _ => 0)
    {
      loops := loops + seq(n, _ => 0);
    }

    /** `polygons.add(n)`: `n` new empty polygons on slot 0. */
    method AddPolygons(n: nat)
      modifies this`polygons
      ensures polygons == old(polygons) + seq(n, _ => Poly(0, 0, 0))
    {
      polygons := polygons + seq(n, _ => Poly(0, 0, 0));
    }

    /** `materials.append(m)`. */
    method AppendMaterial(slot: Slot)
      modifies this`materials
      ensures materials == old(materials) + [slot]
    {
      materials := materials + [slot];
    }
  }

  /** Outcome of `append_faces`: done, or the error it let through. */
  datatype Status = Done | Raised(msg: string)

  /** The inner loop of `append_faces`: one `(u, v, 0)` vertex per corner,
      appended in corner order. */
  method AppendVertices(vertices: seq<Co>, uvs: seq<UV>) returns (r: seq<Co>)
    ensures r == vertices + LiftAll(uvs)
  {
    r := vertices;
    for k := 0 to |uvs|
      invariant r == vertices + LiftAll(uvs[..k])
    {
      r := r + [Lift(uvs[k])];
      assert uvs[..k + 1] == uvs[..k] + [uvs[k]];
      LiftAllAppend(uvs[..k], [uvs[k]]);
    }
    assert uvs[..|uvs|] == uvs;
  }

  /** The loop starts `append_faces` records: the start index plus the
      corners of the faces before. */
  function LoopStarts(base: int, faces: seq<Face>): seq<int> {
    seq(|faces|, i requires 0 <= i < |faces| => base + |Corners(faces[..i])|)
  }

  /** The loop totals it records: each face's corner count. */
  function LoopTotals(faces: seq<Face>): seq<int> {
    seq(|faces|, i requires 0 <= i < |faces| => |faces[i].uvs|)
  }

  /** The material indices it records: the offset plus each face's. */
  function MaterialIndices(faces: seq<Face>, mtrlOffset: int): seq<int> {
    seq(|faces|, i requires 0 <= i < |faces| => mtrlOffset + faces[i].materialIndex)
  }

  /** What one more face adds to each list the first loop collects. */
  lemma CollectSnoc(faces: seq<Face>, f: nat, base: int, mtrlOffset: int)
    requires f < |faces|
    ensures var c, d := Corners(faces[..f]), Corners(faces[..f + 1]);
      d == c + faces[f].uvs &&
      LiftAll(d) == LiftAll(c) + LiftAll(faces[f].uvs) &&
      Range(base, |d|) == Range(base, |c|) + Range(base + |c|, |faces[f].uvs|) &&
      LoopStarts(base, faces[..f + 1]) == LoopStarts(base, faces[..f]) + [base + |c|] &&
      LoopTotals(faces[..f + 1]) == LoopTotals(faces[..f]) + [|faces[f].uvs|] &&
      MaterialIndices(faces[..f + 1], mtrlOffset) == MaterialIndices(faces[..f], mtrlOffset) + [mtrlOffset + faces[f].materialIndex]
  {
    var c := Corners(faces[..f]);
    CornersSnoc(faces, f);
    LiftAllAppend(c, faces[f].uvs);
    RangeAppend(base, |c|, |faces[f].uvs|);
    var fs := faces[..f + 1];
    assert forall i :: 0 <= i <= f ==> fs[..i] == faces[..f][..i];
  }

  /** The first loop of `append_faces`: the new vertices, loop starts, loop
      totals, loop vertex indices and material indices, and the vertex
      counter after the last face. */
  method CollectFaces(faces: seq<Face>, vIndex0: int, mtrlOffset: int)
    returns (vertices: seq<Co>, startLoops: seq<int>, totalLoops: seq<int>,
             loopsVertices: seq<int>, materials: seq<int>, vIndex: int)
    ensures vertices == LiftAll(Corners(faces))
    ensures loopsVertices == Range(vIndex0, |Corners(faces)|)
    ensures vIndex == vIndex0 + |Corners(faces)|
    ensures startLoops == LoopStarts(vIndex0, faces)
    ensures totalLoops == LoopTotals(faces)
    ensures materials == MaterialIndices(faces, mtrlOffset)
  {
    vertices, startLoops, totalLoops, loopsVertices, materials := [], [], [], [], [];
    vIndex := vIndex0;
    for f := 0 to |faces|
      invariant vertices == LiftAll(Corners(faces[..f]))
      invariant vIndex == vIndex0 + |Corners(faces[..f])|
      invariant loopsVertices == Range(vIndex0, |Corners(faces[..f])|)
      invariant startLoops == LoopStarts(vIndex0, faces[..f])
      invariant totalLoops == LoopTotals(faces[..f])
      invariant materials == MaterialIndices(faces[..f], mtrlOffset)
    {
      var uvs, idx := faces[f].uvs, faces[f].materialIndex;
      var numVtx := |uvs|;
      vertices := AppendVertices(vertices, uvs);
      startLoops := startLoops + [vIndex];
      totalLoops := totalLoops + [numVtx];
      loopsVertices := loopsVertices + Range(vIndex, numVtx);
      materials := materials + [mtrlOffset + idx];
      vIndex := vIndex + numVtx;
      CollectSnoc(faces, f, vIndex0, mtrlOffset);
    }
    assert faces[..|faces|] == faces;
  }

  /** Writes `cos` over the vertices from index `at` on. */
  method WriteVertexCos(mesh: Mesh, at: nat, cos: seq<Co>)
    requires at + |cos| <= |mesh.vertices|
    modifies mesh`vertices
    ensures mesh.vertices == old(mesh.vertices[..at]) + cos + old(mesh.vertices[at + |cos|..])
  {
    for i := 0 to |cos|
      invariant mesh.vertices == old(mesh.vertices[..at]) + cos[..i] + old(mesh.vertices[at + i..])
    {
      mesh.vertices := mesh.vertices[at + i := cos[i]];
      assert cos[..i + 1] == cos[..i] + [cos[i]];
    }
    assert cos[..|cos|] == cos;
  }

  /** Writes the vertex indices of the loops from index `at` on. */
  method WriteLoopVertices(mesh: Mesh, at: nat, indices: seq<int>)
    requires at + |indices| <= |mesh.loops|
    modifies mesh`loops
    ensures mesh.loops == old(mesh.loops[..at]) + indices + old(mesh.loops[at + |indices|..])
  {
    for i := 0 to |indices|
      invariant mesh.loops == old(mesh.loops[..at]) + indices[..i] + old(mesh.loops[at + i..])
    {
      mesh.loops := mesh.loops[at + i := indices[i]];
      assert indices[..i + 1] == indices[..i] + [indices[i]];
    }
    assert indices[..|indices|] == indices;
  }

  /** Sets `loop_start` of the polygons from index `at` on. */
  method WriteLoopStarts(mesh: Mesh, at: nat, starts: seq<int>)
    requires at + |starts| <= |mesh.polygons|
    modifies mesh`polygons
    ensures |mesh.polygons| == |old(mesh.polygons)|
    ensures forall k :: 0 <= k < |mesh.polygons| ==>
      mesh.polygons[k] == (if at <= k < at + |starts| then old(mesh.polygons[k]).(loopStart := starts[k - at])
        else old(mesh.polygons[k]))
  {
    for i := 0 to |starts|
      invariant |mesh.polygons| == |old(mesh.polygons)|
      invariant forall k :: 0 <= k < |mesh.polygons| ==>
        mesh.polygons[k] == (if at <= k < at + i then old(mesh.polygons[k]).(loopStart := starts[k - at])
          else old(mesh.polygons[k]))
    {
      mesh.polygons := mesh.polygons[at + i := mesh.polygons[at + i].(loopStart := starts[i])];
    }
  }

  /** Sets `loop_total` of the polygons from index `at` on. */
  method WriteLoopTotals(mesh: Mesh, at: nat, totals: seq<int>)
    requires at + |totals| <= |mesh.polygons|
    modifies mesh`polygons
    ensures |mesh.polygons| == |old(mesh.polygons)|
    ensures forall k :: 0 <= k < |mesh.polygons| ==>
      mesh.polygons[k] == (if at <= k < at + |totals| then old(mesh.polygons[k]).(loopTotal := totals[k - at])
        else old(mesh.polygons[k]))
  {
    for i := 0 to |totals|
      invariant |mesh.polygons| == |old(mesh.polygons)|
      invariant forall k :: 0 <= k < |mesh.polygons| ==>
        mesh.polygons[k] == (if at <= k < at + i then old(mesh.polygons[k]).(loopTotal := totals[k - at])
          else old(mesh.polygons[k]))
    {
      mesh.polygons := mesh.polygons[at + i := mesh.polygons[at + i].(loopTotal := totals[i])];
    }
  }

  /** Sets `material_index` of the polygons from index `at` on. */
  method WriteMaterialIndices(mesh: Mesh, at: nat, indices: seq<int>)
    requires at + |indices| <= |mesh.polygons|
    modifies mesh`polygons
    ensures |mesh.polygons| == |old(mesh.polygons)|
    ensures forall k :: 0 <= k < |mesh.polygons| ==>
      mesh.polygons[k] == (if at <= k < at + |indices| then old(mesh.polygons[k]).(materialIndex := indices[k - at])
        else old(mesh.polygons[k]))
  {
    for i := 0 to |indices|
      invariant |mesh.polygons| == |old(mesh.polygons)|
      invariant forall k :: 0 <= k < |mesh.polygons| ==>
        mesh.polygons[k] == (if at <= k < at + i then old(mesh.polygons[k]).(materialIndex := indices[k - at])
          else old(mesh.polygons[k]))
    {
      mesh.polygons := mesh.polygons[at + i := mesh.polygons[at + i].(materialIndex := indices[i])];
    }
  }

  /** The three polygon loops of `append_faces` together: the polygons
      from `at` on get the recorded starts, totals and material indices, and
      the polygons before and after are left as they were. */
  method WritePolygons(mesh: Mesh, at: nat, starts: seq<int>, totals: seq<int>, indices: seq<int>)
    requires |starts| == |totals| == |indices|
    requires at + |starts| <= |mesh.polygons|
    modifies mesh`polygons
    ensures mesh.polygons == old(mesh.polygons[..at]) +
      seq(|starts|, i requires 0 <= i < |starts| => Poly(starts[i], totals[i], indices[i])) +
      old(mesh.polygons[at + |starts|..])
  {
    WriteLoopStarts(mesh, at, starts);
    WriteLoopTotals(mesh, at, totals);
    WriteMaterialIndices(mesh, at, indices);
  }

  /** The part of `append_faces` after the faces are made: collect, grow the
      three buffers, then write the new entries in place. */
  method AddFaces(mesh: Mesh, faces: seq<Face>, mtrlOffset: int)
    modifies mesh`vertices, mesh`loops, mesh`polygons
    ensures mesh.Data() == Appended(old(mesh.Data()), faces, mtrlOffset)
  {
    var vertices, startLoops, totalLoops, loopsVertices, materials, vIndex :=
      CollectFaces(faces, |mesh.vertices|, mtrlOffset);
    var vtxLen, loopLen, polyLen := |mesh.vertices|, |mesh.loops|, |mesh.polygons|;

    mesh.AddVertices(vIndex - vtxLen);
    mesh.AddLoops(vIndex - vtxLen);
    mesh.AddPolygons(|startLoops|);

    WriteVertexCos(mesh, vtxLen, vertices);
    WriteLoopVertices(mesh, loopLen, loopsVertices);
    WritePolygons(mesh, polyLen, startLoops, totalLoops, materials);

    assert seq(|startLoops|, i requires 0 <= i < |startLoops| =>
             Poly(startLoops[i], totalLoops[i], materials[i])) == NewPolygons(vtxLen, faces, mtrlOffset);
  }

  /** `append_faces`: cuts the source mesh into faces (letting the missing-UV
      error through with the mesh untouched), then grows the three buffers
      and writes the new entries in place. */
  method AppendFaces(src: SrcMesh, mesh: Mesh, mtrlOffset: int) returns (r: Status)
    modifies mesh`vertices, mesh`loops, mesh`polygons
    ensures UvMtrlIdx(src).Err? ==> r == Raised(UvMtrlIdx(src).msg) && mesh.Data() == old(mesh.Data())
    ensures UvMtrlIdx(src).Ok? ==>
      r == Done && mesh.Data() == Appended(old(mesh.Data()), UvMtrlIdx(src).value, mtrlOffset)
    ensures old(mesh.Valid()) ==> mesh.Valid()
  {
    var faces := MakeUvMtrlIdx(src);
    if faces.Err? {
      return Raised(faces.msg);
    }
    if mesh.Valid() {
      AppendedKeepsWellFormed(mesh.Data(), faces.value, mtrlOffset);
    }
    AddFaces(mesh, faces.value, mtrlOffset);
    return Done;
  }
}

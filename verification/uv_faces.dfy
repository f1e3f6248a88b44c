/** The source side of the UV-layout exporter: a mesh's active UV layer and
    polygons, and `make_uv_mtrl_idx`, which cuts the per-loop UV array into
    one face per polygon. UV coordinates are only copied, never computed on. */
module UvFaces {

  datatype Option<T> = None | Some(value: T)

  /** A value, or the message of the `RuntimeError` raised instead. */
  datatype Result<T> = Ok(value: T) | Err(msg: string)

  /** One loop's UV coordinate. */
  datatype UV = UV(u: real, v: real)

  /** A source polygon: its run of loops and its material slot. */
  datatype SrcPolygon = SrcPolygon(loopStart: nat, loopTotal: nat, materialIndex: int)

  /** The host's `uv_layers` collection, its active layer, and that layer's
      per-loop data; each of the three may be missing. */
  datatype UvLayer = UvLayer(data: Option<seq<UV>>)
  datatype UvLayers = UvLayers(active: Option<UvLayer>)

  /** The parts of a source mesh the exporter reads. */
  datatype SrcMesh = SrcMesh(
    name: string,
    uvLayers: Option<UvLayers>,
    polygons: seq<SrcPolygon>,
    materialCount: nat,
    hasUvTextures: bool)

  /** One exported face: the UVs of its corners, in loop order, and the
      material index of the polygon it comes from. */
  datatype Face = Face(uvs: seq<UV>, materialIndex: int)

  /** The active layer's data, when the layers, the active layer and its
      data all exist. */
  function ActiveUvData(mesh: SrcMesh): Option<seq<UV>> {
    match mesh.uvLayers
    case None => None
    case Some(layers) =>
      match layers.active
      case None => None
      case Some(layer) => layer.data
  }

  /** Python's `s[lo:hi]` for non-negative bounds: both are clamped to the
      length, and a slice whose start is not before its end is empty. */
  function PySlice<T>(s: seq<T>, lo: nat, hi: nat): (r: seq<T>)
    ensures |r| <= |s|
    ensures lo <= hi <= |s| ==> r == s[lo..hi]
  {
    var a := if lo < |s| then lo else |s|;
    var b := if hi < |s| then hi else |s|;
    if a < b then s[a..b] else []
  }

  /** The face cut out for one polygon. */
  function FaceOf(uv: seq<UV>, p: SrcPolygon): Face {
    Face(PySlice(uv, p.loopStart, p.loopStart + p.loopTotal), p.materialIndex)
  }

  /** One face per polygon, in polygon order. */
  function FacesOf(uv: seq<UV>, polys: seq<SrcPolygon>): seq<Face> {
    seq(|polys|, i requires 0 <= i < |polys| => FaceOf(uv, polys[i]))
  }

  /** What `make_uv_mtrl_idx` returns: one face per polygon, in polygon
      order, or the error raised when the UV data is missing. */
  function UvMtrlIdx(mesh: SrcMesh): (r: Result<seq<Face>>)
    ensures r.Err? <==> ActiveUvData(mesh).None?
    ensures r.Ok? ==> |r.value| == |mesh.polygons|
    ensures r.Ok? ==>
      forall i :: 0 <= i < |r.value| ==> r.value[i].materialIndex == mesh.polygons[i].materialIndex
  {
    match ActiveUvData(mesh)
    case None => Err(mesh.name + " : UV Data None")
    case Some(uv) =>
      Ok(FacesOf(uv, mesh.polygons))
  }

  /** `make_uv_mtrl_idx`: checks the UV data, then appends one face per
      polygon. */
  method MakeUvMtrlIdx(mesh: SrcMesh) returns (r: Result<seq<Face>>)
    ensures r == UvMtrlIdx(mesh)
  {
    var data := ActiveUvData(mesh);
    if data.None? {
      return Err(mesh.name + " : UV Data None");
    }
    var uvLayer := data.value;
    var polys := mesh.polygons;
    var uvMtrlIdx: seq<Face> := [];
    for i := 0 to |polys|
      invariant |uvMtrlIdx| == i
      invariant forall k :: 0 <= k < i ==> uvMtrlIdx[k] == FaceOf(uvLayer, polys[k])
    {
      var start := polys[i].loopStart;
      var end := start + polys[i].loopTotal;
      var uvs := PySlice(uvLayer, start, end);
      uvMtrlIdx := uvMtrlIdx + [Face(uvs, polys[i].materialIndex)];
    }
    assert uvMtrlIdx == FacesOf(uvLayer, polys);
    return Ok(uvMtrlIdx);
  }

  /** The error is raised exactly when the UV data is missing; otherwise
      there is one face per polygon, and a polygon whose loops lie within
      the UV array gets exactly its own UVs and its material index. */
  lemma UvMtrlIdxFaces(mesh: SrcMesh, i: nat)
    ensures UvMtrlIdx(mesh).Err? <==> ActiveUvData(mesh).None?
    ensures UvMtrlIdx(mesh).Err? ==> UvMtrlIdx(mesh).msg == mesh.name + " : UV Data None"
    ensures UvMtrlIdx(mesh).Ok? ==> |UvMtrlIdx(mesh).value| == |mesh.polygons|
    ensures UvMtrlIdx(mesh).Ok? && i < |mesh.polygons| ==>
      var uv, p, f := ActiveUvData(mesh).value, mesh.polygons[i], UvMtrlIdx(mesh).value[i];
      f.materialIndex == p.materialIndex &&
      (p.loopStart + p.loopTotal <= |uv| ==>
         |f.uvs| == p.loopTotal && f.uvs == uv[p.loopStart..p.loopStart + p.loopTotal])
  {
  }

  /** All corners of a list of faces, face after face. */
  function Corners(faces: seq<Face>): seq<UV>
    decreases |faces|
  {
    if faces == [] then [] else Corners(faces[..|faces| - 1]) + faces[|faces| - 1].uvs
  }

  /** Taking one more face adds exactly its corners. */
  lemma CornersSnoc(faces: seq<Face>, i: nat)
    requires i < |faces|
    ensures Corners(faces[..i + 1]) == Corners(faces[..i]) + faces[i].uvs
  {
    assert faces[..i + 1][..i] == faces[..i];
  }

  /** The corners of a prefix of the faces are a prefix of all corners. */
  lemma {:induction false} CornersPrefix(faces: seq<Face>, i: nat)
    requires i <= |faces|
    ensures Corners(faces[..i]) <= Corners(faces)
    decreases |faces| - i
  {
    if i < |faces| {
      CornersPrefix(faces, i + 1);
      CornersSnoc(faces, i);
      var a, b := Corners(faces[..i]), Corners(faces[..i + 1]);
      assert a == b[..|a|];
    } else {
      assert faces[..i] == faces;
    }
  }

  /** Corner `j` of face `i` sits in the flat corner list right after the
      corners of the faces before it. */
  lemma CornersAt(faces: seq<Face>, i: nat, j: nat)
    requires i < |faces| && j < |faces[i].uvs|
    ensures |Corners(faces[..i])| + j < |Corners(faces)|
    ensures Corners(faces)[|Corners(faces[..i])| + j] == faces[i].uvs[j]
  {
    CornersSnoc(faces, i);
    CornersPrefix(faces, i + 1);
  }

  /** Sum of the loop counts of the polygons. */
  function TotalLoops(polys: seq<SrcPolygon>): nat
    decreases |polys|
  {
    if polys == [] then 0 else TotalLoops(polys[..|polys| - 1]) + polys[|polys| - 1].loopTotal
  }

  /** The usual layout of a mesh: each polygon's loops follow the previous
      polygon's, from loop 0 on. */
  predicate Contiguous(polys: seq<SrcPolygon>) {
    forall i :: 0 <= i < |polys| ==> polys[i].loopStart == TotalLoops(polys[..i])
  }

  /** Dropping the last polygon keeps the layout contiguous, and the last
      polygon starts after all the others. */
  lemma ContiguousInit(polys: seq<SrcPolygon>)
    requires Contiguous(polys) && polys != []
    ensures var n := |polys| - 1;
      Contiguous(polys[..n]) && polys[n].loopStart == TotalLoops(polys[..n])
  {
    var n := |polys| - 1;
    var init := polys[..n];
    forall i | 0 <= i < |init| ensures init[i].loopStart == TotalLoops(init[..i]) {
      assert init[..i] == polys[..i];
    }
  }

  /** The faces of the first polygons are the first faces. */
  lemma FacesOfPrefix(uv: seq<UV>, polys: seq<SrcPolygon>, n: nat)
    requires n <= |polys|
    ensures FacesOf(uv, polys)[..n] == FacesOf(uv, polys[..n])
  {
  }

  /** When the first faces cover the UVs up to `a` and the last face holds
      the UVs from `a` to `b`, all faces cover the UVs up to `b`. */
  lemma CornersCoverStep(uv: seq<UV>, faces: seq<Face>, a: nat, b: nat)
    requires faces != [] && a <= b <= |uv|
    requires Corners(faces[..|faces| - 1]) == uv[..a]
    requires faces[|faces| - 1].uvs == uv[a..b]
    ensures Corners(faces) == uv[..b]
  {
    var n := |faces| - 1;
    assert Corners(faces) == Corners(faces[..n]) + faces[n].uvs;
    SliceJoin(uv, a, b);
  }

  lemma SliceJoin<T>(s: seq<T>, a: nat, b: nat)
    requires a <= b <= |s|
    ensures s[..a] + s[a..b] == s[..b]
  {
    assert s[..b] == s[..a] + s[a..b];
  }

  /** For a contiguously laid out mesh whose UV array covers its loops, the
      corners of all faces are exactly the UV array's first loops, in order:
      cutting into faces loses and reorders nothing. */
  lemma {:induction false} ContiguousFacesCoverUvs(uv: seq<UV>, polys: seq<SrcPolygon>)
    requires Contiguous(polys)
    requires TotalLoops(polys) <= |uv|
    ensures Corners(FacesOf(uv, polys)) == uv[..TotalLoops(polys)]
    decreases |polys|
  {
    if polys != [] {
      var faces := FacesOf(uv, polys);
      var n := |polys| - 1;
      var init := polys[..n];
      ContiguousInit(polys);
      ContiguousFacesCoverUvs(uv, init);
      FacesOfPrefix(uv, polys, n);
      var a, b := TotalLoops(init), TotalLoops(polys);
      assert faces[n].uvs == uv[a..b];
      CornersCoverStep(uv, faces, a, b);
    }
  }
}

/** The merging loop of `export`: every selected mesh object with UV
    textures gets its solid material slots and has its faces appended to the
    one flat mesh, with its material indices shifted past the slots of the
    objects before it. Scene, camera, wire material, duplicate removal and
    rendering are host calls and are not part of this model. */
module UvExport {
  import opened UvFaces
  import opened UvMesh

  /** A selected object: whether it is a mesh, and its mesh data. */
  datatype SrcObject = SrcObject(isMesh: bool, data: SrcMesh)

  /** Where a polygon of the merged mesh comes from: the selected object (by
      position in the selection) and its material index in that object. */
  datatype Origin = Origin(owner: nat, material: int)

  /** The merged mesh, each polygon's origin, and the errors printed. */
  datatype Export = Export(mesh: MeshData, origins: seq<Origin>, log: seq<string>)

  /** The guard of the loop: an object that is a mesh with UV textures. */
  predicate Selected(obj: Option<SrcObject>) {
    obj.Some? && obj.value.isMesh && obj.value.data.hasUvTextures
  }

  /** How many solid slots `make_materials` adds for a source mesh:
      `max(1, len(materials))`, the least count that is at least one and at
      least the number of materials. */
  function SlotCount(src: SrcMesh): (r: nat)
    ensures r >= 1 && r >= src.materialCount
    ensures r == 1 || r == src.materialCount
  {
    if src.materialCount > 1 then src.materialCount else 1
  }

  /** The solid slots made for object `o`, one per material. */
  function SolidSlots(o: nat, n: nat): seq<Slot> {
    seq(n, (i: nat) => Slot(o, i))
  }

  function Origins(o: nat, faces: seq<Face>): seq<Origin> {
    seq(|faces|, q requires 0 <= q < |faces| => Origin(o, faces[q].materialIndex))
  }

  /** One turn of the loop for object `o`. The offset is the number of slots
      made before this object's own, so that its material `m` lands on its
      own `m`-th slot. One turn only appends: origins, polygons and slots
      made before stay where they were; a selected object gets its slots
      even when its UV data is missing; new polygons, each with an origin,
      come only from a selected object whose UV data exists, and such an
      object adds one polygon per source polygon, with its origins. */
  function ExportStep(st: Export, o: nat, obj: Option<SrcObject>): (r: Export)
    ensures st.origins <= r.origins && st.mesh.polygons <= r.mesh.polygons &&
      st.mesh.materials <= r.mesh.materials && st.log <= r.log
    ensures |r.mesh.materials| == |st.mesh.materials| + (if Selected(obj) then SlotCount(obj.value.data) else 0)
    ensures |r.origins| - |st.origins| == |r.mesh.polygons| - |st.mesh.polygons|
    ensures |r.origins| > |st.origins| ==> Selected(obj) && UvMtrlIdx(obj.value.data).Ok?
    ensures Selected(obj) && UvMtrlIdx(obj.value.data).Ok? ==>
      |r.mesh.polygons| == |st.mesh.polygons| + |obj.value.data.polygons| &&
      r.origins == st.origins + Origins(o, UvMtrlIdx(obj.value.data).value)
    ensures |r.log| > |st.log| <==> Selected(obj) && UvMtrlIdx(obj.value.data).Err?
    ensures r.log == st.log +
      (if Selected(obj) && UvMtrlIdx(obj.value.data).Err? then [UvMtrlIdx(obj.value.data).msg] else [])
  {
    if !Selected(obj) then st
    else
      var src := obj.value.data;
      var mtrlOffset := |st.mesh.materials|;
      var withSlots := st.mesh.(materials := st.mesh.materials + SolidSlots(o, SlotCount(src)));
      match UvMtrlIdx(src)
      case Err(msg) => Export(withSlots, st.origins, st.log + [msg])
      case Ok(faces) =>
        Export(Appended(withSlots, faces, mtrlOffset), st.origins + Origins(o, faces), st.log)
  }

  /** The whole loop over the selection, from an empty mesh: one origin
      per polygon, and at most one error per object. */
  function ExportAll(objs: seq<Option<SrcObject>>): (r: Export)
    ensures |r.origins| == |r.mesh.polygons|
    ensures |r.log| <= |objs|
    decreases |objs|
  {
    if objs == [] then Export(MeshData([], [], [], []), [], [])
    else ExportStep(ExportAll(objs[..|objs| - 1]), |objs| - 1, objs[|objs| - 1])
  }

  /** The selected objects without UV data, by index, in selection order:
      each of them at most once. */
  function ErrorOwners(objs: seq<Option<SrcObject>>): (r: seq<nat>)
    ensures forall k :: 0 <= k < |r| ==>
      r[k] < |objs| && Selected(objs[r[k]]) && UvMtrlIdx(objs[r[k]].value.data).Err?
    ensures forall k, l :: 0 <= k < l < |r| ==> r[k] < r[l]
    decreases |objs|
  {
    if objs == [] then []
    else
      var n := |objs| - 1;
      var init := ErrorOwners(objs[..n]);
      assert forall k :: 0 <= k < |init| ==> objs[..n][init[k]] == objs[init[k]];
      if Selected(objs[n]) && UvMtrlIdx(objs[n].value.data).Err? then init + [n] else init
  }

  /** No selected object without UV data is left out of `ErrorOwners`. */
  lemma {:induction false} ErrorOwnersComplete(objs: seq<Option<SrcObject>>, j: nat)
    requires j < |objs| && Selected(objs[j]) && UvMtrlIdx(objs[j].value.data).Err?
    ensures j in ErrorOwners(objs)
    decreases |objs|
  {
    var n := |objs| - 1;
    if j < n {
      assert objs[..n][j] == objs[j];
      ErrorOwnersComplete(objs[..n], j);
    }
  }

  /** The printed errors are, one each and in order, the `UV Data None`
      messages of the selected objects without UV data. */
  lemma {:induction false} ExportLogMessages(objs: seq<Option<SrcObject>>)
    ensures var e := ExportAll(objs); var w := ErrorOwners(objs);
      |e.log| == |w| &&
      forall k :: 0 <= k < |w| ==> e.log[k] == UvMtrlIdx(objs[w[k]].value.data).msg
    decreases |objs|
  {
    if objs != [] {
      var n := |objs| - 1;
      var init := objs[..n];
      ExportLogMessages(init);
      var w0 := ErrorOwners(init);
      assert forall k :: 0 <= k < |w0| ==> init[w0[k]] == objs[w0[k]];
    }
  }

  /** The merged mesh stays well formed with one loop per vertex, and every
      polygon has a recorded origin in a selected object. */
  lemma {:induction false} ExportValid(objs: seq<Option<SrcObject>>)
    ensures var e := ExportAll(objs);
      WellFormed(e.mesh) && |e.mesh.vertices| == |e.mesh.loops| &&
      |e.origins| == |e.mesh.polygons| &&
      forall k :: 0 <= k < |e.origins| ==>
        e.origins[k].owner < |objs| && Selected(objs[e.origins[k].owner])
    decreases |objs|
  {
    if objs != [] {
      var n := |objs| - 1;
      var init := objs[..n];
      ExportValid(init);
      var st := ExportAll(init);
      if Selected(objs[n]) {
        var src := objs[n].value.data;
        var withSlots := st.mesh.(materials := st.mesh.materials + SolidSlots(n, SlotCount(src)));
        if UvMtrlIdx(src).Ok? {
          AppendedKeepsWellFormed(withSlots, UvMtrlIdx(src).value, |st.mesh.materials|);
        }
      }
      var e := ExportAll(objs);
      forall k | 0 <= k < |e.origins|
        ensures e.origins[k].owner < |objs| && Selected(objs[e.origins[k].owner])
      {
        if k < |st.origins| {
          assert e.origins[k] == st.origins[k];
          assert objs[st.origins[k].owner] == init[st.origins[k].owner];
        }
      }
    }
  }

  /** The slot a polygon's material index selects is the matching material
      of the very object the polygon comes from, for every material index
      that object has a slot for. */
  lemma {:induction false} ExportResolvesMaterials(objs: seq<Option<SrcObject>>, k: nat)
    requires k < |ExportAll(objs).origins|
    ensures var e := ExportAll(objs);
      var g := e.origins[k];
      k < |e.mesh.polygons| && g.owner < |objs| && Selected(objs[g.owner]) &&
      (0 <= g.material < SlotCount(objs[g.owner].value.data) ==>
         0 <= e.mesh.polygons[k].materialIndex < |e.mesh.materials| &&
         e.mesh.materials[e.mesh.polygons[k].materialIndex] == Slot(g.owner, g.material))
    decreases |objs|
  {
    var n := |objs| - 1;
    var init := objs[..n];
    var st := ExportAll(init);
    var e := ExportAll(objs);
    ExportValid(init);
    ExportValid(objs);
    if k < |st.origins| {
      var g := st.origins[k];
      assert e.origins[k] == g;
      assert objs[g.owner] == init[g.owner];
      ExportResolvesMaterials(init, k);
      assert e.mesh.polygons[k] == st.mesh.polygons[k];
      if 0 <= g.material < SlotCount(objs[g.owner].value.data) {
        var idx := st.mesh.polygons[k].materialIndex;
        assert e.mesh.materials[idx] == st.mesh.materials[idx];
      }
    } else {
      var src := objs[n].value.data;
      var mtrlOffset := |st.mesh.materials|;
      var withSlots := st.mesh.(materials := st.mesh.materials + SolidSlots(n, SlotCount(src)));
      var faces := UvMtrlIdx(src).value;
      assert e.mesh == Appended(withSlots, faces, mtrlOffset);
      assert e.origins == st.origins + Origins(n, faces);
      var q := k - |st.origins|;
      var g := e.origins[k];
      assert g == Origin(n, faces[q].materialIndex);
      assert e.mesh.polygons[k] == NewPolygons(|withSlots.vertices|, faces, mtrlOffset)[q];
      if 0 <= g.material < SlotCount(src) {
        assert e.mesh.materials[mtrlOffset + g.material] == SolidSlots(n, SlotCount(src))[g.material];
      }
    }
  }

  /** `mtrl_offset` AS WRITTEN: it grows by the object's material count,
      and only once its faces were appended; it never runs ahead of the
      slots made. */
  function MtrlOffsetAsWritten(objs: seq<Option<SrcObject>>): (r: nat)
    ensures r <= |ExportAll(objs).mesh.materials|
    decreases |objs|
  {
    if objs == [] then 0
    else
      var prev, obj := MtrlOffsetAsWritten(objs[..|objs| - 1]), objs[|objs| - 1];
      if Selected(obj) && UvMtrlIdx(obj.value.data).Ok? then prev + obj.value.data.materialCount
      else prev
  }

  /** Every selected object has at least one material and UV data. */
  predicate AllSelectedHaveMaterials(objs: seq<Option<SrcObject>>) {
    forall i :: 0 <= i < |objs| && Selected(objs[i]) ==>
      objs[i].value.data.materialCount >= 1 && UvMtrlIdx(objs[i].value.data).Ok?
  }

  /** As written, the offset never runs ahead of the slots made, and it
      equals their count exactly when every selected object has a material
      and UV data: one object without materials (it still gets one slot) or
      without UV data (its slots are made before the error) shifts every
      later object's materials onto the slots before its own. */
  lemma {:induction false} MtrlOffsetAsWrittenLags(objs: seq<Option<SrcObject>>)
    ensures MtrlOffsetAsWritten(objs) <= |ExportAll(objs).mesh.materials|
    ensures MtrlOffsetAsWritten(objs) == |ExportAll(objs).mesh.materials| <==>
      AllSelectedHaveMaterials(objs)
    decreases |objs|
  {
    if objs != [] {
      var n := |objs| - 1;
      var init := objs[..n];
      MtrlOffsetAsWrittenLags(init);
      assert forall i :: 0 <= i < n ==> objs[i] == init[i];
      if !AllSelectedHaveMaterials(init) {
        var i :| 0 <= i < n && Selected(init[i]) &&
          !(init[i].value.data.materialCount >= 1 && UvMtrlIdx(init[i].value.data).Ok?);
        assert Selected(objs[i]);
      }
      if AllSelectedHaveMaterials(init) &&
         !(Selected(objs[n]) ==> objs[n].value.data.materialCount >= 1 && UvMtrlIdx(objs[n].value.data).Ok?) {
        assert !AllSelectedHaveMaterials(objs);
      }
    }
  }

  /** The input that shows it: after a selected object with UV data but no
      materials, the offset as written stays put while one slot was made. */
  lemma MtrlOffsetSkipsMateriallessSlot(objs: seq<Option<SrcObject>>, a: SrcObject)
    requires a.isMesh && a.data.hasUvTextures && a.data.materialCount == 0
    requires UvMtrlIdx(a.data).Ok?
    ensures MtrlOffsetAsWritten(objs + [Some(a)]) == MtrlOffsetAsWritten(objs)
    ensures |ExportAll(objs + [Some(a)]).mesh.materials| == |ExportAll(objs).mesh.materials| + 1
  {
    assert (objs + [Some(a)])[..|objs|] == objs;
  }

  /** `make_materials`, as far as the merged mesh sees it: one solid slot
      per material of the source mesh, at least one. */
  method MakeMaterials(mesh: Mesh, o: nat, src: SrcMesh)
    modifies mesh`materials
    ensures mesh.materials == old(mesh.materials) + SolidSlots(o, SlotCount(src))
  {
    for i := 0 to SlotCount(src)
      invariant mesh.materials == old(mesh.materials) + SolidSlots(o, i)
    {
      mesh.AppendMaterial(Slot(o, i));
    }
  }

  /** The loop of `export` that builds the merged mesh, with the offset taken
      as the number of slots made so far. */
  method BuildLayoutMesh(objs: seq<Option<SrcObject>>) returns (mesh: Mesh, log: seq<string>)
    ensures fresh(mesh) && mesh.Valid()
    ensures mesh.Data() == ExportAll(objs).mesh && log == ExportAll(objs).log
  {
    mesh := new Mesh();
    log := [];
    for o := 0 to |objs|
      invariant fresh(mesh)
      invariant mesh.Data() == ExportAll(objs[..o]).mesh && log == ExportAll(objs[..o]).log
    {
      assert objs[..o + 1][..o] == objs[..o];
      var obj := objs[o];
      if obj.Some? && obj.value.isMesh && obj.value.data.hasUvTextures {
        var mtrlOffset := |mesh.materials|;
        MakeMaterials(mesh, o, obj.value.data);
        var r := AppendFaces(obj.value.data, mesh, mtrlOffset);
        if r.Raised? {
          log := log + [r.msg];
        }
      }
    }
    assert objs[..|objs|] == objs;
    ExportValid(objs);
  }
}

# Bone-name L/R conversion and UV-layout mesh building, in Dafny

This project models two pieces of logic from a collection of Blender add-ons.

**Bone-name left/right conversion.** Bone names follow one of two conventions:
an English suffix (`Arm_L`, `Arm_R.001`) or a Japanese prefix (`左Arm`, `右Arm.001`).

- `split_extract_number` splits off a trailing `.<digits>` number.
- `convert_lr_en_to_jp` rewrites every bone name from the English convention to the Japanese one.
- `convert_lr_jp_to_en` does the reverse.
- Each conversion uses the pair table `target_pairs`. For each bone it tries the pairs in order and stops at the first that matches.
- Python's `rstrip`/`lstrip` strip a *set* of characters: `"A_L_L".rstrip("_L") == "A"`. The model keeps that behaviour.

`bone_name_convert_lr/__init__.py` and `bone_name_convert/__init__.py` are identical at lines 15-39, so one model serves both:

- `PyStr` holds the Python string operations.
- `BoneNames` holds the table, the split and the rewrite of one name, with their properties.
- `BoneRename` holds the two in-place passes over an array of bone names.

**UV-layout mesh building** (`nclr_io_mesh_uv_layout_exporter/impl.py`):

- `make_uv_mtrl_idx` cuts a mesh's per-loop UV array into one face per polygon. It raises an error when the UV data is missing.
- `append_faces` appends those faces to a growing flat mesh. The mesh is held as three parallel buffers: vertices, loops and polygons. Each UV corner becomes a vertex `(u, v, 0)` with its own loop. Each face becomes a polygon whose material index is shifted by an offset.
- `export` loops over the selected objects. It makes solid material slots for each object, appends its faces, and advances the offset.

The code is modelled in three modules:

- `UvFaces` models the source side and `make_uv_mtrl_idx`.
- `UvMesh` models the mesh, as a class whose buffers are updated in place, and `append_faces`.
- `UvExport` models the export loop.

UV coordinates and vertex positions are `real` values that are only ever copied.

The conversion round trip, with the number split off at the true end of the name, holds only under conditions on the stem:

- The stem must not end in a character of the English suffix, because `rstrip` would eat it.
- The stem must not start with the Japanese character, because `lstrip` would eat it.
- When there is no number, the stem must not itself end in `.<digits>`. Otherwise those digits come back as the number: `Arm.5_L` → `左Arm.5` → `Arm_L.5`.

A non-empty stem is not needed. `BoneNames.RoundTrip` proves the round trip under these conditions, and `BoneNames.RoundTripNeedsBareStem` shows that the last one cannot be dropped.

The conversions as written split the number off differently before a final newline (see Findings). They need a fourth condition: when there is no number and the stem ends in a newline, the stem must not end in `.<digits>` just before that newline. Otherwise `A.5\n_L` → `左A.5\n` → `A_L.5`. A stem such as `A\n` is fine. `BoneNames.RoundTripAsWritten` proves the round trip as written under all four conditions, and `BoneNames.RoundTripAsWrittenLosesNewline` shows that the fourth cannot be dropped.

## Model

| member | source | states |
|---|---|---|
| `PyStr.RStrip` | bone_name_convert_lr/__init__.py:29 | `rstrip` removes the longest tail made only of the given characters: the result is a prefix, every removed character is in the set, and the result does not end in one |
| `PyStr.LStrip` | bone_name_convert_lr/__init__.py:38 | `lstrip` removes the longest head made only of the given characters: the result is a suffix, every removed character is in the set, and the result does not start with one |
| `PyStr.RStripAppended` | bone_name_convert_lr/__init__.py:29 | stripping a tail made of the stripped characters from a text that does not end in one of them gives back exactly that text |
| `PyStr.LStripPrepended` | bone_name_convert_lr/__init__.py:38 | stripping a head made of the stripped characters from a text that does not start with one of them gives back exactly that text |
| `BoneNames.TrailingDigits` | bone_name_convert_lr/__init__.py:18 | the length of the maximal run of digits ending the name, which `[0-9]+$` matches |
| `BoneNames.NumberSuffixUnique` | bone_name_convert_lr/__init__.py:18 | `\.[0-9]+` can match a tail of the name at only one position |
| `BoneNames.SplitExtractNumber` | bone_name_convert_lr/__init__.py:17-21 | stem and number concatenate back to the name, and the number is empty or `.` followed by digits |
| `BoneNames.SplitFindsNumber` | bone_name_convert_lr/__init__.py:18-20 | the number is empty exactly when no tail of the name matches `\.[0-9]+` |
| `BoneNames.SplitOfNumbered` | bone_name_convert_lr/__init__.py:17-21 | a stem followed by `.<digits>` splits into exactly that stem and that number |
| `BoneNames.NoNumberAfterNonDigit` | bone_name_convert_lr/__init__.py:18-20 | a name that does not end in a digit splits to `(name, "")` |
| `BoneNames.NoNumberAfterPrefix` | bone_name_convert/__init__.py:18-20 | prefixing a character other than `.` to a name without a number leaves it without one |
| `BoneNames.SplitAsWritten` | bone_name_convert/__init__.py:18 | the split as written, where `$` also matches before a final newline: it agrees with the corrected split on names that do not end in a newline, and otherwise it may drop that newline; the number it returns is empty or `.<digits>` |
| `BoneNames.SplitAsWrittenLosesNewline` | bone_name_convert_lr/__init__.py:18-21 | for `<stem>.<digits>\n` the split as written returns `(<stem>, .<digits>)` and loses the newline; the corrected split keeps the name whole |
| `BoneNames.EnToJpAsWrittenFrom` | bone_name_convert_lr/__init__.py:26-30 | the en→jp pair loop on the split as written agrees with the corrected one on every name that does not end in a newline |
| `BoneNames.EnToJpAsWritten` | bone_name_convert_lr/__init__.py:23-30 | `convert_lr_en_to_jp` on one name as written agrees with `BoneNames.EnToJp` on every name that does not end in a newline |
| `BoneNames.JpToEnAsWrittenFrom` | bone_name_convert_lr/__init__.py:35-39 | the jp→en pair loop on the split as written agrees with the corrected one on every name that does not end in a newline |
| `BoneNames.JpToEnAsWritten` | bone_name_convert_lr/__init__.py:32-39 | `convert_lr_jp_to_en` on one name as written agrees with `BoneNames.JpToEn` on every name that does not end in a newline |
| `BoneNames.EnToJpAsWrittenLosesNewline` | bone_name_convert_lr/__init__.py:18-29 | as written, `<stem>_L.<digits>\n` is renamed `左<stem>.<digits>` and loses its newline; the corrected conversion leaves that name unchanged |
| `BoneNames.JpToEnAsWrittenLosesNewline` | bone_name_convert_lr/__init__.py:18-38 | as written, `左<stem>.<digits>\n` is renamed `<stem>_L.<digits>` and loses its newline |
| `BoneNames.JpToEnKeepsNewline` | bone_name_convert_lr/__init__.py:35-39 | with the corrected split, `左<rest>` where `<rest>` ends in a newline has no number, so it becomes `<rest>_L` |
| `BoneNames.EnToJpShortens` | bone_name_convert_lr/__init__.py:26-30 | en→jp leaves a name unchanged or makes it strictly shorter, starting with `左` or `右`; either way the number stays at the end |
| `BoneNames.JpToEnGrowsByOne` | bone_name_convert_lr/__init__.py:35-39 | jp→en leaves a name unchanged or ends it in `_L` or `_R` followed by the number, and makes it at most one character longer |
| `BoneNames.EnToJpCases` | bone_name_convert_lr/__init__.py:23-30 | en→jp tries `_L` before `_R` and applies at most one pair: the result is `左`/`右` + the stem with all trailing `_`/`L` (or `_`/`R`) characters stripped + the number; a stem ending in neither is unchanged |
| `BoneNames.JpToEnCases` | bone_name_convert_lr/__init__.py:32-39 | jp→en tries `左` before `右`: the result is the stem without any leading copies of the matched character + `_L`/`_R` + the number; a stem starting with neither is unchanged |
| `BoneNames.EnToJpOfSplit` | bone_name_convert_lr/__init__.py:26-30 | when the stem ends in pair `p`'s suffix and no earlier pair's, en→jp gives pair `p`'s character + the stripped stem + the number |
| `BoneNames.JpToEnOfSplit` | bone_name_convert_lr/__init__.py:35-39 | when the stem starts with pair `p`'s character and no earlier pair's, jp→en gives the stripped stem + pair `p`'s suffix + the number |
| `BoneNames.EnToJpOfTagged` | bone_name_convert/__init__.py:26-30 | `<stem><en><num>` becomes `<jp><stem><num>` when the stem does not end in a character of the suffix |
| `BoneNames.JpToEnOfPrefixed` | bone_name_convert/__init__.py:35-39 | `<jp><stem><num>` becomes `<stem><en><num>` when the stem does not start with the character and, without a number, has no `.<digits>` ending |
| `BoneNames.RoundTrip` | bone_name_convert_lr/__init__.py:26-39 | with the corrected split, en→jp then jp→en restores `<stem>_L[.<n>]` / `<stem>_R[.<n>]`, and jp→en then en→jp restores `左<stem>[.<n>]` / `右<stem>[.<n>]`, under the three conditions above |
| `BoneNames.RoundTripAsWritten` | bone_name_convert_lr/__init__.py:17-39 | the same two round trips for the conversions as written, under the three conditions plus: with no number, a stem ending in a newline does not end in `.<digits>` just before it |
| `BoneNames.RoundTripAsWrittenLosesNewline` | bone_name_convert_lr/__init__.py:17-39 | as written, `<stem>.<d>\n_L` → `左<stem>.<d>\n` → `<stem>_L.<d>`: a bare stem ending in `.<digits>\n` does not survive the round trip |
| `BoneNames.NumberedStemEnToJp` | bone_name_convert_lr/__init__.py:27-29 | en→jp turns `<stem>.<digits>_L` into `左<stem>.<digits>`: the digits stay with the stem |
| `BoneNames.RoundTripNeedsBareStem` | bone_name_convert_lr/__init__.py:27-38 | with no number, a stem ending in `.<digits>` does not survive the round trip: `<stem>.<d>_L` → `左<stem>.<d>` → `<stem>_L.<d>` |
| `BoneNames.EnToJpOncePerCall` | bone_name_convert_lr/__init__.py:26-30 | one rewrite per bone per call: `<stem>_R_L` becomes `左<stem>_R` |
| `BoneRename.ConvertLrEnToJp` | bone_name_convert/__init__.py:23-30 | every bone name becomes its en→jp conversion |
| `BoneRename.EnToJpBone` | bone_name_convert_lr/__init__.py:26-30 | the pair loop rewrites only the bone at `i`, to its en→jp conversion, and no other bone |
| `BoneRename.ConvertLrJpToEn` | bone_name_convert/__init__.py:32-39 | every bone name becomes its jp→en conversion |
| `BoneRename.JpToEnBone` | bone_name_convert_lr/__init__.py:35-39 | the pair loop rewrites only the bone at `i`, to its jp→en conversion, and no other bone |
| `UvFaces.PySlice` | nclr_io_mesh_uv_layout_exporter/impl.py:71 | Python's clamped slice is no longer than the list, and equals the plain slice when the bounds are within it |
| `UvFaces.UvMtrlIdx` | nclr_io_mesh_uv_layout_exporter/impl.py:58-74 | the result is an error exactly when the layers, the active layer or its data is missing; otherwise it has one face per polygon, each with that polygon's material index |
| `UvFaces.MakeUvMtrlIdx` | nclr_io_mesh_uv_layout_exporter/impl.py:58-74 | the loop builds exactly the face list that `UvFaces.UvMtrlIdxFaces` describes, or the error |
| `UvFaces.UvMtrlIdxFaces` | nclr_io_mesh_uv_layout_exporter/impl.py:60-72 | the error `<name> : UV Data None` is raised exactly when the layers, the active layer or its data is missing; otherwise there is one face per polygon, in order, holding that polygon's material index and, when its loops lie within the UV array, exactly `uv[loop_start : loop_start + loop_total]` |
| `UvFaces.ContiguousFacesCoverUvs` | nclr_io_mesh_uv_layout_exporter/impl.py:67-72 | for polygons laid out one after another, the faces' corners, concatenated, are exactly the UV array's first loops: nothing lost, duplicated or reordered |
| `UvMesh.NewPolygons` | nclr_io_mesh_uv_layout_exporter/impl.py:94-98 | one new polygon per face, each with its whole run of loops among the new loops: from the old vertex count up to it plus all corners |
| `UvMesh.Appended` | nclr_io_mesh_uv_layout_exporter/impl.py:100-113 | appending only appends: vertices and loops grow by the total corner count, polygons by the face count, the material slots not at all, and every entry below the old lengths is untouched |
| `UvMesh.NewPolygonsContiguous` | nclr_io_mesh_uv_layout_exporter/impl.py:94-98 | the first new polygon starts at the old vertex count, each next one starts where the previous ends, and the last ends after all corners |
| `UvMesh.AppendedKeepsWellFormed` | nclr_io_mesh_uv_layout_exporter/impl.py:85-101 | if the mesh is well formed and has as many loops as vertices, it still is and still has after appending |
| `UvMesh.AppendedNeedsEqualCounts` | nclr_io_mesh_uv_layout_exporter/impl.py:94-101 | with more vertices than loops, using the vertex counter as loop start puts the last new polygon past the last loop |
| `UvMesh.AppendedFaceGeometry` | nclr_io_mesh_uv_layout_exporter/impl.py:90-113 | corner `j` of new polygon `i` is a loop whose vertex is `(u, v, 0)` of that face's `j`-th UV; the polygon has the face's corner count and material index `mtrl_offset + idx` |
| `UvMesh.Mesh.constructor` | nclr_io_mesh_uv_layout_exporter/impl.py:162 | a new mesh is empty and valid |
| `UvMesh.Mesh.AddVertices` | nclr_io_mesh_uv_layout_exporter/impl.py:100 | `vertices.add(n)` appends `n` default vertices and changes nothing else |
| `UvMesh.Mesh.AddLoops` | nclr_io_mesh_uv_layout_exporter/impl.py:101 | `loops.add(n)` appends `n` default loops and changes nothing else |
| `UvMesh.Mesh.AddPolygons` | nclr_io_mesh_uv_layout_exporter/impl.py:102 | `polygons.add(n)` appends `n` default polygons and changes nothing else |
| `UvMesh.Mesh.AppendMaterial` | nclr_io_mesh_uv_layout_exporter/impl.py:47 | appends one material slot and changes nothing else |
| `UvMesh.AppendVertices` | nclr_io_mesh_uv_layout_exporter/impl.py:92-93 | appends `(u, v, 0)` for each corner, in corner order |
| `UvMesh.CollectFaces` | nclr_io_mesh_uv_layout_exporter/impl.py:90-98 | the first loop gives one vertex per corner in order, consecutive loop vertex indices from the start index, per face a loop start of the start index plus the earlier faces' corners, its corner count and `mtrl_offset + idx`, and a final counter advanced by all corners |
| `UvMesh.WriteVertexCos` | nclr_io_mesh_uv_layout_exporter/impl.py:104-105 | overwrites the vertices from `vtx_len` on with the collected positions and leaves the others |
| `UvMesh.WriteLoopVertices` | nclr_io_mesh_uv_layout_exporter/impl.py:106-107 | overwrites the loops from `loop_len` on with the collected vertex indices and leaves the others |
| `UvMesh.WriteLoopStarts` | nclr_io_mesh_uv_layout_exporter/impl.py:108-109 | sets `loop_start` of the polygons from `poly_len` on and changes no other field or polygon |
| `UvMesh.WriteLoopTotals` | nclr_io_mesh_uv_layout_exporter/impl.py:110-111 | sets `loop_total` of the polygons from `poly_len` on and changes no other field or polygon |
| `UvMesh.WriteMaterialIndices` | nclr_io_mesh_uv_layout_exporter/impl.py:112-113 | sets `material_index` of the polygons from `poly_len` on and changes no other field or polygon |
| `UvMesh.WritePolygons` | nclr_io_mesh_uv_layout_exporter/impl.py:108-113 | after the three polygon loops, the polygons from `poly_len` on are exactly the recorded starts, totals and material indices, and the others are as before |
| `UvMesh.AddFaces` | nclr_io_mesh_uv_layout_exporter/impl.py:79-113 | collecting, growing the buffers and writing in place turns the mesh into exactly the old mesh with the faces appended |
| `UvMesh.AppendFaces` | nclr_io_mesh_uv_layout_exporter/impl.py:76-113 | on missing UV data it raises the error and leaves the mesh unchanged; otherwise the mesh becomes exactly the old mesh with the faces appended, as the `UvMesh.Appended*` lemmas describe; a valid mesh stays valid |
| `UvExport.MakeMaterials` | nclr_io_mesh_uv_layout_exporter/impl.py:37-47 | appends `max(1, len(materials))` solid slots for the object, one per material, in order |
| `UvExport.SlotCount` | nclr_io_mesh_uv_layout_exporter/impl.py:40 | `max(1, len(materials))`: at least one, at least the material count, and equal to one of the two |
| `UvExport.ExportStep` | nclr_io_mesh_uv_layout_exporter/impl.py:168-175 | one turn, with the offset taken as the number of slots made so far (the corrected offset, see Findings): it only appends polygons, origins, slots and errors; a selected object always gets its slots; new polygons, each with an origin, come only from a selected object with UV data, and such an object adds one polygon per source polygon, with those polygons' origins; the log grows by exactly one entry, that object's `<name> : UV Data None` message, for a selected object without UV data, and is unchanged otherwise |
| `UvExport.ExportAll` | nclr_io_mesh_uv_layout_exporter/impl.py:165-175 | the loop over the selection, with the corrected offset: one origin per merged polygon, and no more printed errors than objects |
| `UvExport.ErrorOwners` | nclr_io_mesh_uv_layout_exporter/impl.py:167-174 | the objects whose error is printed: selected objects without UV data, in selection order, each at most once |
| `UvExport.ErrorOwnersComplete` | nclr_io_mesh_uv_layout_exporter/impl.py:167-174 | every selected object without UV data is among them |
| `UvExport.ExportLogMessages` | nclr_io_mesh_uv_layout_exporter/impl.py:167-174 | the printed errors are exactly the `UV Data None` messages of those objects, one each, in selection order, and the loop goes on after each |
| `UvExport.ExportValid` | nclr_io_mesh_uv_layout_exporter/impl.py:165-175 | the merged mesh stays well formed with one loop per vertex, and every polygon comes from a selected mesh object with UV textures |
| `UvExport.ExportResolvesMaterials` | nclr_io_mesh_uv_layout_exporter/impl.py:165-175 | each merged polygon comes from a selected object, and its material index selects the solid slot made for that object's material, for every material index the object has a slot for |
| `UvExport.MtrlOffsetAsWritten` | nclr_io_mesh_uv_layout_exporter/impl.py:166-173 | `mtrl_offset` as written, advanced by `len(materials)` only after the faces were appended, never exceeds the number of slots made |
| `UvExport.MtrlOffsetAsWrittenLags` | nclr_io_mesh_uv_layout_exporter/impl.py:166-173 | the offset as written never exceeds the slots made, and it equals their count exactly when every selected object has at least one material and UV data |
| `UvExport.MtrlOffsetSkipsMateriallessSlot` | nclr_io_mesh_uv_layout_exporter/impl.py:171-173 | after an object with UV data but no materials, the offset as written stays the same while one slot was added |
| `UvExport.BuildLayoutMesh` | nclr_io_mesh_uv_layout_exporter/impl.py:165-175 | the export loop builds a fresh, valid mesh equal to the merged mesh of `UvExport.ExportAll`, and prints the same errors |

## Left out

- Operator classes, `register`/`unregister`, menu callbacks, `get_menu_text` and the translation tables: these are host plug-in registration and user interface.
- Iteration over `bpy.data.armatures` and their bones: all bone names are held as one array. The host's own rules for bone names (length limit, unique `.001` renaming on clashes) are not modelled. The rewrite assigns exactly the computed string.
- `nclr_io_mesh_uv_layout_exporter/__init__.py` is not part of this model. It holds property declarations, the file dialog and a file-extension wrapper.
- `make_camera`, `make_wire_material`, `remove_doubles`, `render`, scene creation and clean-up, and the rest of `export`: these create and delete host datablocks and call the renderer and `bmesh`. `make_materials` is modelled only as the number and order of the slots it appends. Colours, transparency and the helper objects it creates are left out.
- The switch of standard output to `cp932` on Windows, and the `print` of a caught error: the printed messages are modelled as a list of strings, and `platform`/`sys` are not.
- `mesh.update(calc_edges = True)`: edges are not part of the modelled mesh.
- Floats: UV coordinates and vertex positions are treated as `real` values that are only copied. The `0.0` third coordinate is exact.
- `BoneNames.EnToJp` and `BoneNames.EnToJpFrom` use the corrected split. On a name ending in `.<digits>\n` the code as written renames differently; that behaviour is `BoneNames.EnToJpAsWritten` (see Findings).
- `BoneNames.JpToEn` and `BoneNames.JpToEnFrom` use the corrected split. On a name ending in `.<digits>\n` the code as written renames differently; that behaviour is `BoneNames.JpToEnAsWritten` (see Findings).
- `BoneRename.ConvertLrEnToJp`: renames with the corrected split, so `Arm_L.003\n` stays as it is where the code as written gives `左Arm.003`, as `BoneNames.EnToJpAsWrittenLosesNewline` shows.
- `BoneRename.ConvertLrJpToEn`: renames with the corrected split, so `左Arm.003\n` becomes `Arm.003\n_L` where the code as written gives `Arm_L.003`, as `BoneNames.JpToEnAsWrittenLosesNewline` and `BoneNames.JpToEnKeepsNewline` show.
- `UvExport.BuildLayoutMesh` models the corrected offset (see Findings). The code as written is captured by `UvExport.MtrlOffsetAsWritten` and its lemmas, not by a second mesh builder.

## Findings

| source | as written | input that shows it | evidently intended | confidence | as-written member | corrected member |
|---|---|---|---|---|---|---|
| bone_name_convert_lr/__init__.py:18 | `re.search("(\.[0-9]+)$", name)` — without MULTILINE, `$` also matches just before a final newline | `"Arm_L.003\n"` splits to `("Arm_L", ".003")`, so en→jp renames it to `左Arm.003` and the newline is lost (same at bone_name_convert/__init__.py:18) | the number is matched only at the true end of the name (`\Z`), so that stem + number is always the name | not executed | `BoneNames.SplitAsWritten` with `BoneNames.SplitAsWrittenLosesNewline`; the renames as written, `BoneNames.EnToJpAsWritten` and `BoneNames.JpToEnAsWritten`, with `BoneNames.EnToJpAsWrittenLosesNewline`, `BoneNames.JpToEnAsWrittenLosesNewline` and `BoneNames.RoundTripAsWrittenLosesNewline` | `BoneNames.SplitExtractNumber` with `BoneNames.SplitFindsNumber`, used by `BoneNames.EnToJp` and `BoneNames.JpToEn` |
| nclr_io_mesh_uv_layout_exporter/impl.py:173 | `mtrl_offset += len(obj.data.materials)`, while `make_materials` appended `max(1, len(materials))` slots (impl.py:40); after a raised UV error the offset is not advanced either, although the slots were made | a selected mesh object with UV textures and no materials, followed by one with a material: the second object's polygons get material index 0, the solid slot made for the first object | the offset is the number of solid slots made so far, so that each object's material `m` lands on its own `m`-th slot | not executed | `UvExport.MtrlOffsetAsWritten` with `UvExport.MtrlOffsetAsWrittenLags` | `UvExport.ExportResolvesMaterials` |

# Model loading in the Spearmint OpenGL2 renderer

This project is a Dafny model of `code/renderergl2/tr_model.c`, the part of
the renderer that registers models and loads them. The model covers five
pieces of that file:

- **The model table** (`registry.dfy`, `loaders.dfy`):
  - `R_ModelInit` reserves slot 0 for the `MOD_BAD` model.
  - `R_AllocModel` is a bounded append.
  - `R_GetModelByHandle` sends an out-of-range handle to slot 0.
  - `RE_RegisterModel` works in three steps. It looks the name up; a load that failed stays cached. Otherwise it tries the loader the extension selects. Then it falls back over the loader table in its order of preference.
  - The register functions the loader table dispatches to. Among them is the level-of-detail search and back-fill of `R_RegisterMD3`.
  - The table is a class whose methods change it. File reading and parsing are an oracle: a disk maps paths to file images, and each image says its ident and how its parser would end. The type of images admits only those a file can produce (`Loaders.WellFormedImage`): an MDR image rejected at its header has no stored LOD count, and one that parses always has one.
- **Static-mesh load rules** (`mesh_rules.dfy`): these are stated over decoded header fields.
  - The version, frame-count, vertex-count and triangle-count tests of the MD3, MDC and TAN loaders.
  - The in-place normalisation of surface names.
  - The sine-table indexes a packed normal selects.
  - The clamp on the TAN tag count.
  - The header size checks of the MDR loader.
- **Frame expansion and tangent accumulators** (`mesh_expand.dfy`):
  - The MDC base-frame and compressed-frame loops over the vertex array.
  - The per-vertex tangent-direction accumulators.
  - Both work in place on arrays. The floating-point work is a function parameter.
- **The vertex buffer** (`vertex_pack.dfy`):
  - The offsets, strides and data size of the split (animated) layout and of the interleaved (single-frame) layout, in `uint32_t` arithmetic.
  - The `memcpy` loops that fill a byte array while they advance `dataOfs`.
  - A proof that every attribute, read through the layout, finds the bytes that were packed for it.
- **Lookups** (`tag_lookup.dfy`):
  - `R_GetMDVTagIndex`, `R_GetMDVTag` and `R_LerpTag`.
  - The frame selection of `R_ModelBounds`.
  - `R_CustomSurfaceShader`.
- **Bone decompression** (`bone_codec.dfy`): `MC_UnCompress`, computed exactly over `real`.

`defs.dfy` holds the shared vocabulary:

- The header limits (`MAX_MOD_KNOWN`, `MD3_MAX_LODS`, `MAX_QPATH`, `SHADER_MAX_VERTEXES`, `SHADER_MAX_INDEXES`, `TIKI_MAX_TAGS`, the format versions). These are abstract positive constants, because the headers that define them are not part of this model.
- `FUNCTABLE_SIZE`, which is `2^k` for some `k >= 8`.
- The C string helpers the core calls. Their behaviour follows the usual `q_shared.c` definitions, which are not part of this model: `COM_GetExtension` and `COM_StripExtension` use the last dot after the last slash, and `Q_strncpyz` truncates.
- Fixed-width integer wrap-around.

## Model

| member | source | states |
|---|---|---|
| Defs.HandleSlot | code/renderergl2/tr_model.c:303-314 | the slot is always inside the table, and is either the handle itself or slot 0, the MOD_BAD model; no handle reads any other slot |
| Registry.ModelStore.constructor | code/renderergl2/tr_model.c:2745-2753 | a new table holds one entry, in slot 0, with type MOD_BAD |
| Registry.ModelStore.AllocModel | code/renderergl2/tr_model.c:321-334 | a full table is left unchanged and gives no entry; otherwise a blank entry whose index is the old count is appended, and earlier slots are unchanged |
| Registry.ModelStore.ModelByHandle | code/renderergl2/tr_model.c:303-314 | a handle in `[1, numModels)` reads its own slot; any other handle reads slot 0, the MOD_BAD model |
| Registry.ModelStore.RegisterModel | code/renderergl2/tr_model.c:348-461 | empty and over-long names give 0 and leave the table alone; a cached name gives its handle, or 0 when it is MOD_BAD, and allocates nothing; a full table gives 0; otherwise exactly one entry is appended, holding what the loaders leave, and its handle is the result of running the loader attempts |
| Registry.ModelStore.Lookup | code/renderergl2/tr_model.c:371-379 | the search loop returns the first slot from 1 on with this name, or none |
| Registry.ModelStore.AddModel | code/renderergl2/tr_model.c:383-460 | the entry is named and typed MOD_BAD before any loader runs, and the table then ends with what the attempts leave in it |
| Registry.ModelStore.LoadModel | code/renderergl2/tr_model.c:400-460 | the two loops together make exactly the attempts of `Attempts(name)`, in order, and stop at the first that loads |
| Registry.ModelStore.TryFallbacks | code/renderergl2/tr_model.c:438-458 | the fallback loop runs every loader except `orgLoader`, in table order, on the base name plus that loader's extension |
| Registry.ModelStore.TryFallback | code/renderergl2/tr_model.c:440-453 | one pass of the fallback loop either stops with the result of the remaining attempts or leaves those attempts' result unchanged |
| Registry.MatchFrom | code/renderergl2/tr_model.c:407-415 | the first table entry whose extension equals `ext` ignoring case, with no earlier match; none when no entry matches |
| Registry.FallbackIndexesOrder | code/renderergl2/tr_model.c:438-446 | the fallback visits the table entries in order and leaves out exactly the skipped one |
| Registry.AttemptsNotEmpty | code/renderergl2/tr_model.c:284-294 | every name leads to at least seven attempts, so a registration that fails has always run a loader |
| Registry.FallbackAttemptsStep | code/renderergl2/tr_model.c:440-453 | an entry that is not skipped is tried first, and the rest run only if it failed |
| Registry.RunAttemptsFirstSuccess | code/renderergl2/tr_model.c:404-460 | the attempts give a non-zero handle exactly when some attempt's files load; the model then has the type of the first such format, and otherwise it is MOD_BAD |
| Registry.FindByName | code/renderergl2/tr_model.c:371-379 | the first slot from 1 on whose name matches; none only when no slot from 1 on matches |
| Registry.FindByNameAppended | code/renderergl2/tr_model.c:371-395 | an entry appended under a new name is the one the next lookup finds |
| Registry.LoadOutcomeAgrees | code/renderergl2/tr_model.c:394-460 | the handle is 0 exactly when the cached entry is MOD_BAD, and is otherwise the entry's index |
| Registry.RegisterIsCached | code/renderergl2/tr_model.c:371-395 | registering a name twice gives the same handle, a failed load included, and grows the table by at most one entry |
| Loaders.SplitModelName | code/renderergl2/tr_model.c:65-74 | without a '.' the name is kept and the extension is "md3"; otherwise the name is the base, a '.', then the extension, and the base contains no '.' (split at the first dot) |
| Loaders.LoadLod | code/renderergl2/tr_model.c:1028-1038 | a load succeeds exactly when the parser accepts the file; a header rejection changes nothing; any later outcome sets the mesh type and fills slot `lod`, and only that slot |
| Loaders.BackFill | code/renderergl2/tr_model.c:106-114 | slots `from` down to 0 take slot `from + 1`'s model, `numLods` grows by `from + 1`, and slots above are unchanged |
| Loaders.ScanAsWrittenFirstLoad | code/renderergl2/tr_model.c:76-104 | as written, with nothing loaded yet, the search counts a load exactly when the highest LOD file present is a mesh its parser accepts |
| Loaders.ScanAsWrittenKeepsLoads | code/renderergl2/tr_model.c:97-103 | the as-written search never lowers its load count |
| Loaders.ScanAsWrittenSkipsMissing | code/renderergl2/tr_model.c:83-85 | as written, missing LOD files are skipped without any effect |
| Loaders.LodSearchAsWrittenSucceeds | code/renderergl2/tr_model.c:49-125 | as written, registration succeeds exactly when the highest LOD file present loads, and the model is then MOD_MESH; otherwise the model is MOD_BAD and the handle 0; name and index are kept |
| Loaders.BackFillKeepsFailedSlot | code/renderergl2/tr_model.c:97-114 | as written, when LOD 1 loads and LOD 0 is rejected after its header, registration succeeds but slot 0 keeps the half-loaded model |
| Loaders.UnknownIdentCounted | code/renderergl2/tr_model.c:87-101 | as written, a file with an unknown ident after a success is counted as a level, although nothing was loaded into its slot |
| Loaders.CoarserLodOnlyLeavesSlotZero | code/renderergl2/tr_model.c:76-114 | as written, when only LOD 1 is on disk nothing is back-filled, so slot 0 stays empty |
| Loaders.MiddleLodMissingLeavesHole | code/renderergl2/tr_model.c:83-104 | as written, when LODs 2 and 0 load and LOD 1 is missing, slot 1 stays as it was and `numLods` grows by 2 only |
| Loaders.ScanSkipsMissing | code/renderergl2/tr_model.c:83-85 | in the corrected search, missing files before the first load change nothing |
| Loaders.ScanKeepsComplete | code/renderergl2/tr_model.c:76-114 | corrected search only (see Findings; the loop as written can leave a passed slot empty or half-loaded): once a level has loaded, every slot the search passes is filled from above or loaded completely, up to where it stops, and the type stays MOD_MESH |
| Loaders.ScanCountsLevels | code/renderergl2/tr_model.c:97-113 | corrected search only (see Findings; as written a missing level is not counted): once a level has loaded, every level the search passes adds one to `numLods`, and slots above the start are untouched |
| Loaders.BackFillCompletes | code/renderergl2/tr_model.c:106-114 | corrected search: back-filling below a run of completely loaded slots makes every slot from 0 up to the top complete |
| Loaders.LodSearchFillsEverySlot | code/renderergl2/tr_model.c:49-125 | the corrected search succeeds exactly when the highest LOD file present loads; every slot from 0 to that level then holds a complete model, `numLods` counts exactly those slots, and slots above are untouched; failure leaves MOD_BAD and handle 0 |
| Loaders.LodSearchFillsSlotZero | code/renderergl2/tr_model.c:49-125 | in each of the three as-written cases with LOD 1 loading and LOD 0 not, the corrected search leaves slot 0 holding LOD 1's complete model |
| Loaders.RegisterMD3 | code/renderergl2/tr_model.c:49-125 | the search loop and the back-fill loop compute the LOD search as written (`LodSearchAsWritten`) on the files the disk holds under the LOD names: the back-fill starts one level below the level where the search stopped |
| Loaders.ScanLods | code/renderergl2/tr_model.c:76-104 | the loop from `MD3_MAX_LODS - 1` down computes `ScanAsWritten` over the LOD files: the level it stopped at, `loaded`, `numLoaded` and the entry |
| Loaders.ScanLod | code/renderergl2/tr_model.c:78-103 | one pass is one step of `ScanAsWritten`: a missing file is skipped; an unknown ident keeps `loaded` as it was; the level is counted when `loaded` holds, and the loop stops otherwise |
| Loaders.BackFillSlots | code/renderergl2/tr_model.c:110-114 | the back-fill loop computes `BackFill` |
| Loaders.RunLoader | code/renderergl2/tr_model.c:132-273 | a register function returns 0 or the entry's index, and keeps the entry's name, index and LOD slot count; its behaviour per format is stated by `RunLoaderMatchesLoads` and `StaleMdrLodCount` |
| Loaders.StaleMdrLodCount | code/renderergl2/tr_model.c:132-163 | an MDR file rejected after its LOD count was stored (`R_LoadMDR` sets `numLods` before its frame-count test) fails with MOD_BAD but keeps that count, so an MD3 fallback with only level 0 ends with `numLods` one above it |
| Loaders.RunLoaderMatchesLoads | code/renderergl2/tr_model.c:132-273 | each register function returns the index exactly when its files load; success gives that format's type and failure MOD_BAD |
| Loaders.CallLoader | code/renderergl2/tr_model.c:284-294 | the loader table's call computes `RunLoader`; the MD3 entries go through the as-written LOD loops |
| MeshRules.IndexCount | code/renderergl2/tr_model.c:1125 | `numTriangles * 3` as a build that wraps signed `int` arithmetic computes it: it always fits in an `int`, and it is exact when the product fits |
| MeshRules.FirstSurfaceError | code/renderergl2/tr_model.c:1118-1131 | no error exactly when every surface passes both tests; otherwise the first surface that fails, with the vertex test made before the triangle test |
| MeshRules.ClampTagCount | code/renderergl2/tr_model.c:1504-1508 | the tag count is at most TIKI_MAX_TAGS, and is unchanged when it was within the limit |
| MeshRules.LoadMesh | code/renderergl2/tr_model.c:1028-1174 | the version is rejected first, then fewer than one frame; an accepted mesh has at least one frame and keeps every surface's vertex count below the vertex limit and its index count below the index limit |
| MeshRules.LoadMeshAcceptsExactly | code/renderergl2/tr_model.c:1028-1131 | a header is accepted exactly when its version matches, it has a frame, and every surface passes both tests |
| MeshRules.LoadMeshReportsFirstBadSurface | code/renderergl2/tr_model.c:1118-1131 | a surface rejection names a surface that fails, and every earlier surface passes |
| MeshRules.AcceptedIndexCount | code/renderergl2/tr_model.c:1174 | when `3 * numTriangles` fits in an `int`, an accepted surface has exactly three indexes per triangle, fewer than the limit |
| MeshRules.WrappedTriangleCountAccepted | code/renderergl2/tr_model.c:1125-1131 | on a build that wraps signed overflow, the test as written accepts 715827883 triangles, whose tripled count wraps to a negative `int`; the intended test rejects it |
| MeshRules.IntendedTestBoundsIndexes | code/renderergl2/tr_model.c:1125-1131 | under the test on the exact product, a surface's index count is exactly three per triangle and below the limit |
| MeshRules.MeshOutcome | code/renderergl2/tr_model.c:1028-1035 | a version mismatch is the only rejection that comes before the type is set |
| MeshRules.NormaliseName | code/renderergl2/tr_model.c:1142-1151 | the result is a prefix of the lowercased name; it is two characters shorter exactly when the name is longer than 2 and its second-to-last character is '_' |
| MeshRules.NormaliseNameNotIdempotent | code/renderergl2/tr_model.c:1147-1151 | "a_b_c" becomes "a_b", and a second application cuts again, to "a" |
| MeshRules.NormaliseSurfaceName | code/renderergl2/tr_model.c:1142-1151 | in place on the name buffer: the string in the buffer afterwards is the normalised string from before |
| MeshRules.Strlen | code/renderergl2/tr_model.c:1148 | the loop stops at the length of the C string |
| MeshRules.LowercaseCString | code/renderergl2/tr_model.c:1145 | in place: the C string in the buffer afterwards is the lowercased one from before, and it is still terminated |
| MeshRules.BitAndLowMask | code/renderergl2/tr_model.c:1209-1211 | masking with `2^k - 1` is the remainder modulo `2^k` |
| MeshRules.CosineIndex | code/renderergl2/tr_model.c:1209-1211 | the masked cosine index is the sine index shifted by a quarter period modulo the table size, and always inside the table |
| MeshRules.NormalTableIndexes | code/renderergl2/tr_model.c:1201-1211 | latitude is the high byte and longitude the low byte, each times `FUNCTABLE_SIZE/256`; all four indexes fall inside the sine table |
| MeshRules.ScaledByteBelowTable | code/renderergl2/tr_model.c:1203-1204 | a byte in steps of `FUNCTABLE_SIZE/256` stays inside the table |
| MeshRules.MdrTargetSize | code/renderergl2/tr_model.c:1928-1942 | the allocation size fits in an `int`, and is the declared size when the bones are not compressed |
| MeshRules.CheckMdrHeader | code/renderergl2/tr_model.c:1920-1980 | the checks run in order: version, declared size against the file, structure size, frame count; an accepted header has `ofsEnd <= filesize`, at least one frame, and a size that holds the minimum structure |
| MeshRules.MdrAcceptedFramesFit | code/renderergl2/tr_model.c:1944-1950 | when nothing wraps, an accepted MDR size holds the header and every frame with all its bones |
| MeshRules.MdrOutcome | code/renderergl2/tr_model.c:1920-1937 | only version and file-size rejections come before the MDR type is set |
| MeshExpand.MdcFrameVertex | code/renderergl2/tr_model.c:726-774 | vertex `k` of frame `j` sits at `j * numVerts + k` of the expanded array and is `ExpandedVertex` |
| MeshExpand.ExpandMdcFrames | code/renderergl2/tr_model.c:722-775 | the two loops leave the whole vertex array equal to `MdcFrames` |
| MeshExpand.ExpandBaseFrames | code/renderergl2/tr_model.c:727-753 | after the base-frame loop, every frame holds the decoded copy of its base frame |
| MeshExpand.DecodeBaseFrame | code/renderergl2/tr_model.c:728-752 | frame `j`'s block becomes the decoded base frame `mdcBaseFrame[j]`; earlier blocks are untouched |
| MeshExpand.DecodeFrame | code/renderergl2/tr_model.c:730-752 | the inner loop decodes each source vertex into its slot and leaves earlier slots alone |
| MeshExpand.ApplyCompFrames | code/renderergl2/tr_model.c:756-775 | after the compressed-frame loop, frames with a non-negative entry have their deltas applied and the others are unchanged |
| MeshExpand.ExpandCompFrame | code/renderergl2/tr_model.c:761-773 | one frame gets its deltas only when its entry is not negative; other blocks are unchanged |
| MeshExpand.ApplyCompFrame | code/renderergl2/tr_model.c:767-773 | the inner loop adds delta `k` to vertex `k` of the block and changes nothing outside it |
| MeshExpand.UntouchedVertexStaysClear | code/renderergl2/tr_model.c:1233-1267 | a vertex no triangle corner names keeps its cleared accumulator |
| MeshExpand.SingleCornerVertex | code/renderergl2/tr_model.c:1239-1267 | a vertex named by exactly one corner ends with that triangle's direction |
| MeshExpand.TexDirsVertex | code/renderergl2/tr_model.c:1239-1267 | the accumulator of vertex `v` of frame `f` sits at `numVerts * f + v` and has collected the direction of every corner that names `v` |
| MeshExpand.AccumulateTexDirs | code/renderergl2/tr_model.c:1233-1268 | clearing and accumulating leave the whole array equal to `TexDirs`; every write is in bounds, given that every corner names a vertex of the surface |
| MeshExpand.AccumulateFrame | code/renderergl2/tr_model.c:1241-1267 | frame `f`'s block collects every corner's direction, and the other blocks are untouched |
| MeshExpand.AddCorner | code/renderergl2/tr_model.c:1261-1266 | one `VectorAdd` advances the accumulator of corner `n`'s vertex by one corner |
| VertexPack.Layout | code/renderergl2/tr_model.c:1315-1439 | the attribute sizes are 12/8/8/8 bytes; the second position, normal and tangent exist exactly for animated meshes and then equal the first ones, with frame size `stride * numVerts` |
| VertexPack.LayoutWithoutWrap | code/renderergl2/tr_model.c:1315-1340 | when the size fits in 32 bits, the split layout has texcoords at 0 with stride 8, then records of 28 bytes at 8·nv, +12 and +20, and frame size 28·nv; the interleaved layout has offsets 0/12/20/28 and stride 36; `dataSize` is `8·nv + 28·nv·nf` or `36·nv` |
| VertexPack.CopyBytes | code/renderergl2/tr_model.c:1350 | `memcpy`: the buffer holds `src` after its first `ofs` bytes, and the rest is unchanged |
| VertexPack.PackSurface | code/renderergl2/tr_model.c:1343-1392 | the loops end with `dataOfs == dataSize` and the buffer equal to the image the layout describes |
| VertexPack.PackTexCoords | code/renderergl2/tr_model.c:1349-1352 | the texcoord loop writes every vertex's 8 bytes in order from 0 |
| VertexPack.PackFrameVertices | code/renderergl2/tr_model.c:1355-1368 | the frame-vertex loop appends a 28-byte record per frame vertex after the texcoords |
| VertexPack.PackFrameRecord | code/renderergl2/tr_model.c:1357-1367 | one iteration writes position, normal and tangent in that order |
| VertexPack.PackInterleaved | code/renderergl2/tr_model.c:1374-1391 | the interleaved loop writes one 36-byte record per vertex |
| VertexPack.PackInterleavedRecord | code/renderergl2/tr_model.c:1376-1390 | one iteration writes position, texcoords, normal and tangent in that order |
| VertexPack.AnimatedLayoutReadsImage | code/renderergl2/tr_model.c:1402-1439 | in the animated layout, each attribute of record `r`, read through its offset and stride, is in bounds and is exactly that vertex's bytes; record `r < numVerts` also reads its texcoords |
| VertexPack.InterleavedLayoutReadsImage | code/renderergl2/tr_model.c:1402-1430 | in the interleaved layout, each attribute of vertex `r` is in bounds and is exactly that vertex's bytes |
| VertexPack.FrameRecordPosition | code/renderergl2/tr_model.c:1432-1439 | vertex `v` of frame `f` is record `f * numVerts + v`, which is `f` frame sizes past vertex `v` of frame 0 |
| BoneCodec.Field | code/renderergl2/tr_model.c:3279 | a field is the 16-bit little-endian value of its two bytes |
| BoneCodec.Centered | code/renderergl2/tr_model.c:3280 | the centred value lies in `[-32768, 32768)` and is the raw value minus 32768 |
| BoneCodec.UnCompress | code/renderergl2/tr_model.c:3275-3328 | fields 0..2, centred and divided by 64, are the translation column; fields 3..11, centred and divided by 32766, fill the rotation part row by row |
| BoneCodec.RecoveredFieldsOfUnCompress | code/renderergl2/tr_model.c:3275-3328 | every field can be read back from the decoded matrix |
| BoneCodec.UnCompressRoundTrip | code/renderergl2/tr_model.c:3275-3328 | re-encoding the decoded matrix gives back the 24-byte block |
| BoneCodec.ZeroBlockDecodesToMinimum | code/renderergl2/tr_model.c:3275-3328 | an all-zero block decodes to −512 translations and −32768/32766 rotations |
| TagLookup.TagIndexFrom | code/renderergl2/tr_model.c:2797-2810 | the smallest index at or after `start` whose name matches, or −1 exactly when there is none |
| TagLookup.GetMDVTagIndex | code/renderergl2/tr_model.c:2797-2810 | the scan loop computes `TagIndexFrom` |
| TagLookup.ResumeFindsNextTag | code/renderergl2/tr_model.c:2797-2810 | resuming just past a found tag finds the next tag of that name, skipping none |
| TagLookup.MdvTagSlotInRange | code/renderergl2/tr_model.c:2812-2823 | the slot `frame * numTags + tagIndex` is inside the tag array exactly when the frame is not negative; frames past the end read the last frame |
| TagLookup.FrameTag | code/renderergl2/tr_model.c:2812-2823 | the tag read is one of the model's tags |
| TagLookup.LateFrameReadsLastFrame | code/renderergl2/tr_model.c:2816-2819 | a frame past the end reads tag `(numFrames - 1) * numTags + tagIndex` |
| TagLookup.LerpTag | code/renderergl2/tr_model.c:2894-3012 | the return value is true exactly when the stored index is non-negative; not found clears a requested tag; without a tag nothing is written; a negative start index or an out-of-range handle gives not found and −1 |
| TagLookup.LerpTagOnMesh | code/renderergl2/tr_model.c:2925-2944 | on MD3/MDC and MDR models the stored index is the first matching tag at or after the start; found exactly when such a tag exists; a found tag lies between that tag in the start and end frames |
| TagLookup.LerpTagDefaultStart | code/renderergl2/tr_model.c:2912-2921 | without `pTagIndex` the search starts at tag 0 |
| TagLookup.FramesAsWritten | code/renderergl2/tr_model.c:3037-3043 | one frame is copied exactly when the two frame numbers are equal; non-negative frame numbers select frames inside the model |
| TagLookup.NegativeFrameReadsBeforeFrames | code/renderergl2/tr_model.c:3037-3038 | as written, a negative frame that is not a multiple of the frame count selects a frame before the frame array |
| TagLookup.FrameMinusOneOfTwo | code/renderergl2/tr_model.c:3037-3038 | as written, frame −1 of a two-frame model reads frame −1 |
| TagLookup.Frames | code/renderergl2/tr_model.c:3037-3043 | the corrected selection always selects frames inside the model, and agrees with the code for non-negative frame numbers |
| TagLookup.FramesWrap | code/renderergl2/tr_model.c:3037-3038 | corrected frame numbers wrap: adding the frame count selects the same frames |
| TagLookup.ModelBounds | code/renderergl2/tr_model.c:3020-3168 | true exactly when bounds were found; frames read, chosen by the corrected selection `Frames`, are inside the model; an out-of-range handle gives zeroed bounds and false; one frame exactly when start equals end |
| TagLookup.FramedModelsHaveBounds | code/renderergl2/tr_model.c:3032-3131 | MD3/MDC, MDR, MDS and MDX models always answer, and equal frame numbers copy one frame's bounds |
| TagLookup.FirstSkinMatch | code/renderergl2/tr_model.c:3193-3199 | the first skin surface from `j` on with this name, with no earlier match; none when no surface matches |
| TagLookup.SkinShader | code/renderergl2/tr_model.c:3183-3199 | if some skin surface matches, the shader is a matching surface's; if none matches, the default shader |
| TagLookup.NodrawSkinHides | code/renderergl2/tr_model.c:3202-3204 | a valid skin whose first matching surface has the nodraw shader hides the surface, whatever the custom shader |
| TagLookup.CustomShaderOverrides | code/renderergl2/tr_model.c:3207-3209 | unless the skin hides the surface, a non-zero custom shader is the one used |
| TagLookup.NoSkinNoShaderIsDefault | code/renderergl2/tr_model.c:3183-3211 | without a valid skin or a custom shader the default shader is used |
| TagLookup.CustomSurfaceShader | code/renderergl2/tr_model.c:3182-3212 | the loop with its early `break` and early return computes `SurfaceShader` |

## Left out

- File I/O (`ri.FS_ReadFile` and `ri.FS_FreeFile`), the hunk and heap allocators, and byte swapping. A disk is a map from paths to file images, and a file's ident and parse outcome are fields of its image.
- The bodies of the format parsers, `R_LoadMDS`, `R_LoadMDM`, `R_LoadMDX`, `R_LoadIQM` and the rest of `R_LoadMDR`, `R_LoadMD3`, `R_LoadMDC` and `R_LoadTAN`. Their raw struct layouts are in headers that are not part of this model. Only the header rules listed above are modelled, plus the outcome each parser reports.
- Floating-point geometry: sine-table values, normal and tangent packing (`R_VaoPackNormal`, `R_VaoPackTangent`), `R_MDC_DecodeXyzCompressed`, `R_CalcTexDirs`, `VectorNormalize`, and the interpolation arithmetic of `R_LerpTag` and `R_ModelBounds`. Each is a function parameter, an abstract tag value, or the name of the frames that are read.
- `R_FindShader`, `R_GetShaderByHandle`, `R_CreateVao`, `Vao_SetVertexPointers` and `R_IssuePendingRenderCommands` are foreign calls. Shader lookup is the parameter `shaderByHandle`.
- The skeletal tag functions `R_GetMDSBoneTag`, `R_GetMDMBoneTag` and `R_IQMLerpTag` are represented by the index they return (the parameter `boneTag`).
- The `mod->dataSize` accounting, the hard-coded "sherman"/"mg42" bounds patch, `RE_BeginRegistration` and the console listing `R_Modellist_f`.
- The `orgNameFailed` developer warning and every other `ri.Printf` message.
- Brush models: `R_ModelBounds` returns their stored bounds, modelled as a marker.
- MeshRules.IndexCount: models a build that wraps signed `int` overflow in two's complement. In C that overflow is undefined, so a compiler may instead fold `numTriangles * 3 >= SHADER_MAX_INDEXES` into a test on `numTriangles` alone, which rejects the large count. The finding on tr_model.c:1125 holds for wrapping builds only.
- TagLookup.LerpTag, TagLookup.ModelBounds: require `Table`, in which every MD3/MDC model has a complete slot 0 with at least one frame. As-written registration can return a MOD_MESH handle whose slot 0 is empty or half-loaded (see Findings: `CoarserLodOnlyLeavesSlotZero`, `UnknownIdentCounted`, `BackFillKeepsFailedSlot`). On such a handle the source crashes: `R_LerpTag` passes the null `mdv[0]` to `R_GetMDVTagIndex`, and `R_ModelBounds` reads `numFrames` through it or takes `startFrame % 0`. The model does not follow these calls.
- TagLookup.LerpTag: takes non-negative frame numbers. For a negative frame, `R_GetMDVTag` reads before the tag array (see TagLookup.MdvTagSlotInRange).
- TagLookup.LerpTag: treats MDR tags like MD3 tags, as one tag per name per frame. `R_GetMDRTag` reads a bone's matrix in the frame; that bone layout is not modelled.
- MeshRules.LoadMesh: states nothing about the shader, triangle, texture-coordinate and vertex payloads. The loader copies those with byte swapping.
- MeshExpand.AccumulateTexDirs: requires every triangle corner to name a vertex of the surface. The loader indexes with `tri[k]` without checking it.
- VertexPack.PackSurface: requires the buffer size to fit in 32 bits. In that case the `uint32_t` offsets do not wrap; `Layout` itself still models the wrap-around.
- BoneCodec.Field: reads each 16-bit field little-endian. `MC_UnCompress` reads `unsigned short` values in host byte order without `LittleShort`, so the model is the value on a little-endian host only.
- TagLookup.ModelBounds: selects frames with the corrected `Frames`, not the truncating `%` of the source. For a negative frame number the source reads before the frame array (see Findings), and the model does not follow it there. For non-negative frame numbers the two agree (`TagLookup.Frames`).
- MeshExpand.ExpandMdcFrames: requires `FrameRefsInRange`. So do the loops under it: `ExpandBaseFrames`, `DecodeBaseFrame`, `ApplyCompFrames`, `ExpandCompFrame` and `ApplyCompFrame`. The requirement is that every `mdcBaseFrame` entry, and every non-negative `mdcCompFrame` entry, names a frame inside the file. The loader indexes with these `short` values without checking them.
- The condition under which `R_LoadMD3` builds no vertex buffer at all: more than one frame without `gpuVertexAnimation`. The model covers the packing for the surfaces that get one.
- BoneCodec.UnCompress: computes over `real`. The source computes in single-precision float, so its results are the rounded values.

## Findings

| source | as written | input that shows it | evidently intended | confidence | as-written member | corrected member |
|---|---|---|---|---|---|---|
| code/renderergl2/tr_model.c:1125 | `numTriangles * 3 >= SHADER_MAX_INDEXES` is evaluated in `int`, where a large count overflows; the overflow is undefined in C, and a build that wraps (two's complement, as `WrapInt32` models) gets a negative value that passes | a surface header with 715827883 triangles: three times that is 2^31 + 1, which wraps to -2^31 + 1 on a wrapping build | reject any surface whose true index count reaches the limit | not executed | MeshRules.WrappedTriangleCountAccepted | MeshRules.IntendedTestBoundsIndexes |
| code/renderergl2/tr_model.c:97-114 | after a stop at level L, the back-fill starts at L − 1 from slot L, the slot whose load just failed | LOD 1 loads and LOD 0 is rejected after its header: slot 0 keeps the half-loaded model, yet registration succeeds | back-fill from the last level that loaded | not executed | Loaders.BackFillKeepsFailedSlot | Loaders.LodSearchFillsEverySlot |
| code/renderergl2/tr_model.c:87-101 | `loaded` keeps its previous value when the ident is unknown, so the level counts as loaded | LOD 1 loads and LOD 0 has an unknown ident: `numLods` grows, but slot 0 stays empty | an unknown ident counts as a failed load | not executed | Loaders.UnknownIdentCounted | Loaders.LodSearchFillsSlotZero |
| code/renderergl2/tr_model.c:83-114 | missing files are skipped with `continue`; when the loop runs out, nothing is back-filled | only LOD 1 on disk: slot 0 stays empty | fill the finer slots from the finest level that loaded | not executed | Loaders.CoarserLodOnlyLeavesSlotZero | Loaders.LodSearchFillsSlotZero |
| code/renderergl2/tr_model.c:83-104 | a missing level after a load is skipped with `continue`, neither counted nor filled | LODs 2 and 0 load and LOD 1 is missing: `numLods` is 2 but slot 1 stays empty | fill the missing level from the level above | not executed | Loaders.MiddleLodMissingLeavesHole | Loaders.LodSearchFillsEverySlot |
| code/renderergl2/tr_model.c:3037-3038 | `startFrame % numFrames` truncates toward zero, so a negative frame gives a negative offset into the frame array | frame −1 of a two-frame MD3 model reads frame −1 | a frame number that wraps into the model's frames | not executed | TagLookup.FrameMinusOneOfTwo | TagLookup.Frames |

Registration follows the program: `Loaders.RegisterMD3`, `Loaders.RunLoader` and the registry use the LOD search as written (`Loaders.LodSearchAsWritten`). The corrected search `Loaders.LodSearch` is the corrected half of the four LOD rows. The corrected frame selection (`TagLookup.Frames`) is the one `TagLookup.ModelBounds` uses. `MeshRules.LoadMesh` keeps the triangle test as the loader writes it. The intended test is `MeshRules.SurfaceFitsIntended`.

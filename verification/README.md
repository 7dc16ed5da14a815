# KyaMesh mesh decoder, modelled in Dafny

KyaMesh turns the packed 3D assets of a PS2-era game into renderer meshes. When
the game loads an asset, the decoder does three things:

- It walks the asset's chunk tree: the HALL hierarchies, their lods, each lod's
  object and its strip list, and the CSTA/CDQA cluster with its own strips and
  sub-hierarchies.
- It decodes every strip into a named mesh, by reading the GIF tags out of the
  strip's VIF command list and kicking one vertex per scheduled index.
- It files every decoded strip in a global strip cache. The renderer later
  looks strips up in that cache by their raw record pointer.

This project models that core as pure functions over algebraic values:

| Dafny file | C++ code it models |
|---|---|
| `vif.dfy` | the tag locator `ExtractGifTagFromVifList` |
| `cursors.dfy` | the two cursors of `Strip::PreProcessVertices` (`meshOffset`, `vtxOffset`) |
| `decode.dfy` | the rest of `PreProcessVertices`, `GetDrawMode` and the skip bit |
| `naming.dfy` | the strip display names built by both `ProcessStrip`s |
| `scene.dfy` | the decoded tree of `Mesh.h`, and `CacheStrips` |
| `walker.dfy` | the `G3D` constructor with `ProcessHALL`, `EmplaceHierarchy`, `ProcessLod`, `ProcessObject`, `ProcessCSTA` and `ProcessCluster` |
| `library.dfy` | `MeshLibrary`: `AddMesh`, `GetMeshCount`, `FindStrip`, `CacheDlistStrip`, `ForEach` |
| `faults.dfy` | `Option`, `Result`, and one `Fault` per hard assertion of the source |

Modelling choices:

- Raw memory becomes values.
  - A strip record is reached through a `Handle` in `Memory.strips`, so a `pNext` chain stays a chain of handles. Handle 0 is the null pointer.
  - Every other record is a plain datatype.
- A cluster's strip count is the field `RawCluster.stripCount`. It stands for entry 4 of the fixed table `aClusterStripCounts`, the only entry the source reads.
- A hard `assert` of the source becomes an `Err` with its own `Fault`.
- A read the source would make outside the memory the model describes becomes `Err(OutsideModelledMemory)`.
- Back-pointers become positions.
  - An Object records its `LodSlot`.
  - A Strip records the kind of its owner.
- The global strip cache is a `map<Handle, Strip>`. Each walk step returns the cache after it, so caching happens in source order.
- The walker takes the strip decoder as a function-typed parameter (`Walker.Decoder`). The decoder is handed the strip record, the strip's place and its index.
  - `BuildG3D` always passes `StripDecoder`. That is `PreProcessVertices` applied to the display name of the place, just as `ProcessStrip` builds the name and then decodes.
  - The lemmas `ObjectStripsDecoded`, `HierarchyStripDecoded`, `ClusterStripsDecoded` and `DlistStripDecoded` state each strip's mesh in those terms.

## Model

| member | source | states |
|---|---|---|
| Vif.SkipMarkersSpec | src/Mesh.cpp:32-38 | The marker skip succeeds exactly when enough end markers remain. It then stops just past the marker that completes the count, and otherwise reads past the list. |
| Vif.ScanMarkers | src/Mesh.cpp:32-38 | The cursor-and-countdown loop computes the reference skip: it succeeds iff the list holds at least `index` markers, and stops where exactly `index` markers lie before it. |
| Vif.LocateTag | src/Mesh.cpp:32-44 | A located tag packet is followed by a packet carrying the copy code 0x6c018000 in word 3. When the code follows the position the skip reached, that position is the answer. The locator succeeds exactly when the skip stays inside the list and the code follows either that position or the list head. Its only failures are a read past the list and the assertion failure `CopyCodeMissing`. |
| Vif.LocateTagFallsBackToHead | src/Mesh.cpp:40-44 | When the code is absent after the scanned position, the answer equals the segment-0 answer. If the code is absent at the head too, that answer is the assertion failure `CopyCodeMissing`. |
| Vif.LocateTagPosition | src/Mesh.cpp:32-44 | A tag found away from the head sits just past the index-th end marker, with the copy code in the next packet. |
| Decode.ExtractGifTag | src/Mesh.cpp:26-50 | The tag of a segment is the one stored at the address in word 1 of the packet after the located position. It fails exactly when location fails or nothing is stored there. |
| Decode.FallbackTagIsSegmentZero | src/Mesh.cpp:40-42 | A segment whose tag is found only by the fallback reports segment 0's tag. |
| Decode.GetDrawMode | src/Mesh.cpp:76-83 | The compact 12-bit layout is chosen exactly when bit 10 (0x400) of the strip flags is set. |
| Decode.Skip | src/Mesh.cpp:204 | The skip value is 0 or 0x8000, and it is non-zero exactly when bit 15 of the position's flag word is set. |
| Decode.SegmentLoops | src/Mesh.cpp:106-109 | There is one loop count per segment, each taken from that segment's own tag. It succeeds exactly when every segment's tag is found. |
| Decode.PreProcessVertices | src/Mesh.cpp:89-222 | A decoded mesh has the given name and segment 0's prim. It kicks as many vertices as the sum of the loop counts, which must be positive, and passes twice and four times that, in that order, to the buffer's `Init`. Vertex k is the fetch at the k-th scheduled slot. A zero total is the `NoVertices` failure. |
| Decode.PreProcessVerticesSucceeds | src/Mesh.cpp:104-219 | Decoding succeeds exactly when every segment's tag is found, the loop counts add up to a positive total, and every scheduled read lies inside the strip's arrays. It fails with `NoVertices` exactly when the tags are found and the total is 0. |
| Decode.DecodedVertexReads | src/Mesh.cpp:148-211 | Vertex k of a decoded strip reads colour entry k and texture entry k + 4. It reads normal and position entries k - 2j, where j is the segment whose prefix interval holds k. It carries segment 0's prim and a skip of 0 or 0x8000. |
| Cursors.ScheduleUpTo | src/Mesh.cpp:144-219 | The slots of segments 0..j-1 number as many as their loop counts add up to. Slot k has colour index k, lies inside its segment's prefix interval, and has position index k - 2·segment. |
| Cursors.SegmentIsUnique | src/Mesh.cpp:148-154 | A colour index belongs to the one segment whose prefix interval holds it. |
| Cursors.AdjustedNonNegativeIff | src/Mesh.cpp:153-154 | Every position index is non-negative exactly when every non-empty segment j starts at a colour index of at least 2j. |
| Cursors.TwoPerSegmentSuffices | src/Mesh.cpp:217-218 | When every segment has at least two vertices, segment j starts at or past colour index 2j. |
| Cursors.CursorLoop | src/Mesh.cpp:144-219 | The nested `meshOffset`/`vtxOffset` loops produce the schedule: colour indices 0, 1, … in order, and position index = colour index - 2·segment. |
| Naming.Basename | src/Mesh.cpp:243 | The basename is the suffix of the path that holds no backslash, and it is preceded by a backslash whenever it is not the whole path. |
| Naming.ObjectStripNameRoundTrip | src/Mesh.cpp:281-288 | An object strip's name `<owner>_<h>_<l>_<s>` reads back as the owner basename, or `None` when there is no owner, and the three indices. |
| Naming.ObjectStripNamesDistinct | src/Mesh.cpp:281-288 | Within one owner, different (hierarchy, lod, strip) triples give different names. |
| Naming.ClusterStripNameRoundTrip | src/Mesh.cpp:243-245 | A cluster strip's name `<basename>_<s>` reads back as the asset basename and the strip index. |
| Naming.DecimalRoundTrip | src/Mesh.cpp:245 | The decimal text of an index reads back as that index. |
| Scene.CacheStrips | src/Mesh.cpp:295-300 | Caching adds exactly the strips' handles. It leaves other entries alone, files each strip that is last with its handle under that handle, and keeps every entry filed under its own handle. |
| Walker.ProcessStrip | src/Mesh.cpp:224-293 | Both `ProcessStrip`s: a null strip is an assertion failure, and so is a cluster strip with a non-positive segment count. A handle with no record is a read outside the modelled memory. Otherwise the result is exactly the decoder's: its failure, or the Strip for the record at its handle, parented at its owner, with the mesh the decoder makes of it at its place and index. |
| Walker.StripRun | src/Mesh.cpp:308-317 | The strip loop succeeds exactly when every strip it visits along the `pNext` chain is processed without failure. It then yields one strip per index below the count. The first strip is the list head and each next strip is the `pNext` of the one before. All share the owner's parent. |
| Walker.RunDecodesCons | src/Mesh.cpp:308-317 | A strip loop decodes exactly when its first strip does and the loop from the next strip on does. |
| Walker.StripRunDecodes | src/Mesh.cpp:311-316 | Strip k of a run is its record decoded as strip `start + k` of its place, so strips get consecutive indices. |
| Walker.StripRunIsRun | src/Mesh.cpp:308-317 | A strip loop started at index 0 yields a run: as many strips as the count, along the `pNext` chain from the head, strip k decoded as strip k of its place. |
| Walker.ProcessObject | src/Mesh.cpp:302-321 | The Object points back at its record and its slot. Without strip data it has no strips and the cache is unchanged. Otherwise it succeeds exactly when the strip loop does and holds that run: `stripCount` strips along the `pNext` chain, strip k decoded as strip k of its hierarchy and lod indices. The cache after is the cache before with the run's strips filed in order. |
| Walker.ObjectStripsDecoded | src/Mesh.cpp:280-292 | Strip k of a built Object is `PreProcessVertices` of its record under the name `<owner basename>_<h>_<l>_<k>`, with the hierarchy and lod indices it was built under. |
| Walker.ProcessLod | src/Mesh.cpp:323-347 | No Lod is added without an object hash pointer. A hash entry without data gives a Lod with the default Object and leaves the cache alone. Otherwise the Lod holds the Object built from the OBJ chunk under the given hierarchy and lod indices, and the cache gains exactly that Object's strips. It fails exactly when that Object's strip loop fails. |
| Walker.ObjectLodIndices | src/Mesh.cpp:62-67 | The lod indices whose object hash pointer is set: each listed index has one, every such index is listed, and they are in increasing order. |
| Walker.ProcessLods | src/Mesh.cpp:62-68 | Lod p is the one built from the p-th lod record with an object hash pointer, under that record's raw index `i` and at vector position p, with all strips cached. |
| Walker.ProcessLodsSucceeds | src/Mesh.cpp:62-68 | The lod loop succeeds exactly when the Lod of every record with an object hash pointer decodes at the position it is added at. The condition does not depend on the cache. |
| Walker.EmplaceHierarchy | src/Mesh.cpp:52-69 | The emplaced Hierarchy records its raw hierarchy. It holds one Lod per lod record with an object hash pointer, in record order, each built under its raw lod index and its hierarchy index, with all strips cached. Emplacing succeeds exactly when every one of those Lods decodes. |
| Walker.HierarchyStripDecoded | src/Mesh.cpp:62-67 | Strip k of lod l of a built hierarchy is `PreProcessVertices` of its record under `<owner>_<hierarchy index>_<i>_<k>`, where i is the raw index of the lod record that lod l was built from. |
| Walker.ResolvedHierarchiesSound | src/Mesh.cpp:380-388 | Each emplaced entry is an index from 0 to chunkNb-2 that resolves to a hierarchy, paired with that hierarchy, and the indices increase. |
| Walker.ResolvedHierarchiesComplete | src/Mesh.cpp:380-388 | Every index from 0 to chunkNb-2 that resolves to a hierarchy is emplaced. |
| Walker.ProcessHall | src/Mesh.cpp:369-391 | Hierarchy p is the one built from the p-th resolved entry, under its raw index `curIndex` and at vector position p, with its lods as `EmplaceHierarchy` builds them and all strips cached. The walk succeeds exactly when every resolved hierarchy decodes at its position. |
| Walker.ClusterHierarchies | src/Mesh.cpp:433-453 | Sub-hierarchy i is the one built from entry i, under index i and at position i, with all strips cached. The loop succeeds exactly when every one of the `clusterHierCount` entries is a HIER chunk and every sub-hierarchy decodes. |
| Walker.ProcessCluster | src/Mesh.cpp:393-454 | The cluster points at its record. With a zero strip count it has no own strips. Otherwise it holds the run of `stripCount` strips along the `pNext` chain, strip k decoded as cluster strip k. It holds one built sub-hierarchy per HIER entry. It succeeds exactly when its strip run, if any, decodes, every entry is a HIER chunk, and every sub-hierarchy decodes. Everything is cached and parented at its container. |
| Walker.ClusterStripsDecoded | src/Mesh.cpp:242-249 | Strip k of a built cluster is `PreProcessVertices` of its record under the name `<asset basename>_<k>`. |
| Walker.ProcessCSTA | src/Mesh.cpp:456-488 | CDOA is refused. CDQA with a first sub-chunk decodes it as the cluster. Any other layout, or CDQA without a sub-chunk, leaves the cluster empty and the cache untouched. A built cluster is cached and parented at its container. |
| Walker.BuildG3D | src/Mesh.cpp:349-362 | The build succeeds exactly when every hierarchy HALL resolves to decodes, the layout is not CDOA, and a CDQA sub-chunk's cluster decodes. The asset keeps its name and manager. Its top-level hierarchy p is the one built from the p-th resolved HALL entry under its raw index. With a CDQA sub-chunk the cluster is the one built from it. Without CSTA, or with another layout, the cluster is empty. Every back-reference names its container, every strip is cached, and the cache only grows and stays coherent. |
| Walker.HierarchiesIgnoreCluster | src/Mesh.h:81-94 | `GetHierarchies` does not depend on the cluster: dropping the CSTA chunk gives the same top-level hierarchies. |
| Library.FindStrip | src/Mesh.cpp:495-502 | The lookup succeeds exactly for cached handles, and otherwise fails the presence assertion. In a coherent cache it returns a strip whose record is the one asked for. |
| Library.EmptyLibraryValid | src/Mesh.h:115-121 | The empty library holds no mesh and satisfies the library invariant. |
| Library.AddMesh | src/Mesh.cpp:558-561 | Loading an asset appends the built G3D, which raises `GetMeshCount` by one and keeps earlier meshes in order. The new asset's strips become findable. |
| Library.AddMeshWithoutChunks | src/Mesh.cpp:349-362 | An asset with neither HALL nor CSTA loads as an asset with no hierarchies and an empty cluster, and leaves the strip cache unchanged. |
| Library.AddMeshKeepsValid | src/Mesh.cpp:558-561 | Loading keeps the library invariant: strips of earlier assets stay findable, and the new asset's strips become findable. |
| Library.CacheDlistStrip | src/Mesh.cpp:546-556 | The call succeeds exactly when the strip at the handle is processed without failure. The Object kept for the handle is reused or created. It ends up holding exactly one strip, decoded from that handle, which is also the strip cache entry `FindStrip` returns. The object cache gains no key but the handle, its other entries are unchanged, and so are the meshes. |
| Library.DlistStripDecoded | src/Mesh.cpp:552-554 | The display-list strip is its record decoded under the name `None_0_0_0` and parented at its own Object. |
| Library.CacheDlistStripIdempotent | src/Mesh.cpp:546-556 | Repeating `CacheDlistStrip` on the same handle gives the same library. |
| Library.CacheDlistStripKeepsValid | src/Mesh.cpp:546-556 | Re-decoding a display-list strip keeps the library invariant. |
| Library.FindStripOfLoadedAsset | src/Mesh.cpp:495-502 | In a valid library, the presence assertion of `FindStrip` holds for every strip of every loaded asset, and the lookup returns that strip's record. |
| Library.ForEach | src/Mesh.h:107-113 | The callback is applied once per loaded mesh, in load order. |

## Left out

- Fixed-point to float conversion (`int12_to_float`, `int15_to_float`) and all float vertex fields. Attributes stay the raw integers read at the computed indices, and `Q = 1.0` is not recorded.
- `Gif_Tag::setTag` is external. A strip's `gifTags` map gives the loop count and prim found at each address a copy packet can point to. `LOAD_SECTION_CAST` is address translation and becomes that lookup.
- `edChunckGetNb`, `ed3DG3DHierarchyGetFromIndex` and `edChunckGetFirst` are external. They become the inputs `RawHall.chunkCount`, `RawHall.resolve` and `ClusterType.CDQA(cdqu)`.
- The value of `gVifEndCode` lives in headers outside this model. It is the parameter `Memory.vifEndCode`.
- `Renderer::KickVertex` and `SimpleMesh` buffer internals. Each kicked vertex is recorded in order, together with the buffer sizes passed to `Init`.
- `RenderNode`, `RenderMesh`, `MeshLibrary::Init` and all logging, including the debug-name check (Mesh.cpp:93-95). The CDQA log line dereferences the first sub-chunk before the null check (Mesh.cpp:480-482); that is not modelled, and a missing sub-chunk leaves the cluster empty as the check intends.
- The linear search of `FindStrip` (Mesh.cpp:504-528) is unreachable, because `bUseStripCache` is a constant `true`.
- The sprite count (Mesh.cpp:427-431) is read and ignored. It is a field of `RawCluster` that nothing uses.
- Pointer identity, back-pointer aliasing, vector reallocation, the `new Object()` allocation that is never freed, and the process-wide statics. The library is one value returned anew by each operation, and parents are positions.
- `GetMeshCount` has no row of its own. `Library.AddMesh` and `Library.EmptyLibraryValid` state what it counts.
- RawAsset.RawHall: `chunkCount` is a `nat`, because `edChunckGetNb` counts chunks. A negative `chunkNb`, for which `hierarchies.reserve` (Mesh.cpp:377) would throw, is not modelled.
- Integer widths of loop counters and counts. `stripCount`, `meshCount` and `clusterHierCount` are unbounded integers, and the `uint`/`int` comparisons of the source are taken at face value.
- Scene.Strip: the default `Strip` of Mesh.h:31-33 (null `pStrip` and `pParent`, no mesh) is not modelled. `emplace_back` creates one (Mesh.cpp:232, 272), but its handle and parent are assigned at once (Mesh.cpp:233-234, 273-274) and its mesh before decoding (Mesh.cpp:247, 290), so no default strip is observable once `ProcessStrip` returns. The model only builds fully assigned strips; a strip whose decoding fails is not kept, as the walk stops with that failure.
- Walker.ProcessStrip: reads the source would make outside the modelled memory are failures (`OutsideModelledMemory`) instead of undefined behaviour. This covers a handle with no record, a scan past the end of the command list, and a vertex read past the end of an array. It also covers a read before the start of the position or normal array: `adjustedIndex` goes negative when segment j starts below colour index 2j, for example with loop counts [1, 1] (Mesh.cpp:153-154). `Cursors.AdjustedNonNegativeIff` states exactly when that happens.
- Walker.BuildG3D: is stated for the decoder the source uses. The other walk members are stated for any `Decoder`. The link from a strip to `PreProcessVertices` and its display name is given by `ObjectStripsDecoded`, `HierarchyStripDecoded`, `ClusterStripsDecoded` and `DlistStripDecoded`. When HALL and CDOA are both present, the contract says only that the build fails: the failure is the HALL walk's if that walk fails, and `UnsupportedCdoa` otherwise. The strip cache after a build is stated to contain every strip of the asset, not to equal the exact sequence of inserts.

/** The raw asset records the decoder reads, as algebraic values.

    The asset loader hands the decoder a tree of chunk records reached through
    pointers. Here a strip is reached through a `Handle` into `Memory.strips`
    (so the `pNext` chain of a strip list stays a chain of handles), and every
    other record is a plain value. Handle 0 plays the null pointer.
 */
module RawAsset {
  import opened Faults
  import opened Vif

  newtype u8 = x: int | 0 <= x < 0x100
  newtype i16 = x: int | -0x8000 <= x < 0x8000

  type Handle = nat

  const Null: Handle := 0

  /** One colour entry, four unsigned bytes (Mesh.cpp:115-124). */
  datatype Rgba = Rgba(r: u8, g: u8, b: u8, a: u8)

  /** One texture-coordinate entry, two signed 16-bit values (Mesh.cpp:128-135). */
  datatype TexCoord = TexCoord(s: i16, t: i16)

  /** One normal entry, four signed 15-bit fixed-point values kept raw. */
  datatype Normal = Normal(x: i16, y: i16, z: i16, pad: i16)

  const ZeroNormal := Normal(0, 0, 0, 0)

  /** Compact position entry: 12-bit fixed-point x, y, z kept raw, and a 16-bit flag word (Mesh.cpp:182-187). */
  datatype Vertex12 = Vertex12(x: i16, y: i16, z: i16, flags: bv16)

  /** Wide position entry: three pre-expanded coordinates kept as raw 32-bit patterns, and a flag word. */
  datatype WideVertex = WideVertex(x: bv32, y: bv32, z: bv32, flags: bv32)

  /** What the external GIF tag parser reports for one tag: its loop count and primitive register. */
  datatype GifTag = GifTag(nLoop: nat, prim: nat)

  /** An `ed_3d_strip` record with the arrays it points at.
      The position buffer is one block of memory read in one of two layouts;
      `compact` and `wide` are its two views. `gifTags` is what the tag parser
      reads at each address a copy packet can point to. */
  datatype RawStrip = RawStrip(
    flags: bv32,
    meshCount: int,
    next: Handle,
    vifList: seq<Packet>,
    gifTags: map<bv32, GifTag>,
    colors: seq<Rgba>,
    texcoords: seq<TexCoord>,
    normals: Option<seq<Normal>>,
    compact: seq<Vertex12>,
    wide: seq<WideVertex>)

  /** The loaded strips, and the VIF end-marker code of the platform headers. */
  datatype Memory = Memory(vifEndCode: bv32, strips: map<Handle, RawStrip>)

  /** An `ed_g3d_object`: its first strip (`p3DData`, Null when absent) and its strip count. */
  datatype RawObject = RawObject(firstStrip: Handle, stripCount: int)

  /** An `ed3DLod`: its object hash pointer is null (`NoObject`), or points at a
      hash entry whose data pointer is null (`ObjectHash(None)`) or at an OBJ chunk. */
  datatype RawLod = NoObject | ObjectHash(chunk: Option<RawObject>)

  /** An `ed_g3d_hierarchy` with its `lodCount` lods. */
  datatype RawHierarchy = RawHierarchy(lods: seq<RawLod>)

  /** The 32-bit code that discriminates a chunk; only HIER matters here. */
  datatype ChunkCode = HIER | OtherCode(code: bv32)

  /** One entry of a cluster's sub-hierarchy hash array: the chunk it points at. */
  datatype HierChunk = HierChunk(code: ChunkCode, body: RawHierarchy)

  /** An `ed_g3d_cluster`: its strip count (entry 4 of the fixed table
      `aClusterStripCounts`, the only entry read), the first cluster strip, the
      sprite count, the sub-hierarchy count and the hash array of sub-hierarchies. */
  datatype RawCluster = RawCluster(
    stripCount: nat,
    firstStrip: Handle,
    spriteCount: nat,
    hierCount: nat,
    hierChunks: seq<HierChunk>)

  /** The chunk after CSTA: the refused CDOA layout, a CDQA chunk whose first
      sub-chunk may be missing, or some other chunk, which is ignored. */
  datatype ClusterType = CDOA | CDQA(cdqu: Option<RawCluster>) | OtherClusterType

  /** The HALL chunk: its chunk count (`edChunckGetNb`) and what
      `ed3DG3DHierarchyGetFromIndex` resolves each index to; a missing key is null. */
  datatype RawHall = RawHall(chunkCount: nat, resolve: map<int, RawHierarchy>)

  /** An `ed_g3d_manager`, reduced to its HALL and CSTA chunk pointers. */
  datatype RawManager = RawManager(hall: Option<RawHall>, csta: Option<ClusterType>)
}

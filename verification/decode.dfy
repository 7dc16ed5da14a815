/** The vertex decoder, `Strip::PreProcessVertices` (Mesh.cpp:89-222), on raw
    integer attributes: the fixed-point to float conversions are left out, and
    each vertex handed to `Renderer::KickVertex` is recorded, in order, as the
    raw entries read for it.
 */
module Decode {
  import opened Faults
  import opened Vif
  import opened RawAsset
  import opened Cursors

  /** The two layouts of the position buffer (Mesh.cpp:71-74). */
  datatype DrawMode = V12 | V32

  /** Bit 10 of the strip flags selects the compact 12-bit layout (Mesh.cpp:76-83). */
  function GetDrawMode(flags: bv32): (m: DrawMode)
    ensures m == V12 <==> (flags >> 10) & 1 == 1
  {
    if flags & 0x400 != 0 then V12 else V32
  }

  /** A position entry as read in the strip's layout. */
  datatype Position = Compact(v: Vertex12) | Wide(w: WideVertex)

  /** The flag word that travels with a position entry. */
  function FlagWord(p: Position): bv32 {
    match p
    case Compact(v) => v.flags as bv32
    case Wide(w) => w.flags
  }

  /** The skip value handed to the sink: the flag word masked with 0x8000 (Mesh.cpp:204). */
  function Skip(p: Position): (s: bv32)
    ensures s == 0 || s == 0x8000
    ensures s != 0 <==> (FlagWord(p) >> 15) & 1 == 1
  {
    FlagWord(p) & 0x8000
  }

  /** One call of the sink `Renderer::KickVertex`: the vertex's raw attributes,
      the packed primitive register and the skip value. */
  datatype Kicked = Kicked(color: Rgba, st: TexCoord, normal: Normal, position: Position, prim: nat, skip: bv32)

  /** The decoded mesh a strip owns: its display name, the primitive register it
      was created with, the two sizes passed to the vertex buffer's `Init` in
      argument order (Mesh.cpp:113), and every vertex kicked into it. */
  datatype DecodedMesh = DecodedMesh(
    name: string,
    prim: nat,
    initFirst: nat,
    initSecond: nat,
    vertices: seq<Kicked>)

  /** Parses segment `index`'s GIF tag: locate the copy packet, follow its
      pointer word and read the tag there (Mesh.cpp:26-50). */
  function ExtractGifTag(endCode: bv32, raw: RawStrip, index: nat): (r: Result<GifTag>)
    ensures r.Err? ==> r.fault == OutsideModelledMemory || r.fault == CopyCodeMissing
    ensures r.Ok? <==>
      && LocateTag(raw.vifList, endCode, index).Ok?
      && raw.vifList[LocateTag(raw.vifList, endCode, index).value + 1].w1 in raw.gifTags
    ensures r.Ok? ==>
      r.value == raw.gifTags[raw.vifList[LocateTag(raw.vifList, endCode, index).value + 1].w1]
    ensures LocateTag(raw.vifList, endCode, index) == Err(CopyCodeMissing) ==> r == Err(CopyCodeMissing)
  {
    var p :- LocateTag(raw.vifList, endCode, index);
    var address := raw.vifList[p + 1].w1;
    if address in raw.gifTags then Ok(raw.gifTags[address]) else Err(OutsideModelledMemory)
  }

  /** A segment whose tag is found only by the fallback reports segment 0's tag. */
  lemma FallbackTagIsSegmentZero(endCode: bv32, raw: RawStrip, index: nat)
    requires LocateTag(raw.vifList, endCode, index) == Ok(0)
    ensures ExtractGifTag(endCode, raw, index) == ExtractGifTag(endCode, raw, 0)
  {
  }

  /** `meshCount` as the number of times the segment loops run. */
  function SegmentCount(raw: RawStrip): nat {
    if raw.meshCount <= 0 then 0 else raw.meshCount
  }

  /** The loop counts of segments 0 .. count-1, each from its own tag (Mesh.cpp:106-109). */
  function SegmentLoops(endCode: bv32, raw: RawStrip, count: nat): (r: Result<seq<nat>>)
    ensures r.Err? ==> r.fault == OutsideModelledMemory || r.fault == CopyCodeMissing
    ensures r.Ok? <==> forall j :: 0 <= j < count ==> ExtractGifTag(endCode, raw, j).Ok?
    ensures r.Ok? ==> |r.value| == count
    ensures r.Ok? ==> forall j :: 0 <= j < count ==> r.value[j] == ExtractGifTag(endCode, raw, j).value.nLoop
  {
    if count == 0 then Ok([])
    else
      var init :- SegmentLoops(endCode, raw, count - 1);
      var tag :- ExtractGifTag(endCode, raw, count - 1);
      Ok(init + [tag.nLoop])
  }

  /** Every array entry a slot reads lies inside the strip's arrays. The
      texture stream is read four entries ahead (`pStq += 4`, Mesh.cpp:141). */
  predicate Readable(raw: RawStrip, mode: DrawMode, slot: Slot) {
    && slot.index < |raw.colors|
    && slot.index + 4 < |raw.texcoords|
    && 0 <= slot.adjusted
    && (raw.normals.Some? ==> slot.adjusted < |raw.normals.value|)
    && (mode == V12 ==> slot.adjusted < |raw.compact|)
    && (mode == V32 ==> slot.adjusted < |raw.wide|)
  }

  /** The normal at a position index; a strip without a normal array gives the zero normal. */
  function NormalAt(raw: RawStrip, a: nat): Normal
    requires raw.normals.Some? ==> a < |raw.normals.value|
  {
    if raw.normals.Some? then raw.normals.value[a] else ZeroNormal
  }

  /** The position entry at a position index, in the strip's layout. */
  function PositionAt(raw: RawStrip, mode: DrawMode, a: nat): Position
    requires mode == V12 ==> a < |raw.compact|
    requires mode == V32 ==> a < |raw.wide|
  {
    if mode == V12 then Compact(raw.compact[a]) else Wide(raw.wide[a])
  }

  /** The vertex kicked for one slot (Mesh.cpp:153-211). */
  function Fetch(raw: RawStrip, mode: DrawMode, prim: nat, slot: Slot): Kicked
    requires Readable(raw, mode, slot)
  {
    var a := slot.adjusted as nat;
    var position := PositionAt(raw, mode, a);
    Kicked(raw.colors[slot.index], raw.texcoords[slot.index + 4], NormalAt(raw, a), position, prim, Skip(position))
  }

  /** Kicks one vertex per slot, in slot order, once every read is known to be in range. */
  function Emit(raw: RawStrip, mode: DrawMode, prim: nat, slots: seq<Slot>): (r: Result<seq<Kicked>>)
    ensures r.Ok? <==> forall k :: 0 <= k < |slots| ==> Readable(raw, mode, slots[k])
    ensures r.Ok? ==> |r.value| == |slots|
    ensures r.Ok? ==> forall k :: 0 <= k < |slots| ==> r.value[k] == Fetch(raw, mode, prim, slots[k])
  {
    if forall k :: 0 <= k < |slots| ==> Readable(raw, mode, slots[k]) then
      Ok(seq(|slots|, k requires 0 <= k < |slots| => Fetch(raw, mode, prim, slots[k])))
    else Err(OutsideModelledMemory)
  }

  /** Decodes a strip into a mesh named `name` (Mesh.cpp:89-222). */
  function PreProcessVertices(endCode: bv32, raw: RawStrip, name: string): (r: Result<DecodedMesh>)
    ensures ExtractGifTag(endCode, raw, 0).Err? ==> r.Err?
    ensures r.Ok? ==>
      && ExtractGifTag(endCode, raw, 0).Ok?
      && SegmentLoops(endCode, raw, SegmentCount(raw)).Ok?
    ensures
      && ExtractGifTag(endCode, raw, 0).Ok?
      && SegmentLoops(endCode, raw, SegmentCount(raw)).Ok?
      && Sum(SegmentLoops(endCode, raw, SegmentCount(raw)).value) == 0
      ==> r == Err(NoVertices)
    ensures r.Ok? ==>
      var loops := SegmentLoops(endCode, raw, SegmentCount(raw)).value;
      var m := r.value;
      && m.name == name
      && m.prim == ExtractGifTag(endCode, raw, 0).value.prim
      && |m.vertices| == Sum(loops) > 0
      && m.initFirst == 2 * |m.vertices|
      && m.initSecond == 4 * |m.vertices|
      && forall k :: 0 <= k < |m.vertices| ==>
        && Readable(raw, GetDrawMode(raw.flags), Schedule(loops)[k])
        && m.vertices[k] == Fetch(raw, GetDrawMode(raw.flags), m.prim, Schedule(loops)[k])
  {
    var firstTag :- ExtractGifTag(endCode, raw, 0);
    var mode := GetDrawMode(raw.flags);
    var loops :- SegmentLoops(endCode, raw, SegmentCount(raw));
    var total := Sum(loops);
    if total == 0 then Err(NoVertices)
    else
      var vertices :- Emit(raw, mode, firstTag.prim, Schedule(loops));
      Ok(DecodedMesh(name, firstTag.prim, 2 * total, 4 * total, vertices))
  }

  /** Decoding succeeds exactly when every segment's tag is found, the loop
      counts add up to a positive total, and every scheduled read lies inside
      the strip's arrays; it reports `NoVertices` exactly when the tags are
      found and the total is 0. */
  lemma PreProcessVerticesSucceeds(endCode: bv32, raw: RawStrip, name: string)
    ensures var r := PreProcessVertices(endCode, raw, name);
      r.Ok? <==>
        && ExtractGifTag(endCode, raw, 0).Ok?
        && SegmentLoops(endCode, raw, SegmentCount(raw)).Ok?
        && var loops := SegmentLoops(endCode, raw, SegmentCount(raw)).value;
        && Sum(loops) > 0
        && forall k :: 0 <= k < Sum(loops) ==> Readable(raw, GetDrawMode(raw.flags), Schedule(loops)[k])
    ensures PreProcessVertices(endCode, raw, name) == Err(NoVertices) <==>
      && ExtractGifTag(endCode, raw, 0).Ok?
      && SegmentLoops(endCode, raw, SegmentCount(raw)).Ok?
      && Sum(SegmentLoops(endCode, raw, SegmentCount(raw)).value) == 0
  {
  }

  /** What the vertex kicked for the k-th slot of a schedule is made of. */
  lemma ScheduledFetch(raw: RawStrip, mode: DrawMode, prim: nat, loops: seq<nat>, k: nat)
    requires k < Sum(loops)
    requires Readable(raw, mode, Schedule(loops)[k])
    ensures var j := SegmentOf(loops, k);
      var v := Fetch(raw, mode, prim, Schedule(loops)[k]);
      && 2 * j <= k
      && Readable(raw, mode, Slot(j, k, k - 2 * j))
      && v.color == raw.colors[k]
      && v.st == raw.texcoords[k + 4]
      && v.normal == NormalAt(raw, k - 2 * j)
      && v.position == PositionAt(raw, mode, k - 2 * j)
      && v.prim == prim
      && (v.skip == 0 || v.skip == 0x8000)
  {
    var slot := Schedule(loops)[k];
    assert slot == Slot(SegmentOf(loops, k), k, k - 2 * SegmentOf(loops, k));
  }

  /** What the k-th kicked vertex of a decoded strip is made of: colour entry k,
      texture entry k + 4, and the normal and position entries at k - 2j, where
      j is the segment whose loop-count interval holds k. Every vertex carries
      segment 0's primitive register and a skip value of 0 or 0x8000. */
  lemma DecodedVertexReads(endCode: bv32, raw: RawStrip, name: string, k: nat)
    requires PreProcessVertices(endCode, raw, name).Ok?
    requires k < |PreProcessVertices(endCode, raw, name).value.vertices|
    ensures var loops := SegmentLoops(endCode, raw, SegmentCount(raw)).value;
      var mode := GetDrawMode(raw.flags);
      var v := PreProcessVertices(endCode, raw, name).value.vertices[k];
      && k < Sum(loops)
      && var j := SegmentOf(loops, k);
      && 2 * j <= k
      && Readable(raw, mode, Slot(j, k, k - 2 * j))
      && v.color == raw.colors[k]
      && v.st == raw.texcoords[k + 4]
      && v.normal == NormalAt(raw, k - 2 * j)
      && v.position == PositionAt(raw, mode, k - 2 * j)
      && v.prim == ExtractGifTag(endCode, raw, 0).value.prim
      && (v.skip == 0 || v.skip == 0x8000)
  {
    var loops := SegmentLoops(endCode, raw, SegmentCount(raw)).value;
    var m := PreProcessVertices(endCode, raw, name).value;
    ScheduledFetch(raw, GetDrawMode(raw.flags), m.prim, loops, k);
  }
}

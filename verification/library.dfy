/** `MeshLibrary` (Mesh.h:97-122, Mesh.cpp:490-561): the loaded assets in load
    order, the strip cache `gStripCache` and the display-list object cache
    `gObjectCache`, modelled as one value that each operation returns anew.
 */
module Library {
  import opened Faults
  import opened RawAsset
  import opened Decode
  import opened Naming
  import opened Scene
  import opened Walker

  datatype MeshLibrary = MeshLibrary(meshes: seq<G3D>, stripCache: StripCache, objectCache: map<Handle, Object>)

  /** The library before any asset is loaded. */
  const EmptyLibrary := MeshLibrary([], map[], map[])

  /** `GetMeshCount` (Mesh.h:115). */
  function GetMeshCount(lib: MeshLibrary): nat {
    |lib.meshes|
  }

  /** `FindStrip` (Mesh.cpp:495-502): with the cache switched on, the lookup
      asserts that the handle was cached and returns its entry. */
  function FindStrip(lib: MeshLibrary, h: Handle): (r: Result<Strip>)
    ensures r.Ok? <==> h in lib.stripCache
    ensures r.Err? ==> r.fault == StripNotCached
    ensures r.Ok? && Coherent(lib.stripCache) ==> r.value.raw == h
  {
    if h in lib.stripCache then Ok(lib.stripCache[h]) else Err(StripNotCached)
  }

  /** What the library keeps true between calls: the cache is coherent, every
      strip of every loaded asset can be found, and so can every display-list
      strip. */
  ghost predicate Valid(lib: MeshLibrary) {
    && Coherent(lib.stripCache)
    && (forall i, h :: 0 <= i < |lib.meshes| && InG3D(lib.meshes[i], h) ==> h in lib.stripCache)
    && (forall h :: h in lib.objectCache ==> h in lib.stripCache)
  }

  lemma EmptyLibraryValid()
    ensures Valid(EmptyLibrary)
    ensures GetMeshCount(EmptyLibrary) == 0
  {
  }

  /** `AddMesh` (Mesh.cpp:558-561): builds the asset, which caches its strips
      on the way, and appends it. */
  function AddMesh(mem: Memory, lib: MeshLibrary, manager: RawManager, name: string): (r: Result<MeshLibrary>)
    ensures r.Ok? <==> BuildG3D(mem, lib.stripCache, manager, name).Ok?
    ensures r.Ok? ==>
      && GetMeshCount(r.value) == GetMeshCount(lib) + 1
      && r.value.meshes[..|lib.meshes|] == lib.meshes
      && r.value.meshes[|lib.meshes|] == BuildG3D(mem, lib.stripCache, manager, name).value.item
      && r.value.stripCache == BuildG3D(mem, lib.stripCache, manager, name).value.cache
      && r.value.meshes[|lib.meshes|].name == name
      && r.value.meshes[|lib.meshes|].manager == manager
      && r.value.objectCache == lib.objectCache
      && lib.stripCache.Keys <= r.value.stripCache.Keys
      && (forall h :: InG3D(r.value.meshes[|lib.meshes|], h) ==> FindStrip(r.value, h).Ok?)
  {
    var built :- BuildG3D(mem, lib.stripCache, manager, name);
    Ok(MeshLibrary(lib.meshes + [built.item], built.cache, lib.objectCache))
  }

  /** Loading an asset keeps the library valid: strips of assets loaded before
      stay findable and the new asset's strips become findable. */
  lemma AddMeshKeepsValid(mem: Memory, lib: MeshLibrary, manager: RawManager, name: string)
    requires Valid(lib)
    requires AddMesh(mem, lib, manager, name).Ok?
    ensures Valid(AddMesh(mem, lib, manager, name).value)
  {
    var built := BuildG3D(mem, lib.stripCache, manager, name).value;
    var lib' := AddMesh(mem, lib, manager, name).value;
    forall i, h | 0 <= i < |lib'.meshes| && InG3D(lib'.meshes[i], h)
      ensures h in lib'.stripCache
    {
      if i < |lib.meshes| {
        assert lib'.meshes[i] == lib.meshes[i];
      } else {
        G3DCachedHandles(built.item, built.cache, h);
      }
    }
  }

  /** An asset with neither a HALL nor a CSTA chunk loads: it adds an asset
      with no hierarchies and an empty cluster, and the cache is unchanged. */
  lemma AddMeshWithoutChunks(mem: Memory, lib: MeshLibrary, name: string)
    ensures AddMesh(mem, lib, RawManager(None, None), name).Ok?
    ensures var lib' := AddMesh(mem, lib, RawManager(None, None), name).value;
      && GetMeshCount(lib') == GetMeshCount(lib) + 1
      && lib'.meshes[|lib.meshes|] == G3D(name, RawManager(None, None), [], EmptyCluster)
      && lib'.stripCache == lib.stripCache
  {
  }

  /** The Object that `CacheDlistStrip` (re)uses for a handle: the cached one,
      or a default-constructed one. */
  function DlistObjectFor(lib: MeshLibrary, h: Handle): Object {
    if h in lib.objectCache then lib.objectCache[h] else DefaultObject
  }

  /** The name a display-list strip is decoded under: its Object has no
      parent, and it is strip 0 of lod 0 of hierarchy 0. */
  lemma DlistStripName()
    ensures ObjectStripName(None, 0, 0, 0) == "None_0_0_0"
  {
    assert Decimal(0) == "0";
  }

  /** Where `CacheDlistStrip` decodes a strip: strip 0 of lod 0 of hierarchy 0
      of the parentless Object kept for its handle. */
  function DlistSite(h: Handle): Site {
    ObjectSite(None, 0, 0, DlistObject(h))
  }

  /** The Object kept for a handle, emptied and given `strip` as its only
      strip, and the strip cached (Mesh.cpp:552-555). */
  function PlaceDlistStrip(lib: MeshLibrary, h: Handle, strip: Strip): MeshLibrary {
    var obj := DlistObjectFor(lib, h).(strips := []);
    var obj' := obj.(strips := obj.strips + [strip]);
    lib.(stripCache := CacheStrips(lib.stripCache, obj'.strips), objectCache := lib.objectCache[h := obj'])
  }

  /** `CacheDlistStrip` (Mesh.cpp:546-556): a free-standing Object per strip
      handle, emptied and given the strip again, then cached. */
  function CacheDlistStrip(mem: Memory, lib: MeshLibrary, h: Handle): (r: Result<MeshLibrary>)
    ensures h == Null ==> r == Err(NullStrip)
    ensures r.Ok? <==> ProcessStrip(mem, StripDecoder(mem), h, DlistSite(h), 0).Ok?
    ensures r.Ok? ==> h in r.value.objectCache
    ensures r.Ok? ==>
      var obj := r.value.objectCache[h];
      && obj.raw == DlistObjectFor(lib, h).raw
      && obj.parent == DlistObjectFor(lib, h).parent
      && |obj.strips| == 1
      && ProcessStrip(mem, StripDecoder(mem), h, DlistSite(h), 0) == Ok(obj.strips[0])
      && r.value.stripCache == lib.stripCache[h := obj.strips[0]]
      && FindStrip(r.value, h) == Ok(obj.strips[0])
    ensures r.Ok? ==>
      && r.value.meshes == lib.meshes
      && r.value.objectCache.Keys == lib.objectCache.Keys + {h}
      && forall k :: k in lib.objectCache && k != h ==> k in r.value.objectCache && r.value.objectCache[k] == lib.objectCache[k]
  {
    var strip :- ProcessStrip(mem, StripDecoder(mem), h, DlistSite(h), 0);
    CacheSingleStrip(lib.stripCache, strip);
    Ok(PlaceDlistStrip(lib, h, strip))
  }

  /** The display-list strip is the record at its handle, parented at its own
      Object, decoded by `PreProcessVertices` under the name `None_0_0_0`. */
  lemma DlistStripDecoded(mem: Memory, lib: MeshLibrary, h: Handle)
    requires CacheDlistStrip(mem, lib, h).Ok?
    ensures var s := CacheDlistStrip(mem, lib, h).value.objectCache[h].strips[0];
      && s.raw == h
      && h in mem.strips
      && s.parent == OfObject(DlistObject(h))
      && PreProcessVertices(mem.vifEndCode, mem.strips[h], "None_0_0_0") == Ok(s.mesh)
      && s.mesh.name == "None_0_0_0"
  {
    DlistStripName();
  }

  /** Caching a display-list strip twice is the same as caching it once. */
  lemma CacheDlistStripIdempotent(mem: Memory, lib: MeshLibrary, h: Handle)
    requires CacheDlistStrip(mem, lib, h).Ok?
    ensures CacheDlistStrip(mem, CacheDlistStrip(mem, lib, h).value, h) == CacheDlistStrip(mem, lib, h)
  {
    var strip := ProcessStrip(mem, StripDecoder(mem), h, DlistSite(h), 0).value;
    PlaceDlistStripIdempotent(lib, h, strip);
  }

  lemma PlaceDlistStripIdempotent(lib: MeshLibrary, h: Handle, strip: Strip)
    ensures PlaceDlistStrip(PlaceDlistStrip(lib, h, strip), h, strip) == PlaceDlistStrip(lib, h, strip)
  {
    CacheSingleStrip(lib.stripCache, strip);
    CacheSingleStrip(PlaceDlistStrip(lib, h, strip).stripCache, strip);
  }

  /** Caching a display-list strip keeps the library valid. */
  lemma CacheDlistStripKeepsValid(mem: Memory, lib: MeshLibrary, h: Handle)
    requires Valid(lib)
    requires CacheDlistStrip(mem, lib, h).Ok?
    ensures Valid(CacheDlistStrip(mem, lib, h).value)
  {
  }

  /** In a valid library, every strip of a loaded asset is found, and what is
      found is filed under that strip's handle. */
  lemma FindStripOfLoadedAsset(lib: MeshLibrary, i: nat, h: Handle)
    requires Valid(lib)
    requires i < |lib.meshes| && InG3D(lib.meshes[i], h)
    ensures FindStrip(lib, h).Ok? && FindStrip(lib, h).value.raw == h
  {
  }

  /** `ForEach` (Mesh.h:107-113): calls `f` once per loaded asset, in load order. */
  method ForEach<R>(lib: MeshLibrary, f: G3D -> R) returns (calls: seq<R>)
    ensures |calls| == GetMeshCount(lib)
    ensures forall i :: 0 <= i < |lib.meshes| ==> calls[i] == f(lib.meshes[i])
  {
    calls := [];
    var i := 0;
    while i < |lib.meshes|
      invariant 0 <= i <= |lib.meshes|
      invariant |calls| == i
      invariant forall j :: 0 <= j < i ==> calls[j] == f(lib.meshes[j])
    {
      calls := calls + [f(lib.meshes[i])];
      i := i + 1;
    }
  }
}

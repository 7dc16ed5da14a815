/** The decoded scene graph of one asset (Mesh.h:23-95) and the strip cache
    (Mesh.cpp:21-22, Mesh.cpp:252-257, Mesh.cpp:295-300).

    The source links children to parents with raw back-pointers. Here an Object
    names its place by position (`LodSlot`), a Strip names its owner kind, and a
    Hierarchy's parent, always the asset itself, is left implicit. The strip
    cache maps a raw strip handle to a copy of the decoded strip.
 */
module Scene {
  import opened Faults
  import opened RawAsset
  import opened Decode

  /** Where a Lod sits: in the asset's own hierarchies or the cluster's, at
      hierarchy position `hierarchy` and lod position `lod` of those vectors. */
  datatype LodSlot = LodSlot(inCluster: bool, hierarchy: nat, lod: nat)

  /** A strip-owning Object: the one of the Lod at a slot, or a free-standing
      display-list Object keyed by its strip handle. */
  datatype ObjectId = LodObject(slot: LodSlot) | DlistObject(key: Handle)

  /** The owner a strip's `pParent` points at: an Object or the cluster. */
  datatype StripParent = OfObject(id: ObjectId) | OfCluster

  /** `G3D::Strip` (Mesh.h:27-34), as the walk builds it: every strip it keeps
      has its record, its owner and its decoded mesh. */
  datatype Strip = Strip(raw: Handle, parent: StripParent, mesh: DecodedMesh)

  /** `G3D::Hierarchy::Lod::Object` (Mesh.h:38-45). */
  datatype Object = Object(raw: Option<RawObject>, parent: Option<LodSlot>, strips: seq<Strip>)

  /** A default-constructed Object: no record, no parent, no strips (Mesh.h:42-44). */
  const DefaultObject := Object(None, None, [])

  /** `G3D::Hierarchy::Lod`, which holds exactly one Object by value (Mesh.h:37-52). */
  datatype Lod = Lod(raw: RawLod, obj: Object)

  /** `G3D::Hierarchy` (Mesh.h:36-59). */
  datatype Hierarchy = Hierarchy(raw: RawHierarchy, lods: seq<Lod>)

  /** `G3D::Cluster`, with its own strips and its own sub-hierarchies (Mesh.h:61-71). */
  datatype Cluster = Cluster(raw: Option<RawCluster>, strips: seq<Strip>, hierarchies: seq<Hierarchy>)

  const EmptyCluster := Cluster(None, [], [])

  /** `G3D` (Mesh.h:23-95). */
  datatype G3D = G3D(name: string, manager: RawManager, hierarchies: seq<Hierarchy>, cluster: Cluster)

  /** `GetHierarchies` returns the top-level hierarchies only (Mesh.h:81). */
  function GetHierarchies(g: G3D): seq<Hierarchy> {
    g.hierarchies
  }

  /** `gStripCache`: raw strip handle to decoded strip. */
  type StripCache = map<Handle, Strip>

  /** Every entry is filed under its own strip's raw handle. */
  ghost predicate Coherent(cache: StripCache) {
    forall h :: h in cache ==> cache[h].raw == h
  }

  /** Strip k is the last one in `strips` with its raw handle. */
  ghost predicate LastWithHandle(strips: seq<Strip>, k: nat)
    requires k < |strips|
  {
    forall i :: k < i < |strips| ==> strips[i].raw != strips[k].raw
  }

  ghost function Handles(strips: seq<Strip>): set<Handle> {
    set i | 0 <= i < |strips| :: strips[i].raw
  }

  /** `CacheStrips` (Mesh.cpp:252-257, Mesh.cpp:295-300): files every strip
      under its raw handle, in order, so that a later strip with the same handle
      replaces an earlier one. */
  function CacheStrips(cache: StripCache, strips: seq<Strip>): (r: StripCache)
    ensures r.Keys == cache.Keys + Handles(strips)
    ensures forall h :: h in cache && h !in Handles(strips) ==> r[h] == cache[h]
    ensures forall k :: 0 <= k < |strips| && LastWithHandle(strips, k) ==> r[strips[k].raw] == strips[k]
    ensures Coherent(cache) ==> Coherent(r)
  {
    if |strips| == 0 then cache
    else
      var init := strips[..|strips| - 1];
      var last := strips[|strips| - 1];
      HandlesSnoc(strips);
      LastWithHandleInit(strips);
      CacheStrips(cache, init)[last.raw := last]
  }

  lemma HandlesSnoc(strips: seq<Strip>)
    requires |strips| > 0
    ensures Handles(strips) == Handles(strips[..|strips| - 1]) + {strips[|strips| - 1].raw}
  {
    var init := strips[..|strips| - 1];
    assert forall i :: 0 <= i < |init| ==> init[i] == strips[i];
  }

  /** A strip last with its handle in a sequence is also last with it in any prefix holding it. */
  lemma LastWithHandleInit(strips: seq<Strip>)
    requires |strips| > 0
    ensures forall k :: 0 <= k < |strips| - 1 && LastWithHandle(strips, k) ==> LastWithHandle(strips[..|strips| - 1], k)
  {
  }

  /** Caching a single strip files it under its handle and changes nothing else. */
  lemma CacheSingleStrip(cache: StripCache, s: Strip)
    ensures CacheStrips(cache, [s]) == cache[s.raw := s]
  {
    assert [s][..0] == [];
  }

  /** Every strip of a sequence has a cache entry. */
  ghost predicate StripsCached(strips: seq<Strip>, cache: StripCache) {
    forall i :: 0 <= i < |strips| ==> strips[i].raw in cache
  }

  ghost predicate LodsCached(lods: seq<Lod>, cache: StripCache) {
    forall i :: 0 <= i < |lods| ==> StripsCached(lods[i].obj.strips, cache)
  }

  ghost predicate HierarchiesCached(hs: seq<Hierarchy>, cache: StripCache) {
    forall i :: 0 <= i < |hs| ==> LodsCached(hs[i].lods, cache)
  }

  /** Every strip anywhere in an asset has a cache entry. */
  ghost predicate G3DCached(g: G3D, cache: StripCache) {
    && HierarchiesCached(g.hierarchies, cache)
    && StripsCached(g.cluster.strips, cache)
    && HierarchiesCached(g.cluster.hierarchies, cache)
  }

  /** Every strip anywhere in an asset: the handles `FindStrip` must answer for. */
  ghost predicate InG3D(g: G3D, h: Handle) {
    || (exists i, l, s :: 0 <= i < |g.hierarchies| && 0 <= l < |g.hierarchies[i].lods|
          && 0 <= s < |g.hierarchies[i].lods[l].obj.strips|
          && g.hierarchies[i].lods[l].obj.strips[s].raw == h)
    || (exists s :: 0 <= s < |g.cluster.strips| && g.cluster.strips[s].raw == h)
    || (exists i, l, s :: 0 <= i < |g.cluster.hierarchies| && 0 <= l < |g.cluster.hierarchies[i].lods|
          && 0 <= s < |g.cluster.hierarchies[i].lods[l].obj.strips|
          && g.cluster.hierarchies[i].lods[l].obj.strips[s].raw == h)
  }

  lemma G3DCachedHandles(g: G3D, cache: StripCache, h: Handle)
    requires G3DCached(g, cache)
    requires InG3D(g, h)
    ensures h in cache
  {
    if exists i, l, s :: 0 <= i < |g.hierarchies| && 0 <= l < |g.hierarchies[i].lods|
          && 0 <= s < |g.hierarchies[i].lods[l].obj.strips|
          && g.hierarchies[i].lods[l].obj.strips[s].raw == h {
      var i, l, s :| 0 <= i < |g.hierarchies| && 0 <= l < |g.hierarchies[i].lods|
          && 0 <= s < |g.hierarchies[i].lods[l].obj.strips|
          && g.hierarchies[i].lods[l].obj.strips[s].raw == h;
      assert LodsCached(g.hierarchies[i].lods, cache);
      assert StripsCached(g.hierarchies[i].lods[l].obj.strips, cache);
    } else if exists s :: 0 <= s < |g.cluster.strips| && g.cluster.strips[s].raw == h {
    } else {
      var i, l, s :| 0 <= i < |g.cluster.hierarchies| && 0 <= l < |g.cluster.hierarchies[i].lods|
          && 0 <= s < |g.cluster.hierarchies[i].lods[l].obj.strips|
          && g.cluster.hierarchies[i].lods[l].obj.strips[s].raw == h;
      assert LodsCached(g.cluster.hierarchies[i].lods, cache);
      assert StripsCached(g.cluster.hierarchies[i].lods[l].obj.strips, cache);
    }
  }

  lemma StripsCachedGrow(strips: seq<Strip>, c: StripCache, c': StripCache)
    requires StripsCached(strips, c) && c.Keys <= c'.Keys
    ensures StripsCached(strips, c')
  {
  }

  lemma LodsCachedGrow(lods: seq<Lod>, c: StripCache, c': StripCache)
    requires LodsCached(lods, c) && c.Keys <= c'.Keys
    ensures LodsCached(lods, c')
  {
    forall i | 0 <= i < |lods|
      ensures StripsCached(lods[i].obj.strips, c')
    {
      StripsCachedGrow(lods[i].obj.strips, c, c');
    }
  }

  lemma HierarchiesCachedGrow(hs: seq<Hierarchy>, c: StripCache, c': StripCache)
    requires HierarchiesCached(hs, c) && c.Keys <= c'.Keys
    ensures HierarchiesCached(hs, c')
  {
    forall i | 0 <= i < |hs|
      ensures LodsCached(hs[i].lods, c')
    {
      LodsCachedGrow(hs[i].lods, c, c');
    }
  }

  /** A Lod at a slot: a Lod without an object chunk keeps the default Object;
      otherwise its Object points back at the slot and owns its strips. */
  ghost predicate LodAt(lod: Lod, slot: LodSlot) {
    && (lod.obj.raw.None? ==> lod.obj == DefaultObject)
    && (lod.obj.raw.Some? ==>
          && lod.obj.parent == Some(slot)
          && forall s :: 0 <= s < |lod.obj.strips| ==> lod.obj.strips[s].parent == OfObject(LodObject(slot)))
  }

  ghost predicate HierarchyAt(h: Hierarchy, inCluster: bool, position: nat) {
    forall l :: 0 <= l < |h.lods| ==> LodAt(h.lods[l], LodSlot(inCluster, position, l))
  }

  ghost predicate HierarchiesAt(hs: seq<Hierarchy>, inCluster: bool) {
    forall i :: 0 <= i < |hs| ==> HierarchyAt(hs[i], inCluster, i)
  }

  /** The cluster's own strips point at it, and its sub-hierarchies' Lods at their slots. */
  ghost predicate ClusterParented(c: Cluster) {
    && HierarchiesAt(c.hierarchies, true)
    && forall s :: 0 <= s < |c.strips| ==> c.strips[s].parent == OfCluster
  }

  /** Every back-reference in an asset names the container that holds it. */
  ghost predicate WellParented(g: G3D) {
    && HierarchiesAt(g.hierarchies, false)
    && ClusterParented(g.cluster)
  }
}

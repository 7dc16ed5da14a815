/** The tree walker: the `G3D` constructor and everything it calls
    (Mesh.cpp:52-69, Mesh.cpp:224-250, Mesh.cpp:259-293, Mesh.cpp:302-488).

    Each step returns what it built together with the strip cache after it, so
    the global `gStripCache` is threaded through the walk in source order.
 */
module Walker {
  import opened Faults
  import opened RawAsset
  import opened Decode
  import opened Naming
  import opened Scene

  /** A built value together with the strip cache after building it. */
  datatype Built<T> = Built(item: T, cache: StripCache)

  /** The per-strip decoder the walk runs, given the strip record, where the
      strip sits and its index in its strip list. */
  type Decoder = (RawStrip, Site, nat) -> Result<DecodedMesh>

  /** The decoder of the source: `Strip::PreProcessVertices` under the
      memory's VIF end code, on the display name of the strip's place. */
  function StripDecoder(mem: Memory): Decoder {
    (raw: RawStrip, site: Site, stripIndex: nat) => PreProcessVertices(mem.vifEndCode, raw, site.Name(stripIndex))
  }

  /** Where a strip is decoded, which fixes its display name and its parent. */
  datatype Site =
    | ObjectSite(owner: Option<string>, hierarchyIndex: nat, lodIndex: nat, id: ObjectId)
    | ClusterSite(assetName: string)
  {
    function Name(stripIndex: nat): string {
      match this
      case ObjectSite(owner, h, l, _) => ObjectStripName(owner, h, l, stripIndex)
      case ClusterSite(assetName) => ClusterStripName(assetName, stripIndex)
    }

    function Parent(): StripParent {
      match this
      case ObjectSite(_, _, _, id) => OfObject(id)
      case ClusterSite(_) => OfCluster
    }
  }

  /** `Object::ProcessStrip` (Mesh.cpp:264-293) and `Cluster::ProcessStrip`
      (Mesh.cpp:224-250): a Strip for the record at h, parented at the site and
      owning the mesh decoded under the site's name. */
  function ProcessStrip(mem: Memory, decode: Decoder, h: Handle, site: Site, stripIndex: nat): (r: Result<Strip>)
    ensures h == Null ==> r == Err(NullStrip)
    ensures h != Null && h !in mem.strips ==> r == Err(OutsideModelledMemory)
    ensures site.ClusterSite? && h != Null && h in mem.strips && mem.strips[h].meshCount <= 0 ==>
      r == Err(EmptyClusterStrip)
    ensures r.Ok? ==>
      && h in mem.strips
      && r.value.raw == h
      && r.value.parent == site.Parent()
      && decode(mem.strips[h], site, stripIndex) == Ok(r.value.mesh)
    ensures h != Null && h in mem.strips && !(site.ClusterSite? && mem.strips[h].meshCount <= 0) ==>
      var d := decode(mem.strips[h], site, stripIndex);
      && (d.Ok? ==> r == Ok(Strip(h, site.Parent(), d.value)))
      && (d.Err? ==> r == Err(d.fault))
  {
    if h == Null then Err(NullStrip)
    else if h !in mem.strips then Err(OutsideModelledMemory)
    else if site.ClusterSite? && mem.strips[h].meshCount <= 0 then Err(EmptyClusterStrip)
    else
      var mesh :- decode(mem.strips[h], site, stripIndex);
      Ok(Strip(h, site.Parent(), mesh))
  }

  /** How many strips a loop `while (stripIndex < count)` decodes. */
  function RunLength(count: int, stripIndex: nat): nat {
    if count > stripIndex then count - stripIndex else 0
  }

  /** s is a Strip for the record at `s.raw`, parented at the site, whose mesh
      is what `decode` makes of the record as strip `stripIndex` of the site. */
  ghost predicate DecodedAs(mem: Memory, decode: Decoder, site: Site, stripIndex: nat, s: Strip) {
    && s.raw in mem.strips
    && s.parent == site.Parent()
    && decode(mem.strips[s.raw], site, stripIndex) == Ok(s.mesh)
  }

  /** The handle k steps along the `pNext` chain from h, when the chain stays
      inside the modelled memory that far. */
  function ChainAt(mem: Memory, h: Handle, k: nat): Option<Handle>
    decreases k
  {
    if k == 0 then Some(h)
    else if h in mem.strips then ChainAt(mem, mem.strips[h].next, k - 1)
    else None
  }

  /** Every strip a loop from index `stripIndex` to `count` visits along the
      `pNext` chain from h is processed without failure. */
  ghost predicate RunDecodes(mem: Memory, decode: Decoder, h: Handle, count: int, stripIndex: nat, site: Site) {
    forall k :: 0 <= k < RunLength(count, stripIndex) ==>
      ChainAt(mem, h, k).Some? && ProcessStrip(mem, decode, ChainAt(mem, h, k).value, site, stripIndex + k).Ok?
  }

  /** A run decodes exactly when its first strip does and the run from the
      next strip on does. */
  lemma RunDecodesCons(mem: Memory, decode: Decoder, h: Handle, count: int, stripIndex: nat, site: Site)
    requires count > stripIndex
    ensures RunDecodes(mem, decode, h, count, stripIndex, site) <==>
      && ProcessStrip(mem, decode, h, site, stripIndex).Ok?
      && h in mem.strips
      && RunDecodes(mem, decode, mem.strips[h].next, count, stripIndex + 1, site)
  {
    if RunDecodes(mem, decode, h, count, stripIndex, site) {
      assert ChainAt(mem, h, 0) == Some(h);
      forall k | 0 <= k < RunLength(count, stripIndex + 1)
        ensures ChainAt(mem, mem.strips[h].next, k).Some?
        ensures ProcessStrip(mem, decode, ChainAt(mem, mem.strips[h].next, k).value, site, stripIndex + 1 + k).Ok?
      {
        assert ChainAt(mem, h, k + 1) == ChainAt(mem, mem.strips[h].next, k);
        assert stripIndex + (k + 1) == stripIndex + 1 + k;
      }
    }
    if ProcessStrip(mem, decode, h, site, stripIndex).Ok? && h in mem.strips
       && RunDecodes(mem, decode, mem.strips[h].next, count, stripIndex + 1, site) {
      forall k | 0 <= k < RunLength(count, stripIndex)
        ensures ChainAt(mem, h, k).Some?
        ensures ProcessStrip(mem, decode, ChainAt(mem, h, k).value, site, stripIndex + k).Ok?
      {
        if k > 0 {
          assert ChainAt(mem, h, k) == ChainAt(mem, mem.strips[h].next, k - 1);
          assert stripIndex + 1 + (k - 1) == stripIndex + k;
        }
      }
    }
  }

  /** The strip loops of `Lod::ProcessObject` (Mesh.cpp:308-317) and
      `G3D::ProcessCluster` (Mesh.cpp:409-420): decode strips along the `pNext`
      chain from h while `stripIndex < count`. */
  function StripRun(mem: Memory, decode: Decoder, h: Handle, count: int, stripIndex: nat, site: Site): (r: Result<seq<Strip>>)
    decreases RunLength(count, stripIndex)
    ensures r.Ok? ==> |r.value| == RunLength(count, stripIndex)
    ensures r.Ok? && |r.value| > 0 ==> r.value[0].raw == h
    ensures r.Ok? ==> forall k :: 0 <= k < |r.value| - 1 ==>
      r.value[k].raw in mem.strips && r.value[k + 1].raw == mem.strips[r.value[k].raw].next
    ensures r.Ok? ==> forall k :: 0 <= k < |r.value| ==> r.value[k].parent == site.Parent()
    ensures r.Ok? <==> RunDecodes(mem, decode, h, count, stripIndex, site)
  {
    if count <= stripIndex then Ok([])
    else
      RunDecodesCons(mem, decode, h, count, stripIndex, site);
      var strip :- ProcessStrip(mem, decode, h, site, stripIndex);
      var rest :- StripRun(mem, decode, mem.strips[h].next, count, stripIndex + 1, site);
      Ok([strip] + rest)
  }

  /** Strip k of a run is the record it was read from, decoded as strip
      `stripIndex + k` of the site. */
  lemma {:induction false} StripRunDecodes(mem: Memory, decode: Decoder, h: Handle, count: int, stripIndex: nat, site: Site)
    requires StripRun(mem, decode, h, count, stripIndex, site).Ok?
    ensures var strips := StripRun(mem, decode, h, count, stripIndex, site).value;
      forall k :: 0 <= k < |strips| ==> DecodedAs(mem, decode, site, stripIndex + k, strips[k])
    decreases RunLength(count, stripIndex)
  {
    if count > stripIndex {
      var strip := ProcessStrip(mem, decode, h, site, stripIndex).value;
      var rest := StripRun(mem, decode, mem.strips[h].next, count, stripIndex + 1, site).value;
      StripRunDecodes(mem, decode, mem.strips[h].next, count, stripIndex + 1, site);
      ConsDecodes(mem, decode, site, stripIndex, strip, rest);
    }
  }

  /** A run stays decoded when a strip decoded at the index just before it is put in front. */
  lemma ConsDecodes(mem: Memory, decode: Decoder, site: Site, stripIndex: nat, strip: Strip, rest: seq<Strip>)
    requires DecodedAs(mem, decode, site, stripIndex, strip)
    requires forall k :: 0 <= k < |rest| ==> DecodedAs(mem, decode, site, stripIndex + 1 + k, rest[k])
    ensures forall k :: 0 <= k < |rest| + 1 ==> DecodedAs(mem, decode, site, stripIndex + k, ([strip] + rest)[k])
  {
    forall k | 0 <= k < |rest| + 1
      ensures DecodedAs(mem, decode, site, stripIndex + k, ([strip] + rest)[k])
    {
      if k > 0 {
        assert ([strip] + rest)[k] == rest[k - 1];
        assert DecodedAs(mem, decode, site, stripIndex + 1 + (k - 1), rest[k - 1]);
      }
    }
  }

  /** `strips` is a run of `count` strips along the `pNext` chain from h,
      strip k being its record decoded as strip k of the site. */
  ghost predicate IsRun(mem: Memory, decode: Decoder, h: Handle, count: nat, site: Site, strips: seq<Strip>) {
    && |strips| == count
    && (count > 0 ==> strips[0].raw == h)
    && (forall k :: 0 <= k < |strips| - 1 ==>
          strips[k].raw in mem.strips && strips[k + 1].raw == mem.strips[strips[k].raw].next)
    && (forall k :: 0 <= k < |strips| ==> DecodedAs(mem, decode, site, k, strips[k]))
  }

  /** A strip loop started at index 0 builds a run. */
  lemma StripRunIsRun(mem: Memory, decode: Decoder, h: Handle, count: int, site: Site)
    requires StripRun(mem, decode, h, count, 0, site).Ok?
    ensures IsRun(mem, decode, h, RunLength(count, 0), site, StripRun(mem, decode, h, count, 0, site).value)
  {
    var strips := StripRun(mem, decode, h, count, 0, site).value;
    StripRunDecodes(mem, decode, h, count, 0, site);
    forall k | 0 <= k < |strips|
      ensures DecodedAs(mem, decode, site, k, strips[k])
    {
      assert DecodedAs(mem, decode, site, 0 + k, strips[k]);
    }
  }

  /** Under the source's decoder, strip k of a run holds what
      `PreProcessVertices` makes of its record under the site's name for k. */
  lemma RunStripDecoded(mem: Memory, h: Handle, count: nat, site: Site, strips: seq<Strip>, k: nat)
    requires IsRun(mem, StripDecoder(mem), h, count, site, strips)
    requires k < |strips|
    ensures strips[k].raw in mem.strips && strips[k].parent == site.Parent()
    ensures PreProcessVertices(mem.vifEndCode, mem.strips[strips[k].raw], site.Name(k)) == Ok(strips[k].mesh)
    ensures strips[k].mesh.name == site.Name(k)
  {
    assert DecodedAs(mem, StripDecoder(mem), site, k, strips[k]);
  }

  /** Where the strips of the Object at `slot` are decoded: under the asset
      name, hierarchy index and lod index the walk passed down. */
  function ObjectSiteOf(owner: string, hierarchyIndex: nat, lodIndex: nat, slot: LodSlot): Site {
    ObjectSite(Some(owner), hierarchyIndex, lodIndex, LodObject(slot))
  }

  /** o is what `ProcessObject` makes of `raw` at `slot`: it points back at the
      record and the slot, and holds no strips when the record has no strip
      data, or else the run of `stripCount` strips from its first strip. */
  ghost predicate ObjectBuilt(mem: Memory, decode: Decoder, owner: string, hierarchyIndex: nat, lodIndex: nat,
                              slot: LodSlot, raw: RawObject, o: Object) {
    && o.raw == Some(raw)
    && o.parent == Some(slot)
    && (raw.firstStrip == Null ==> o.strips == [])
    && (raw.firstStrip != Null ==>
          IsRun(mem, decode, raw.firstStrip, RunLength(raw.stripCount, 0), ObjectSiteOf(owner, hierarchyIndex, lodIndex, slot), o.strips))
  }

  /** `Lod::ProcessObject` (Mesh.cpp:302-321): the Object of the Lod at `slot`
      receives the strips of the record's strip list, in `pNext` order and
      named by their position in it, and caches them once all are decoded. */
  function ProcessObject(mem: Memory, decode: Decoder, cache: StripCache, raw: RawObject, owner: string,
                         hierarchyIndex: nat, lodIndex: nat, slot: LodSlot): (r: Result<Built<Object>>)
    ensures raw.firstStrip == Null ==> r == Ok(Built(Object(Some(raw), Some(slot), []), cache))
    ensures raw.firstStrip != Null ==>
      (r.Ok? <==> StripRun(mem, decode, raw.firstStrip, raw.stripCount, 0, ObjectSiteOf(owner, hierarchyIndex, lodIndex, slot)).Ok?)
    ensures r.Ok? ==> ObjectBuilt(mem, decode, owner, hierarchyIndex, lodIndex, slot, raw, r.value.item)
    ensures r.Ok? ==> r.value.cache == CacheStrips(cache, r.value.item.strips)
  {
    if raw.firstStrip == Null then Ok(Built(Object(Some(raw), Some(slot), []), cache))
    else
      var site := ObjectSiteOf(owner, hierarchyIndex, lodIndex, slot);
      var strips :- StripRun(mem, decode, raw.firstStrip, raw.stripCount, 0, site);
      StripRunIsRun(mem, decode, raw.firstStrip, raw.stripCount, site);
      Ok(Built(Object(Some(raw), Some(slot), strips), CacheStrips(cache, strips)))
  }

  /** Strip k of a built Object is its record decoded by `PreProcessVertices`
      under the name `<owner>_<hierarchy>_<lod>_<k>`. */
  lemma ObjectStripsDecoded(mem: Memory, owner: string, hierarchyIndex: nat, lodIndex: nat, slot: LodSlot,
                            raw: RawObject, o: Object, k: nat)
    requires ObjectBuilt(mem, StripDecoder(mem), owner, hierarchyIndex, lodIndex, slot, raw, o)
    requires k < |o.strips|
    ensures var s := o.strips[k];
      var name := ObjectStripName(Some(owner), hierarchyIndex, lodIndex, k);
      && s.raw in mem.strips
      && PreProcessVertices(mem.vifEndCode, mem.strips[s.raw], name) == Ok(s.mesh)
      && s.mesh.name == name
  {
    RunStripDecoded(mem, raw.firstStrip, RunLength(raw.stripCount, 0), ObjectSiteOf(owner, hierarchyIndex, lodIndex, slot), o.strips, k);
  }

  /** The walk kept the cache growing and coherent. */
  ghost predicate Grows(before: StripCache, after: StripCache) {
    && before.Keys <= after.Keys
    && (Coherent(before) ==> Coherent(after))
  }

  /** lod is what `ProcessLod` adds for a lod record whose object hash pointer
      is set: the default Object when the hash entry has no data, and
      otherwise the Object built from its OBJ chunk. */
  ghost predicate LodBuilt(mem: Memory, decode: Decoder, owner: string, hierarchyIndex: nat, lodIndex: nat,
                           slot: LodSlot, raw: RawLod, lod: Lod) {
    && raw.ObjectHash?
    && lod.raw == raw
    && (raw.chunk.None? ==> lod.obj == DefaultObject)
    && (raw.chunk.Some? ==> ObjectBuilt(mem, decode, owner, hierarchyIndex, lodIndex, slot, raw.chunk.value, lod.obj))
  }

  /** Building the Lod for `raw` at `slot` cannot fail unless it decodes a
      strip run, and then it succeeds exactly when that run decodes. */
  ghost predicate LodDecodes(mem: Memory, decode: Decoder, raw: RawLod, owner: string,
                             hierarchyIndex: nat, lodIndex: nat, slot: LodSlot) {
    raw.ObjectHash? && raw.chunk.Some? && raw.chunk.value.firstStrip != Null ==>
      RunDecodes(mem, decode, raw.chunk.value.firstStrip, raw.chunk.value.stripCount, 0,
                 ObjectSiteOf(owner, hierarchyIndex, lodIndex, slot))
  }

  /** `Hierarchy::ProcessLod` (Mesh.cpp:323-347): a Lod is added only when its
      object hash pointer is set; its Object is decoded only when the hash
      entry's data pointer is set too, and otherwise stays default. */
  function ProcessLod(mem: Memory, decode: Decoder, cache: StripCache, raw: RawLod, owner: string,
                      hierarchyIndex: nat, lodIndex: nat, slot: LodSlot): (r: Result<Built<Option<Lod>>>)
    ensures raw.NoObject? ==> r == Ok(Built(None, cache))
    ensures raw.ObjectHash? && raw.chunk.None? ==> r == Ok(Built(Some(Lod(raw, DefaultObject)), cache))
    ensures raw.ObjectHash? && raw.chunk.Some? ==>
      (r.Ok? <==> ProcessObject(mem, decode, cache, raw.chunk.value, owner, hierarchyIndex, lodIndex, slot).Ok?)
    ensures r.Ok? <==> LodDecodes(mem, decode, raw, owner, hierarchyIndex, lodIndex, slot)
    ensures r.Ok? ==> Grows(cache, r.value.cache)
    ensures r.Ok? && raw.ObjectHash? ==>
      && r.value.item.Some?
      && LodBuilt(mem, decode, owner, hierarchyIndex, lodIndex, slot, raw, r.value.item.value)
      && LodAt(r.value.item.value, slot)
      && r.value.cache == CacheStrips(cache, r.value.item.value.obj.strips)
      && StripsCached(r.value.item.value.obj.strips, r.value.cache)
  {
    match raw
    case NoObject => Ok(Built(None, cache))
    case ObjectHash(chunk) =>
      if chunk.None? then Ok(Built(Some(Lod(raw, DefaultObject)), cache))
      else
        var b :- ProcessObject(mem, decode, cache, chunk.value, owner, hierarchyIndex, lodIndex, slot);
        Ok(Built(Some(Lod(raw, b.item)), b.cache))
  }

  /** The indices, from i on, of the lod records whose object hash pointer is
      set, in increasing order. */
  function ObjectLodIndices(raws: seq<RawLod>, i: nat): (r: seq<nat>)
    requires i <= |raws|
    decreases |raws| - i
    ensures forall p :: 0 <= p < |r| ==> i <= r[p] < |raws| && raws[r[p]].ObjectHash?
    ensures forall j :: i <= j < |raws| && raws[j].ObjectHash? ==> j in r
    ensures forall p, q :: 0 <= p < q < |r| ==> r[p] < r[q]
  {
    if i == |raws| then []
    else (if raws[i].ObjectHash? then [i] else []) + ObjectLodIndices(raws, i + 1)
  }

  /** Lod p of `lods` was built from lod record `indices[p]`, under that raw
      lod index, and sits at lod position `position + p` of the hierarchy at
      `hierarchyPosition`. */
  ghost predicate LodsFrom(mem: Memory, decode: Decoder, owner: string, hierarchyIndex: nat,
                           lods: seq<Lod>, raws: seq<RawLod>, indices: seq<nat>,
                           inCluster: bool, hierarchyPosition: nat, position: nat) {
    && |lods| == |indices|
    && forall p :: 0 <= p < |lods| ==>
      && indices[p] < |raws|
      && LodBuilt(mem, decode, owner, hierarchyIndex, indices[p], LodSlot(inCluster, hierarchyPosition, position + p),
                  raws[indices[p]], lods[p])
      && LodAt(lods[p], LodSlot(inCluster, hierarchyPosition, position + p))
  }

  lemma LodsFromAppend(mem: Memory, decode: Decoder, owner: string, hierarchyIndex: nat,
                       a: seq<Lod>, ia: seq<nat>, b: seq<Lod>, ib: seq<nat>, raws: seq<RawLod>,
                       inCluster: bool, hierarchyPosition: nat, position: nat)
    requires LodsFrom(mem, decode, owner, hierarchyIndex, a, raws, ia, inCluster, hierarchyPosition, position)
    requires LodsFrom(mem, decode, owner, hierarchyIndex, b, raws, ib, inCluster, hierarchyPosition, position + |a|)
    ensures LodsFrom(mem, decode, owner, hierarchyIndex, a + b, raws, ia + ib, inCluster, hierarchyPosition, position)
  {
    forall p | |a| <= p < |a + b|
      ensures (a + b)[p] == b[p - |a|] && (ia + ib)[p] == ib[p - |a|]
      ensures position + p == position + |a| + (p - |a|)
    {
    }
  }

  lemma LodsCachedAppend(a: seq<Lod>, b: seq<Lod>, cache: StripCache)
    requires LodsCached(a, cache) && LodsCached(b, cache)
    ensures LodsCached(a + b, cache)
  {
    forall p | |a| <= p < |a + b|
      ensures (a + b)[p] == b[p - |a|]
    {
    }
  }

  /** What `ProcessLod` added for record i, as a run of zero or one Lods. */
  lemma LodsFromHead(mem: Memory, decode: Decoder, owner: string, hierarchyIndex: nat, cache: StripCache,
                     b: Built<Option<Lod>>, raws: seq<RawLod>, i: nat,
                     inCluster: bool, hierarchyPosition: nat, position: nat)
    requires i < |raws|
    requires raws[i].NoObject? ==> b.item.None?
    requires raws[i].ObjectHash? ==>
      && b.item.Some?
      && LodBuilt(mem, decode, owner, hierarchyIndex, i, LodSlot(inCluster, hierarchyPosition, position), raws[i], b.item.value)
      && LodAt(b.item.value, LodSlot(inCluster, hierarchyPosition, position))
      && StripsCached(b.item.value.obj.strips, b.cache)
    ensures var added := if b.item.Some? then [b.item.value] else [];
      && ObjectLodIndices(raws, i) == (if raws[i].ObjectHash? then [i] else []) + ObjectLodIndices(raws, i + 1)
      && LodsFrom(mem, decode, owner, hierarchyIndex, added, raws, if raws[i].ObjectHash? then [i] else [],
                  inCluster, hierarchyPosition, position)
      && LodsCached(added, b.cache)
  {
    if raws[i].ObjectHash? {
      assert position + 0 == position;
    }
  }

  /** The Lod for record `indices[p]` decodes at lod position `position + p`
      of the hierarchy at `hierarchyPosition`, for every p. */
  ghost predicate LodsDecode(mem: Memory, decode: Decoder, owner: string, hierarchyIndex: nat,
                             raws: seq<RawLod>, indices: seq<nat>, inCluster: bool, hierarchyPosition: nat, position: nat) {
    forall p :: 0 <= p < |indices| && indices[p] < |raws| ==>
      LodDecodes(mem, decode, raws[indices[p]], owner, hierarchyIndex, indices[p], LodSlot(inCluster, hierarchyPosition, position + p))
  }

  /** Lods decode along two index lists in a row exactly when they decode
      along each, the second one starting where the first one ends. */
  lemma LodsDecodeAppend(mem: Memory, decode: Decoder, owner: string, hierarchyIndex: nat,
                         raws: seq<RawLod>, a: seq<nat>, b: seq<nat>, inCluster: bool, hierarchyPosition: nat, position: nat)
    ensures LodsDecode(mem, decode, owner, hierarchyIndex, raws, a + b, inCluster, hierarchyPosition, position) <==>
      && LodsDecode(mem, decode, owner, hierarchyIndex, raws, a, inCluster, hierarchyPosition, position)
      && LodsDecode(mem, decode, owner, hierarchyIndex, raws, b, inCluster, hierarchyPosition, position + |a|)
  {
    var all := a + b;
    if LodsDecode(mem, decode, owner, hierarchyIndex, raws, all, inCluster, hierarchyPosition, position) {
      forall p | 0 <= p < |a| && a[p] < |raws|
        ensures LodDecodes(mem, decode, raws[a[p]], owner, hierarchyIndex, a[p], LodSlot(inCluster, hierarchyPosition, position + p))
      {
        assert all[p] == a[p];
      }
      forall p | 0 <= p < |b| && b[p] < |raws|
        ensures LodDecodes(mem, decode, raws[b[p]], owner, hierarchyIndex, b[p], LodSlot(inCluster, hierarchyPosition, position + |a| + p))
      {
        assert all[|a| + p] == b[p];
        assert LodDecodes(mem, decode, raws[all[|a| + p]], owner, hierarchyIndex, all[|a| + p],
                          LodSlot(inCluster, hierarchyPosition, position + (|a| + p)));
      }
    }
    if && LodsDecode(mem, decode, owner, hierarchyIndex, raws, a, inCluster, hierarchyPosition, position)
       && LodsDecode(mem, decode, owner, hierarchyIndex, raws, b, inCluster, hierarchyPosition, position + |a|) {
      forall p | 0 <= p < |all| && all[p] < |raws|
        ensures LodDecodes(mem, decode, raws[all[p]], owner, hierarchyIndex, all[p], LodSlot(inCluster, hierarchyPosition, position + p))
      {
        if p >= |a| {
          assert all[p] == b[p - |a|];
          assert LodDecodes(mem, decode, raws[b[p - |a|]], owner, hierarchyIndex, b[p - |a|],
                            LodSlot(inCluster, hierarchyPosition, position + |a| + (p - |a|)));
        } else {
          assert all[p] == a[p];
        }
      }
    }
  }

  /** Record i's Lod decodes at `position` exactly when the index list that
      holds i alone, or nothing when record i adds no Lod, decodes there. */
  lemma LodsDecodeSingle(mem: Memory, decode: Decoder, owner: string, hierarchyIndex: nat,
                         raws: seq<RawLod>, i: nat, head: seq<nat>, inCluster: bool, hierarchyPosition: nat, position: nat)
    requires i < |raws|
    requires head == if raws[i].ObjectHash? then [i] else []
    ensures LodsDecode(mem, decode, owner, hierarchyIndex, raws, head, inCluster, hierarchyPosition, position) <==>
      LodDecodes(mem, decode, raws[i], owner, hierarchyIndex, i, LodSlot(inCluster, hierarchyPosition, position))
  {
    if raws[i].ObjectHash? {
      assert head[0] == i && position + 0 == position;
    }
  }

  /** Lods decode along `all`, record i's index list followed by `rest`,
      exactly when record i's Lod does and those of `rest` do, one position
      further on when record i adds a Lod. */
  lemma LodsDecodeHead(mem: Memory, decode: Decoder, owner: string, hierarchyIndex: nat,
                       raws: seq<RawLod>, i: nat, all: seq<nat>, rest: seq<nat>,
                       inCluster: bool, hierarchyPosition: nat, position: nat)
    requires i < |raws|
    requires all == (if raws[i].ObjectHash? then [i] else []) + rest
    ensures LodsDecode(mem, decode, owner, hierarchyIndex, raws, all, inCluster, hierarchyPosition, position) <==>
      && LodDecodes(mem, decode, raws[i], owner, hierarchyIndex, i, LodSlot(inCluster, hierarchyPosition, position))
      && LodsDecode(mem, decode, owner, hierarchyIndex, raws, rest, inCluster, hierarchyPosition,
                    position + (if raws[i].ObjectHash? then 1 else 0))
  {
    var head: seq<nat> := if raws[i].ObjectHash? then [i] else [];
    LodsDecodeAppend(mem, decode, owner, hierarchyIndex, raws, head, rest, inCluster, hierarchyPosition, position);
    LodsDecodeSingle(mem, decode, owner, hierarchyIndex, raws, i, head, inCluster, hierarchyPosition, position);
  }

  /** The lod loop of `EmplaceHierarchy` (Mesh.cpp:62-68) from lod index i on;
      `position` is how many Lods the hierarchy already holds. */
  function ProcessLods(mem: Memory, decode: Decoder, cache: StripCache, raws: seq<RawLod>, i: nat, owner: string,
                       hierarchyIndex: nat, inCluster: bool, hierarchyPosition: nat, position: nat)
    : (r: Result<Built<seq<Lod>>>)
    requires i <= |raws|
    decreases |raws| - i
    ensures r.Ok? ==> Grows(cache, r.value.cache)
    ensures r.Ok? ==>
      LodsFrom(mem, decode, owner, hierarchyIndex, r.value.item, raws, ObjectLodIndices(raws, i), inCluster, hierarchyPosition, position)
    ensures r.Ok? ==> LodsCached(r.value.item, r.value.cache)
  {
    if i == |raws| then Ok(Built([], cache))
    else
      var slot := LodSlot(inCluster, hierarchyPosition, position);
      var b :- ProcessLod(mem, decode, cache, raws[i], owner, hierarchyIndex, i, slot);
      var added := if b.item.Some? then [b.item.value] else [];
      var rest :- ProcessLods(mem, decode, b.cache, raws, i + 1, owner, hierarchyIndex, inCluster, hierarchyPosition,
                              position + |added|);
      var head: seq<nat> := if raws[i].ObjectHash? then [i] else [];
      LodsFromHead(mem, decode, owner, hierarchyIndex, cache, b, raws, i, inCluster, hierarchyPosition, position);
      LodsFromAppend(mem, decode, owner, hierarchyIndex, added, head, rest.item, ObjectLodIndices(raws, i + 1), raws,
                     inCluster, hierarchyPosition, position);
      LodsCachedGrow(added, b.cache, rest.cache);
      LodsCachedAppend(added, rest.item, rest.cache);
      Ok(Built(added + rest.item, rest.cache))
  }

  /** One step of the lod loop: it succeeds exactly when record i's Lod is
      built and the loop goes on from the next record, one lod position further
      on when a Lod was added. */
  lemma ProcessLodsStep(mem: Memory, decode: Decoder, cache: StripCache, raws: seq<RawLod>, i: nat,
                        owner: string, hierarchyIndex: nat, inCluster: bool, hierarchyPosition: nat, position: nat)
    requires i < |raws|
    ensures var b := ProcessLod(mem, decode, cache, raws[i], owner, hierarchyIndex, i, LodSlot(inCluster, hierarchyPosition, position));
      ProcessLods(mem, decode, cache, raws, i, owner, hierarchyIndex, inCluster, hierarchyPosition, position).Ok? <==>
        && b.Ok?
        && ProcessLods(mem, decode, b.value.cache, raws, i + 1, owner, hierarchyIndex, inCluster, hierarchyPosition,
                       position + (if raws[i].ObjectHash? then 1 else 0)).Ok?
  {
  }

  /** The lod loop from record i on succeeds exactly when every Lod it adds
      decodes at the lod position it is added at. */
  lemma {:induction false} ProcessLodsSucceeds(mem: Memory, decode: Decoder, cache: StripCache, raws: seq<RawLod>, i: nat,
                                               owner: string, hierarchyIndex: nat, inCluster: bool,
                                               hierarchyPosition: nat, position: nat)
    requires i <= |raws|
    ensures ProcessLods(mem, decode, cache, raws, i, owner, hierarchyIndex, inCluster, hierarchyPosition, position).Ok? <==>
      LodsDecode(mem, decode, owner, hierarchyIndex, raws, ObjectLodIndices(raws, i), inCluster, hierarchyPosition, position)
    decreases |raws| - i
  {
    if i < |raws| {
      var slot := LodSlot(inCluster, hierarchyPosition, position);
      var next := position + (if raws[i].ObjectHash? then 1 else 0);
      LodsDecodeHead(mem, decode, owner, hierarchyIndex, raws, i, ObjectLodIndices(raws, i), ObjectLodIndices(raws, i + 1),
                     inCluster, hierarchyPosition, position);
      ProcessLodsStep(mem, decode, cache, raws, i, owner, hierarchyIndex, inCluster, hierarchyPosition, position);
      var b := ProcessLod(mem, decode, cache, raws[i], owner, hierarchyIndex, i, slot);
      if b.Ok? {
        ProcessLodsSucceeds(mem, decode, b.value.cache, raws, i + 1, owner, hierarchyIndex, inCluster, hierarchyPosition, next);
      }
    }
  }

  /** h is what `EmplaceHierarchy` makes of `raw` at vector position
      `position`: one Lod per lod record whose object hash pointer is set, in
      record order, each built under its raw lod index. */
  ghost predicate HierarchyBuilt(mem: Memory, decode: Decoder, owner: string, hierarchyIndex: nat,
                                 inCluster: bool, position: nat, raw: RawHierarchy, h: Hierarchy) {
    && h.raw == raw
    && HierarchyAt(h, inCluster, position)
    && LodsFrom(mem, decode, owner, hierarchyIndex, h.lods, raw.lods, ObjectLodIndices(raw.lods, 0), inCluster, position, 0)
  }

  /** Emplacing `raw` at vector position `position` decodes every Lod it adds. */
  ghost predicate HierarchyDecodes(mem: Memory, decode: Decoder, owner: string, hierarchyIndex: nat,
                                   inCluster: bool, position: nat, raw: RawHierarchy) {
    LodsDecode(mem, decode, owner, hierarchyIndex, raw.lods, ObjectLodIndices(raw.lods, 0), inCluster, position, 0)
  }

  /** `EmplaceHierarchy` (Mesh.cpp:52-69): a Hierarchy for the record at
      vector position `position`, with one Lod per lod record whose object hash
      pointer is set, in record order. */
  function EmplaceHierarchy(mem: Memory, decode: Decoder, cache: StripCache, raw: RawHierarchy, owner: string,
                            hierarchyIndex: nat, inCluster: bool, position: nat): (r: Result<Built<Hierarchy>>)
    ensures r.Ok? ==> Grows(cache, r.value.cache)
    ensures r.Ok? ==> HierarchyBuilt(mem, decode, owner, hierarchyIndex, inCluster, position, raw, r.value.item)
    ensures r.Ok? ==> LodsCached(r.value.item.lods, r.value.cache)
    ensures r.Ok? <==> HierarchyDecodes(mem, decode, owner, hierarchyIndex, inCluster, position, raw)
  {
    ProcessLodsSucceeds(mem, decode, cache, raw.lods, 0, owner, hierarchyIndex, inCluster, position, 0);
    var b :- ProcessLods(mem, decode, cache, raw.lods, 0, owner, hierarchyIndex, inCluster, position, 0);
    assert forall l :: 0 <= l < |b.item| ==> LodAt(b.item[l], LodSlot(inCluster, position, 0 + l));
    Ok(Built(Hierarchy(raw, b.item), b.cache))
  }

  /** Strip k of lod l of a built hierarchy is its record decoded by
      `PreProcessVertices` under `<owner>_<hierarchy index>_<raw lod index>_<k>`. */
  lemma HierarchyStripDecoded(mem: Memory, owner: string, hierarchyIndex: nat, inCluster: bool, position: nat,
                              raw: RawHierarchy, h: Hierarchy, l: nat, k: nat)
    requires HierarchyBuilt(mem, StripDecoder(mem), owner, hierarchyIndex, inCluster, position, raw, h)
    requires l < |h.lods| && k < |h.lods[l].obj.strips|
    ensures l < |ObjectLodIndices(raw.lods, 0)|
    ensures var s := h.lods[l].obj.strips[k];
      var name := ObjectStripName(Some(owner), hierarchyIndex, ObjectLodIndices(raw.lods, 0)[l], k);
      && s.raw in mem.strips
      && PreProcessVertices(mem.vifEndCode, mem.strips[s.raw], name) == Ok(s.mesh)
      && s.mesh.name == name
  {
    var indices := ObjectLodIndices(raw.lods, 0);
    var slot := LodSlot(inCluster, position, 0 + l);
    var lodRaw := raw.lods[indices[l]];
    assert LodBuilt(mem, StripDecoder(mem), owner, hierarchyIndex, indices[l], slot, lodRaw, h.lods[l]);
    ObjectStripsDecoded(mem, owner, hierarchyIndex, indices[l], slot, lodRaw.chunk.value, h.lods[l].obj, k);
  }

  /** Hierarchy p of `hs` was built from record `raws[p].1` under hierarchy
      index `raws[p].0`, and sits at vector position `position + p`. */
  ghost predicate HierarchiesFrom(mem: Memory, decode: Decoder, owner: string, hs: seq<Hierarchy>,
                                  raws: seq<(nat, RawHierarchy)>, inCluster: bool, position: nat) {
    && |hs| == |raws|
    && forall p :: 0 <= p < |hs| ==>
      HierarchyBuilt(mem, decode, owner, raws[p].0, inCluster, position + p, raws[p].1, hs[p])
  }

  /** Hierarchy record `raws[p].1` decodes under index `raws[p].0` at vector
      position `position + p`, for every p. */
  ghost predicate HierarchiesDecode(mem: Memory, decode: Decoder, owner: string,
                                    raws: seq<(nat, RawHierarchy)>, inCluster: bool, position: nat) {
    forall p :: 0 <= p < |raws| ==> HierarchyDecodes(mem, decode, owner, raws[p].0, inCluster, position + p, raws[p].1)
  }

  lemma HierarchiesDecodeCons(mem: Memory, decode: Decoder, owner: string,
                              raw: (nat, RawHierarchy), raws: seq<(nat, RawHierarchy)>, inCluster: bool, position: nat)
    ensures HierarchiesDecode(mem, decode, owner, [raw] + raws, inCluster, position) <==>
      && HierarchyDecodes(mem, decode, owner, raw.0, inCluster, position, raw.1)
      && HierarchiesDecode(mem, decode, owner, raws, inCluster, position + 1)
  {
    var all := [raw] + raws;
    if HierarchiesDecode(mem, decode, owner, all, inCluster, position) {
      assert HierarchyDecodes(mem, decode, owner, all[0].0, inCluster, position + 0, all[0].1);
      forall p | 0 <= p < |raws|
        ensures HierarchyDecodes(mem, decode, owner, raws[p].0, inCluster, position + 1 + p, raws[p].1)
      {
        assert all[p + 1] == raws[p];
        assert HierarchyDecodes(mem, decode, owner, all[p + 1].0, inCluster, position + (p + 1), all[p + 1].1);
      }
    }
    if && HierarchyDecodes(mem, decode, owner, raw.0, inCluster, position, raw.1)
       && HierarchiesDecode(mem, decode, owner, raws, inCluster, position + 1) {
      forall p | 0 <= p < |all|
        ensures HierarchyDecodes(mem, decode, owner, all[p].0, inCluster, position + p, all[p].1)
      {
        if p > 0 {
          assert all[p] == raws[p - 1];
          assert HierarchyDecodes(mem, decode, owner, raws[p - 1].0, inCluster, position + 1 + (p - 1), raws[p - 1].1);
        }
      }
    }
  }

  /** Hierarchies built from position 0 on sit at their own positions. */
  lemma HierarchiesFromAt(mem: Memory, decode: Decoder, owner: string, hs: seq<Hierarchy>,
                          raws: seq<(nat, RawHierarchy)>, inCluster: bool)
    requires HierarchiesFrom(mem, decode, owner, hs, raws, inCluster, 0)
    ensures HierarchiesAt(hs, inCluster)
  {
    forall p | 0 <= p < |hs|
      ensures HierarchyAt(hs[p], inCluster, p)
    {
      assert HierarchyBuilt(mem, decode, owner, raws[p].0, inCluster, 0 + p, raws[p].1, hs[p]);
    }
  }

  lemma HierarchiesCachedAppend(a: seq<Hierarchy>, b: seq<Hierarchy>, cache: StripCache)
    requires HierarchiesCached(a, cache) && HierarchiesCached(b, cache)
    ensures HierarchiesCached(a + b, cache)
  {
    forall p | |a| <= p < |a + b|
      ensures (a + b)[p] == b[p - |a|]
    {
    }
  }

  /** A hierarchy built at `position`, put in front of those built after it. */
  lemma HierarchyCons(mem: Memory, decode: Decoder, owner: string, cache: StripCache,
                      b: Built<Hierarchy>, rest: Built<seq<Hierarchy>>,
                      raw: (nat, RawHierarchy), raws: seq<(nat, RawHierarchy)>, inCluster: bool, position: nat)
    requires Grows(cache, b.cache) && Grows(b.cache, rest.cache)
    requires HierarchyBuilt(mem, decode, owner, raw.0, inCluster, position, raw.1, b.item)
    requires LodsCached(b.item.lods, b.cache)
    requires HierarchiesFrom(mem, decode, owner, rest.item, raws, inCluster, position + 1)
    requires HierarchiesCached(rest.item, rest.cache)
    ensures Grows(cache, rest.cache)
    ensures HierarchiesFrom(mem, decode, owner, [b.item] + rest.item, [raw] + raws, inCluster, position)
    ensures HierarchiesCached([b.item] + rest.item, rest.cache)
  {
    var all := [b.item] + rest.item;
    var allRaws := [raw] + raws;
    forall p | 0 <= p < |all|
      ensures HierarchyBuilt(mem, decode, owner, allRaws[p].0, inCluster, position + p, allRaws[p].1, all[p])
    {
      if p > 0 {
        assert all[p] == rest.item[p - 1] && allRaws[p] == raws[p - 1];
        assert position + 1 + (p - 1) == position + p;
      }
    }
    HierarchiesCachedGrow([b.item], b.cache, rest.cache);
    HierarchiesCachedAppend([b.item], rest.item, rest.cache);
  }

  /** The hierarchies `ProcessHALL` emplaces from index i on, with their
      indices: indices up to `chunkNb - 2`, skipping those the resolver maps
      to null. */
  function ResolvedHierarchies(hall: RawHall, i: nat): seq<(nat, RawHierarchy)>
    decreases RunLength(hall.chunkCount - 1, i)
  {
    if i >= hall.chunkCount - 1 then []
    else if i in hall.resolve then [(i, hall.resolve[i])] + ResolvedHierarchies(hall, i + 1)
    else ResolvedHierarchies(hall, i + 1)
  }

  /** The emplaced hierarchies are resolved indices from i up to
      `chunkNb - 2`, in increasing order, each with the record it resolves to. */
  lemma {:induction false} ResolvedHierarchiesSound(hall: RawHall, i: nat)
    ensures forall p :: 0 <= p < |ResolvedHierarchies(hall, i)| ==>
      var e := ResolvedHierarchies(hall, i)[p];
      i <= e.0 < hall.chunkCount - 1 && e.0 in hall.resolve && e.1 == hall.resolve[e.0]
    ensures forall p, q :: 0 <= p < q < |ResolvedHierarchies(hall, i)| ==>
      ResolvedHierarchies(hall, i)[p].0 < ResolvedHierarchies(hall, i)[q].0
    decreases RunLength(hall.chunkCount - 1, i)
  {
    if i < hall.chunkCount - 1 {
      ResolvedHierarchiesSound(hall, i + 1);
      var rest := ResolvedHierarchies(hall, i + 1);
      if i in hall.resolve {
        var r := [(i, hall.resolve[i])] + rest;
        assert r == ResolvedHierarchies(hall, i);
        assert forall p :: 1 <= p < |r| ==> r[p] == rest[p - 1];
      }
    }
  }

  /** Every index from i up to `chunkNb - 2` that resolves to a hierarchy is emplaced. */
  lemma {:induction false} ResolvedHierarchiesComplete(hall: RawHall, i: nat, j: int)
    requires i <= j < hall.chunkCount - 1 && j in hall.resolve
    ensures exists p :: 0 <= p < |ResolvedHierarchies(hall, i)| && ResolvedHierarchies(hall, i)[p].0 == j
    decreases RunLength(hall.chunkCount - 1, i)
  {
    var r := ResolvedHierarchies(hall, i);
    if j == i {
      assert r[0].0 == j;
    } else {
      ResolvedHierarchiesComplete(hall, i + 1, j);
      var rest := ResolvedHierarchies(hall, i + 1);
      var p :| 0 <= p < |rest| && rest[p].0 == j;
      if i in hall.resolve {
        assert r == [(i, hall.resolve[i])] + rest;
        assert r[p + 1].0 == j;
      } else {
        assert r[p].0 == j;
      }
    }
  }

  /** The loop of `ProcessHALL` (Mesh.cpp:369-391) from index i on. */
  function ProcessHall(mem: Memory, decode: Decoder, cache: StripCache, hall: RawHall, i: nat, owner: string, position: nat)
    : (r: Result<Built<seq<Hierarchy>>>)
    decreases RunLength(hall.chunkCount - 1, i)
    ensures r.Ok? ==> Grows(cache, r.value.cache)
    ensures r.Ok? ==> HierarchiesFrom(mem, decode, owner, r.value.item, ResolvedHierarchies(hall, i), false, position)
    ensures r.Ok? ==> HierarchiesCached(r.value.item, r.value.cache)
    ensures r.Ok? <==> HierarchiesDecode(mem, decode, owner, ResolvedHierarchies(hall, i), false, position)
  {
    if i >= hall.chunkCount - 1 then Ok(Built([], cache))
    else if i in hall.resolve then
      HierarchiesDecodeCons(mem, decode, owner, (i, hall.resolve[i]), ResolvedHierarchies(hall, i + 1), false, position);
      var b :- EmplaceHierarchy(mem, decode, cache, hall.resolve[i], owner, i, false, position);
      var rest :- ProcessHall(mem, decode, b.cache, hall, i + 1, owner, position + 1);
      HierarchyCons(mem, decode, owner, cache, b, rest, (i, hall.resolve[i]), ResolvedHierarchies(hall, i + 1), false, position);
      Ok(Built([b.item] + rest.item, rest.cache))
    else ProcessHall(mem, decode, cache, hall, i + 1, owner, position)
  }

  /** The sub-hierarchy records of a cluster's entries i .. hierCount-1, each
      with its entry index. */
  function ClusterBodies(raw: RawCluster, i: nat): seq<(nat, RawHierarchy)>
    decreases RunLength(raw.hierCount, i)
  {
    if i >= raw.hierCount || i >= |raw.hierChunks| then []
    else [(i, raw.hierChunks[i].body)] + ClusterBodies(raw, i + 1)
  }

  /** Sub-hierarchy entries i .. hierCount-1 all exist and are HIER chunks. */
  predicate AllHier(raw: RawCluster, i: nat)
    decreases RunLength(raw.hierCount, i)
  {
    i < raw.hierCount ==> i < |raw.hierChunks| && raw.hierChunks[i].code == HIER && AllHier(raw, i + 1)
  }

  lemma {:induction false} AllHierAt(raw: RawCluster, i: nat, j: nat)
    requires AllHier(raw, i) && i <= j < raw.hierCount
    ensures j < |raw.hierChunks| && raw.hierChunks[j].code == HIER
    decreases j - i
  {
    if j > i {
      AllHierAt(raw, i + 1, j);
    }
  }

  /** The sub-hierarchy loop of `ProcessCluster` (Mesh.cpp:433-453) from entry
      i on: each entry must be a HIER chunk, and each is emplaced at its own
      index. */
  function ClusterHierarchies(mem: Memory, decode: Decoder, cache: StripCache, raw: RawCluster, i: nat, owner: string)
    : (r: Result<Built<seq<Hierarchy>>>)
    decreases RunLength(raw.hierCount, i)
    ensures r.Ok? ==> Grows(cache, r.value.cache)
    ensures r.Ok? ==> |r.value.item| == RunLength(raw.hierCount, i)
    ensures r.Ok? ==> AllHier(raw, i)
    ensures r.Ok? ==> HierarchiesFrom(mem, decode, owner, r.value.item, ClusterBodies(raw, i), true, i)
    ensures r.Ok? ==> HierarchiesCached(r.value.item, r.value.cache)
    ensures r.Ok? <==> AllHier(raw, i) && HierarchiesDecode(mem, decode, owner, ClusterBodies(raw, i), true, i)
  {
    if i >= raw.hierCount then Ok(Built([], cache))
    else if i >= |raw.hierChunks| then Err(OutsideModelledMemory)
    else if raw.hierChunks[i].code != HIER then Err(NotHierarchyChunk)
    else
      HierarchiesDecodeCons(mem, decode, owner, (i, raw.hierChunks[i].body), ClusterBodies(raw, i + 1), true, i);
      var b :- EmplaceHierarchy(mem, decode, cache, raw.hierChunks[i].body, owner, i, true, i);
      var rest :- ClusterHierarchies(mem, decode, b.cache, raw, i + 1, owner);
      HierarchyCons(mem, decode, owner, cache, b, rest, (i, raw.hierChunks[i].body), ClusterBodies(raw, i + 1), true, i);
      Ok(Built([b.item] + rest.item, rest.cache))
  }

  /** c is what `ProcessCluster` makes of `raw`: no own strips when the strip
      count is 0, or else the run of `stripCount` strips from the first
      cluster strip, and one sub-hierarchy per entry, each a HIER chunk. */
  ghost predicate ClusterBuilt(mem: Memory, decode: Decoder, owner: string, raw: RawCluster, c: Cluster) {
    && c.raw == Some(raw)
    && (raw.stripCount == 0 ==> c.strips == [])
    && (raw.stripCount != 0 ==> IsRun(mem, decode, raw.firstStrip, raw.stripCount, ClusterSite(owner), c.strips))
    && AllHier(raw, 0)
    && |c.hierarchies| == raw.hierCount
    && HierarchiesFrom(mem, decode, owner, c.hierarchies, ClusterBodies(raw, 0), true, 0)
  }

  /** Building a cluster from `raw` decodes its own strip run, when it has
      one, finds a HIER chunk in every entry, and decodes every sub-hierarchy. */
  ghost predicate ClusterDecodes(mem: Memory, decode: Decoder, owner: string, raw: RawCluster) {
    && (raw.stripCount != 0 ==> RunDecodes(mem, decode, raw.firstStrip, raw.stripCount, 0, ClusterSite(owner)))
    && AllHier(raw, 0)
    && HierarchiesDecode(mem, decode, owner, ClusterBodies(raw, 0), true, 0)
  }

  /** `G3D::ProcessCluster` (Mesh.cpp:393-454): the cluster's own strips,
      cached once all are decoded, then its sub-hierarchies. The sprite count
      is read and ignored. */
  function ProcessCluster(mem: Memory, decode: Decoder, cache: StripCache, raw: RawCluster, owner: string): (r: Result<Built<Cluster>>)
    ensures raw.stripCount != 0 && StripRun(mem, decode, raw.firstStrip, raw.stripCount, 0, ClusterSite(owner)).Err? ==>
      r.Err?
    ensures r.Ok? <==> ClusterDecodes(mem, decode, owner, raw)
    ensures r.Ok? ==> Grows(cache, r.value.cache)
    ensures r.Ok? ==> ClusterBuilt(mem, decode, owner, raw, r.value.item)
    ensures r.Ok? ==> ClusterParented(r.value.item)
    ensures r.Ok? ==>
      && StripsCached(r.value.item.strips, r.value.cache)
      && HierarchiesCached(r.value.item.hierarchies, r.value.cache)
  {
    var strips :- if raw.stripCount != 0 then StripRun(mem, decode, raw.firstStrip, raw.stripCount, 0, ClusterSite(owner))
                  else Ok([]);
    var cache1 := if raw.stripCount != 0 then CacheStrips(cache, strips) else cache;
    assert raw.stripCount != 0 ==> IsRun(mem, decode, raw.firstStrip, raw.stripCount, ClusterSite(owner), strips) by {
      if raw.stripCount != 0 {
        StripRunIsRun(mem, decode, raw.firstStrip, raw.stripCount, ClusterSite(owner));
      }
    }
    assert StripsCached(strips, cache1);
    var hs :- ClusterHierarchies(mem, decode, cache1, raw, 0, owner);
    StripsCachedGrow(strips, cache1, hs.cache);
    HierarchiesFromAt(mem, decode, owner, hs.item, ClusterBodies(raw, 0), true);
    Ok(Built(Cluster(Some(raw), strips, hs.item), hs.cache))
  }

  /** Strip k of a built cluster is its record decoded by `PreProcessVertices`
      under the name `<asset basename>_<k>`. */
  lemma ClusterStripsDecoded(mem: Memory, owner: string, raw: RawCluster, c: Cluster, k: nat)
    requires ClusterBuilt(mem, StripDecoder(mem), owner, raw, c)
    requires k < |c.strips|
    ensures var s := c.strips[k];
      && s.raw in mem.strips
      && PreProcessVertices(mem.vifEndCode, mem.strips[s.raw], ClusterStripName(owner, k)) == Ok(s.mesh)
      && s.mesh.name == ClusterStripName(owner, k)
  {
    RunStripDecoded(mem, raw.firstStrip, raw.stripCount, ClusterSite(owner), c.strips, k);
  }

  /** `G3D::ProcessCSTA` (Mesh.cpp:456-488): CDOA is refused, CDQA decodes its
      first sub-chunk as a cluster when there is one, anything else leaves the
      cluster default. */
  function ProcessCSTA(mem: Memory, decode: Decoder, cache: StripCache, csta: ClusterType, owner: string): (r: Result<Built<Cluster>>)
    ensures csta.CDOA? ==> r == Err(UnsupportedCdoa)
    ensures csta.OtherClusterType? || csta == CDQA(None) ==> r == Ok(Built(EmptyCluster, cache))
    ensures csta.CDQA? && csta.cdqu.Some? ==> r == ProcessCluster(mem, decode, cache, csta.cdqu.value, owner)
    ensures r.Ok? ==>
      && Grows(cache, r.value.cache)
      && ClusterParented(r.value.item)
      && StripsCached(r.value.item.strips, r.value.cache)
      && HierarchiesCached(r.value.item.hierarchies, r.value.cache)
  {
    match csta
    case CDOA => Err(UnsupportedCdoa)
    case CDQA(cdqu) =>
      if cdqu.Some? then ProcessCluster(mem, decode, cache, cdqu.value, owner) else Ok(Built(EmptyCluster, cache))
    case OtherClusterType => Ok(Built(EmptyCluster, cache))
  }

  /** The hierarchies the HALL chunk of a manager yields, with their indices. */
  function HallHierarchies(manager: RawManager): seq<(nat, RawHierarchy)> {
    if manager.hall.Some? then ResolvedHierarchies(manager.hall.value, 0) else []
  }

  /** Building the asset decodes every hierarchy HALL resolves to, meets no
      CDOA layout, and decodes the CDQA cluster when there is one. */
  ghost predicate AssetDecodes(mem: Memory, manager: RawManager, name: string) {
    && HierarchiesDecode(mem, StripDecoder(mem), name, HallHierarchies(manager), false, 0)
    && manager.csta != Some(CDOA)
    && (manager.csta.Some? && manager.csta.value.CDQA? && manager.csta.value.cdqu.Some? ==>
          ClusterDecodes(mem, StripDecoder(mem), name, manager.csta.value.cdqu.value))
  }

  /** The `G3D` constructor (Mesh.cpp:349-362): HALL first, then CSTA. */
  function BuildG3D(mem: Memory, cache: StripCache, manager: RawManager, name: string): (r: Result<Built<G3D>>)
    ensures manager.csta == Some(CDOA) ==> r.Err?
    ensures manager.hall.None? && manager.csta == Some(CDOA) ==> r == Err(UnsupportedCdoa)
    ensures r.Ok? <==> AssetDecodes(mem, manager, name)
    ensures r.Ok? ==> Grows(cache, r.value.cache)
    ensures r.Ok? ==>
      var g := r.value.item;
      && g.name == name
      && g.manager == manager
      && HierarchiesFrom(mem, StripDecoder(mem), name, g.hierarchies, HallHierarchies(manager), false, 0)
      && (manager.csta.None? || manager.csta == Some(OtherClusterType) || manager.csta == Some(CDQA(None)) ==>
            g.cluster == EmptyCluster)
      && (manager.csta.Some? && manager.csta.value.CDQA? && manager.csta.value.cdqu.Some? ==>
            ClusterBuilt(mem, StripDecoder(mem), name, manager.csta.value.cdqu.value, g.cluster))
      && WellParented(g)
      && G3DCached(g, r.value.cache)
  {
    var hall :- if manager.hall.Some? then ProcessHall(mem, StripDecoder(mem), cache, manager.hall.value, 0, name, 0) else Ok(Built([], cache));
    var cluster :- if manager.csta.Some? then ProcessCSTA(mem, StripDecoder(mem), hall.cache, manager.csta.value, name)
                   else Ok(Built(EmptyCluster, hall.cache));
    HierarchiesCachedGrow(hall.item, hall.cache, cluster.cache);
    HierarchiesFromAt(mem, StripDecoder(mem), name, hall.item, HallHierarchies(manager), false);
    Ok(Built(G3D(name, manager, hall.item, cluster.item), cluster.cache))
  }

  /** The asset's own hierarchies do not depend on its cluster: building the
      same manager without its CSTA chunk gives the same `GetHierarchies`. */
  lemma HierarchiesIgnoreCluster(mem: Memory, cache: StripCache, manager: RawManager, name: string)
    requires BuildG3D(mem, cache, manager, name).Ok?
    ensures BuildG3D(mem, cache, manager.(csta := None), name).Ok?
    ensures GetHierarchies(BuildG3D(mem, cache, manager.(csta := None), name).value.item)
         == GetHierarchies(BuildG3D(mem, cache, manager, name).value.item)
    ensures BuildG3D(mem, cache, manager.(csta := None), name).value.item.cluster == EmptyCluster
  {
  }
}

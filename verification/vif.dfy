/** The command-list tag locator (`ExtractGifTagFromVifList`, Mesh.cpp:26-50).

    A strip's VIF command list is a sequence of 128-bit packets of four 32-bit
    words. Segment k's GIF tag is found by skipping past k end-marker packets
    and then expecting the copy code in word 3 of the next packet; when the code
    is not there the locator retries from the list head.
 */
module Vif {
  import opened Faults

  /** One 128-bit packet of a VIF command list, as four 32-bit words. */
  datatype Packet = Packet(w0: bv32, w1: bv32, w2: bv32, w3: bv32)

  /** Word 3 of the packet that carries the GIF tag pointer (Mesh.cpp:17). */
  const GifTagCopyCode: bv32 := 0x6c01_8000

  predicate IsEndMarker(p: Packet, endCode: bv32) {
    p.w0 == endCode
  }

  /** Number of end markers among the first n packets. */
  function MarkersBefore(list: seq<Packet>, endCode: bv32, n: nat): nat
    requires n <= |list|
  {
    if n == 0 then 0
    else MarkersBefore(list, endCode, n - 1) + (if IsEndMarker(list[n - 1], endCode) then 1 else 0)
  }

  /** The skip loop of Mesh.cpp:32-38, started at packet p with `index` markers
      still to pass: every packet is stepped over, and a marker counts one down.
      Running off the end of the list is a read outside the modelled memory. */
  function SkipMarkers(list: seq<Packet>, endCode: bv32, index: nat, p: nat): Result<nat>
    requires p <= |list|
    decreases |list| - p
  {
    if index == 0 then Ok(p)
    else if p == |list| then Err(OutsideModelledMemory)
    else SkipMarkers(list, endCode, if IsEndMarker(list[p], endCode) then index - 1 else index, p + 1)
  }

  /** Reference meaning of the skip loop: it succeeds exactly when enough markers
      remain, and then stops just past the marker that brings the count to `index`. */
  lemma {:induction false} SkipMarkersSpec(list: seq<Packet>, endCode: bv32, index: nat, p: nat)
    requires p <= |list|
    ensures var r := SkipMarkers(list, endCode, index, p);
      && (r.Ok? <==> MarkersBefore(list, endCode, p) + index <= MarkersBefore(list, endCode, |list|))
      && (r.Err? ==> r.fault == OutsideModelledMemory)
      && (r.Ok? ==>
            && p <= r.value <= |list|
            && MarkersBefore(list, endCode, r.value) == MarkersBefore(list, endCode, p) + index
            && (index > 0 ==> IsEndMarker(list[r.value - 1], endCode)))
    decreases |list| - p
  {
    if index == 0 {
      MarkersMonotone(list, endCode, p, |list|);
    } else if p == |list| {
    } else {
      var index' := if IsEndMarker(list[p], endCode) then index - 1 else index;
      SkipMarkersSpec(list, endCode, index', p + 1);
      MarkersMonotone(list, endCode, p + 1, |list|);
      var r := SkipMarkers(list, endCode, index', p + 1);
      if r.Ok? && index' == 0 {
        assert r.value == p + 1;
      }
    }
  }

  lemma {:induction false} MarkersMonotone(list: seq<Packet>, endCode: bv32, m: nat, n: nat)
    requires m <= n <= |list|
    ensures MarkersBefore(list, endCode, m) <= MarkersBefore(list, endCode, n)
    decreases n - m
  {
    if m < n {
      MarkersMonotone(list, endCode, m, n - 1);
    }
  }

  /** The same skip loop written as the source writes it: a cursor and a
      countdown. It computes what `SkipMarkers` describes. */
  method ScanMarkers(list: seq<Packet>, endCode: bv32, index: nat) returns (r: Result<nat>)
    ensures r == SkipMarkers(list, endCode, index, 0)
    ensures r.Ok? <==> index <= MarkersBefore(list, endCode, |list|)
    ensures r.Ok? ==> r.value <= |list| && MarkersBefore(list, endCode, r.value) == index
  {
    var remaining := index;
    var p := 0;
    while remaining > 0
      invariant p <= |list|
      invariant SkipMarkers(list, endCode, remaining, p) == SkipMarkers(list, endCode, index, 0)
      decreases |list| - p
    {
      if p == |list| {
        r := Err(OutsideModelledMemory);
        SkipMarkersSpec(list, endCode, index, 0);
        return;
      }
      if IsEndMarker(list[p], endCode) {
        remaining := remaining - 1;
      }
      p := p + 1;
    }
    r := Ok(p);
    SkipMarkersSpec(list, endCode, index, 0);
  }

  /** Locates segment `index`'s tag packet: the position `pPkt` such that the
      tag pointer sits in packet `pPkt + 1` (Mesh.cpp:32-44). */
  function LocateTag(list: seq<Packet>, endCode: bv32, index: nat): (r: Result<nat>)
    ensures r.Err? ==> r.fault == OutsideModelledMemory || r.fault == CopyCodeMissing
    ensures r.Ok? ==> r.value + 1 < |list| && list[r.value + 1].w3 == GifTagCopyCode
    ensures r.Ok? ==> r.value == 0 || r == SkipMarkers(list, endCode, index, 0)
    ensures index == 0 && |list| >= 2 ==>
      (r.Ok? <==> list[1].w3 == GifTagCopyCode)
    ensures var s := SkipMarkers(list, endCode, index, 0);
      s.Ok? && s.value + 1 < |list| && list[s.value + 1].w3 == GifTagCopyCode ==> r == s
    ensures var s := SkipMarkers(list, endCode, index, 0);
      r.Ok? <==>
        && s.Ok?
        && s.value + 1 < |list|
        && (list[s.value + 1].w3 == GifTagCopyCode || list[1].w3 == GifTagCopyCode)
  {
    SkipMarkersSpec(list, endCode, index, 0);
    var p :- SkipMarkers(list, endCode, index, 0);
    if p + 1 >= |list| then Err(OutsideModelledMemory)
    else if list[p + 1].w3 == GifTagCopyCode then Ok(p)
    else if list[1].w3 == GifTagCopyCode then Ok(0)
    else Err(CopyCodeMissing)
  }

  /** When the skip succeeds and the code is absent at the scanned position, the
      locator gives exactly the segment-0 answer, failure included. */
  lemma LocateTagFallsBackToHead(list: seq<Packet>, endCode: bv32, index: nat)
    requires SkipMarkers(list, endCode, index, 0).Ok?
    requires SkipMarkers(list, endCode, index, 0).value + 1 < |list|
    requires list[SkipMarkers(list, endCode, index, 0).value + 1].w3 != GifTagCopyCode
    ensures LocateTag(list, endCode, index) == LocateTag(list, endCode, 0)
    ensures list[1].w3 != GifTagCopyCode ==> LocateTag(list, endCode, index) == Err(CopyCodeMissing)
  {
  }

  /** Where the locator succeeds away from the head, it is just past the
      index-th end marker, with the copy code in the following packet. */
  lemma LocateTagPosition(list: seq<Packet>, endCode: bv32, index: nat)
    requires LocateTag(list, endCode, index).Ok?
    requires LocateTag(list, endCode, index).value != 0
    ensures var p := LocateTag(list, endCode, index).value;
      && index > 0
      && MarkersBefore(list, endCode, p) == index
      && IsEndMarker(list[p - 1], endCode)
      && list[p + 1].w3 == GifTagCopyCode
  {
    SkipMarkersSpec(list, endCode, index, 0);
  }
}

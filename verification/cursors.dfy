/** The vertex index scheduler of `Strip::PreProcessVertices` (Mesh.cpp:144-219).

    Segment j contributes `loops[j]` vertices. Vertex i of segment j has
    `index = i + meshOffset`, where `meshOffset` is the sum of the earlier
    segments' loop counts, and `adjustedIndex = index - vtxOffset`, where
    `vtxOffset = 2 * j`: each new segment re-reads the last two positions of the
    previous one, while the colour and texture streams are not compacted.
 */
module Cursors {

  /** Sum of the first j loop counts: `meshOffset` at the start of segment j. */
  function Prefix(loops: seq<nat>, j: nat): nat
    requires j <= |loops|
  {
    if j == 0 then 0 else Prefix(loops, j - 1) + loops[j - 1]
  }

  /** Total vertex count of a strip (Mesh.cpp:104-109). */
  function Sum(loops: seq<nat>): nat {
    Prefix(loops, |loops|)
  }

  lemma {:induction false} PrefixMonotone(loops: seq<nat>, i: nat, j: nat)
    requires i <= j <= |loops|
    ensures Prefix(loops, i) <= Prefix(loops, j)
    decreases j - i
  {
    if i < j {
      PrefixMonotone(loops, i, j - 1);
    }
  }

  /** One scheduled vertex: its segment, its colour index and its position index. */
  datatype Slot = Slot(segment: nat, index: nat, adjusted: int)

  /** The slots of segment j, which starts at colour index `start` and has n vertices. */
  function SegmentSlots(j: nat, start: nat, n: nat): (r: seq<Slot>)
    ensures |r| == n
  {
    seq(n, i requires 0 <= i < n => Slot(j, start + i, start + i - 2 * j))
  }

  /** The slots of segments 0 .. j-1, in emission order. */
  function ScheduleUpTo(loops: seq<nat>, j: nat): (r: seq<Slot>)
    requires j <= |loops|
    ensures |r| == Prefix(loops, j)
    ensures forall k :: 0 <= k < |r| ==>
      && r[k].index == k
      && r[k].segment < j
      && Prefix(loops, r[k].segment) <= k < Prefix(loops, r[k].segment + 1)
      && r[k].adjusted == k - 2 * r[k].segment
  {
    if j == 0 then []
    else
      var before := ScheduleUpTo(loops, j - 1);
      var seg := SegmentSlots(j - 1, Prefix(loops, j - 1), loops[j - 1]);
      assert forall k :: |before| <= k < |before| + |seg| ==> (before + seg)[k] == seg[k - |before|];
      before + seg
  }

  /** The whole schedule of a strip. */
  function Schedule(loops: seq<nat>): (r: seq<Slot>)
    ensures |r| == Sum(loops)
  {
    ScheduleUpTo(loops, |loops|)
  }

  /** The segment whose vertices include colour index k. */
  function SegmentOf(loops: seq<nat>, k: nat): (j: nat)
    requires k < Sum(loops)
    ensures j < |loops| && Prefix(loops, j) <= k < Prefix(loops, j + 1)
  {
    Schedule(loops)[k].segment
  }

  /** A colour index belongs to exactly one segment: the one whose prefix
      interval holds it. */
  lemma SegmentIsUnique(loops: seq<nat>, k: nat, j: nat)
    requires j < |loops|
    requires Prefix(loops, j) <= k < Prefix(loops, j + 1)
    ensures k < |Schedule(loops)| && Schedule(loops)[k].segment == j
  {
    var s := Schedule(loops);
    PrefixMonotone(loops, j + 1, |loops|);
    var t := s[k].segment;
    if t < j {
      PrefixMonotone(loops, t + 1, j);
    } else if t > j {
      PrefixMonotone(loops, j + 1, t);
    }
  }

  /** The position index of every scheduled vertex is non-negative exactly when
      every non-empty segment j starts at a colour index of at least 2j. */
  lemma AdjustedNonNegativeIff(loops: seq<nat>)
    ensures (forall k :: 0 <= k < |Schedule(loops)| ==> Schedule(loops)[k].adjusted >= 0)
        <==> (forall j :: 0 <= j < |loops| && loops[j] > 0 ==> 2 * j <= Prefix(loops, j))
  {
    var s := Schedule(loops);
    if forall k :: 0 <= k < |s| ==> s[k].adjusted >= 0 {
      forall j | 0 <= j < |loops| && loops[j] > 0
        ensures 2 * j <= Prefix(loops, j)
      {
        SegmentIsUnique(loops, Prefix(loops, j), j);
        assert s[Prefix(loops, j)].adjusted >= 0;
      }
    }
    if forall j :: 0 <= j < |loops| && loops[j] > 0 ==> 2 * j <= Prefix(loops, j) {
      forall k | 0 <= k < |s|
        ensures s[k].adjusted >= 0
      {
        var j := s[k].segment;
        assert loops[j] > 0;
      }
    }
  }

  /** Segments of at least two vertices each keep every segment start at or past 2j. */
  lemma {:induction false} TwoPerSegmentSuffices(loops: seq<nat>, j: nat)
    requires j <= |loops|
    requires forall i :: 0 <= i < |loops| ==> loops[i] >= 2
    ensures 2 * j <= Prefix(loops, j)
  {
    if j > 0 {
      TwoPerSegmentSuffices(loops, j - 1);
    }
  }

  /** The two cursor loops of Mesh.cpp:144-219, recording each vertex's
      `index` and `adjustedIndex` instead of reading attributes with them. */
  method CursorLoop(loops: seq<nat>) returns (slots: seq<Slot>)
    ensures slots == Schedule(loops)
    ensures |slots| == Sum(loops)
    ensures forall k :: 0 <= k < |slots| ==>
      slots[k].index == k && slots[k].adjusted == k - 2 * slots[k].segment
  {
    slots := [];
    var vtxOffset: int := 0;
    var meshOffset: int := 0;
    var j: nat := 0;
    while j < |loops|
      invariant j <= |loops|
      invariant meshOffset == Prefix(loops, j)
      invariant vtxOffset == 2 * j
      invariant slots == ScheduleUpTo(loops, j)
    {
      var i: nat := 0;
      while i < loops[j]
        invariant i <= loops[j]
        invariant slots == ScheduleUpTo(loops, j) + SegmentSlots(j, meshOffset, i)
      {
        var index: int := i + meshOffset;
        var adjustedIndex: int := index - vtxOffset;
        assert SegmentSlots(j, meshOffset, i + 1) == SegmentSlots(j, meshOffset, i) + [Slot(j, index, adjustedIndex)];
        slots := slots + [Slot(j, index, adjustedIndex)];
        i := i + 1;
      }
      meshOffset := meshOffset + loops[j];
      vtxOffset := vtxOffset + 2;
      j := j + 1;
    }
  }
}

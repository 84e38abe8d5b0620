/** Splitting a rowid span into partitions that cut only between segments. */
module Ranges {
  import opened Common
  import opened SegmentTable

  /** DuckDB's first transaction-local rowid. */
  const MAX_ROW_ID := 36028797018960000

  /** Rowids lo to hi, both included. */
  datatype Range = Range(lo: int, hi: int)

  /** Contiguous ranges that start at `lo`, end at `hi`, and cut only where a segment begins. */
  predicate Tiles(ranges: seq<Range>, lo: int, hi: int) {
    && ranges != [] && ranges[0].lo == lo && ranges[|ranges| - 1].hi == hi
    && (forall i :: 0 < i < |ranges| ==> ranges[i].lo == ranges[i - 1].hi + 1)
    && forall i :: 0 < i < |ranges| ==> ranges[i].lo % SEGMENT_SPAN == 0
  }

  function PerPartition(segments: int, partitions: int): int
    requires partitions > 0
  {
    Max(segments / partitions, 1)
  }

  lemma DivisionBounds(n: int, d: int)
    requires d > 0
    ensures n / d * d <= n < n / d * d + d
  {
  }

  /** Rounding the partition size down yields fewer than twice the ranges asked for. */
  lemma RangeCount(segments: int, partitions: int, count: int)
    requires segments >= 1 && partitions >= 2 && count >= 1
    requires (count - 1) * PerPartition(segments, partitions) <= segments - 1
    ensures count <= 2 * partitions - 1
  {
    PerBound(segments, partitions);
    if count >= 2 * partitions {
      MulMonotone(2 * partitions - 1, count - 1, PerPartition(segments, partitions));
    }
  }

  lemma PerBound(segments: int, partitions: int)
    requires segments >= 1 && partitions >= 2
    ensures (2 * partitions - 1) * PerPartition(segments, partitions) > segments - 1
  {
    DivisionBounds(segments, partitions);
    if segments < partitions {
      DivisionSmall(segments, partitions);
    } else {
      MulSmall(segments, partitions);
      TooMany(segments, partitions, segments / partitions);
    }
  }

  lemma DivisionSmall(segments: int, partitions: int)
    requires 0 <= segments < partitions
    ensures segments / partitions == 0
  {
  }

  lemma MulSmall(segments: int, partitions: int)
    requires segments >= partitions > 0
    ensures segments / partitions >= 1
  {
    DivisionBounds(segments, partitions);
    if segments / partitions <= 0 {
      MulMonotone(segments / partitions, 0, partitions);
    }
  }

  lemma TooMany(segments: int, partitions: int, per: int)
    requires partitions >= 2 && per >= 1 && per * partitions <= segments < per * partitions + partitions
    ensures (2 * partitions - 1) * per > segments - 1
  {
    assert (2 * partitions - 1) * per == per * partitions + (partitions - 1) * per;
    MulMonotone(1, per, partitions - 1);
  }

  /** Start of the segment a rowid's range may begin at. */
  function StartOf(segment: int, first: int, lo: int): int {
    if segment == first then lo else segment * SEGMENT_SPAN
  }

  /** The span's ranges, one for hi < lo or a single partition, otherwise at most 2 * partitions - 1. */
  method SegmentAlignedRanges(lo: nat, hi: int, partitions: nat, openEnded: bool) returns (result: seq<Range>)
    requires hi < MAX_ROW_ID
    ensures Tiles(result, lo, if openEnded then MAX_ROW_ID - 1 else hi)
    ensures lo <= hi ==> forall i :: 0 <= i < |result| ==> result[i].lo <= result[i].hi
    ensures |result| <= Max(1, 2 * partitions - 1)
    ensures lo <= hi ==> |result| >= Min(partitions, Segments(lo, hi))
    ensures lo <= hi && partitions > 0 ==>
              forall i :: 0 <= i < |result| ==>
                Segments(result[i].lo, Min(result[i].hi, hi)) <= PerPartition(Segments(lo, hi), partitions)
  {
    hide Segments, PerPartition, StartOf, Tiles;
    var openEnd := if openEnded then MAX_ROW_ID - 1 else hi;
    if hi < lo || partitions <= 1 {
      OneRange(lo, hi, openEnd);
      return [Range(lo, openEnd)];
    }
    var first, last := lo / SEGMENT_SPAN, hi / SEGMENT_SPAN;
    var segments := last - first + 1;
    var per := PerPartition(segments, partitions);
    SegmentsAre(lo, hi, partitions);
    result := [];
    var segment := first;
    while segment <= last
      invariant segment >= first && segment == first + |result| * per
      invariant result == [] <==> segment == first
      invariant result != [] && segment > last ==> Tiles(result, lo, openEnd)
      invariant result != [] && segment <= last ==> Tiles(result, lo, segment * SEGMENT_SPAN - 1)
      invariant forall i :: 0 <= i < |result| ==> result[i].lo <= result[i].hi
      invariant forall i :: 0 <= i < |result| ==> Segments(result[i].lo, Min(result[i].hi, hi)) <= per
      invariant result != [] ==> (|result| - 1) * per <= segments - 1
      decreases last - segment
    {
      var start := StartOf(segment, first, lo);
      var endSegment := segment + per - 1;
      var end := if endSegment >= last then openEnd else (endSegment + 1) * SEGMENT_SPAN - 1;
      StartBelow(segment, first, last, lo, hi, end, endSegment, openEnd);
      ShareOf(segment, first, last, lo, hi, end, endSegment, openEnd);
      ExtendTiles(result, lo, segment, first, start, end);
      OneMorePer(|result|, per);
      result := result + [Range(start, end)];
      segment := segment + per;
    }
    RangeCount(segments, partitions, |result|);
    EnoughRanges(segments, partitions, |result|);
  }

  lemma OneRange(lo: nat, hi: int, openEnd: int)
    requires hi <= openEnd
    ensures Tiles([Range(lo, openEnd)], lo, openEnd)
    ensures Segments(lo, Min(openEnd, hi)) == Segments(lo, hi)
    ensures lo <= hi ==> 1 <= Segments(lo, hi) <= PerPartition(Segments(lo, hi), 1)
  {
    assert Min(openEnd, hi) == hi;
  }

  lemma SegmentsAre(lo: nat, hi: int, partitions: int)
    requires lo <= hi && partitions > 0
    ensures Segments(lo, hi) == hi / SEGMENT_SPAN - lo / SEGMENT_SPAN + 1 >= 1
    ensures PerPartition(Segments(lo, hi), partitions) >= 1
  {
  }

  /** The segments rowids lo to hi touch. */
  function Segments(lo: int, hi: int): int {
    hi / SEGMENT_SPAN - lo / SEGMENT_SPAN + 1
  }

  lemma ShareOf(segment: int, first: int, last: int, lo: nat, hi: int, end: int, endSegment: int, openEnd: int)
    requires first == lo / SEGMENT_SPAN && last == hi / SEGMENT_SPAN && lo <= hi <= openEnd && first <= segment <= last
    requires endSegment >= segment && end == if endSegment >= last then openEnd else (endSegment + 1) * SEGMENT_SPAN - 1
    ensures Segments(StartOf(segment, first, lo), Min(end, hi)) <= endSegment - segment + 1
  {
  }

  /** As many ranges as partitions asked for, or one for each segment. */
  lemma EnoughRanges(segments: int, partitions: int, count: int)
    requires segments >= 1 && partitions >= 2 && count * PerPartition(segments, partitions) >= segments
    ensures count >= Min(partitions, segments)
  {
    var per := PerPartition(segments, partitions);
    if segments >= partitions && count < partitions {
      DivisionBounds(segments, partitions);
      MulMonotone(count + 1, partitions, per);
      OneMorePer(count, per);
    }
  }

  lemma OneMorePer(n: int, per: int)
    ensures (n + 1) * per == n * per + per
  {
  }

  lemma StartBelow(segment: int, first: int, last: int, lo: nat, hi: int, end: int, endSegment: int, openEnd: int)
    requires first == lo / SEGMENT_SPAN && last == hi / SEGMENT_SPAN && lo <= hi <= openEnd && first <= segment <= last
    requires endSegment >= segment && end == if endSegment >= last then openEnd else (endSegment + 1) * SEGMENT_SPAN - 1
    ensures StartOf(segment, first, lo) <= end
  {
  }

  lemma ExtendTiles(result: seq<Range>, lo: int, segment: int, first: int, start: int, end: int)
    requires start == StartOf(segment, first, lo) && (result == [] <==> segment == first)
    requires result != [] ==> Tiles(result, lo, segment * SEGMENT_SPAN - 1)
    ensures Tiles(result + [Range(start, end)], lo, end)
  {
  }

  // ---------------------------------------------------------------------------------------------------------------
  // Packing range by range

  function Within(pairs: Pairs, range: Range): Pairs {
    set p | p in pairs && range.lo <= p.1 <= range.hi
  }

  /** One packing statement per range. */
  function PackedByRange(pairs: Pairs, ranges: seq<Range>, generation: nat): set<SegmentRow> {
    if ranges == [] then {}
    else
      PackedByRange(pairs, ranges[..|ranges| - 1], generation)
      + Packed(Within(pairs, ranges[|ranges| - 1]), generation)
  }

  /** Pairs that never share a segment pack separately. */
  lemma PackedSplit(a: Pairs, b: Pairs, generation: nat)
    requires forall p, q :: p in a && q in b ==> SegmentOf(p.1) != SegmentOf(q.1)
    ensures Packed(a + b, generation) == Packed(a, generation) + Packed(b, generation)
  {
    forall p | p in a ensures Group(a + b, p.0, SegmentOf(p.1)) == Group(a, p.0, SegmentOf(p.1)) {
    }
    forall p | p in b ensures Group(a + b, p.0, SegmentOf(p.1)) == Group(b, p.0, SegmentOf(p.1)) {
    }
  }

  lemma {:induction false} TilesOrder(ranges: seq<Range>, lo: int, hi: int, i: nat)
    requires Tiles(ranges, lo, hi) && i < |ranges| && forall j :: 0 <= j < |ranges| ==> ranges[j].lo <= ranges[j].hi
    ensures lo <= ranges[i].lo
  {
    if i > 0 {
      TilesOrder(ranges, lo, hi, i - 1);
    }
  }

  lemma CutBetweenSegments(cut: int, p: nat, q: nat)
    requires cut % SEGMENT_SPAN == 0 && p < cut <= q
    ensures SegmentOf(p) != SegmentOf(q)
  {
  }

  /** Packing range by range equals packing the whole span: no (key, segment) group is split. */
  lemma {:induction false} PackedByRangeIsPacked(pairs: Pairs, ranges: seq<Range>, lo: int, hi: int, generation: nat)
    requires Tiles(ranges, lo, hi) && forall i :: 0 <= i < |ranges| ==> ranges[i].lo <= ranges[i].hi
    ensures PackedByRange(pairs, ranges, generation) == Packed(Within(pairs, Range(lo, hi)), generation)
  {
    hide Packed;
    var n := |ranges| - 1;
    var front, last := ranges[..n], ranges[n];
    assert PackedByRange(pairs, ranges, generation)
        == PackedByRange(pairs, front, generation) + Packed(Within(pairs, last), generation);
    if n == 0 {
      assert PackedByRange(pairs, front, generation) == {};
      assert last == Range(lo, hi);
    } else {
      assert front[n - 1] == ranges[n - 1];
      PackedByRangeIsPacked(pairs, front, lo, last.lo - 1, generation);
      TilesOrder(ranges, lo, hi, n);
      JoinRanges(pairs, lo, last, generation);
    }
  }

  lemma JoinRanges(pairs: Pairs, lo: int, last: Range, generation: nat)
    requires last.lo % SEGMENT_SPAN == 0 && lo <= last.lo <= last.hi
    ensures Packed(Within(pairs, Range(lo, last.lo - 1)), generation) + Packed(Within(pairs, last), generation)
            == Packed(Within(pairs, Range(lo, last.hi)), generation)
  {
    var a, b := Within(pairs, Range(lo, last.lo - 1)), Within(pairs, last);
    forall p, q | p in a && q in b ensures SegmentOf(p.1) != SegmentOf(q.1) {
      CutBetweenSegments(last.lo, p.1, q.1);
    }
    assert a + b == Within(pairs, Range(lo, last.hi));
    hide Within;
    PackedSplit(a, b, generation);
  }
}

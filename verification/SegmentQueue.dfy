/** The shared cursor over intersected segments: batches are taken from published segments, segments publish in
    ordinal order. Each method is one critical section of the queue's lock. */
module SegmentQueue {
  import opened Common

  const FETCH_BATCH_ROWS := 256
  const RANGE_BATCH_ROWS := STANDARD_VECTOR_SIZE
  const RANGE_SCAN_MIN_ROWS := 256

  /** A published segment with candidates still to hand out. */
  datatype Candidates = Candidates(ordinal: nat, rowids: seq<int>, nextOffset: nat)

  type Published = c: Candidates | c.nextOffset < |c.rowids| witness Candidates(0, [0], 0)

  /** A claimed batch: candidates [begin, end) of one segment; `range` when it was sized for a range scan. */
  datatype Batch = Batch(ordinal: nat, begin: nat, end: nat, range: bool)

  /** The queue's fields, with the plan's cursor over unclaimed segments. */
  datatype Queue = Queue(
    nextSegment: nat,
    nextPublish: nat,
    decoding: nat,
    pending: map<nat, seq<int>>,
    ready: seq<Published>,
    failed: bool)

  datatype Claim = Claimed(batch: Batch) | Decode(ordinal: nat) | Exhausted | Waiting

  // ---------------------------------------------------------------------------------------------------------------
  // Cutting a batch

  /** A range scan pays for candidates [begin, end) when they are many and close together. */
  predicate RangeScanPays(rowids: seq<int>, begin: nat, end: nat)
    requires begin < end <= |rowids|
  {
    end - begin >= RANGE_SCAN_MIN_ROWS && rowids[end - 1] - rowids[begin] + 1 <= RANGE_ROWS_PER_FETCH * (end - begin)
  }

  /** The vector a rowid lies in; scans start at vector boundaries. */
  function Block(rowid: int): int {
    rowid / STANDARD_VECTOR_SIZE
  }

  /** Where a batch cut at `end` stops: it runs on through the last candidate's vector. */
  function RunOn(rowids: seq<int>, end: nat): (r: nat)
    requires 0 < end <= |rowids|
    ensures end <= r <= |rowids|
    ensures forall i :: end <= i < r ==> Block(rowids[i]) == Block(rowids[end - 1])
    ensures forall i :: end <= i < r ==> Block(rowids[i]) == Block(rowids[i - 1])
    ensures r < |rowids| ==> Block(rowids[r]) != Block(rowids[r - 1])
    decreases |rowids| - end
  {
    if end < |rowids| && Block(rowids[end]) == Block(rowids[end - 1]) then RunOn(rowids, end + 1) else end
  }

  /** `size` candidates on, or the segment's end. */
  function CutAt(front: Published, size: nat): (cut: nat)
    requires size > 0
    ensures front.nextOffset < cut <= |front.rowids|
  {
    Min(front.nextOffset + size, |front.rowids|)
  }

  function BatchSize(b: Batch): nat {
    if b.range then RANGE_BATCH_ROWS else FETCH_BATCH_ROWS
  }

  /** The candidates a front's next batch takes: a range batch exactly when its next RANGE_BATCH_ROWS are many and
      dense; it ends at the first vector boundary on or after its size. */
  function NextBatch(front: Published): (b: Batch)
    ensures b.ordinal == front.ordinal && b.begin == front.nextOffset < b.end <= |front.rowids|
    ensures b.end < |front.rowids| ==>
            b.end >= b.begin + FETCH_BATCH_ROWS && Block(front.rowids[b.end]) != Block(front.rowids[b.end - 1])
    ensures b.range <==> RangeScanPays(front.rowids, b.begin, CutAt(front, RANGE_BATCH_ROWS))
    ensures b.end >= CutAt(front, BatchSize(b))
    ensures forall e :: CutAt(front, BatchSize(b)) <= e < b.end ==> Block(front.rowids[e]) == Block(front.rowids[e - 1])
  {
    var rangeEnd := Min(front.nextOffset + RANGE_BATCH_ROWS, |front.rowids|);
    var range := RangeScanPays(front.rowids, front.nextOffset, rangeEnd);
    var cut := if range then rangeEnd else Min(front.nextOffset + FETCH_BATCH_ROWS, |front.rowids|);
    Batch(front.ordinal, front.nextOffset, RunOn(front.rowids, cut), range)
  }

  /** So a batch of ascending candidates overshoots its size by less than one vector, and a batch is a range batch
      exactly when its next RANGE_BATCH_ROWS candidates are enough and span at most RANGE_ROWS_PER_FETCH rows each. */
  lemma BatchIsBounded(front: Published)
    requires Ascending(front.rowids)
    ensures var b := NextBatch(front);
            && b.end - b.begin < BatchSize(b) + STANDARD_VECTOR_SIZE
            && (b.range <==>
                  var cut := CutAt(front, RANGE_BATCH_ROWS);
                  && cut - b.begin >= RANGE_SCAN_MIN_ROWS
                  && front.rowids[cut - 1] - front.rowids[b.begin] + 1 <= RANGE_ROWS_PER_FETCH * (cut - b.begin))
  {
    hide RunOn, NextBatch;
    var b := NextBatch(front);
    var cut := CutAt(front, BatchSize(b));
    if cut < b.end {
      SameBlock(front.rowids, cut, b.end);
    }
  }

  lemma {:induction false} SameBlock(rowids: seq<int>, cut: nat, end: nat)
    requires Ascending(rowids) && 0 < cut < end <= |rowids|
    requires forall e :: cut <= e < end ==> Block(rowids[e]) == Block(rowids[e - 1])
    ensures Block(rowids[end - 1]) == Block(rowids[cut - 1]) && end - cut < STANDARD_VECTOR_SIZE
  {
    BlockChain(rowids, cut, end);
    RisesBy(rowids, cut - 1, end - 1);
  }

  lemma {:induction false} BlockChain(rowids: seq<int>, cut: nat, end: nat)
    requires 0 < cut < end <= |rowids|
    requires forall e :: cut <= e < end ==> Block(rowids[e]) == Block(rowids[e - 1])
    ensures Block(rowids[end - 1]) == Block(rowids[cut - 1])
    decreases end
  {
    hide Block;
    if cut < end - 1 {
      BlockChain(rowids, cut, end - 1);
    }
  }

  lemma {:induction false} RisesBy(rowids: seq<int>, i: nat, j: nat)
    requires Ascending(rowids) && i <= j < |rowids|
    ensures rowids[j] - rowids[i] >= j - i
  {
    if i < j {
      RisesBy(rowids, i, j - 1);
    }
  }

  // ---------------------------------------------------------------------------------------------------------------
  // What each critical section does

  /** Every pending segment that is next in ordinal order becomes ready; an empty one only advances the cursor. */
  function Publish(q: Queue): (r: Queue)
    ensures r.nextPublish !in r.pending && r.nextPublish >= q.nextPublish
    decreases |q.pending|
  {
    if q.nextPublish !in q.pending then q
    else PublishIsSmaller(q); Publish(PublishOne(q))
  }

  function PublishOne(q: Queue): Queue
    requires q.nextPublish in q.pending
  {
    var rowids := q.pending[q.nextPublish];
    q.(
      ready := if rowids == [] then q.ready else q.ready + [Candidates(q.nextPublish, rowids, 0)],
      pending := q.pending - {q.nextPublish},
      nextPublish := q.nextPublish + 1)
  }

  lemma PublishIsSmaller(q: Queue)
    requires q.nextPublish in q.pending
    ensures |PublishOne(q).pending| < |q.pending|
  {
    assert PublishOne(q).pending.Keys == q.pending.Keys - {q.nextPublish};
    assert |q.pending.Keys| == |q.pending| && |PublishOne(q).pending.Keys| == |PublishOne(q).pending|;
  }

  lemma PublishNext(q: Queue)
    ensures Publish(q) == if q.nextPublish in q.pending then Publish(PublishOne(q)) else q
  {
  }

  /** Taking the front's next batch; a front without further candidates leaves the queue. */
  function Take(q: Queue): Queue
    requires q.ready != []
  {
    var front := q.ready[0];
    var batch := NextBatch(front);
    q.(ready := (if batch.end == |front.rowids| then [] else [front.(nextOffset := batch.end)]) + q.ready[1..])
  }

  function InFlight(q: Queue): nat {
    q.decoding + |q.pending|
  }

  /** What a worker's claim answers, and the queue after it. */
  function ClaimIn(q: Queue, segments: nat, maxThreads: nat): (Claim, Queue)
  {
    if q.ready != [] then (Claimed(NextBatch(q.ready[0])), Take(q))
    else if q.failed || (InFlight(q) == 0 && q.nextSegment >= segments) then (Exhausted, q)
    else if q.nextSegment >= segments || InFlight(q) >= maxThreads then (Waiting, q)
    else (Decode(q.nextSegment), q.(nextSegment := q.nextSegment + 1, decoding := q.decoding + 1))
  }

  /** A claim decodes whenever it may: nothing is ready, none failed, a segment is unclaimed and a worker's place is
      free. It is refused for good only when nothing is left, and waits only for a place or for the last decodes. */
  lemma ClaimIsExact(q: Queue, segments: nat, maxThreads: nat)
    ensures var claim := ClaimIn(q, segments, maxThreads).0;
            var left := q.nextSegment < segments;
            && (claim.Claimed? <==> q.ready != [])
            && (claim.Decode? <==> q.ready == [] && !q.failed && left && InFlight(q) < maxThreads && maxThreads > 0)
            && (claim.Exhausted? <==> q.ready == [] && (q.failed || (!left && InFlight(q) == 0)))
            && (claim.Waiting? <==> q.ready == [] && !q.failed
                                    && if left then InFlight(q) >= maxThreads else InFlight(q) > 0)
            && (claim.Decode? ==> claim.ordinal == q.nextSegment)
  {
  }

  function Finish(q: Queue, ordinal: nat, rowids: seq<int>): Queue
    requires q.decoding > 0
  {
    Publish(q.(decoding := q.decoding - 1, pending := q.pending[ordinal := rowids]))
  }

  function Fail(q: Queue): Queue
    requires q.decoding > 0
  {
    q.(decoding := q.decoding - 1, failed := true)
  }

  method CutBatch(front: Published) returns (batch: Batch)
    ensures batch == NextBatch(front)
  {
    hide RangeScanPays;
    var rowids := front.rowids;
    var rangeEnd := Min(front.nextOffset + RANGE_BATCH_ROWS, |rowids|);
    var range := RangeScanPays(rowids, front.nextOffset, rangeEnd);
    var cut := if range then rangeEnd else Min(front.nextOffset + FETCH_BATCH_ROWS, |rowids|);
    var end := ExtendBatch(rowids, cut);
    return Batch(front.ordinal, front.nextOffset, end, range);
  }

  method ExtendBatch(rowids: seq<int>, cut: nat) returns (end: nat)
    requires 0 < cut <= |rowids|
    ensures end == RunOn(rowids, cut)
  {
    hide Block;
    end := cut;
    var block := Block(rowids[end - 1]);
    while end < |rowids| && Block(rowids[end]) == block
      invariant 0 < end <= |rowids| && block == Block(rowids[end - 1])
      invariant RunOn(rowids, end) == RunOn(rowids, cut)
    {
      end := end + 1;
    }
  }

  // ---------------------------------------------------------------------------------------------------------------
  // The queue in place

  class CandidateQueue {
    var nextSegment: nat
    var nextPublish: nat
    var decoding: nat
    var pending: map<nat, seq<int>>
    var ready: seq<Published>
    var failed: bool

    constructor ()
      ensures View() == Queue(0, 0, 0, map[], [], false)
    {
      nextSegment, nextPublish, decoding, pending, ready, failed := 0, 0, 0, map[], [], false;
    }

    function View(): Queue
      reads this
    {
      Queue(nextSegment, nextPublish, decoding, pending, ready, failed)
    }

    method PublishInOrder()
      modifies this`pending, this`ready, this`nextPublish
      ensures View() == Publish(old(View()))
    {
      hide Publish;
      while nextPublish in pending
        invariant Publish(View()) == Publish(old(View()))
        decreases |pending|
      {
        PublishIsSmaller(View());
        PublishNext(View());
        var rowids := pending[nextPublish];
        if rowids != [] {
          ready := ready + [Candidates(nextPublish, rowids, 0)];
        }
        pending := pending - {nextPublish};
        nextPublish := nextPublish + 1;
      }
      PublishNext(View());
    }

    method TakeBatch() returns (batch: Batch)
      requires ready != []
      modifies this`ready
      ensures batch == NextBatch(old(ready[0])) && View() == Take(old(View()))
    {
      hide RunOn, RangeScanPays;
      var front := ready[0];
      batch := CutBatch(front);
      if batch.end >= |front.rowids| {
        ready := ready[1..];
      } else {
        ready := [front.(nextOffset := batch.end)] + ready[1..];
      }
    }

    method ClaimCandidateBatch(segments: nat, maxThreads: nat) returns (claim: Claim)
      modifies this`ready, this`nextSegment, this`decoding
      ensures (claim, View()) == ClaimIn(old(View()), segments, maxThreads)
    {
      if ready != [] {
        var batch := TakeBatch();
        return Claimed(batch);
      }
      var inFlight := decoding + |pending|;
      var unclaimed := nextSegment < segments;
      if failed || (inFlight == 0 && !unclaimed) {
        return Exhausted;
      }
      if !unclaimed || inFlight >= maxThreads {
        return Waiting;
      }
      claim := Decode(nextSegment);
      nextSegment := nextSegment + 1;
      decoding := decoding + 1;
    }

    method FinishDecode(ordinal: nat, rowids: seq<int>)
      requires decoding > 0
      modifies this`pending, this`ready, this`nextPublish, this`decoding
      ensures View() == Finish(old(View()), ordinal, rowids)
    {
      decoding := decoding - 1;
      pending := pending[ordinal := rowids];
      PublishInOrder();
    }

    method FailDecode()
      requires decoding > 0
      modifies this`decoding, this`failed
      ensures View() == Fail(old(View()))
    {
      decoding := decoding - 1;
      failed := true;
    }
  }
}

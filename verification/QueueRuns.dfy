/** Every interleaving of the fetch workers over the candidate queue. */
module QueueRuns {
  import opened Common
  import opened SegmentQueue

  const FETCH_BATCHES_PER_SEGMENT := SEGMENT_SPAN / FETCH_BATCH_ROWS

  /** An admitted probe: its segments in order, what decoding each yields, and how many fetch workers it allows. */
  datatype Plan = Plan(segments: seq<int>, candidates: seq<seq<int>>, maxThreads: nat)

  /** What decoding a segment yields: rows of it, ascending. */
  predicate Yields(segment: int, rowids: seq<int>) {
    Ascending(rowids) && InSegment(segment, rowids)
  }

  predicate ValidPlan(plan: Plan) {
    && |plan.segments| == |plan.candidates| && plan.maxThreads >= 1
    && Ascending(plan.segments)
    && forall o :: 0 <= o < |plan.candidates| ==> plan.segments[o] >= 0 && Yields(plan.segments[o], plan.candidates[o])
  }

  /** A worker between critical sections: it holds nothing, decodes a segment, reads a batch's rows, or has moved on to
      the tail scan. */
  datatype Worker = Idle | Decoding(ordinal: nat) | Fetching(batch: Batch) | Finished

  /** `log` lists the batches handed out, in order. */
  datatype State = State(queue: Queue, workers: seq<Worker>, log: seq<Batch>)

  datatype Step =
    | Claims(worker: nat)
    | Decoded(worker: nat)
    | DecodeFailed(worker: nat)
    | BatchRead(worker: nat)

  predicate Enabled(s: State, step: Step) {
    && step.worker < |s.workers|
    && var worker := s.workers[step.worker];
      match step
      case Claims(_) => worker.Idle?
      case Decoded(_) => worker.Decoding? && s.queue.decoding > 0
      case DecodeFailed(_) => worker.Decoding? && s.queue.decoding > 0
      case BatchRead(_) => worker.Fetching?
  }

  function ClaimStep(plan: Plan, s: State, worker: nat): State
    requires worker < |s.workers|
  {
    var (claim, queue) := ClaimIn(s.queue, |plan.segments|, plan.maxThreads);
    match claim
    case Claimed(batch) => State(queue, s.workers[worker := Fetching(batch)], s.log + [batch])
    case Decode(ordinal) => s.(queue := queue, workers := s.workers[worker := Decoding(ordinal)])
    case Exhausted => s.(workers := s.workers[worker := Finished])
    case Waiting => s
  }

  function Next(plan: Plan, s: State, step: Step): State
    requires Enabled(s, step)
  {
    match step
    case Claims(worker) => ClaimStep(plan, s, worker)
    case Decoded(worker) =>
      var ordinal := s.workers[worker].ordinal;
      var rowids := if ordinal < |plan.candidates| then plan.candidates[ordinal] else [];
      s.(queue := Finish(s.queue, ordinal, rowids), workers := s.workers[worker := Idle])
    case DecodeFailed(worker) => s.(queue := Fail(s.queue), workers := s.workers[worker := Finished])
    case BatchRead(worker) => s.(workers := s.workers[worker := Idle])
  }

  function Initial(plan: Plan): State {
    State(Queue(0, 0, 0, map[], [], false), seq(plan.maxThreads, _ => Idle), [])
  }

  /** The state after a list of steps, when every one is enabled in turn. */
  function Run(plan: Plan, steps: seq<Step>): Option<State> {
    if steps == [] then Some(Initial(plan))
    else
      var before := Run(plan, steps[..|steps| - 1]);
      var step := steps[|steps| - 1];
      if before.Some? && Enabled(before.value, step) then Some(Next(plan, before.value, step)) else None
  }

  // ---------------------------------------------------------------------------------------------------------------
  // The queue's shape

  predicate Shape(plan: Plan, q: Queue) {
    && q.nextPublish <= q.nextSegment <= |plan.candidates|
    && (forall k :: k in q.pending ==> q.nextPublish <= k < q.nextSegment && q.pending[k] == plan.candidates[k])
    && (forall i :: 0 <= i < |q.ready| ==>
         q.ready[i].ordinal < q.nextPublish && q.ready[i].rowids == plan.candidates[q.ready[i].ordinal])
    && (forall i, j :: 0 <= i < j < |q.ready| ==> q.ready[i].ordinal < q.ready[j].ordinal)
  }

  /** The candidates a list of published segments still holds. */
  function Remaining(ready: seq<Published>): seq<int> {
    if ready == [] then [] else ready[0].rowids[ready[0].nextOffset..] + Remaining(ready[1..])
  }

  lemma {:induction false} RemainingSnoc(ready: seq<Published>, last: Published)
    ensures Remaining(ready + [last]) == Remaining(ready) + last.rowids[last.nextOffset..]
  {
    var tail := last.rowids[last.nextOffset..];
    if ready == [] {
      assert [last][1..] == [] && ready + [last] == [last];
      assert tail + [] == tail == [] + tail;
    } else {
      RemainingSnoc(ready[1..], last);
      assert (ready + [last])[1..] == ready[1..] + [last];
      ConcatAssociates(ready[0].rowids[ready[0].nextOffset..], Remaining(ready[1..]), tail);
    }
  }

  predicate BatchOf(plan: Plan, b: Batch) {
    b.ordinal < |plan.candidates| && b.begin < b.end <= |plan.candidates[b.ordinal]|
  }

  function BatchRows(plan: Plan, b: Batch): seq<int>
    requires BatchOf(plan, b)
  {
    plan.candidates[b.ordinal][b.begin..b.end]
  }

  predicate BatchesOf(plan: Plan, log: seq<Batch>) {
    forall i :: 0 <= i < |log| ==> BatchOf(plan, log[i])
  }

  /** The candidates handed out so far, in order. */
  function Emitted(plan: Plan, log: seq<Batch>): seq<int>
    requires BatchesOf(plan, log)
  {
    if log == [] then [] else Emitted(plan, log[..|log| - 1]) + BatchRows(plan, log[|log| - 1])
  }

  /** Every candidate of the published segments was handed out, in order, or is still ready. */
  predicate Conserved(plan: Plan, q: Queue, log: seq<Batch>)
    requires Shape(plan, q)
  {
    BatchesOf(plan, log) && Emitted(plan, log) + Remaining(q.ready) == Flatten(plan.candidates[..q.nextPublish])
  }

  lemma PublishOneConserves(plan: Plan, q: Queue, log: seq<Batch>)
    requires Shape(plan, q) && Conserved(plan, q, log) && q.nextPublish in q.pending
    ensures Shape(plan, PublishOne(q)) && Conserved(plan, PublishOne(q), log)
  {
    hide Flatten, Emitted, Remaining, BatchesOf;
    var r := PublishOne(q);
    var rowids := plan.candidates[q.nextPublish];
    assert plan.candidates[..r.nextPublish] == plan.candidates[..q.nextPublish] + [rowids];
    FlattenSnoc(plan.candidates[..q.nextPublish], rowids);
    if rowids != [] {
      var last: Published := Candidates(q.nextPublish, rowids, 0);
      RemainingSnoc(q.ready, last);
      assert rowids[0..] == rowids;
      ConcatAssociates(Emitted(plan, log), Remaining(q.ready), rowids);
    }
  }

  lemma {:induction false} PublishConserves(plan: Plan, q: Queue, log: seq<Batch>)
    requires Shape(plan, q) && Conserved(plan, q, log)
    ensures Shape(plan, Publish(q)) && Conserved(plan, Publish(q), log)
    decreases |q.pending|
  {
    hide Shape, Conserved, PublishOne;
    if q.nextPublish in q.pending {
      PublishIsSmaller(q);
      PublishOneConserves(plan, q, log);
      PublishConserves(plan, PublishOne(q), log);
    }
  }

  lemma TakeConserves(plan: Plan, q: Queue, log: seq<Batch>)
    requires Shape(plan, q) && Conserved(plan, q, log) && q.ready != []
    ensures Shape(plan, Take(q)) && Conserved(plan, Take(q), log + [NextBatch(q.ready[0])])
  {
    hide NextBatch, Flatten, Remaining, Emitted;
    var front := q.ready[0];
    var batch := NextBatch(front);
    TakeRemaining(q);
    EmitsNext(plan, log, batch);
    ConcatAssociates(Emitted(plan, log), BatchRows(plan, batch), Remaining(Take(q).ready));
  }

  lemma EmitsNext(plan: Plan, log: seq<Batch>, batch: Batch)
    requires BatchesOf(plan, log) && BatchOf(plan, batch)
    ensures BatchesOf(plan, log + [batch])
            && Emitted(plan, log + [batch]) == Emitted(plan, log) + BatchRows(plan, batch)
  {
    assert (log + [batch])[..|log|] == log;
  }

  lemma TakeRemaining(q: Queue)
    requires q.ready != []
    ensures var front := q.ready[0]; var batch := NextBatch(front);
            Remaining(q.ready) == front.rowids[batch.begin..batch.end] + Remaining(Take(q).ready)
  {
    hide NextBatch;
    var front := q.ready[0];
    var batch := NextBatch(front);
    var rest := Remaining(q.ready[1..]);
    if batch.end == |front.rowids| {
      assert Take(q).ready == q.ready[1..];
      assert front.rowids[batch.begin..batch.end] == front.rowids[batch.begin..];
    } else {
      var left: Published := front.(nextOffset := batch.end);
      assert Take(q).ready == [left] + q.ready[1..] && Take(q).ready[1..] == q.ready[1..];
      assert front.rowids[batch.begin..] == front.rowids[batch.begin..batch.end] + front.rowids[batch.end..];
      ConcatAssociates(front.rowids[batch.begin..batch.end], front.rowids[batch.end..], rest);
    }
  }

  // ---------------------------------------------------------------------------------------------------------------
  // Batch order

  /** A batch's index: the host orders the output by it. */
  function Index(ordinal: nat, offset: nat): nat {
    ordinal * FETCH_BATCHES_PER_SEGMENT + offset / FETCH_BATCH_ROWS
  }

  /** The batch precedes this candidate in index, and shares no vector with it. */
  predicate Before(plan: Plan, b: Batch, ordinal: nat, offset: nat)
    requires BatchOf(plan, b) && ordinal < |plan.candidates| && offset < |plan.candidates[ordinal]|
  {
    && Index(b.ordinal, b.begin) < Index(ordinal, offset)
    && Block(plan.candidates[b.ordinal][b.end - 1]) < Block(plan.candidates[ordinal][offset])
  }

  predicate Ordered(plan: Plan, log: seq<Batch>)
    requires BatchesOf(plan, log)
  {
    forall i, j :: 0 <= i < j < |log| ==> Before(plan, log[i], log[j].ordinal, log[j].begin)
  }

  predicate LogPrecedes(plan: Plan, q: Queue, log: seq<Batch>)
    requires Shape(plan, q) && BatchesOf(plan, log)
  {
    && (forall i :: 0 <= i < |log| ==> log[i].ordinal < q.nextPublish)
    && forall i, k :: 0 <= i < |log| && 0 <= k < |q.ready| ==>
         Before(plan, log[i], q.ready[k].ordinal, q.ready[k].nextOffset)
  }

  lemma EarlierSegment(plan: Plan, b: Batch, ordinal: nat, offset: nat)
    requires ValidPlan(plan) && BatchOf(plan, b)
    requires b.ordinal < ordinal < |plan.candidates| && offset < |plan.candidates[ordinal]|
    ensures Before(plan, b, ordinal, offset)
  {
    SegmentLength(plan.segments[b.ordinal], plan.candidates[b.ordinal]);
    EarlierIndex(b, ordinal, offset);
    EarlierBlock(plan.segments[b.ordinal], plan.segments[ordinal], plan.candidates[b.ordinal][b.end - 1],
        plan.candidates[ordinal][offset]);
  }

  lemma EarlierIndex(b: Batch, ordinal: nat, offset: nat)
    requires b.ordinal < ordinal && b.begin < SEGMENT_SPAN
    ensures Index(b.ordinal, b.begin) < Index(ordinal, offset)
  {
  }

  lemma EarlierBlock(earlier: int, later: int, x: int, y: int)
    requires earlier < later && x < (earlier + 1) * SEGMENT_SPAN && later * SEGMENT_SPAN <= y
    ensures Block(x) < Block(y)
  {
    BlockBound(x, (earlier + 1) * (SEGMENT_SPAN / STANDARD_VECTOR_SIZE));
    BlockBound(y, (earlier + 1) * (SEGMENT_SPAN / STANDARD_VECTOR_SIZE));
  }

  lemma BlockBound(x: int, n: int)
    ensures x < n * STANDARD_VECTOR_SIZE <==> Block(x) < n
  {
  }

  lemma LaterRows(plan: Plan, front: Published)
    requires ValidPlan(plan) && front.ordinal < |plan.candidates| && front.rowids == plan.candidates[front.ordinal]
    ensures var b := NextBatch(front); b.end < |front.rowids| ==> Before(plan, b, front.ordinal, b.end)
  {
    var b := NextBatch(front);
    if b.end < |front.rowids| {
      assert front.rowids[b.end - 1] < front.rowids[b.end];
    }
  }

  lemma PublishOnePrecedes(plan: Plan, q: Queue, log: seq<Batch>)
    requires ValidPlan(plan) && Shape(plan, q) && BatchesOf(plan, log) && LogPrecedes(plan, q, log)
             && q.nextPublish in q.pending
    ensures Shape(plan, PublishOne(q)) && LogPrecedes(plan, PublishOne(q), log)
  {
    hide Before, ValidPlan;
    var r := PublishOne(q);
    forall i, k | 0 <= i < |log| && 0 <= k < |r.ready|
      ensures Before(plan, log[i], r.ready[k].ordinal, r.ready[k].nextOffset)
    {
      if k == |q.ready| {
        EarlierSegment(plan, log[i], q.nextPublish, 0);
      } else {
        assert r.ready[k] == q.ready[k];
      }
    }
  }

  lemma {:induction false} PublishPrecedes(plan: Plan, q: Queue, log: seq<Batch>)
    requires ValidPlan(plan) && Shape(plan, q) && BatchesOf(plan, log) && LogPrecedes(plan, q, log)
    ensures Shape(plan, Publish(q)) && LogPrecedes(plan, Publish(q), log)
    decreases |q.pending|
  {
    hide Shape, LogPrecedes, PublishOne, ValidPlan;
    if q.nextPublish in q.pending {
      PublishIsSmaller(q);
      PublishOnePrecedes(plan, q, log);
      PublishPrecedes(plan, PublishOne(q), log);
    }
  }

  lemma TakeOrdered(plan: Plan, q: Queue, log: seq<Batch>)
    requires ValidPlan(plan) && Shape(plan, q) && BatchesOf(plan, log) && Ordered(plan, log)
             && LogPrecedes(plan, q, log)
    requires q.ready != []
    ensures var log' := log + [NextBatch(q.ready[0])];
            Shape(plan, Take(q)) && BatchesOf(plan, log') && Ordered(plan, log') && LogPrecedes(plan, Take(q), log')
  {
    hide Before, NextBatch, ValidPlan;
    var front := q.ready[0];
    var b := NextBatch(front);
    var log', r := log + [b], Take(q);
    LaterRows(plan, front);
    forall i, k | 0 <= i < |log'| && 0 <= k < |r.ready|
      ensures Before(plan, log'[i], r.ready[k].ordinal, r.ready[k].nextOffset)
    {
      TakePrecedes(plan, q, log, i, k);
    }
  }

  lemma TakePrecedes(plan: Plan, q: Queue, log: seq<Batch>, i: nat, k: nat)
    requires ValidPlan(plan) && Shape(plan, q) && BatchesOf(plan, log) && LogPrecedes(plan, q, log) && q.ready != []
    requires i <= |log| && k < |Take(q).ready|
    ensures Shape(plan, Take(q))
    ensures Before(plan, (log + [NextBatch(q.ready[0])])[i], Take(q).ready[k].ordinal, Take(q).ready[k].nextOffset)
  {
    hide NextBatch, ValidPlan, Index, Block;
    var front := q.ready[0];
    var b := NextBatch(front);
    var r := Take(q).ready[k];
    LaterRows(plan, front);
    if r.ordinal == front.ordinal {
      if i < |log| {
        assert Before(plan, log[i], front.ordinal, front.nextOffset);
        assert Before(plan, b, front.ordinal, b.end);
        BlockMonotone(plan, b);
      }
    } else {
      EarlierSegment(plan, b, r.ordinal, r.nextOffset);
      if i < |log| {
        var k' := if b.end == |front.rowids| then k + 1 else k;
        assert q.ready[k'] == r;
      }
    }
  }

  lemma BlockMonotone(plan: Plan, b: Batch)
    requires ValidPlan(plan) && BatchOf(plan, b)
    ensures Block(plan.candidates[b.ordinal][b.begin]) <= Block(plan.candidates[b.ordinal][b.end - 1])
  {
    var rowids := plan.candidates[b.ordinal];
    assert Yields(plan.segments[b.ordinal], rowids);
  }
}

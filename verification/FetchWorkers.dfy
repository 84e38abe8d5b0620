/** Who decodes what, how many candidate vectors are alive, and what every run of the queue keeps. */
module FetchWorkers {
  import opened Common
  import opened SegmentQueue
  import opened QueueRuns

  // ---------------------------------------------------------------------------------------------------------------
  // Counting workers

  predicate IsDecoding(w: Worker) {
    w.Decoding?
  }

  predicate IsFetching(w: Worker) {
    w.Fetching?
  }

  function Count(workers: seq<Worker>, p: Worker -> bool): nat {
    if workers == [] then 0 else Count(workers[..|workers| - 1], p) + (if p(workers[|workers| - 1]) then 1 else 0)
  }

  lemma {:induction false} CountUpdate(workers: seq<Worker>, p: Worker -> bool, i: nat, w: Worker)
    requires i < |workers|
    ensures Count(workers[i := w], p) == Count(workers, p) - (if p(workers[i]) then 1 else 0) + (if p(w) then 1 else 0)
  {
    var front := workers[..|workers| - 1];
    if i == |workers| - 1 {
      assert workers[i := w][..|workers| - 1] == front;
    } else {
      CountUpdate(front, p, i, w);
      assert workers[i := w][..|workers| - 1] == front[i := w];
    }
  }

  lemma {:induction false} CountBoth(workers: seq<Worker>)
    ensures Count(workers, IsDecoding) + Count(workers, IsFetching) <= |workers|
  {
    if workers != [] {
      CountBoth(workers[..|workers| - 1]);
    }
  }

  lemma {:induction false} CountIdle(n: nat, p: Worker -> bool)
    requires !p(Idle)
    ensures Count(seq(n, _ => Idle), p) == 0
  {
    if n > 0 {
      CountIdle(n - 1, p);
      assert seq(n, _ => Idle)[..n - 1] == seq(n - 1, _ => Idle);
    }
  }

  lemma {:induction false} CountPositive(workers: seq<Worker>, p: Worker -> bool, i: nat)
    requires i < |workers| && p(workers[i])
    ensures Count(workers, p) >= 1
  {
    if i < |workers| - 1 {
      CountPositive(workers[..|workers| - 1], p, i);
    }
  }

  /** The segments being decoded. */
  function DecodingSet(workers: seq<Worker>): set<nat> {
    set i | 0 <= i < |workers| && workers[i].Decoding? :: workers[i].ordinal
  }

  function Decodes(w: Worker): set<nat> {
    if w.Decoding? then {w.ordinal} else {}
  }

  lemma DecodesOne(workers: seq<Worker>, i: nat)
    requires i < |workers|
    ensures Decodes(workers[i]) <= DecodingSet(workers)
  {
  }

  /** The segments some fetching worker holds. */
  function HeldSet(workers: seq<Worker>): set<nat> {
    set i | 0 <= i < |workers| && workers[i].Fetching? :: workers[i].batch.ordinal
  }

  function ReadySet(ready: seq<Published>): set<nat> {
    set i | 0 <= i < |ready| :: ready[i].ordinal
  }

  /** The segments decoded and not yet handed out whole. */
  function Undelivered(q: Queue): set<nat> {
    ReadySet(q.ready) + q.pending.Keys
  }

  lemma {:induction false} DecodingSize(workers: seq<Worker>)
    ensures |DecodingSet(workers)| <= Count(workers, IsDecoding)
  {
    if workers != [] {
      var front, last := workers[..|workers| - 1], workers[|workers| - 1];
      DecodingSize(front);
      assert DecodingSet(workers) == DecodingSet(front) + (if last.Decoding? then {last.ordinal} else {});
    }
  }

  lemma {:induction false} HeldSize(workers: seq<Worker>)
    ensures |HeldSet(workers)| <= Count(workers, IsFetching)
  {
    if workers != [] {
      var front, last := workers[..|workers| - 1], workers[|workers| - 1];
      HeldSize(front);
      assert HeldSet(workers) == HeldSet(front) + (if last.Fetching? then {last.batch.ordinal} else {});
    }
  }

  // ---------------------------------------------------------------------------------------------------------------
  // Which segment is where

  /** No two workers decode one segment. */
  predicate Distinct(workers: seq<Worker>) {
    forall i, j :: 0 <= i < j < |workers| && workers[i].Decoding? && workers[j].Decoding? ==>
        workers[i].ordinal != workers[j].ordinal
  }

  /** Each claimed, unpublished segment is pending or being decoded, never both; after a failure some are lost. */
  predicate Placed(q: Queue, workers: seq<Worker>) {
    && (forall o :: o in DecodingSet(workers) ==> q.nextPublish <= o < q.nextSegment && o !in q.pending)
    && (!q.failed ==> forall o :: q.nextPublish <= o < q.nextSegment && o !in q.pending ==> o in DecodingSet(workers))
  }

  predicate Crew(plan: Plan, q: Queue, workers: seq<Worker>) {
    && |workers| == plan.maxThreads
    && q.decoding == Count(workers, IsDecoding)
    && Distinct(workers)
    && Placed(q, workers)
  }

  /** Publishing moves exactly the pending segments below the new cursor. */
  lemma {:induction false} PublishMoves(q: Queue)
    requires forall k :: k in q.pending ==> q.nextPublish <= k
    ensures var r := Publish(q);
            && r.nextSegment == q.nextSegment && r.decoding == q.decoding && r.failed == q.failed
            && (forall k :: k in r.pending <==> k in q.pending && r.nextPublish <= k)
            && (forall k :: q.nextPublish <= k < r.nextPublish ==> k in q.pending)
            && |q.ready| <= |r.ready| && |r.ready| + |r.pending| <= |q.ready| + |q.pending|
            && Undelivered(r) <= Undelivered(q)
    decreases |q.pending|
  {
    if q.nextPublish in q.pending {
      PublishIsSmaller(q);
      var one := PublishOne(q);
      PublishOneReady(q);
      PublishMoves(one);
      forall k | q.nextPublish <= k < Publish(q).nextPublish ensures k in q.pending {
        assert k == q.nextPublish || k in one.pending;
      }
    }
  }

  lemma PublishOneReady(q: Queue)
    requires q.nextPublish in q.pending
    ensures Undelivered(PublishOne(q)) <= Undelivered(q)
  {
    var r := PublishOne(q);
    assert forall i :: 0 <= i < |q.ready| ==> q.ready[i].ordinal in ReadySet(q.ready);
  }

  lemma DecodingUpdate(workers: seq<Worker>, i: nat, w: Worker)
    requires i < |workers| && Distinct(workers)
    requires w.Decoding? ==> w.ordinal !in DecodingSet(workers)
    ensures Distinct(workers[i := w])
    ensures DecodingSet(workers[i := w]) == DecodingSet(workers) - Decodes(workers[i]) + Decodes(w)
  {
    var after := workers[i := w];
    forall j | 0 <= j < |workers| && workers[j].Decoding? ensures workers[j].ordinal in DecodingSet(workers) {
    }
    forall o ensures o in DecodingSet(after) <==>
        (o in DecodingSet(workers) && !(workers[i].Decoding? && o == workers[i].ordinal))
            || (w.Decoding? && o == w.ordinal)
    {
      if w.Decoding? && o == w.ordinal {
        assert after[i] == w;
      } else if o in DecodingSet(workers) && !(workers[i].Decoding? && o == workers[i].ordinal) {
        var j :| 0 <= j < |workers| && workers[j].Decoding? && workers[j].ordinal == o;
        assert after[j] == workers[j];
      }
    }
  }

  lemma HeldUpdate(workers: seq<Worker>, i: nat, w: Worker)
    requires i < |workers|
    ensures HeldSet(workers[i := w]) <= HeldSet(workers) + (if w.Fetching? then {w.batch.ordinal} else {})
  {
  }

  // ---------------------------------------------------------------------------------------------------------------
  // Live candidate vectors

  /** The segments whose candidate vector exists: decoding, pending, ready, or held by a fetching worker. */
  function Alive(s: State): set<nat> {
    DecodingSet(s.workers) + Undelivered(s.queue) + HeldSet(s.workers)
  }

  function AliveLimit(maxThreads: nat): int {
    if maxThreads <= 1 then 1 else 2 * maxThreads - 2
  }

  predicate Bounded(plan: Plan, s: State) {
    && s.queue.decoding + |s.queue.pending| + |s.queue.ready| <= plan.maxThreads
    && |Alive(s)| <= AliveLimit(plan.maxThreads)
  }

  lemma SubsetSize(a: set<nat>, b: set<nat>)
    requires a <= b
    ensures |a| <= |b|
  {
    assert b == a + (b - a);
  }

  // ---------------------------------------------------------------------------------------------------------------
  // The invariant

  ghost predicate Inv(plan: Plan, s: State) {
    && Shape(plan, s.queue) && s.queue.nextPublish !in s.queue.pending
    && Conserved(plan, s.queue, s.log)
    && Ordered(plan, s.log) && LogPrecedes(plan, s.queue, s.log)
    && Crew(plan, s.queue, s.workers)
    && Bounded(plan, s)
  }

  lemma InitialInv(plan: Plan)
    requires ValidPlan(plan)
    ensures Inv(plan, Initial(plan))
  {
    hide Crew, Bounded, Flatten;
    InitialCrew(plan);
    assert plan.candidates[..0] == [];
    assert Flatten(plan.candidates[..0]) == [] by { FlattenNothing(plan); }
  }

  lemma FlattenNothing(plan: Plan)
    ensures Flatten(plan.candidates[..0]) == []
  {
  }

  lemma InitialCrew(plan: Plan)
    requires plan.maxThreads >= 1
    ensures Crew(plan, Initial(plan).queue, Initial(plan).workers) && Bounded(plan, Initial(plan))
  {
    hide Count;
    CountIdle(plan.maxThreads, IsDecoding);
    assert Alive(Initial(plan)) == {};
  }

  lemma TakeStep(plan: Plan, s: State, worker: nat)
    requires ValidPlan(plan) && Inv(plan, s) && worker < |s.workers| && s.workers[worker].Idle? && s.queue.ready != []
    ensures Inv(plan, ClaimStep(plan, s, worker))
  {
    hide NextBatch, Shape, ValidPlan, Ordered, LogPrecedes, Crew, Bounded, Flatten, Emitted, Remaining;
    TakeConserves(plan, s.queue, s.log);
    TakeOrdered(plan, s.queue, s.log);
    TakeCrew(plan, s, worker);
  }

  lemma TakeCrew(plan: Plan, s: State, worker: nat)
    requires Crew(plan, s.queue, s.workers) && Bounded(plan, s)
    requires worker < |s.workers| && s.workers[worker].Idle? && s.queue.ready != []
    ensures var s' := ClaimStep(plan, s, worker); Crew(plan, s'.queue, s'.workers) && Bounded(plan, s')
  {
    hide NextBatch, Alive, DecodingSet, Distinct, Count, Placed, Take;
    var batch := NextBatch(s.queue.ready[0]);
    CountUpdate(s.workers, IsDecoding, worker, Fetching(batch));
    DecodingUpdate(s.workers, worker, Fetching(batch));
    TakeAlive(plan, s, worker);
    TakeShrinks(s.queue);
    TakePlaced(s.queue, s.workers, s.workers[worker := Fetching(batch)]);
  }

  lemma TakeShrinks(q: Queue)
    requires q.ready != []
    ensures var r := Take(q); |r.ready| <= |q.ready| && r == q.(ready := r.ready)
  {
    hide NextBatch;
  }

  lemma TakePlaced(q: Queue, workers: seq<Worker>, after: seq<Worker>)
    requires q.ready != [] && Placed(q, workers) && DecodingSet(after) == DecodingSet(workers)
    ensures Placed(Take(q), after)
  {
    hide NextBatch, DecodingSet;
  }

  lemma TakeAlive(plan: Plan, s: State, worker: nat)
    requires worker < |s.workers| && s.workers[worker].Idle? && s.queue.ready != [] && Distinct(s.workers)
    ensures |Alive(ClaimStep(plan, s, worker))| <= |Alive(s)|
  {
    hide NextBatch, DecodingSet, HeldSet, Distinct, Undelivered, Take;
    var s' := ClaimStep(plan, s, worker);
    var batch := NextBatch(s.queue.ready[0]);
    HeldUpdate(s.workers, worker, Fetching(batch));
    DecodingUpdate(s.workers, worker, Fetching(batch));
    TakeWaiting(s.queue);
    SubsetSize(Alive(s'), Alive(s));
  }

  lemma TakeWaiting(q: Queue)
    requires q.ready != []
    ensures Undelivered(Take(q)) <= Undelivered(q) && NextBatch(q.ready[0]).ordinal in Undelivered(q)
  {
    hide NextBatch;
    var r := Take(q).ready;
    forall i | 0 <= i < |r| ensures r[i].ordinal in ReadySet(q.ready) {
      if r[i].ordinal != q.ready[0].ordinal {
        var j := if |r| == |q.ready| then i else i + 1;
        assert q.ready[j] == r[i];
      }
    }
  }

  /** Claiming a segment to decode is the one step that allocates. A full queue with a pending segment has a second
      decoder, the one of the segment that publishes next. */
  lemma DecodeStep(plan: Plan, s: State, worker: nat)
    requires ValidPlan(plan) && Inv(plan, s) && worker < |s.workers| && s.workers[worker].Idle?
    requires ClaimIn(s.queue, |plan.segments|, plan.maxThreads).0.Decode?
    ensures Inv(plan, ClaimStep(plan, s, worker))
  {
    hide ValidPlan, Flatten, Emitted, Remaining, Before, Alive, DecodingSet;
    assert |plan.segments| == |plan.candidates| by { PlanLengths(plan); }
    DecodeCrew(plan, s, worker);
  }

  lemma PlanLengths(plan: Plan)
    requires ValidPlan(plan)
    ensures |plan.segments| == |plan.candidates| && plan.maxThreads >= 1
  {
  }

  lemma DecodeCrew(plan: Plan, s: State, worker: nat)
    requires Shape(plan, s.queue) && s.queue.nextPublish !in s.queue.pending
    requires Crew(plan, s.queue, s.workers) && Bounded(plan, s) && worker < |s.workers| && s.workers[worker].Idle?
    requires ClaimIn(s.queue, |plan.segments|, plan.maxThreads).0.Decode?
    ensures var s' := ClaimStep(plan, s, worker); Crew(plan, s'.queue, s'.workers) && Bounded(plan, s')
  {
    hide DecodingSet, Distinct, Alive, Shape, Count, Placed, AliveLimit;
    var ordinal := s.queue.nextSegment;
    var after := s.workers[worker := Decoding(ordinal)];
    DecodeIsNew(plan, s.queue, s.workers);
    CountUpdate(s.workers, IsDecoding, worker, Decoding(ordinal));
    DecodingUpdate(s.workers, worker, Decoding(ordinal));
    DecodeAlive(plan, s, worker);
    DecodePlaced(s.queue, s.workers, after);
  }

  lemma DecodeIsNew(plan: Plan, q: Queue, workers: seq<Worker>)
    requires Shape(plan, q) && Placed(q, workers)
    ensures q.nextSegment !in DecodingSet(workers) && q.nextSegment !in q.pending && q.nextPublish <= q.nextSegment
  {
    hide DecodingSet;
  }

  lemma DecodePlaced(q: Queue, workers: seq<Worker>, after: seq<Worker>)
    requires Placed(q, workers) && q.nextSegment !in q.pending && q.nextPublish <= q.nextSegment
    requires DecodingSet(after) == DecodingSet(workers) + {q.nextSegment}
    ensures Placed(q.(nextSegment := q.nextSegment + 1, decoding := q.decoding + 1), after)
  {
    hide DecodingSet;
  }

  lemma DecodeAlive(plan: Plan, s: State, worker: nat)
    requires Shape(plan, s.queue) && s.queue.nextPublish !in s.queue.pending
    requires Crew(plan, s.queue, s.workers) && worker < |s.workers| && s.workers[worker].Idle?
    requires ClaimIn(s.queue, |plan.segments|, plan.maxThreads).0.Decode?
    ensures |Alive(ClaimStep(plan, s, worker))| <= AliveLimit(plan.maxThreads)
  {
    hide DecodingSet, HeldSet, Distinct, Shape, Count, Placed;
    var s' := ClaimStep(plan, s, worker);
    var w := Decoding(s.queue.nextSegment);
    CountUpdate(s.workers, IsDecoding, worker, w);
    DecodingSize(s'.workers);
    HeldSize(s'.workers);
    CountBoth(s'.workers);
    if s.queue.pending.Keys != {} {
      PendingNeedsDecoder(plan, s.queue, s.workers);
    }
    assert ReadySet(s'.queue.ready) == {};
    assert |Alive(s')| <= |DecodingSet(s'.workers)| + |s.queue.pending.Keys| + |HeldSet(s'.workers)|;
  }

  /** A pending segment waits for one that a worker is decoding. */
  lemma PendingNeedsDecoder(plan: Plan, q: Queue, workers: seq<Worker>)
    requires Shape(plan, q) && q.nextPublish !in q.pending && Crew(plan, q, workers) && !q.failed
    requires q.pending.Keys != {}
    ensures q.decoding >= 1 && q.nextPublish in DecodingSet(workers)
  {
    hide Count, Distinct;
    var k :| k in q.pending.Keys;
    assert k in q.pending && q.nextPublish < k < q.nextSegment;
    assert q.nextPublish in DecodingSet(workers);
    var i :| 0 <= i < |workers| && workers[i].Decoding? && workers[i].ordinal == q.nextPublish;
    CountPositive(workers, IsDecoding, i);
  }

  lemma FinishStep(plan: Plan, s: State, worker: nat)
    requires ValidPlan(plan) && Inv(plan, s) && Enabled(s, Decoded(worker))
    ensures Inv(plan, Next(plan, s, Decoded(worker)))
  {
    hide ValidPlan, Publish, Conserved, LogPrecedes, Ordered, Crew, Bounded;
    var ordinal := s.workers[worker].ordinal;
    WorkerPlaced(plan, s.queue, s.workers, worker);
    FinishShape(plan, s.queue, s.log, ordinal);
    FinishCrew(plan, s, worker);
  }

  lemma WorkerPlaced(plan: Plan, q: Queue, workers: seq<Worker>, worker: nat)
    requires Crew(plan, q, workers) && worker < |workers| && workers[worker].Decoding?
    ensures var o := workers[worker].ordinal;
            q.nextPublish <= o < q.nextSegment && o !in q.pending && o in DecodingSet(workers)
  {
    assert workers[worker].ordinal in DecodingSet(workers);
  }

  lemma FinishShape(plan: Plan, q: Queue, log: seq<Batch>, ordinal: nat)
    requires ValidPlan(plan) && Shape(plan, q) && Conserved(plan, q, log) && LogPrecedes(plan, q, log)
    requires q.decoding > 0 && q.nextPublish <= ordinal < q.nextSegment
    ensures var r := Finish(q, ordinal, plan.candidates[ordinal]);
            Shape(plan, r) && Conserved(plan, r, log) && LogPrecedes(plan, r, log) && r.nextPublish !in r.pending
  {
    hide ValidPlan, Publish, Flatten, Emitted, Remaining, Before;
    var mid := q.(decoding := q.decoding - 1, pending := q.pending[ordinal := plan.candidates[ordinal]]);
    PublishConserves(plan, mid, log);
    PublishPrecedes(plan, mid, log);
  }

  /** The queue a decoded segment joins, before it publishes. */
  function Joined(plan: Plan, q: Queue, ordinal: nat): Queue
    requires q.decoding > 0 && ordinal < |plan.candidates|
  {
    q.(decoding := q.decoding - 1, pending := q.pending[ordinal := plan.candidates[ordinal]])
  }

  lemma JoinedSize(plan: Plan, q: Queue, ordinal: nat)
    requires Shape(plan, q) && q.decoding > 0 && q.nextPublish <= ordinal < q.nextSegment && ordinal !in q.pending
    ensures var mid := Joined(plan, q, ordinal);
            && |mid.pending| == |q.pending| + 1 && mid.ready == q.ready
            && (forall k :: k in mid.pending ==> mid.nextPublish <= k)
            && Undelivered(mid) == Undelivered(q) + {ordinal}
  {
    var mid := Joined(plan, q, ordinal);
    assert mid.pending.Keys == q.pending.Keys + {ordinal};
    assert |mid.pending| == |mid.pending.Keys| && |q.pending| == |q.pending.Keys|;
  }

  lemma FinishCrew(plan: Plan, s: State, worker: nat)
    requires Shape(plan, s.queue) && Crew(plan, s.queue, s.workers) && Bounded(plan, s) && Enabled(s, Decoded(worker))
    ensures var s' := Next(plan, s, Decoded(worker)); Crew(plan, s'.queue, s'.workers) && Bounded(plan, s')
  {
    hide DecodingSet, Distinct, Publish, Count, Alive, Undelivered, Placed;
    var q, ordinal := s.queue, s.workers[worker].ordinal;
    WorkerPlaced(plan, q, s.workers, worker);
    JoinedSize(plan, q, ordinal);
    hide Shape;
    var mid := Joined(plan, q, ordinal);
    PublishMoves(mid);
    FreeWorker(s, worker, Idle, Publish(mid));
    FinishPlaced(plan, q, s.workers, s.workers[worker := Idle], ordinal);
  }

  lemma FinishPlaced(plan: Plan, q: Queue, workers: seq<Worker>, after: seq<Worker>, ordinal: nat)
    requires Placed(q, workers) && q.decoding > 0 && ordinal < |plan.candidates|
    requires forall k :: k in Joined(plan, q, ordinal).pending ==> q.nextPublish <= k
    requires DecodingSet(after) == DecodingSet(workers) - {ordinal}
    ensures Placed(Publish(Joined(plan, q, ordinal)), after)
  {
    hide DecodingSet, Publish, Undelivered;
    var mid := Joined(plan, q, ordinal);
    var r := Publish(mid);
    PublishMoves(mid);
    forall o | o in DecodingSet(after) ensures r.nextPublish <= o < r.nextSegment && o !in r.pending {
      assert o in DecodingSet(workers) && o !in mid.pending;
    }
    if !q.failed {
      forall o: nat | r.nextPublish <= o < r.nextSegment && o !in r.pending ensures o in DecodingSet(after) {
        assert o !in mid.pending;
        assert o !in q.pending && o != ordinal;
      }
    }
  }

  /** A worker that stops decoding or fetching frees what it held. */
  lemma FreeWorker(s: State, i: nat, w: Worker, q: Queue)
    requires i < |s.workers| && Distinct(s.workers) && (w.Idle? || w.Finished?)
    requires Undelivered(q) <= Undelivered(s.queue) + Decodes(s.workers[i])
    ensures var after := s.workers[i := w];
            && Distinct(after)
            && Count(after, IsDecoding) == Count(s.workers, IsDecoding) - (if s.workers[i].Decoding? then 1 else 0)
            && DecodingSet(after) == DecodingSet(s.workers) - Decodes(s.workers[i])
            && |Alive(s.(queue := q, workers := after))| <= |Alive(s)|
  {
    hide HeldSet, Distinct, Count, Undelivered, DecodingSet;
    DecodesOne(s.workers, i);
    CountUpdate(s.workers, IsDecoding, i, w);
    DecodingUpdate(s.workers, i, w);
    HeldUpdate(s.workers, i, w);
    SubsetSize(Alive(s.(queue := q, workers := s.workers[i := w])), Alive(s));
  }

  lemma ReleaseStep(plan: Plan, s: State, step: Step)
    requires Inv(plan, s) && Enabled(s, step) && (step.DecodeFailed? || step.BatchRead?)
    ensures Inv(plan, Next(plan, s, step))
  {
    hide DecodingSet, Distinct, Count, Shape, Conserved, Ordered, LogPrecedes, Alive, Undelivered, Placed;
    FailShape(plan, s.queue, s.log);
    var w := if step.BatchRead? then Idle else Finished;
    FreeWorker(s, step.worker, w, Next(plan, s, step).queue);
    FewerPlaced(s.queue, Next(plan, s, step).queue, s.workers, s.workers[step.worker := w]);
  }

  /** Dropping a segment being decoded leaves the others placed, once the queue has failed. */
  lemma FewerPlaced(q: Queue, r: Queue, workers: seq<Worker>, after: seq<Worker>)
    requires Placed(q, workers) && DecodingSet(after) <= DecodingSet(workers)
    requires r.nextPublish == q.nextPublish && r.nextSegment == q.nextSegment && r.pending == q.pending
    requires r.failed || (r.failed == q.failed && DecodingSet(after) == DecodingSet(workers))
    ensures Placed(r, after)
  {
    hide DecodingSet;
  }

  lemma FailShape(plan: Plan, q: Queue, log: seq<Batch>)
    requires Shape(plan, q) && Conserved(plan, q, log) && LogPrecedes(plan, q, log)
    ensures q.decoding > 0 ==> Shape(plan, Fail(q)) && Conserved(plan, Fail(q), log) && LogPrecedes(plan, Fail(q), log)
    ensures q.decoding > 0 ==> Undelivered(Fail(q)) == Undelivered(q)
  {
    hide Flatten, Emitted, Remaining, Before, BatchesOf;
  }

  lemma LeaveStep(plan: Plan, s: State, worker: nat)
    requires Inv(plan, s) && worker < |s.workers| && s.workers[worker].Idle?
    ensures Inv(plan, s.(workers := s.workers[worker := Finished]))
  {
    hide DecodingSet, Distinct, Count, Shape, Conserved, Ordered, LogPrecedes, Alive, Undelivered;
    FreeWorker(s, worker, Finished, s.queue);
  }

  lemma NextInv(plan: Plan, s: State, step: Step)
    requires ValidPlan(plan) && Inv(plan, s) && Enabled(s, step)
    ensures Inv(plan, Next(plan, s, step))
  {
    hide Inv, ValidPlan, Take, Finish, Fail;
    match step {
      case Claims(worker) =>
        match ClaimIn(s.queue, |plan.segments|, plan.maxThreads).0 {
          case Claimed(_) => TakeStep(plan, s, worker);
          case Decode(_) => DecodeStep(plan, s, worker);
          case Exhausted => LeaveStep(plan, s, worker);
          case Waiting =>
        }
      case Decoded(worker) => FinishStep(plan, s, worker);
      case DecodeFailed(_) => ReleaseStep(plan, s, step);
      case BatchRead(_) => ReleaseStep(plan, s, step);
    }
  }

  /** Every reachable state keeps the invariant. */
  lemma {:induction false} RunInv(plan: Plan, steps: seq<Step>)
    requires ValidPlan(plan) && Run(plan, steps).Some?
    ensures Inv(plan, Run(plan, steps).value)
  {
    hide Inv, ValidPlan, Enabled, Next;
    if steps == [] {
      InitialInv(plan);
    } else {
      RunInv(plan, steps[..|steps| - 1]);
      NextInv(plan, Run(plan, steps[..|steps| - 1]).value, steps[|steps| - 1]);
    }
  }

  // ---------------------------------------------------------------------------------------------------------------
  // What every run keeps

  /** Every candidate of the published segments is in exactly one batch or still ready; batches follow rowid order. */
  lemma HandedOutOnce(plan: Plan, steps: seq<Step>)
    requires ValidPlan(plan) && Run(plan, steps).Some?
    ensures var s := Run(plan, steps).value;
            && BatchesOf(plan, s.log) && s.queue.nextPublish <= |plan.candidates|
            && Emitted(plan, s.log) + Remaining(s.queue.ready) == Flatten(plan.candidates[..s.queue.nextPublish])
            && Ascending(Emitted(plan, s.log))
  {
    hide ValidPlan, Run, Emitted, Remaining, Flatten, Ordered, LogPrecedes, Crew, Bounded, BatchesOf;
    RunInv(plan, steps);
    var s := Run(plan, steps).value;
    FlattenAscending(plan, s.queue.nextPublish);
    PrefixAscending(Emitted(plan, s.log), Remaining(s.queue.ready));
  }

  lemma PrefixAscending(a: seq<int>, b: seq<int>)
    requires Ascending(a + b)
    ensures Ascending(a)
  {
    assert forall i :: 0 <= i < |a| ==> (a + b)[i] == a[i];
  }

  /** The candidates of the segments, listed segment by segment, ascend. */
  lemma {:induction false} FlattenAscending(plan: Plan, n: nat)
    requires ValidPlan(plan) && n <= |plan.candidates|
    ensures Ascending(Flatten(plan.candidates[..n]))
    ensures n > 0 ==>
            forall x :: x in Flatten(plan.candidates[..n]) ==> 0 <= x < (plan.segments[n - 1] + 1) * SEGMENT_SPAN
  {
    if n == 0 {
      assert plan.candidates[..0] == [];
    } else {
      var front, last := plan.candidates[..n - 1], plan.candidates[n - 1];
      FlattenAscending(plan, n - 1);
      assert plan.candidates[..n] == front + [last];
      FlattenSnoc(front, last);
      assert Yields(plan.segments[n - 1], last);
      var before := Flatten(front);
      assert n > 1 ==> plan.segments[n - 2] < plan.segments[n - 1];
      assert n == 1 ==> front == [];
      forall x | x in before ensures 0 <= x < plan.segments[n - 1] * SEGMENT_SPAN {
      }
      AscendingConcat(before, last, plan.segments[n - 1] * SEGMENT_SPAN);
    }
  }

  lemma AscendingConcat(a: seq<int>, b: seq<int>, limit: int)
    requires Ascending(a) && Ascending(b)
    requires forall x :: x in a ==> x < limit
    requires forall i :: 0 <= i < |b| ==> limit <= b[i]
    ensures Ascending(a + b)
  {
    forall i, j | 0 <= i < j < |a + b| ensures (a + b)[i] < (a + b)[j] {
      if i < |a| <= j {
        assert a[i] in a;
      }
    }
  }

  /** Batch indexes are unique and increasing, stay below the tail's first index, and no two batches share a vector. */
  lemma BatchIndexes(plan: Plan, steps: seq<Step>, i: nat, j: nat)
    requires ValidPlan(plan) && Run(plan, steps).Some? && i < j < |Run(plan, steps).value.log|
    ensures var log := Run(plan, steps).value.log;
            && BatchOf(plan, log[i]) && BatchOf(plan, log[j])
            && Index(log[i].ordinal, log[i].begin) < Index(log[j].ordinal, log[j].begin) < Index(|plan.segments|, 0)
            && Block(plan.candidates[log[i].ordinal][log[i].end - 1])
                 < Block(plan.candidates[log[j].ordinal][log[j].begin])
  {
    hide ValidPlan, Run, Emitted, Remaining, Flatten, LogPrecedes, Crew, Bounded, Block, Shape, Index;
    RunInv(plan, steps);
    var log := Run(plan, steps).value.log;
    assert Before(plan, log[i], log[j].ordinal, log[j].begin);
    PlanLengths(plan);
    SegmentLengthOf(plan, log[j].ordinal);
    EarlierIndex(log[j], |plan.segments|, 0);
  }

  lemma SegmentLengthOf(plan: Plan, ordinal: nat)
    requires ValidPlan(plan) && ordinal < |plan.candidates|
    ensures |plan.candidates[ordinal]| <= SEGMENT_SPAN
  {
    SegmentLength(plan.segments[ordinal], plan.candidates[ordinal]);
  }

  /** At most maxThreads segments are decoding, pending or published, and at most 2 * maxThreads - 2 candidate vectors
      are alive, one for a single worker. */
  lemma AliveVectors(plan: Plan, steps: seq<Step>)
    requires ValidPlan(plan) && Run(plan, steps).Some?
    ensures var s := Run(plan, steps).value;
            && s.queue.decoding == Count(s.workers, IsDecoding) <= plan.maxThreads
            && s.queue.decoding + |s.queue.pending| + |s.queue.ready| <= plan.maxThreads
            && |Alive(s)| <= AliveLimit(plan.maxThreads)
  {
    hide ValidPlan, Run, Conserved, Ordered, LogPrecedes, Shape, Alive;
    RunInv(plan, steps);
  }

  /** A worker is told to wait only while another one decodes. */
  lemma WaitsForADecoder(plan: Plan, steps: seq<Step>)
    requires ValidPlan(plan) && Run(plan, steps).Some?
    requires ClaimIn(Run(plan, steps).value.queue, |plan.segments|, plan.maxThreads).0.Waiting?
    ensures var s := Run(plan, steps).value;
            exists i :: 0 <= i < |s.workers| && s.workers[i].Decoding? && Enabled(s, Decoded(i))
  {
    hide ValidPlan, Run, Conserved, Ordered, LogPrecedes, Alive;
    RunInv(plan, steps);
    PlanLengths(plan);
    var s := Run(plan, steps).value;
    if s.queue.pending.Keys != {} {
      PendingNeedsDecoder(plan, s.queue, s.workers);
    } else {
      assert |s.queue.pending.Keys| == 0 == |s.queue.pending|;
      assert s.queue.decoding >= 1;
    }
    CountedExists(s.workers, IsDecoding);
    var i :| 0 <= i < |s.workers| && IsDecoding(s.workers[i]);
    assert Enabled(s, Decoded(i));
  }

  lemma {:induction false} CountedExists(workers: seq<Worker>, p: Worker -> bool)
    requires Count(workers, p) >= 1
    ensures exists i :: 0 <= i < |workers| && p(workers[i])
  {
    if !p(workers[|workers| - 1]) {
      CountedExists(workers[..|workers| - 1], p);
      var i :| 0 <= i < |workers| - 1 && p(workers[..|workers| - 1][i]);
      assert p(workers[i]);
    }
  }

  /** Without a decode failure, EXHAUSTED means every candidate of every admitted segment was handed out. */
  lemma ExhaustedIsComplete(plan: Plan, steps: seq<Step>)
    requires ValidPlan(plan) && Run(plan, steps).Some? && !Run(plan, steps).value.queue.failed
    requires ClaimIn(Run(plan, steps).value.queue, |plan.segments|, plan.maxThreads).0.Exhausted?
    ensures var s := Run(plan, steps).value; BatchesOf(plan, s.log) && Emitted(plan, s.log) == Flatten(plan.candidates)
  {
    hide ValidPlan, Run, Emitted, Flatten, Ordered, LogPrecedes, Bounded, BatchesOf;
    RunInv(plan, steps);
    PlanLengths(plan);
    var s := Run(plan, steps).value;
    if s.queue.nextPublish < s.queue.nextSegment {
      assert |s.queue.pending.Keys| == |s.queue.pending|;
      assert s.queue.nextPublish in DecodingSet(s.workers);
      var i :| 0 <= i < |s.workers| && s.workers[i].Decoding? && s.workers[i].ordinal == s.queue.nextPublish;
      CountPositive(s.workers, IsDecoding, i);
    }
    assert plan.candidates[..s.queue.nextPublish] == plan.candidates;
    assert Remaining([]) == [];
  }

  // ---------------------------------------------------------------------------------------------------------------
  // Termination

  function Weight(workers: seq<Worker>): nat {
    if workers == [] then 0
    else Weight(workers[..|workers| - 1]) + WorkerWeight(workers[|workers| - 1])
  }

  function WorkerWeight(w: Worker): nat {
    match w
    case Idle => 1
    case Finished => 0
    case _ => 2
  }

  lemma {:induction false} WeightUpdate(workers: seq<Worker>, i: nat, w: Worker)
    requires i < |workers|
    ensures Weight(workers[i := w]) == Weight(workers) - WorkerWeight(workers[i]) + WorkerWeight(w)
  {
    var front := workers[..|workers| - 1];
    if i == |workers| - 1 {
      assert workers[i := w][..|workers| - 1] == front;
    } else {
      WeightUpdate(front, i, w);
      assert workers[i := w][..|workers| - 1] == front[i := w];
    }
  }

  /** What is left to do: candidates to hand out, segments to claim, workers to finish. */
  function Work(plan: Plan, s: State): int
    requires BatchesOf(plan, s.log)
  {
    2 * (|Flatten(plan.candidates)| - |Emitted(plan, s.log)|) + 2 * (|plan.segments| - s.queue.nextSegment)
        + Weight(s.workers)
  }

  predicate Productive(plan: Plan, s: State, step: Step) {
    step.Claims? ==> !ClaimIn(s.queue, |plan.segments|, plan.maxThreads).0.Waiting?
  }

  /** The steps by which the first k workers claim. */
  function ClaimAll(k: nat): (steps: seq<Step>)
    ensures |steps| == k
  {
    if k == 0 then [] else ClaimAll(k - 1) + [Claims(k - 1)]
  }

  /** Decoding is parallel: as many workers as there are, or as there are segments, decode at once. */
  lemma {:induction false} AllMayDecode(plan: Plan, k: nat)
    requires ValidPlan(plan) && k <= plan.maxThreads && k <= |plan.segments|
    ensures Run(plan, ClaimAll(k)).Some?
    ensures var s := Run(plan, ClaimAll(k)).value;
            && s.queue == Queue(k, 0, k, map[], [], false) && |s.workers| == plan.maxThreads
            && forall w :: 0 <= w < |s.workers| ==> s.workers[w] == if w < k then Decoding(w) else Idle
  {
    hide ValidPlan, ClaimIn;
    PlanLengths(plan);
    if k > 0 {
      AllMayDecode(plan, k - 1);
      var steps := ClaimAll(k);
      assert steps[..|steps| - 1] == ClaimAll(k - 1) && steps[|steps| - 1] == Claims(k - 1);
      var before := Run(plan, ClaimAll(k - 1)).value;
      ClaimsNext(before.queue, |plan.segments|, plan.maxThreads);
    }
  }

  lemma ClaimsNext(q: Queue, segments: nat, maxThreads: nat)
    requires q.ready == [] && q.pending == map[] && !q.failed && q.nextSegment < segments && q.decoding < maxThreads
    ensures ClaimIn(q, segments, maxThreads)
         == (Decode(q.nextSegment), q.(nextSegment := q.nextSegment + 1, decoding := q.decoding + 1))
  {
  }

  /** No state is a deadlock: while any worker is unfinished, some step makes progress. As such steps are bounded, every
      run that keeps taking them ends with all workers finished. */
  lemma NeverStuck(plan: Plan, steps: seq<Step>, worker: nat)
    requires ValidPlan(plan) && Run(plan, steps).Some?
    requires worker < |Run(plan, steps).value.workers| && !Run(plan, steps).value.workers[worker].Finished?
    ensures var s := Run(plan, steps).value; exists step :: Enabled(s, step) && Productive(plan, s, step)
  {
    hide ValidPlan, Run, Conserved, Ordered, LogPrecedes, Alive, Shape, Bounded, ClaimIn, Distinct, Placed;
    var s := Run(plan, steps).value;
    match s.workers[worker] {
      case Idle =>
        if ClaimIn(s.queue, |plan.segments|, plan.maxThreads).0.Waiting? {
          WaitsForADecoder(plan, steps);
          var i :| 0 <= i < |s.workers| && s.workers[i].Decoding? && Enabled(s, Decoded(i));
          assert Productive(plan, s, Decoded(i));
        } else {
          assert Enabled(s, Claims(worker)) && Productive(plan, s, Claims(worker));
        }
      case Decoding(_) =>
        RunInv(plan, steps);
        CountPositive(s.workers, IsDecoding, worker);
        assert Enabled(s, Decoded(worker)) && Productive(plan, s, Decoded(worker));
      case Fetching(_) =>
        assert Enabled(s, BatchRead(worker)) && Productive(plan, s, BatchRead(worker));
    }
  }

  lemma PublishKeeps(q: Queue)
    ensures Publish(q).nextSegment == q.nextSegment
    decreases |q.pending|
  {
    if q.nextPublish in q.pending {
      PublishIsSmaller(q);
      PublishKeeps(PublishOne(q));
    }
  }

  lemma WorkShrinks(plan: Plan, s: State, step: Step)
    requires ValidPlan(plan) && Inv(plan, s) && Enabled(s, step) && Productive(plan, s, step)
    ensures BatchesOf(plan, Next(plan, s, step).log) && Work(plan, Next(plan, s, step)) < Work(plan, s)
  {
    hide ValidPlan, Inv, Flatten, Weight, Emitted, BatchesOf, NextBatch;
    NextInv(plan, s, step);
    assert BatchesOf(plan, s.log) && BatchesOf(plan, Next(plan, s, step).log) by {
      LogBatches(plan, s);
      LogBatches(plan, Next(plan, s, step));
    }
    WeightUpdate(s.workers, step.worker, Next(plan, s, step).workers[step.worker]);
    if step.Decoded? {
      FinishKeeps(plan, s, step.worker);
    }
    if step.Claims? && s.queue.ready != [] {
      EmitsOne(plan, s, NextBatch(s.queue.ready[0]));
    }
  }

  lemma FinishKeeps(plan: Plan, s: State, worker: nat)
    requires Enabled(s, Decoded(worker))
    ensures Next(plan, s, Decoded(worker)).queue.nextSegment == s.queue.nextSegment
  {
    var ordinal := s.workers[worker].ordinal;
    var rowids := if ordinal < |plan.candidates| then plan.candidates[ordinal] else [];
    PublishKeeps(s.queue.(decoding := s.queue.decoding - 1, pending := s.queue.pending[ordinal := rowids]));
  }

  lemma LogBatches(plan: Plan, s: State)
    requires Inv(plan, s)
    ensures BatchesOf(plan, s.log)
  {
  }

  lemma EmitsOne(plan: Plan, s: State, b: Batch)
    requires BatchesOf(plan, s.log) && BatchesOf(plan, s.log + [b])
    ensures |Emitted(plan, s.log + [b])| > |Emitted(plan, s.log)|
  {
    var log := s.log + [b];
    assert log[..|log| - 1] == s.log;
    assert BatchOf(plan, log[|log| - 1]);
  }

  /** Every step of the run did something: none was a claim told to wait. */
  predicate AllProductive(plan: Plan, steps: seq<Step>)
    requires Run(plan, steps).Some?
  {
    steps != [] ==>
      && AllProductive(plan, steps[..|steps| - 1])
      && Productive(plan, Run(plan, steps[..|steps| - 1]).value, steps[|steps| - 1])
  }

  lemma {:induction false} WeightIdle(n: nat)
    ensures Weight(seq(n, _ => Idle)) == n
  {
    if n > 0 {
      WeightIdle(n - 1);
      assert seq(n, _ => Idle)[..n - 1] == seq(n - 1, _ => Idle);
    }
  }

  lemma {:induction false} StepsAndWork(plan: Plan, steps: seq<Step>)
    requires ValidPlan(plan) && Run(plan, steps).Some? && AllProductive(plan, steps)
    ensures BatchesOf(plan, Run(plan, steps).value.log)
    ensures |steps| + Work(plan, Run(plan, steps).value) <= 2 * |Flatten(plan.candidates)| + 2 * |plan.segments|
            + plan.maxThreads
  {
    hide ValidPlan, Flatten, Weight, Next, Enabled, Productive, BatchesOf;
    if steps == [] {
      WeightIdle(plan.maxThreads);
      assert BatchesOf(plan, []) by { NoBatches(plan); }
    } else {
      var before := Run(plan, steps[..|steps| - 1]).value;
      StepsAndWork(plan, steps[..|steps| - 1]);
      RunInv(plan, steps[..|steps| - 1]);
      WorkShrinks(plan, before, steps[|steps| - 1]);
    }
  }

  lemma NoBatches(plan: Plan)
    ensures BatchesOf(plan, [])
  {
  }

  /** Runs are finite: besides waiting, workers take at most two steps per candidate and segment and one to finish. */
  lemma RunsEnd(plan: Plan, steps: seq<Step>)
    requires ValidPlan(plan) && Run(plan, steps).Some? && AllProductive(plan, steps)
    ensures |steps| <= 2 * |Flatten(plan.candidates)| + 2 * |plan.segments| + plan.maxThreads
  {
    hide ValidPlan, Run, Flatten, Weight, AllProductive, Emitted, Remaining, BatchesOf, Ordered, LogPrecedes, Crew;
    hide Bounded;
    StepsAndWork(plan, steps);
    RunInv(plan, steps);
    PlanLengths(plan);
    var n := Run(plan, steps).value.queue.nextPublish;
    assert plan.candidates == plan.candidates[..n] + plan.candidates[n..];
    FlattenConcat(plan.candidates[..n], plan.candidates[n..]);
  }
}

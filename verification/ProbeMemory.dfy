/** The memory a probe reserves for its fetch workers, and why the queue never exceeds it. */
module ProbeMemory {
  import opened Common
  import opened SegmentQueue
  import opened QueueRuns
  import opened FetchWorkers

  ghost function Sum(s: set<nat>, bytes: nat -> nat): nat {
    if s == {} then 0
    else
      var x :| x in s;
      bytes(x) + Sum(s - {x}, bytes)
  }

  lemma OneMore(n: int, m: int, limit: int)
    requires n == m + 1
    ensures n * limit == m * limit + limit
  {
  }

  lemma {:induction false} SumBound(s: set<nat>, bytes: nat -> nat, limit: nat)
    requires forall x :: x in s ==> bytes(x) <= limit
    ensures Sum(s, bytes) <= |s| * limit
  {
    if s != {} {
      var x :| x in s && Sum(s, bytes) == bytes(x) + Sum(s - {x}, bytes);
      SumBound(s - {x}, bytes, limit);
      OneMore(|s|, |s - {x}|, limit);
    }
  }

  /** Every worker may keep a fetch chunk from its first decode on; a decoding worker holds its segment's rowid buffers;
      every other live segment is one candidate vector. */
  ghost function LiveBytes(s: State, chunkBytes: nat, decodeBytes: nat -> nat, candidateBytes: nat -> nat): nat {
    chunkBytes * |s.workers| + Sum(DecodingSet(s.workers), decodeBytes)
    + Sum(Alive(s) - DecodingSet(s.workers), candidateBytes)
  }

  datatype Sizing = Sizing(maxThreads: nat, workspace: nat)

  /** The workers a budget affords, and the bytes reserved for them: a decode peak for each, and a candidate vector for
      each but two, which a single worker does not need. */
  function SizeWorkers(available: nat, peakWorker: nat, peakCandidate: nat, fetchUnits: nat, workerCap: nat,
                       threads: nat): (r: Sizing)
    requires peakWorker > 0
    ensures r.maxThreads >= 1
    ensures r.workspace == if r.maxThreads == 1 then peakWorker
                           else peakWorker * r.maxThreads + peakCandidate * (r.maxThreads - 2)
    ensures peakWorker <= available ==> r.workspace <= available
  {
    var possible := (available + 2 * peakCandidate) / (peakWorker + peakCandidate);
    var maxThreads := Min(fetchUnits, Min(workerCap, Min(threads, possible)));
    if maxThreads <= 1 then Sizing(1, peakWorker)
    else
      AffordableWorkers(available, peakWorker, peakCandidate, maxThreads);
      Sizing(maxThreads, peakWorker * maxThreads + peakCandidate * (maxThreads - 2))
  }

  /** No more workers would fit: unless another cap stops it, one worker more would exceed the budget. */
  lemma SizingIsMaximal(available: nat, peakWorker: nat, peakCandidate: nat, fetchUnits: nat, workerCap: nat,
                        threads: nat)
    requires 0 < peakWorker <= available
    ensures var m := SizeWorkers(available, peakWorker, peakCandidate, fetchUnits, workerCap, threads).maxThreads;
            m < Min(fetchUnits, Min(workerCap, threads)) ==> peakWorker * (m + 1) + peakCandidate * (m - 1) > available
    ensures var m := SizeWorkers(available, peakWorker, peakCandidate, fetchUnits, workerCap, threads).maxThreads;
            m <= Max(1, Min(fetchUnits, Min(workerCap, threads)))
  {
    var m := SizeWorkers(available, peakWorker, peakCandidate, fetchUnits, workerCap, threads).maxThreads;
    var unit, total := peakWorker + peakCandidate, available + 2 * peakCandidate;
    if m < Min(fetchUnits, Min(workerCap, threads)) {
      assert total / unit <= m;
      BelowNext(total, unit, m);
      Distribute(m + 1, peakWorker, peakCandidate);
    }
  }

  lemma BelowNext(total: nat, unit: nat, m: nat)
    requires unit > 0 && total / unit <= m
    ensures total < (m + 1) * unit
  {
    assert total < total / unit * unit + unit;
    MulMonotone(total / unit, m, unit);
    OneMore(m + 1, m, unit);
  }

  lemma AffordableWorkers(available: nat, peakWorker: nat, peakCandidate: nat, workers: nat)
    requires peakWorker > 0 && workers >= 2
    requires workers <= (available + 2 * peakCandidate) / (peakWorker + peakCandidate)
    ensures peakWorker * workers + peakCandidate * (workers - 2) <= available
    ensures peakCandidate * (workers - 2) >= 0
  {
    var unit, total := peakWorker + peakCandidate, available + 2 * peakCandidate;
    MulMonotone(workers, total / unit, unit);
    assert total / unit * unit <= total;
    assert workers * unit == peakWorker * workers + peakCandidate * (workers - 2) + 2 * peakCandidate by {
      Distribute(workers, peakWorker, peakCandidate);
    }
    MulMonotone(0, workers - 2, peakCandidate);
  }

  lemma Distribute(workers: int, peakWorker: int, peakCandidate: int)
    ensures workers * (peakWorker + peakCandidate)
            == peakWorker * workers + peakCandidate * (workers - 2) + 2 * peakCandidate
  {
  }

  /** With at most maxThreads decoders among the live vectors, the reservation covers them all. */
  lemma CountsFit(decoding: nat, alive: nat, maxThreads: nat, peak: nat, candidate: nat)
    requires decoding <= alive <= AliveLimit(maxThreads) && decoding <= maxThreads && maxThreads >= 1
             && candidate <= peak
    ensures decoding * peak + (alive - decoding) * candidate <=
            if maxThreads == 1 then peak else peak * maxThreads + candidate * (maxThreads - 2)
  {
    var extra := peak - candidate;
    MulMonotone(decoding, maxThreads, extra);
    MulMonotone(alive, AliveLimit(maxThreads), candidate);
    assert decoding * peak + (alive - decoding) * candidate == decoding * extra + alive * candidate by {
      Regroup(decoding, alive, peak, candidate);
    }
    if maxThreads > 1 {
      Regroup(maxThreads, 2 * maxThreads - 2, peak, candidate);
    }
  }

  lemma Regroup(decoding: int, alive: int, peak: int, candidate: int)
    ensures decoding * peak + (alive - decoding) * candidate == decoding * (peak - candidate) + alive * candidate
  {
  }

  /** Whatever the workers do, the bytes alive, the fetch chunks of idle workers among them, never exceed the
      reservation, and that never exceeds the budget. */
  lemma ReservationHolds(plan: Plan, steps: seq<Step>, sizing: Sizing, available: nat, peakWorker: nat,
                         peakCandidate: nat, fetchUnits: nat, workerCap: nat, threads: nat, chunkBytes: nat,
                         decodeBytes: nat -> nat, candidateBytes: nat -> nat)
    requires ValidPlan(plan) && Run(plan, steps).Some?
    requires 0 < peakWorker <= available && peakCandidate + chunkBytes <= peakWorker
    requires sizing == SizeWorkers(available, peakWorker, peakCandidate, fetchUnits, workerCap, threads)
    requires plan.maxThreads == sizing.maxThreads
    requires forall o :: decodeBytes(o) + chunkBytes <= peakWorker && candidateBytes(o) <= peakCandidate
    ensures LiveBytes(Run(plan, steps).value, chunkBytes, decodeBytes, candidateBytes) <= sizing.workspace <= available
  {
    hide ValidPlan, Run, LiveBytes, Alive;
    AliveVectors(plan, steps);
    WorkersStay(plan, steps);
    LiveBytesFit(Run(plan, steps).value, plan.maxThreads, peakWorker, peakCandidate, chunkBytes, decodeBytes,
                 candidateBytes);
  }

  lemma WorkersStay(plan: Plan, steps: seq<Step>)
    requires ValidPlan(plan) && Run(plan, steps).Some?
    ensures |Run(plan, steps).value.workers| == plan.maxThreads
  {
    hide ValidPlan, Run, Conserved, Ordered, LogPrecedes, Shape, Alive, Count, Distinct, Placed;
    RunInv(plan, steps);
  }

  lemma LiveBytesFit(s: State, maxThreads: nat, peakWorker: nat, peakCandidate: nat, chunkBytes: nat,
                     decodeBytes: nat -> nat, candidateBytes: nat -> nat)
    requires Count(s.workers, IsDecoding) <= maxThreads && |Alive(s)| <= AliveLimit(maxThreads) && maxThreads >= 1
    requires |s.workers| == maxThreads && peakCandidate + chunkBytes <= peakWorker
    requires forall o :: decodeBytes(o) + chunkBytes <= peakWorker && candidateBytes(o) <= peakCandidate
    ensures LiveBytes(s, chunkBytes, decodeBytes, candidateBytes) <=
            if maxThreads == 1 then peakWorker else peakWorker * maxThreads + peakCandidate * (maxThreads - 2)
  {
    hide Sum, Count, DecodingSet, Alive, AliveLimit;
    var decoding, alive, peakRows := DecodingSet(s.workers), Alive(s), peakWorker - chunkBytes;
    DecodingIsAlive(s);
    SplitSize(alive, decoding);
    DecodingSize(s.workers);
    SubsetSize(decoding, alive);
    SumBound(decoding, decodeBytes, peakRows);
    SumBound(alive - decoding, candidateBytes, peakCandidate);
    SumsFit(|decoding|, |alive|, maxThreads, chunkBytes, peakRows, peakCandidate,
            Sum(decoding, decodeBytes), Sum(alive - decoding, candidateBytes));
  }

  lemma DecodingIsAlive(s: State)
    ensures DecodingSet(s.workers) <= Alive(s)
  {
  }

  lemma SumsFit(decoding: nat, alive: nat, maxThreads: nat, chunk: nat, rows: nat, candidate: nat, decodes: nat,
                vectors: nat)
    requires decoding <= alive <= AliveLimit(maxThreads) && decoding <= maxThreads && maxThreads >= 1
    requires candidate <= rows && decodes <= decoding * rows && vectors <= (alive - decoding) * candidate
    ensures chunk * maxThreads + decodes + vectors <=
            if maxThreads == 1 then rows + chunk else (rows + chunk) * maxThreads + candidate * (maxThreads - 2)
  {
    CountsFit(decoding, alive, maxThreads, rows, candidate);
    SplitPeak(chunk, rows, maxThreads);
  }

  lemma SplitPeak(a: int, b: int, n: int)
    ensures a * n + b * n == (a + b) * n
  {
  }

  lemma SplitSize(all: set<nat>, part: set<nat>)
    requires part <= all
    ensures |all - part| == |all| - |part|
  {
    assert all == part + (all - part);
  }
}

/** Decoding a whole plan: every admitted segment in turn, within the rowids the plan estimated and the bytes it
    charged. */
module ProbeRun {
  import opened Common
  import opened SortedLists
  import opened Probe
  import opened AdmitSegments
  import opened ProbeDecode
  import Q = QueueRuns
  import K = SegmentQueue
  import M = ProbeMemory

  /** An admitted segment's decoded candidates: the rows every gram posts there, in order, within the segment and the
      mark. */
  ghost predicate Decoded(ds: seq<Descriptor>, n: nat, a: Admitted, candidates: seq<int>, hwm: int) {
    && a.begin <= a.end <= |ds| && |a.order| == n
    && Ascending(candidates) && InSegmentUpTo(candidates, a.segment, hwm)
    && forall x :: x in candidates <==> InEveryGram(ds[a.begin..a.end], a.order, n, x)
  }

  ghost predicate AllDecoded(ds: seq<Descriptor>, n: nat, segments: seq<Admitted>, candidates: seq<seq<int>>,
                             hwm: int) {
    && |segments| == |candidates|
    && forall i :: 0 <= i < |segments| ==> Decoded(ds, n, segments[i], candidates[i], hwm)
  }

  /** Every gram of an admitted segment decodes. */
  predicate Sound(ds: seq<Descriptor>, n: nat, a: Admitted, hwm: int) {
    && a.begin <= a.end <= |ds|
    && forall g :: 0 <= g < n ==> Decodable(OfGram(ds[a.begin..a.end], g), a.segment, hwm)
  }

  /** Every gram decoding an admitted segment comes to decodes. */
  ghost predicate Through(ds: seq<Descriptor>, a: Admitted, hwm: int) {
    a.begin <= a.end <= |ds| && DecodesThrough(ds[a.begin..a.end], a.order, a.segment, hwm)
  }

  predicate AllSound(ds: seq<Descriptor>, n: nat, segments: seq<Admitted>, hwm: int) {
    forall i :: 0 <= i < |segments| ==> Sound(ds, n, segments[i], hwm)
  }

  /** An admitted segment has every gram, in order. */
  lemma AdmittedGrams(ds: seq<Descriptor>, n: nat, a: Admitted, grams: seq<nat>, s: Summary)
    requires GramsBelow(ds, n) && AdmittedFor(ds, n, a, grams, s)
    ensures |grams| == |s.counts| == n > 0 && forall g :: 0 <= g < n ==> grams[g] == g
  {
    hide OfGram, CountOf, LowOf, HighOf, StableOrder, SpanLow, SpanHigh;
    forall i | 0 <= i < |grams| ensures grams[i] < n {
      GramPresent(ds[a.begin..a.end], grams[i], s, i);
    }
    AllGrams(grams, n);
  }

  /** An admitted segment's summary is what its decoding is charged against. */
  lemma AdmittedCounts(ds: seq<Descriptor>, n: nat, a: Admitted, grams: seq<nat>, s: Summary)
    requires Sorted(ds) && GramsBelow(ds, n) && AdmittedFor(ds, n, a, grams, s)
    ensures GramsSorted(ds[a.begin..a.end]) && |s.counts| == n > 0 && CountsOf(ds[a.begin..a.end], s.counts)
    ensures a.order == StableOrder(s.counts, |s.counts|)
  {
    hide OfGram, CountOf, LowOf, HighOf, StableOrder, SpanLow, SpanHigh;
    var group := ds[a.begin..a.end];
    forall i, j | 0 <= i < j < |group| ensures group[i].gram <= group[j].gram {
      assert ds[a.begin + i].segment == ds[a.begin + j].segment;
    }
    AdmittedGrams(ds, n, a, grams, s);
    forall g | 0 <= g < n ensures s.counts[g] == CountOf(OfGram(group, g)) {
      assert Entry(group, grams[g], s, g);
    }
  }

  /** The rows of each published vector. */
  function RowsOf(vectors: seq<Buffer>): (r: seq<seq<int>>)
    ensures |r| == |vectors| && forall i :: 0 <= i < |r| ==> r[i] == vectors[i].rows
  {
    Map((vector: Buffer) => vector.rows, vectors)
  }

  function DecodeBytes(peakRows: nat): nat {
    ROW_BYTES * peakRows + FETCH_SCRATCH_BYTES
  }

  /** The plan's charges hold: for every decode, and for every vector a decode leaves. */
  predicate WithinCharges(p: AdmitSegments.Plan, peaks: seq<nat>, vectors: seq<Buffer>) {
    && |peaks| == |vectors|
    && (forall i :: 0 <= i < |peaks| ==> DecodeBytes(peaks[i]) <= p.peakWorkerBytes)
    && forall i :: 0 <= i < |vectors| ==> ROW_BYTES * vectors[i].capacity <= p.peakCandidateBytes
  }

  lemma {:induction false} RowSumGrows(evidence: seq<Evidence>, i: nat)
    requires i <= |evidence|
    ensures RowSum(evidence[..i]) <= RowSum(evidence)
    decreases |evidence| - i
  {
    hide Sum;
    if i == |evidence| {
      assert evidence[..i] == evidence;
    } else {
      assert evidence[..i + 1][..i] == evidence[..i];
      RowSumGrows(evidence, i + 1);
    }
  }

  lemma RowSumStep(evidence: seq<Evidence>, i: nat)
    requires i < |evidence|
    ensures RowSum(evidence[..i + 1]) == RowSum(evidence[..i]) + Sum(evidence[i].summary.counts)
  {
    hide Sum;
    assert evidence[..i + 1][..i] == evidence[..i];
  }

  /** Decode every admitted segment, each by the worker that claims it. The rowids decoded stay within the plan's
      estimate, every decode and every vector it leaves within the plan's charges, and it fails only if some gram does
      not decode. `peaks` has the most rows each decode had room for. */
  method DecodeSegments(ds: seq<Descriptor>, n: nat, hwm: int, plan: AdmitSegments.Plan, workers: nat,
                        claims: nat -> nat, ghost evidence: seq<Evidence>, ghost limit: nat)
    returns (ok: bool, vectors: seq<Buffer>, peaks: seq<nat>, decodedRowids: nat)
    requires Sorted(ds) && GramsBelow(ds, n)
    requires AllAdmitted(ds, n, plan.segments, evidence) && Totalled(plan, n, evidence, limit)
    requires forall o :: claims(o) < workers
    ensures ok <==> forall i :: 0 <= i < |plan.segments| ==> Through(ds, plan.segments[i], hwm)
    ensures AllSound(ds, n, plan.segments, hwm) ==> ok
    ensures ok ==> AllDecoded(ds, n, plan.segments, RowsOf(vectors), hwm)
    ensures ok ==> decodedRowids <= plan.estimatedRowids
    ensures WithinCharges(plan, peaks, vectors)
  {
    hide Decoded, Sound, Sorted, GramsBelow, AdmittedFor, RowSum, Sum, CountsOf, GramsSorted, StableOrder, DecodePeak;
    hide Through, PeaksCover, Priced, BoundSum, Admits, Least, InSegmentUpTo;
    var segments := plan.segments;
    var scratches := AllScratches(workers);
    vectors, peaks, decodedRowids := [], [], 0;
    for o := 0 to |segments|
      invariant forall w :: 0 <= w < workers ==> fresh(scratches[w]) && scratches[w].AtRest()
      invariant forall i :: 0 <= i < o ==> Through(ds, segments[i], hwm)
      invariant |vectors| == o && forall i :: 0 <= i < o ==> Decoded(ds, n, segments[i], vectors[i].rows, hwm)
      invariant WithinCharges(plan, peaks, vectors)
      invariant decodedRowids <= RowSum(evidence[..o])
    {
      var scratch := scratches[claims(o)];
      var before := scratch.decodedRowids;
      ok := DecodeOne(ds, n, hwm, segments[o], evidence[o].grams, evidence[o].summary, scratch);
      if !ok {
        NotAllSound(ds, n, segments, evidence, o, hwm);
        return false, vectors, peaks, decodedRowids;
      }
      Charged(plan, evidence[o].summary, n);
      RowSumStep(evidence, o);
      decodedRowids := decodedRowids + scratch.decodedRowids - before;
      peaks := peaks + [scratch.peak];
      var published := scratch.Publish();
      vectors := vectors + [published];
    }
    RowSumGrows(evidence, |segments|);
    ok := true;
  }

  lemma NotAllSound(ds: seq<Descriptor>, n: nat, segments: seq<Admitted>, evidence: seq<Evidence>, o: nat, hwm: int)
    requires o < |segments| && AllAdmitted(ds, n, segments, evidence) && !Through(ds, segments[o], hwm)
    ensures !AllSound(ds, n, segments, hwm)
  {
    hide Decodable, OfGram, StableOrder, Summarises, SpanLow, SpanHigh, DecodesThrough;
    var a := segments[o];
    assert AdmittedFor(ds, n, a, evidence[o].grams, evidence[o].summary);
    OrderBelow(evidence[o].summary.counts, n);
    if Sound(ds, n, a, hwm) {
      AllDecode(ds[a.begin..a.end], n, a.order, a.segment, hwm);
    }
  }

  lemma OrderBelow(counts: seq<nat>, n: nat)
    requires n <= |counts|
    ensures forall p :: 0 <= p < |StableOrder(counts, n)| ==> StableOrder(counts, n)[p] < n
  {
    hide StableOrder;
    assert forall p :: 0 <= p < |StableOrder(counts, n)| ==> StableOrder(counts, n)[p] in StableOrder(counts, n);
  }

  /** One set of buffers for each worker. */
  method AllScratches(workers: nat) returns (scratches: seq<ProbeDecodeScratch>)
    ensures |scratches| == workers
    ensures forall w :: 0 <= w < workers ==> fresh(scratches[w]) && scratches[w].AtRest()
    ensures forall v, w :: 0 <= v < w < workers ==> scratches[v] != scratches[w]
  {
    scratches := [];
    while |scratches| < workers
      invariant |scratches| <= workers
      invariant forall w :: 0 <= w < |scratches| ==> fresh(scratches[w]) && scratches[w].AtRest()
      invariant forall v, w :: 0 <= v < w < |scratches| ==> scratches[v] != scratches[w]
    {
      var scratch := new ProbeDecodeScratch();
      scratches := scratches + [scratch];
    }
  }

  lemma Charged(p: AdmitSegments.Plan, s: Summary, n: nat)
    requires Admits(s, n) && PeaksCover(p, s)
    ensures s.counts != [] && DecodeBytes(DecodePeak(s.counts)) <= p.peakWorkerBytes
    ensures ROW_BYTES * Least(s.counts) <= p.peakCandidateBytes
  {
    hide DecodePeak, Least;
  }

  method DecodeOne(ds: seq<Descriptor>, n: nat, hwm: int, a: Admitted, ghost grams: seq<nat>, ghost s: Summary,
                   scratch: ProbeDecodeScratch)
    returns (ok: bool)
    requires Sorted(ds) && GramsBelow(ds, n) && AdmittedFor(ds, n, a, grams, s) && scratch.AtRest()
    modifies scratch
    ensures ok <==> Through(ds, a, hwm)
    ensures s.counts != [] && scratch.peak <= DecodePeak(s.counts)
    ensures scratch.decodedRowids >= old(scratch.decodedRowids)
    ensures ok ==> scratch.AtRest() && Decoded(ds, n, a, scratch.candidates.rows, hwm)
    ensures ok ==> scratch.candidates.capacity <= Least(s.counts)
    ensures ok ==> scratch.decodedRowids <= old(scratch.decodedRowids) + Sum(s.counts)
  {
    hide Sorted, GramsBelow, Sum, CountsOf, GramsSorted, StableOrder, DecodePeak, Least, InSegmentUpTo, Summarises;
    hide Decodable, OfGram, InEveryGram, SpanLow, SpanHigh;
    AdmittedCounts(ds, n, a, grams, s);
    ok := scratch.DecodeCandidateSegment(ds[a.begin..a.end], s.counts, a.order, a.segment, hwm);
  }

  // ---------------------------------------------------------------------------------------------------------------
  // The reservation

  /** The fetch batches a plan's candidates can fill, and no fewer than its segments. */
  function FetchUnits(p: AdmitSegments.Plan): (units: nat)
    ensures units >= |p.segments| && units * K.FETCH_BATCH_ROWS >= p.candidateUpperBound
    ensures units > |p.segments| ==> (units - 1) * K.FETCH_BATCH_ROWS < p.candidateUpperBound
  {
    Max(|p.segments|, (p.candidateUpperBound + K.FETCH_BATCH_ROWS - 1) / K.FETCH_BATCH_ROWS)
  }

  /** The bytes of the rowid buffers decoding an ordinal holds, and those of the vector it leaves. */
  function DecodeBytesAt(peaks: seq<nat>): nat -> nat {
    (o: nat) => if o < |peaks| then ROW_BYTES * peaks[o] else 0
  }

  function VectorBytesAt(vectors: seq<Buffer>): nat -> nat {
    (o: nat) => if o < |vectors| then ROW_BYTES * vectors[o].capacity else 0
  }

  /** Whichever workers decode which segments, while each decode and each vector keeps within the plan's charges the
      bytes alive, every worker's fetch chunk among them, never exceed the workspace reserved for the workers the
      planner picks, nor the budget. */
  lemma PlanWithinBudget(p: AdmitSegments.Plan, n: nat, evidence: seq<Evidence>, limit: nat, peaks: seq<nat>,
                         vectors: seq<Buffer>, run: Q.Plan, steps: seq<Q.Step>, sizing: M.Sizing, available: nat,
                         workerCap: nat, threads: nat)
    requires Totalled(p, n, evidence, limit) && evidence != [] && p.peakWorkerBytes <= available
    requires WithinCharges(p, peaks, vectors)
    requires sizing == M.SizeWorkers(available, p.peakWorkerBytes, p.peakCandidateBytes, FetchUnits(p), workerCap,
             threads)
    requires Q.ValidPlan(run) && run.maxThreads == sizing.maxThreads && Q.Run(run, steps).Some?
    ensures M.LiveBytes(Q.Run(run, steps).value, FETCH_SCRATCH_BYTES, DecodeBytesAt(peaks), VectorBytesAt(vectors))
            <= sizing.workspace
            <= available
  {
    hide Q.ValidPlan, Q.Run, M.LiveBytes, M.SizeWorkers, RowSum, BoundSum, Priced, DecodePeak, Least, Admits;
    assert PeaksCover(p, evidence[0].summary);
    M.ReservationHolds(run, steps, sizing, available, p.peakWorkerBytes, p.peakCandidateBytes, FetchUnits(p), workerCap,
                       threads, FETCH_SCRATCH_BYTES, DecodeBytesAt(peaks), VectorBytesAt(vectors));
  }
}

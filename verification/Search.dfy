/** From the index to the answer: a covering index, its manifest, the admitted segments and their decoded candidates
    yield every matching row. */
module Search {
  import opened Common
  import A = AdmitSegments
  import D = ProbeDecode
  import L = Manifest
  import M = RefreshRuns
  import P = Probe
  import Q = QueueRuns
  import R = ProbeRun
  import S = SearchCore
  import T = SegmentTable
  import F = Refresh
  import K = SegmentQueue

  /** Every visible matching row has all the probed keys: it contains the needles they came from. */
  ghost predicate KeysImplied(t: S.Table, keys: seq<int>, keysOf: nat -> set<int>) {
    forall r: nat, g :: S.Hit(t, r) && 0 <= g < |keys| ==> keys[g] in keysOf(r)
  }

  /** What a completed probe has: every admitted segment with its evidence, none lost, each one decoded. */
  ghost predicate Probed(ds: seq<P.Descriptor>, n: nat, segments: seq<A.Admitted>, evidence: seq<A.Evidence>,
                         candidates: seq<seq<int>>, hwm: int)
  {
    && A.AllAdmitted(ds, n, segments, evidence) && A.NoneLost(ds, n, segments, |ds|) && A.RunsAscend(segments, |ds|)
    && R.AllDecoded(ds, n, segments, candidates, hwm)
  }

  function Numbers(segments: seq<A.Admitted>): (r: seq<int>)
    ensures |r| == |segments| && forall i :: 0 <= i < |r| ==> r[i] == segments[i].segment
  {
    Map((a: A.Admitted) => a.segment, segments)
  }

  /** A row the index covers is posted, by the manifest, under every probed key. */
  lemma CoveredIsListed(t: S.Table, index: F.Index, keysOf: nat -> set<int>, keys: seq<int>, ds: seq<P.Descriptor>,
                        from: seq<L.Source>, r: nat)
    requires F.ValidIndex(index, keysOf) && F.Covers(index, keysOf, {r}) && r <= index.hwm
    requires S.Hit(t, r) && KeysImplied(t, keys, keysOf) && L.Lists(ds, from, keys, index.rows)
    ensures A.SegmentCandidate(ds, |keys|, T.SegmentOf(r), r)
  {
    hide F.Honest, T.OnePerGeneration, T.PostedOnce, T.SegmentOf, S.Hit, L.Lists;
    forall g | 0 <= g < |keys| ensures A.SegmentPosted(ds, g, T.SegmentOf(r), r) {
      assert keys[g] in keysOf(r);
      F.CoversRow(index, keysOf, {r}, r, keys[g]);
      var row :| row in index.rows && keys[g] == row.key && r in row.rowids;
      T.RowSegment(index.rows, index.hwm, row, r);
      L.PostingIsListed(ds, from, keys, index.rows, index.hwm, row, g, r);
    }
  }

  /** A candidate of an admitted segment is decoded. */
  lemma CandidateIsDecoded(ds: seq<P.Descriptor>, n: nat, a: A.Admitted, grams: seq<nat>, s: P.Summary,
                           candidates: seq<int>, hwm: int, x: int)
    requires A.AdmittedFor(ds, n, a, grams, s) && R.Decoded(ds, n, a, candidates, hwm)
             && A.SegmentCandidate(ds, n, a.segment, x)
    ensures x in candidates
  {
    hide P.Rows, P.OfGram, P.Summarises, P.Admits, P.AllRows, A.SegmentCandidate, A.IsRun;
    var group := ds[a.begin..a.end];
    A.RunCandidate(ds, n, a.begin, a.end, a.segment, x);
    assert forall p :: 0 <= p < |a.order| ==> a.order[p] in a.order;
    forall p | 0 <= p < n ensures x in P.AllRows(P.OfGram(group, a.order[p])) {
      PostedIsInRows(group, a.order[p], x);
    }
  }

  lemma PostedIsInRows(group: seq<P.Descriptor>, gram: nat, x: int)
    requires P.Posted(group, gram, x)
    ensures x in P.AllRows(P.OfGram(group, gram))
  {
    hide P.Rows, P.OfGram, P.AllRows;
    var i :| 0 <= i < |group| && group[i].gram == gram && x in P.Rows(group[i]);
    P.OfGramMembers(group, gram);
    P.InAllRows(P.OfGram(group, gram), group[i], x);
  }

  /** A valid index's manifest passes every check. */
  lemma ValidManifest(index: F.Index, keysOf: nat -> set<int>, from: seq<L.Source>, keys: seq<int>,
                      ds: seq<P.Descriptor>)
    requires F.ValidIndex(index, keysOf) && L.Lists(ds, from, keys, index.rows)
    ensures P.Sorted(ds) && A.AllHonest(ds, |keys|) && P.AllValid(ds, index.hwm) && A.GramsBelow(ds, |keys|)
            && L.Separate(ds)
    ensures !A.Overfull(ds, index.hwm)
  {
    hide P.Sorted, A.AllHonest, P.AllValid, A.GramsBelow, L.Separate, L.Listed, T.WellFormed, A.Overfull, L.HasEntry;
    L.ManifestIsHonest(ds, from, keys, index.rows, index.hwm);
    L.ManifestIsSeparate(ds, from, keys, index.rows, index.hwm);
    L.ManifestFits(ds, |keys|, index.hwm);
  }

  lemma AllSound(ds: seq<P.Descriptor>, n: nat, hwm: int, segments: seq<A.Admitted>, evidence: seq<A.Evidence>)
    requires P.Sorted(ds) && A.AllHonest(ds, n) && P.AllValid(ds, hwm) && A.GramsBelow(ds, n) && L.Separate(ds)
    requires A.AllAdmitted(ds, n, segments, evidence)
    ensures R.AllSound(ds, n, segments, hwm)
  {
    hide P.Sorted, A.AllHonest, P.AllValid, A.GramsBelow, L.Separate, A.AdmittedFor, R.Sound;
    forall i | 0 <= i < |segments| ensures R.Sound(ds, n, segments[i], hwm) {
      L.AdmittedIsSound(ds, n, hwm, segments[i], evidence[i].grams, evidence[i].summary);
    }
  }

  /** Planning and decoding a valid index never find it malformed, and unless the admitted rows exceed the budget they
      end in a completed probe, within the plan's estimate and its charges. */
  method ProbeIndex(ghost index: F.Index, ghost keysOf: nat -> set<int>, ghost from: seq<L.Source>,
                    keys: seq<int>, ds: seq<P.Descriptor>, hwm: int, limit: nat, workers: nat, claims: nat -> nat)
    returns (plan: A.Plan, vectors: seq<D.Buffer>, peaks: seq<nat>, decodedRowids: nat, ghost evidence: seq<A.Evidence>)
    requires F.ValidIndex(index, keysOf) && hwm == index.hwm && keys != [] && L.Lists(ds, from, keys, index.rows)
    requires forall o :: claims(o) < workers
    ensures plan.declined <==> A.RowSum(evidence) > limit
    ensures !plan.declined ==> Probed(ds, |keys|, plan.segments, evidence, R.RowsOf(vectors), hwm)
    ensures !plan.declined ==> decodedRowids <= plan.estimatedRowids <= limit
    ensures !plan.declined ==> A.Totalled(plan, |keys|, evidence, limit) && R.WithinCharges(plan, peaks, vectors)
    ensures !plan.declined ==> |Flatten(R.RowsOf(vectors))| <= plan.candidateUpperBound
  {
    hide F.ValidIndex, L.Lists, P.Sorted, A.AllHonest, P.AllValid, A.GramsBelow, L.Separate, A.Overfull, A.AllAdmitted;
    hide A.NoneLost;
    hide A.RunsAscend, R.AllDecoded, R.AllSound, R.WithinCharges, A.RowSum, A.BoundSum, A.PeaksCover, P.Admits;
    ValidManifest(index, keysOf, from, keys, ds);
    var r;
    r, evidence := A.AdmitSegments(ds, |keys|, hwm, limit);
    plan := r.plan;
    vectors, peaks, decodedRowids := [], [], 0;
    if !plan.declined {
      AllSound(ds, |keys|, hwm, plan.segments, evidence);
      var ok;
      ok, vectors, peaks, decodedRowids := R.DecodeSegments(ds, |keys|, hwm, plan, workers, claims, evidence, limit);
      DecodedWithinBound(ds, |keys|, plan.segments, evidence, R.RowsOf(vectors), hwm);
    }
  }

  /** What decoding yields are candidates, so all of them together keep within the plan's bound. */
  lemma DecodedWithinBound(ds: seq<P.Descriptor>, n: nat, segments: seq<A.Admitted>, evidence: seq<A.Evidence>,
                           candidates: seq<seq<int>>, hwm: int)
    requires n > 0 && A.AllHonest(ds, n) && A.GramsBelow(ds, n) && A.AllAdmitted(ds, n, segments, evidence)
    requires R.AllDecoded(ds, n, segments, candidates, hwm)
    ensures forall i :: 0 <= i < |evidence| ==> P.Admits(evidence[i].summary, |evidence[i].summary.counts|)
    ensures |Flatten(candidates)| <= A.BoundSum(evidence)
  {
    hide A.AllHonest, A.GramsBelow, A.AdmittedFor, A.SegmentCandidates, A.BoundSum, Flatten, R.Decoded, P.Admits;
    forall i | 0 <= i < |candidates|
      ensures Ascending(candidates[i]) && A.SegmentCandidates(ds, n, segments[i].segment, candidates[i])
    {
      DecodedAreCandidates(ds, n, segments[i], evidence[i].grams, evidence[i].summary, candidates[i], hwm);
    }
    A.CandidatesWithinBound(ds, n, segments, evidence, candidates);
  }

  lemma DecodedAreCandidates(ds: seq<P.Descriptor>, n: nat, a: A.Admitted, grams: seq<nat>, s: P.Summary,
                             candidates: seq<int>, hwm: int)
    requires A.AdmittedFor(ds, n, a, grams, s) && R.Decoded(ds, n, a, candidates, hwm)
    ensures Ascending(candidates) && A.SegmentCandidates(ds, n, a.segment, candidates)
  {
    hide P.Rows, P.OfGram, P.Summarises, P.AllRows, P.SpanLow, P.SpanHigh;
    var group := ds[a.begin..a.end];
    forall i, g | 0 <= i < |candidates| && 0 <= g < n ensures A.SegmentPosted(ds, g, a.segment, candidates[i]) {
      assert candidates[i] in candidates;
      assert g in a.order;
      var p :| 0 <= p < |a.order| && a.order[p] == g;
      assert candidates[i] in P.AllRows(P.OfGram(group, a.order[p]));
      P.OfGramMembers(group, g);
      var d := L.RowsEntry(P.OfGram(group, g), candidates[i]);
      var j :| 0 <= j < |group| && group[j] == d;
      assert ds[a.begin + j] == d;
    }
  }

  /** The plan the fetch workers run: admitted segments and their candidates, in segment order. */
  lemma PlanIsValid(ds: seq<P.Descriptor>, n: nat, segments: seq<A.Admitted>, evidence: seq<A.Evidence>,
                    candidates: seq<seq<int>>, hwm: int, maxThreads: nat)
    requires P.Sorted(ds) && Probed(ds, n, segments, evidence, candidates, hwm) && maxThreads >= 1
    ensures Q.ValidPlan(Q.Plan(Numbers(segments), candidates, maxThreads))
  {
    hide P.Rows, P.OfGram, P.Summarises, P.Admits, P.AllRows, D.InEveryGram;
    forall i, j | 0 <= i < j < |segments| ensures segments[i].segment < segments[j].segment {
      assert A.AdmittedFor(ds, n, segments[i], evidence[i].grams, evidence[i].summary);
      assert A.AdmittedFor(ds, n, segments[j], evidence[j].grams, evidence[j].summary);
      RunsOrdered(ds, segments[i], segments[j]);
    }
    forall o | 0 <= o < |segments| ensures Q.Yields(segments[o].segment, candidates[o]) {
      assert R.Decoded(ds, n, segments[o], candidates[o], hwm);
    }
  }

  lemma RunsOrdered(ds: seq<P.Descriptor>, a: A.Admitted, b: A.Admitted)
    requires P.Sorted(ds) && A.IsRun(ds, a.begin, a.end, a.segment) && A.IsRun(ds, b.begin, b.end, b.segment)
             && a.end <= b.begin
    ensures a.segment < b.segment
  {
    assert ds[a.begin].segment == a.segment && ds[b.begin].segment == b.segment;
    assert ds[b.begin].segment != a.segment;
  }

  /** Whatever keys are probed, the candidates of the admitted segments include every hit up to the mark. */
  lemma PlanIsComplete(t: S.Table, index: F.Index, keysOf: nat -> set<int>, keys: seq<int>, ds: seq<P.Descriptor>,
                       from: seq<L.Source>, segments: seq<A.Admitted>, evidence: seq<A.Evidence>,
                       candidates: seq<seq<int>>, maxThreads: nat)
    requires S.ValidTable(t) && F.ValidIndex(index, keysOf)
             && (forall r: nat :: r in t.visible ==> F.Covers(index, keysOf, {r}))
    requires KeysImplied(t, keys, keysOf) && L.Lists(ds, from, keys, index.rows) && keys != []
    requires Probed(ds, |keys|, segments, evidence, candidates, index.hwm)
    ensures S.Complete(t, Q.Plan(Numbers(segments), candidates, maxThreads), index.hwm)
  {
    hide P.Rows, A.AllHonest, F.Covers, F.ValidIndex, L.Lists, KeysImplied, R.Decoded, A.AdmittedFor, A.NoneLost;
    hide A.IsAdmitted;
    hide Flatten, A.SegmentCandidate, S.ValidTable, A.RunsAscend, P.Sorted, P.AllValid, A.GramsBelow, L.Separate;
    hide A.Overfull;
    ValidManifest(index, keysOf, from, keys, ds);
    var all := Flatten(candidates);
    forall i | 0 <= i < |all| ensures all[i] <= index.hwm {
      var o := S.FlattenFrom(candidates, all[i]);
      BelowMark(ds, |keys|, segments[o], candidates[o], index.hwm, all[i]);
    }
    forall r | 0 <= r <= index.hwm && S.Hit(t, r) ensures r in all {
      CoveredIsListed(t, index, keysOf, keys, ds, from, r);
      var k := AdmittedSegment(ds, |keys|, segments, T.SegmentOf(r), r);
      CandidateIsDecoded(ds, |keys|, segments[k], evidence[k].grams, evidence[k].summary, candidates[k], index.hwm, r);
      S.InFlatten(candidates, k, r);
    }
  }

  lemma BelowMark(ds: seq<P.Descriptor>, n: nat, a: A.Admitted, candidates: seq<int>, hwm: int, x: int)
    requires R.Decoded(ds, n, a, candidates, hwm) && x in candidates
    ensures x <= hwm
  {
    hide D.InEveryGram;
  }

  lemma AdmittedSegment(ds: seq<P.Descriptor>, n: nat, segments: seq<A.Admitted>, segment: nat, x: int) returns (k: nat)
    requires n > 0 && A.AllHonest(ds, n) && A.NoneLost(ds, n, segments, |ds|) && A.SegmentCandidate(ds, n, segment, x)
    ensures k < |segments| && segments[k].segment == segment
  {
    hide P.Rows, A.AllHonest;
    assert A.SegmentPosted(ds, 0, segment, x);
    var i :| 0 <= i < |ds| && ds[i].segment == segment && ds[i].gram == 0 && x in P.Rows(ds[i]);
    assert A.IsAdmitted(segments, segment);
    k :| 0 <= k < |segments| && segments[k].segment == segment;
  }

  /** A run of the workers in which no decode failed and a claim finds nothing left. */
  predicate Completed(plan: Q.Plan, steps: seq<Q.Step>) {
    && Q.Run(plan, steps).Some? && !Q.Run(plan, steps).value.queue.failed
    && K.ClaimIn(Q.Run(plan, steps).value.queue, |plan.segments|, plan.maxThreads).0.Exhausted?
  }

  /** Every query answers exactly: from an index that covers the visible rows up to its mark, for any probed keys the
      matching rows must have, the probe of its manifest, any interleaving of any number of workers, any range-or-fetch
      choice and any tail unit, the output is every matching visible row once, in order, and no other. */
  lemma QueryIsExact(t: S.Table, index: F.Index, keysOf: nat -> set<int>, keys: seq<int>, ds: seq<P.Descriptor>,
                     from: seq<L.Source>, segments: seq<A.Admitted>, evidence: seq<A.Evidence>,
                     candidates: seq<seq<int>>, maxThreads: nat, steps: seq<Q.Step>, unitRows: nat)
    requires S.ValidTable(t) && F.ValidIndex(index, keysOf)
             && (forall r: nat :: r in t.visible ==> F.Covers(index, keysOf, {r}))
    requires KeysImplied(t, keys, keysOf) && L.Lists(ds, from, keys, index.rows) && keys != []
    requires Probed(ds, |keys|, segments, evidence, candidates, index.hwm) && maxThreads >= 1 && unitRows > 0
    requires Completed(Q.Plan(Numbers(segments), candidates, maxThreads), steps)
    ensures var plan := Q.Plan(Numbers(segments), candidates, maxThreads);
            var log := Q.Run(plan, steps).value.log;
            && Q.BatchesOf(plan, log)
            && S.Output(t, plan, log, index.hwm, unitRows) == S.Scan(t, 0, t.end) + t.local
    ensures Ascending(S.Scan(t, 0, t.end)) && forall r :: r in S.Scan(t, 0, t.end) <==> 0 <= r < t.end && S.Hit(t, r)
  {
    hide F.ValidIndex, F.Covers, KeysImplied, L.Lists, Probed, S.ValidTable, S.Hit, S.Scan, S.Output, Q.BatchesOf;
    hide Q.Run;
    var plan := Q.Plan(Numbers(segments), candidates, maxThreads);
    ValidManifest(index, keysOf, from, keys, ds);
    PlanIsValid(ds, |keys|, segments, evidence, candidates, index.hwm, maxThreads);
    PlanIsComplete(t, index, keysOf, keys, ds, from, segments, evidence, candidates, maxThreads);
    assert -1 <= index.hwm by { F.MarkOf(index, keysOf); }
    S.SearchIsExhaustive(t, plan, steps, index.hwm, unitRows);
  }

  /** The index a run of writes and maintenance leaves, and the rows a snapshot taken then sees. */
  ghost predicate LeftBy(keysOf: nat -> set<int>, history: seq<M.Step>, index: F.Index, visible: set<int>) {
    && M.Run(keysOf, history).Some? && M.Run(keysOf, history).value.now.index == index
    && visible == M.Visible(M.Run(keysOf, history).value.now)
  }

  /** And so after every run of appends, deletes, refreshes, compactions and purges: a query whose snapshot sees what
      the run committed answers exactly from the index the run left. */
  lemma QueryAfterAnyRun(t: S.Table, index: F.Index, keysOf: nat -> set<int>, history: seq<M.Step>, keys: seq<int>,
                         ds: seq<P.Descriptor>, from: seq<L.Source>, segments: seq<A.Admitted>,
                         evidence: seq<A.Evidence>, candidates: seq<seq<int>>, maxThreads: nat, steps: seq<Q.Step>,
                         unitRows: nat)
    requires LeftBy(keysOf, history, index, t.visible) && S.ValidTable(t)
    requires KeysImplied(t, keys, keysOf) && L.Lists(ds, from, keys, index.rows) && keys != []
    requires Probed(ds, |keys|, segments, evidence, candidates, index.hwm) && maxThreads >= 1 && unitRows > 0
    requires Completed(Q.Plan(Numbers(segments), candidates, maxThreads), steps)
    ensures var plan := Q.Plan(Numbers(segments), candidates, maxThreads);
            && Q.BatchesOf(plan, Q.Run(plan, steps).value.log)
            && S.Output(t, plan, Q.Run(plan, steps).value.log, index.hwm, unitRows) == S.Scan(t, 0, t.end) + t.local
    ensures Ascending(S.Scan(t, 0, t.end)) && forall r :: r in S.Scan(t, 0, t.end) <==> 0 <= r < t.end && S.Hit(t, r)
  {
    hide F.ValidIndex, F.Covers, KeysImplied, L.Lists, Probed, S.ValidTable, S.Hit, S.Scan, S.Output, Q.BatchesOf;
    hide Q.Run, M.Run;
    IndexCovers(keysOf, history, index, t.visible);
    QueryIsExact(t, index, keysOf, keys, ds, from, segments, evidence, candidates, maxThreads, steps, unitRows);
  }

  lemma IndexCovers(keysOf: nat -> set<int>, history: seq<M.Step>, index: F.Index, visible: set<int>)
    requires LeftBy(keysOf, history, index, visible)
    ensures F.ValidIndex(index, keysOf) && forall r: nat :: r in visible ==> F.Covers(index, keysOf, {r})
  {
    hide M.Run, M.Visible, F.ValidIndex, T.Postings;
    M.RunInv(keysOf, history);
  }
}

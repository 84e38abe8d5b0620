/** Admitting a manifest's segments, and sizing the memory one worker decodes a segment in. */
module AdmitSegments {
  import opened Common
  import opened SortedLists
  import opened Probe

  /** Rows alive at once while a segment's grams are intersected smallest first. */
  function DecodePeak(counts: seq<nat>): nat
    requires counts != []
  {
    if |counts| == 1 then counts[0] else 2 * Least(counts) + Greatest(counts)
  }

  /** Rows alive at one intersection step in plan order: the candidates so far, the next list and what they share. */
  function StepRows(counts: seq<nat>, gram: nat): nat
    requires 0 < gram < |counts|
  {
    Least(counts[..gram]) + counts[gram] + Least(counts[..gram + 1])
  }

  /** The most rows alive when the grams are intersected in plan order. */
  function PlanPeak(counts: seq<nat>): nat
    requires counts != []
  {
    var last := |counts| - 1;
    if last == 0 then counts[0]
    else if last == 1 then StepRows(counts, 1)
    else Max(PlanPeak(counts[..last]), StepRows(counts, last))
  }

  lemma SameStep(counts: seq<nat>, k: nat, gram: nat)
    requires 0 < gram < k <= |counts|
    ensures StepRows(counts[..k], gram) == StepRows(counts, gram)
  {
    assert counts[..k][..gram] == counts[..gram] && counts[..k][..gram + 1] == counts[..gram + 1];
  }

  /** No step has more rows alive, and some step has as many. */
  lemma {:induction false} PeakIsAStep(counts: seq<nat>)
    requires |counts| > 1
    ensures forall gram | 0 < gram < |counts| :: StepRows(counts, gram) <= PlanPeak(counts)
    ensures exists gram :: 0 < gram < |counts| && PlanPeak(counts) == StepRows(counts, gram)
  {
    hide StepRows;
    var last := |counts| - 1;
    if last > 1 {
      var front := counts[..last];
      PeakIsAStep(front);
      var top :| 0 < top < last && PlanPeak(front) == StepRows(front, top);
      forall gram | 0 < gram < |counts| ensures StepRows(counts, gram) <= PlanPeak(counts) {
        if gram < last {
          SameStep(counts, last, gram);
          assert StepRows(front, gram) <= PlanPeak(front);
        }
      }
      SameStep(counts, last, top);
      assert PlanPeak(counts) == StepRows(counts, top) || PlanPeak(counts) == StepRows(counts, last);
    } else {
      assert PlanPeak(counts) == StepRows(counts, 1);
    }
  }

  /** What one worker is charged for a segment. */
  function WorkerBytes(counts: seq<nat>): nat
    requires counts != []
  {
    PlanPeak(counts) * ROW_BYTES + FETCH_SCRATCH_BYTES
  }

  /** The bytes one worker is charged for a segment: the most rows alive in plan order, and the fetch scratch. */
  method SegmentWorkerBytes(counts: seq<nat>, capacity: nat) returns (bytes: nat)
    requires counts != [] && forall i :: 0 <= i < |counts| ==> counts[i] <= capacity
    ensures bytes == WorkerBytes(counts)
  {
    hide Least, StepRows;
    var peak := counts[0];
    var current := Min(capacity, counts[0]);
    OneCount(counts);
    for gram := 1 to |counts|
      invariant current == Least(counts[..gram]) && peak == PlanPeak(counts[..gram])
    {
      NextCount(counts, gram);
      var result := Min(current, Min(capacity, counts[gram]));
      peak := Max(peak, current + counts[gram] + result);
      current := result;
    }
    assert counts[..|counts|] == counts;
    bytes := peak * ROW_BYTES + FETCH_SCRATCH_BYTES;
  }

  lemma OneCount(counts: seq<nat>)
    requires counts != []
    ensures Least(counts[..1]) == PlanPeak(counts[..1]) == counts[0]
  {
  }

  lemma NextCount(counts: seq<nat>, gram: nat)
    requires 0 < gram < |counts|
    ensures Least(counts[..gram + 1]) == Min(Least(counts[..gram]), counts[gram])
    ensures PlanPeak(counts[..gram + 1])
            == Max(PlanPeak(counts[..gram]),
                   Least(counts[..gram]) + counts[gram] + Min(Least(counts[..gram]), counts[gram]))
  {
    var front := counts[..gram + 1];
    assert front[..gram] == counts[..gram];
    LeastSnoc(counts, gram);
    StepIs(front, gram);
    if gram == 1 {
      assert PlanPeak(counts[..1]) == counts[0];
      assert Least(counts[..1]) == counts[0];
    }
  }

  lemma LeastSnoc(counts: seq<nat>, gram: nat)
    requires 0 < gram < |counts|
    ensures Least(counts[..gram + 1]) == Min(Least(counts[..gram]), counts[gram])
  {
    assert counts[..gram + 1][..gram] == counts[..gram];
  }

  lemma StepIs(front: seq<nat>, gram: nat)
    requires 0 < gram == |front| - 1
    ensures StepRows(front, gram) == Least(front[..gram]) + front[gram] + Least(front)
  {
    assert front[..gram + 1] == front;
  }

  /** The charge is enough for the order decoding takes, whatever that order is. */
  lemma PeakCovers(counts: seq<nat>)
    requires counts != []
    ensures PlanPeak(counts) >= DecodePeak(counts)
  {
    hide Greatest, PlanPeak;
    if |counts| > 1 {
      var most := Greatest(counts);
      var k :| 0 <= k < |counts| && counts[k] == most;
      var gram := Max(k, 1);
      PeakIsAStep(counts);
      LeastOfFront(counts, gram);
      LeastOfFront(counts, gram + 1);
      assert StepRows(counts, gram) <= PlanPeak(counts);
      if k == 0 {
        OneCount(counts);
        assert Least(counts) <= counts[1];
      }
    } else {
      OneCount(counts);
      assert counts[..1] == counts;
    }
  }

  lemma LeastOfFront(counts: seq<nat>, k: nat)
    requires 0 < k <= |counts|
    ensures Least(counts) <= Least(counts[..k])
  {
    var least := Least(counts[..k]);
    var i :| 0 <= i < k && counts[..k][i] == least;
    assert counts[i] == least;
  }

  // ---------------------------------------------------------------------------------------------------------------
  // The admitted list

  /** One admitted segment: its manifest range, and its grams smallest posting list first. */
  datatype Admitted = Admitted(segment: nat, begin: nat, end: nat, order: seq<nat>)

  /** `declined` once the decoded-row budget is exceeded; the totals then stop. */
  datatype Plan = Plan(segments: seq<Admitted>, candidateUpperBound: nat, estimatedRowids: nat, admissionRows: nat,
                       peakWorkerBytes: nat, peakCandidateBytes: nat, declined: bool)

  /** The manifest rows of one segment form the range [begin, end). */
  predicate IsRun(ds: seq<Descriptor>, begin: nat, end: nat, segment: nat) {
    begin < end <= |ds| && forall i :: 0 <= i < |ds| ==> (begin <= i < end <==> ds[i].segment == segment)
  }

  /** What an admitted entry stands for. */
  predicate AdmittedFor(ds: seq<Descriptor>, n: nat, a: Admitted, grams: seq<nat>, s: Summary) {
    && IsRun(ds, a.begin, a.end, a.segment)
    && Summarises(ds[a.begin..a.end], grams, s) && Admits(s, n)
    && a.order == StableOrder(s.counts, n)
  }

  /** Admitted ranges follow each other and end by `k`. */
  predicate RunsAscend(segments: seq<Admitted>, k: nat) {
    && (forall i, j :: 0 <= i < j < |segments| ==> segments[i].end <= segments[j].begin)
    && forall i :: 0 <= i < |segments| ==> segments[i].end <= k
  }

  /** Evidence for every admitted segment: its grams and summary. */
  datatype Evidence = Evidence(grams: seq<nat>, summary: Summary)

  predicate AllAdmitted(ds: seq<Descriptor>, n: nat, segments: seq<Admitted>, evidence: seq<Evidence>) {
    |segments| == |evidence| && forall i :: 0 <= i < |segments| ==>
        AdmittedFor(ds, n, segments[i], evidence[i].grams, evidence[i].summary)
  }

  predicate AllAdmit(evidence: seq<Evidence>) {
    forall i :: 0 <= i < |evidence| ==> Admits(evidence[i].summary, |evidence[i].summary.counts|)
  }

  function BoundSum(evidence: seq<Evidence>): nat
    requires AllAdmit(evidence)
  {
    if evidence == [] then 0
    else BoundSum(evidence[..|evidence| - 1]) + CandidateBound(evidence[|evidence| - 1].summary)
  }

  function RowSum(evidence: seq<Evidence>): nat {
    if evidence == [] then 0 else RowSum(evidence[..|evidence| - 1]) + Sum(evidence[|evidence| - 1].summary.counts)
  }

  /** The fetches a segment is priced at: one for every candidate, or one for every RANGE_ROWS_PER_FETCH rows of the
      shared span where that is fewer. */
  function AdmissionRows(s: Summary): (rows: nat)
    requires Admits(s, |s.counts|)
    ensures 0 < rows || CandidateBound(s) == 0
    ensures rows <= CandidateBound(s) && (rows - 1) * RANGE_ROWS_PER_FETCH < SpanHigh(s) - SpanLow(s) + 1
    ensures rows < CandidateBound(s) ==> SpanHigh(s) - SpanLow(s) + 1 <= rows * RANGE_ROWS_PER_FETCH
  {
    var span := SpanHigh(s) - SpanLow(s) + 1;
    Min(CandidateBound(s), (span + RANGE_ROWS_PER_FETCH - 1) / RANGE_ROWS_PER_FETCH)
  }

  function AdmissionSum(evidence: seq<Evidence>): nat
    requires AllAdmit(evidence)
  {
    if evidence == [] then 0
    else AdmissionSum(evidence[..|evidence| - 1]) + AdmissionRows(evidence[|evidence| - 1].summary)
  }

  /** The most one worker is charged for any of the segments. */
  function WorkerPeak(evidence: seq<Evidence>): nat
    requires AllAdmit(evidence)
  {
    if evidence == [] then 0
    else Max(WorkerPeak(evidence[..|evidence| - 1]), WorkerBytes(evidence[|evidence| - 1].summary.counts))
  }

  /** The most any segment's candidate vector is charged: its smallest posting count. */
  function CandidatePeak(evidence: seq<Evidence>): nat
    requires AllAdmit(evidence)
  {
    if evidence == [] then 0
    else Max(CandidatePeak(evidence[..|evidence| - 1]), Least(evidence[|evidence| - 1].summary.counts) * ROW_BYTES)
  }

  /** The totals of a plan that was not declined: exact sums and peaks over the admitted segments, which cover each. */
  predicate Totalled(p: Plan, n: nat, evidence: seq<Evidence>, limit: nat) {
    && (forall i :: 0 <= i < |evidence| ==> Admits(evidence[i].summary, n))
    && p.candidateUpperBound == BoundSum(evidence)
    && p.estimatedRowids == RowSum(evidence) <= limit
    && Priced(p, evidence)
    && (forall i :: 0 <= i < |evidence| ==> PeaksCover(p, evidence[i].summary))
    && p.peakCandidateBytes + (if evidence == [] then 0 else FETCH_SCRATCH_BYTES) <= p.peakWorkerBytes
    && (evidence == [] ==> p.peakCandidateBytes == 0)
  }

  predicate Priced(p: Plan, evidence: seq<Evidence>)
    requires AllAdmit(evidence)
  {
    && p.admissionRows == AdmissionSum(evidence)
    && p.peakWorkerBytes == WorkerPeak(evidence) && p.peakCandidateBytes == CandidatePeak(evidence)
  }

  predicate PeaksCover(p: Plan, s: Summary)
    requires s.counts != []
  {
    && ROW_BYTES * DecodePeak(s.counts) + FETCH_SCRATCH_BYTES <= p.peakWorkerBytes
    && ROW_BYTES * Least(s.counts) <= p.peakCandidateBytes
  }

  ghost predicate SegmentPosted(ds: seq<Descriptor>, g: nat, segment: nat, x: int) {
    exists i :: 0 <= i < |ds| && ds[i].segment == segment && ds[i].gram == g && x in Rows(ds[i])
  }

  /** Rows of one segment that every gram of the manifest posts. */
  ghost predicate SegmentCandidate(ds: seq<Descriptor>, n: nat, segment: nat, x: int) {
    forall g :: 0 <= g < n ==> SegmentPosted(ds, g, segment, x)
  }

  predicate AllHonest(ds: seq<Descriptor>, n: nat) {
    forall i :: 0 <= i < |ds| ==> Honest(ds[i]) && ds[i].gram < n
  }

  predicate IsAdmitted(segments: seq<Admitted>, segment: nat) {
    exists i :: 0 <= i < |segments| && segments[i].segment == segment
  }

  /** Every segment with a candidate is admitted, among those of the first `k` manifest rows. */
  ghost predicate NoneLost(ds: seq<Descriptor>, n: nat, segments: seq<Admitted>, k: nat)
    requires k <= |ds|
  {
    AllHonest(ds, n) ==>
        forall i, x :: 0 <= i < k && SegmentCandidate(ds, n, ds[i].segment, x) ==> IsAdmitted(segments, ds[i].segment)
  }

  lemma RunCandidate(ds: seq<Descriptor>, n: nat, begin: nat, end: nat, segment: nat, x: int)
    requires IsRun(ds, begin, end, segment) && SegmentCandidate(ds, n, segment, x)
    ensures Candidate(ds[begin..end], n, x)
  {
    hide Rows;
    var group := ds[begin..end];
    forall g | 0 <= g < n ensures Posted(group, g, x) {
      assert SegmentPosted(ds, g, segment, x);
      var i :| 0 <= i < |ds| && ds[i].segment == segment && ds[i].gram == g && x in Rows(ds[i]);
      assert group[i - begin] == ds[i];
    }
  }

  lemma HonestSlice(ds: seq<Descriptor>, n: nat, begin: nat, end: nat)
    requires AllHonest(ds, n) && begin <= end <= |ds|
    ensures forall i :: 0 <= i < end - begin ==> Honest(ds[begin..end][i]) && ds[begin..end][i].gram < n
  {
    hide Honest;
    forall i | 0 <= i < end - begin ensures Honest(ds[begin..end][i]) && ds[begin..end][i].gram < n {
      assert ds[begin..end][i] == ds[begin + i];
    }
  }

  /** A segment that is not admitted holds no candidate. */
  lemma LeftOutIsEmpty(ds: seq<Descriptor>, n: nat, begin: nat, end: nat, segment: nat, grams: seq<nat>, s: Summary,
                       x: int)
    requires IsRun(ds, begin, end, segment) && Summarises(ds[begin..end], grams, s) && AllHonest(ds, n) && n > 0
    requires SegmentCandidate(ds, n, segment, x)
    ensures Admits(s, n)
  {
    hide AllHonest, Honest, Summarises, SegmentCandidate, IsRun, Admits;
    assert begin <= end <= |ds| by { RunBounds(ds, begin, end, segment); }
    RunCandidate(ds, n, begin, end, segment, x);
    HonestSlice(ds, n, begin, end);
    CandidatesInSpan(ds[begin..end], grams, s, n, x);
  }

  lemma RunBounds(ds: seq<Descriptor>, begin: nat, end: nat, segment: nat)
    requires IsRun(ds, begin, end, segment)
    ensures begin < end <= |ds|
  {
  }

  /** The end of the run that starts at `begin`. */
  method FindEnd(ds: seq<Descriptor>, begin: nat) returns (end: nat)
    requires Sorted(ds) && begin < |ds| && (begin > 0 ==> ds[begin - 1].segment != ds[begin].segment)
    ensures IsRun(ds, begin, end, ds[begin].segment)
    ensures end < |ds| ==> ds[end - 1].segment != ds[end].segment
    ensures GramsSorted(ds[begin..end])
  {
    end := begin + 1;
    while end < |ds| && ds[end].segment == ds[begin].segment
      invariant begin < end <= |ds|
      invariant forall i :: begin <= i < end ==> ds[i].segment == ds[begin].segment
    {
      end := end + 1;
    }
    RunFound(ds, begin, end);
  }

  lemma RunFound(ds: seq<Descriptor>, begin: nat, end: nat)
    requires Sorted(ds) && begin < end <= |ds| && (begin > 0 ==> ds[begin - 1].segment != ds[begin].segment)
    requires forall i :: begin <= i < end ==> ds[i].segment == ds[begin].segment
    requires end < |ds| ==> ds[end].segment != ds[begin].segment
    ensures IsRun(ds, begin, end, ds[begin].segment) && GramsSorted(ds[begin..end])
  {
    forall i | 0 <= i < |ds| ensures begin <= i < end <==> ds[i].segment == ds[begin].segment {
      if i < begin {
        assert ds[i].segment <= ds[begin - 1].segment < ds[begin].segment;
      } else if i >= end {
        assert ds[begin].segment < ds[end].segment <= ds[i].segment;
      }
    }
  }

  lemma NoneLostStep(ds: seq<Descriptor>, n: nat, segments: seq<Admitted>, begin: nat, end: nat, a: Admitted,
                     grams: seq<nat>, s: Summary)
    requires begin <= |ds| && NoneLost(ds, n, segments, begin) && n > 0
    requires IsRun(ds, begin, end, a.segment) && Summarises(ds[begin..end], grams, s)
    ensures Admits(s, n) ==> NoneLost(ds, n, segments + [a], end)
    ensures !Admits(s, n) ==> NoneLost(ds, n, segments, end)
  {
    hide AllHonest, Summarises, SegmentCandidate, Admits;
    var after := if Admits(s, n) then segments + [a] else segments;
    if AllHonest(ds, n) {
      forall i, x | 0 <= i < end && SegmentCandidate(ds, n, ds[i].segment, x) ensures IsAdmitted(after, ds[i].segment) {
        if i < begin {
          assert IsAdmitted(segments, ds[i].segment);
          var k :| 0 <= k < |segments| && segments[k].segment == ds[i].segment;
          assert after[k].segment == ds[i].segment;
        } else {
          LeftOutIsEmpty(ds, n, begin, end, a.segment, grams, s, x);
          assert after[|segments|] == a;
        }
      }
    }
  }

  // ---------------------------------------------------------------------------------------------------------------
  // Exactly the segments whose spans meet are admitted

  predicate GramsBelow(ds: seq<Descriptor>, n: nat) {
    forall i :: 0 <= i < |ds| ==> ds[i].gram < n
  }

  /** Of the gram's rows in the segment, one begins at x or before and one ends at x or after. */
  ghost predicate Spanned(ds: seq<Descriptor>, gram: nat, segment: nat, x: int) {
    && (exists i :: 0 <= i < |ds| && ds[i].segment == segment && ds[i].gram == gram && ds[i].low <= x)
    && exists i :: 0 <= i < |ds| && ds[i].segment == segment && ds[i].gram == gram && x <= ds[i].high
  }

  /** Every gram is in the segment, and some rowid lies within all their spans. */
  ghost predicate SpansMeet(ds: seq<Descriptor>, n: nat, segment: nat) {
    exists x: int :: SpannedByAll(ds, n, segment, x)
  }

  ghost predicate SpannedByAll(ds: seq<Descriptor>, n: nat, segment: nat, x: int) {
    forall g :: 0 <= g < n ==> Spanned(ds, g, segment, x)
  }

  lemma {:induction false} SpanEnds(list: seq<Descriptor>)
    requires list != []
    ensures exists i :: 0 <= i < |list| && list[i].low == LowOf(list)
    ensures exists i :: 0 <= i < |list| && list[i].high == HighOf(list)
  {
    var last := |list| - 1;
    assert list[last].low == list[last].low && list[last].high == list[last].high;
    if last > 0 {
      var front := list[..last];
      SpanEnds(front);
      var i :| 0 <= i < |front| && front[i].low == LowOf(front);
      var j :| 0 <= j < |front| && front[j].high == HighOf(front);
      assert list[i].low == LowOf(front) && list[j].high == HighOf(front);
    }
  }

  lemma SpannedOnly(ds: seq<Descriptor>, begin: nat, end: nat, segment: nat, gram: nat, x: int)
    requires IsRun(ds, begin, end, segment) && Spanned(ds, gram, segment, x)
    ensures var list := OfGram(ds[begin..end], gram); list != [] && LowOf(list) <= x <= HighOf(list)
  {
    hide OfGram, LowOf, HighOf;
    var group := ds[begin..end];
    var list := OfGram(group, gram);
    OfGramMembers(group, gram);
    var i :| 0 <= i < |ds| && ds[i].segment == segment && ds[i].gram == gram && ds[i].low <= x;
    var j :| 0 <= j < |ds| && ds[j].segment == segment && ds[j].gram == gram && x <= ds[j].high;
    assert group[i - begin] == ds[i] && group[j - begin] == ds[j];
    assert ds[i] in list && ds[j] in list;
    var k :| 0 <= k < |list| && list[k] == ds[i];
    var l :| 0 <= l < |list| && list[l] == ds[j];
    Bounds(list, k);
    Bounds(list, l);
  }

  lemma SpannedWhen(ds: seq<Descriptor>, begin: nat, end: nat, segment: nat, gram: nat, x: int)
    requires IsRun(ds, begin, end, segment)
    requires var list := OfGram(ds[begin..end], gram); list != [] && LowOf(list) <= x <= HighOf(list)
    ensures Spanned(ds, gram, segment, x)
  {
    hide OfGram, LowOf, HighOf;
    var list := OfGram(ds[begin..end], gram);
    OfGramMembers(ds[begin..end], gram);
    SpanEnds(list);
    var k :| 0 <= k < |list| && list[k].low == LowOf(list);
    var l :| 0 <= l < |list| && list[l].high == HighOf(list);
    assert list[k] in list && list[l] in list;
    RunMember(ds, begin, end, list[k]);
    RunMember(ds, begin, end, list[l]);
  }

  /** A gram's summary spans x exactly when its rows do. */
  lemma SpannedIff(ds: seq<Descriptor>, begin: nat, end: nat, segment: nat, gram: nat, x: int)
    requires IsRun(ds, begin, end, segment)
    ensures Spanned(ds, gram, segment, x) <==>
            var list := OfGram(ds[begin..end], gram); list != [] && LowOf(list) <= x <= HighOf(list)
  {
    hide OfGram, LowOf, HighOf, Spanned;
    var list := OfGram(ds[begin..end], gram);
    if Spanned(ds, gram, segment, x) {
      SpannedOnly(ds, begin, end, segment, gram, x);
    }
    if list != [] && LowOf(list) <= x <= HighOf(list) {
      SpannedWhen(ds, begin, end, segment, gram, x);
    }
  }

  lemma RunMember(ds: seq<Descriptor>, begin: nat, end: nat, d: Descriptor)
    requires begin <= end <= |ds| && d in ds[begin..end]
    ensures exists i :: begin <= i < end && ds[i] == d
  {
    var i :| 0 <= i < end - begin && ds[begin..end][i] == d;
    assert ds[begin + i] == d;
  }

  lemma AdmitsMeets(ds: seq<Descriptor>, n: nat, begin: nat, end: nat, segment: nat, grams: seq<nat>, s: Summary)
    requires IsRun(ds, begin, end, segment) && Summarises(ds[begin..end], grams, s) && GramsBelow(ds, n)
    requires Admits(s, n)
    ensures SpannedByAll(ds, n, segment, SpanLow(s)) && SpansMeet(ds, n, segment)
  {
    hide OfGram, LowOf, HighOf, CountOf, Spanned;
    var group := ds[begin..end];
    SummaryGrams(group, grams, s, n);
    AllGrams(grams, n);
    forall g | 0 <= g < n ensures Spanned(ds, g, segment, SpanLow(s)) {
      assert Entry(group, grams[g], s, g);
      assert s.lows[g] <= SpanLow(s) <= SpanHigh(s) <= s.highs[g];
      SpannedIff(ds, begin, end, segment, g, SpanLow(s));
    }
  }

  lemma SummaryGrams(group: seq<Descriptor>, grams: seq<nat>, s: Summary, n: nat)
    requires Summarises(group, grams, s) && forall i :: 0 <= i < |group| ==> group[i].gram < n
    ensures forall i :: 0 <= i < |grams| ==> grams[i] < n
  {
    hide Entry;
    forall i | 0 <= i < |grams| ensures grams[i] < n {
      GramPresent(group, grams[i], s, i);
    }
  }

  lemma MeetsAdmits(ds: seq<Descriptor>, n: nat, begin: nat, end: nat, segment: nat, grams: seq<nat>, s: Summary,
                    x: int)
    requires IsRun(ds, begin, end, segment) && Summarises(ds[begin..end], grams, s) && GramsBelow(ds, n) && n > 0
    requires SpannedByAll(ds, n, segment, x)
    ensures Admits(s, n)
  {
    hide OfGram, LowOf, HighOf, CountOf, Spanned;
    var group := ds[begin..end];
    SummaryGrams(group, grams, s, n);
    forall g | 0 <= g < n ensures g in grams {
      SpannedIff(ds, begin, end, segment, g, x);
      ListedGram(group, grams, s, g);
    }
    CountGrams(grams, n);
    AllGrams(grams, n);
    forall g | 0 <= g < n ensures s.lows[g] <= x <= s.highs[g] {
      assert Entry(group, grams[g], s, g);
      SpannedIff(ds, begin, end, segment, g, x);
    }
    assert SpanLow(s) in s.lows && SpanHigh(s) in s.highs;
  }

  lemma ListedGram(group: seq<Descriptor>, grams: seq<nat>, s: Summary, gram: nat)
    requires Summarises(group, grams, s) && OfGram(group, gram) != []
    ensures gram in grams
  {
    hide Entry;
    var list := OfGram(group, gram);
    OfGramMembers(group, gram);
    assert list[0] in list;
  }

  /** Of the first `k` manifest rows' segments, those whose spans meet are admitted. */
  ghost predicate MeetingAdmitted(ds: seq<Descriptor>, n: nat, segments: seq<Admitted>, k: nat)
    requires k <= |ds|
  {
    GramsBelow(ds, n) ==>
        forall i :: 0 <= i < k && SpansMeet(ds, n, ds[i].segment) ==> IsAdmitted(segments, ds[i].segment)
  }

  /** The admitted segments are exactly those whose spans meet. */
  ghost predicate AdmitsExactly(ds: seq<Descriptor>, n: nat, segments: seq<Admitted>) {
    GramsBelow(ds, n) ==>
        forall i :: 0 <= i < |ds| ==> (IsAdmitted(segments, ds[i].segment) <==> SpansMeet(ds, n, ds[i].segment))
  }

  lemma MeetingStep(ds: seq<Descriptor>, n: nat, segments: seq<Admitted>, begin: nat, end: nat, a: Admitted,
                    grams: seq<nat>, s: Summary)
    requires begin <= |ds| && MeetingAdmitted(ds, n, segments, begin) && n > 0
    requires IsRun(ds, begin, end, a.segment) && Summarises(ds[begin..end], grams, s)
    ensures Admits(s, n) ==> MeetingAdmitted(ds, n, segments + [a], end)
    ensures !Admits(s, n) ==> MeetingAdmitted(ds, n, segments, end)
  {
    hide GramsBelow, Summarises, SpannedByAll, Admits;
    var after := if Admits(s, n) then segments + [a] else segments;
    if GramsBelow(ds, n) {
      forall i | 0 <= i < end && SpansMeet(ds, n, ds[i].segment) ensures IsAdmitted(after, ds[i].segment) {
        if i < begin {
          assert IsAdmitted(segments, ds[i].segment);
          var k :| 0 <= k < |segments| && segments[k].segment == ds[i].segment;
          assert after[k].segment == ds[i].segment;
        } else {
          var x: int :| SpannedByAll(ds, n, ds[i].segment, x);
          MeetsAdmits(ds, n, begin, end, a.segment, grams, s, x);
          assert after[|segments|] == a;
        }
      }
    }
  }

  lemma ExactlyMeeting(ds: seq<Descriptor>, n: nat, segments: seq<Admitted>, evidence: seq<Evidence>)
    requires AllAdmitted(ds, n, segments, evidence) && MeetingAdmitted(ds, n, segments, |ds|)
    ensures AdmitsExactly(ds, n, segments)
  {
    hide GramsBelow, SpansMeet, AdmittedFor;
    if GramsBelow(ds, n) {
      forall i | 0 <= i < |ds| && IsAdmitted(segments, ds[i].segment) ensures SpansMeet(ds, n, ds[i].segment) {
        var k :| 0 <= k < |segments| && segments[k].segment == ds[i].segment;
        AdmittedMeets(ds, n, segments[k], evidence[k].grams, evidence[k].summary);
      }
    }
  }

  lemma AdmittedMeets(ds: seq<Descriptor>, n: nat, a: Admitted, grams: seq<nat>, s: Summary)
    requires AdmittedFor(ds, n, a, grams, s) && GramsBelow(ds, n)
    ensures SpansMeet(ds, n, a.segment)
  {
    hide GramsBelow, Summarises, Admits, SpansMeet, StableOrder;
    AdmitsMeets(ds, n, a.begin, a.end, a.segment, grams, s);
  }

  lemma NothingMeets(ds: seq<Descriptor>, n: nat)
    ensures MeetingAdmitted(ds, n, [], 0)
  {
  }

  datatype Result = Malformed | Planned(plan: Plan)

  /** The totals one more segment adds, unless the budget stops them. */
  function AddSegment(p: Plan, a: Admitted, s: Summary, workerBytes: nat, limit: nat): Plan
    requires Admits(s, |s.counts|)
  {
    var next := p.(segments := p.segments + [a]);
    if p.declined then next
    else
      var estimated := p.estimatedRowids + Sum(s.counts);
      if estimated > limit then next.(estimatedRowids := estimated, declined := true)
      else
        next.(estimatedRowids := estimated,
              candidateUpperBound := p.candidateUpperBound + CandidateBound(s),
              admissionRows := p.admissionRows + AdmissionRows(s),
              peakWorkerBytes := Max(p.peakWorkerBytes, workerBytes),
              peakCandidateBytes := Max(p.peakCandidateBytes, Least(s.counts) * ROW_BYTES))
  }

  /** Declined exactly when the admitted segments' rows exceed the budget. */
  predicate Totals(p: Plan, n: nat, evidence: seq<Evidence>, limit: nat) {
    if p.declined then RowSum(evidence) > limit else Totalled(p, n, evidence, limit)
  }

  lemma AddTotals(p: Plan, n: nat, evidence: seq<Evidence>, a: Admitted, grams: seq<nat>, s: Summary, workerBytes: nat,
                  limit: nat)
    requires Totals(p, n, evidence, limit) && Admits(s, n) && workerBytes == WorkerBytes(s.counts)
    ensures Totals(AddSegment(p, a, s, workerBytes, limit), n, evidence + [Evidence(grams, s)], limit)
  {
    hide Least, Greatest, SpanLow, SpanHigh, CandidateBound, Sum, PlanPeak, WorkerPeak, CandidatePeak, AdmissionSum;
    hide Priced, DecodePeak, BoundSum;
    var after := evidence + [Evidence(grams, s)];
    var next := AddSegment(p, a, s, workerBytes, limit);
    assert after[..|evidence|] == evidence;
    if !next.declined {
      PeakCovers(s.counts);
      PeakIsLarger(s.counts);
      forall i | 0 <= i < |after| ensures Admits(after[i].summary, n) && PeaksCover(next, after[i].summary) {
        if i < |evidence| {
          assert after[i] == evidence[i] && PeaksCover(p, evidence[i].summary);
        }
      }
      AddPrices(p, next, evidence, grams, s);
    }
  }

  lemma AddPrices(p: Plan, next: Plan, evidence: seq<Evidence>, grams: seq<nat>, s: Summary)
    requires AllAdmit(evidence) && Priced(p, evidence) && Admits(s, |s.counts|)
    requires next.admissionRows == p.admissionRows + AdmissionRows(s)
    requires next.peakWorkerBytes == Max(p.peakWorkerBytes, WorkerBytes(s.counts))
    requires next.peakCandidateBytes == Max(p.peakCandidateBytes, Least(s.counts) * ROW_BYTES)
    ensures var after := evidence + [Evidence(grams, s)];
            AllAdmit(after) && Priced(next, after) && BoundSum(after) == BoundSum(evidence) + CandidateBound(s)
  {
    hide Least, CandidateBound, AdmissionRows, WorkerBytes;
    var after := evidence + [Evidence(grams, s)];
    assert after[..|evidence|] == evidence;
    forall i | 0 <= i < |after| ensures Admits(after[i].summary, |after[i].summary.counts|) {
      if i < |evidence| {
        assert after[i] == evidence[i];
      }
    }
  }

  lemma PeakIsLarger(counts: seq<nat>)
    requires counts != []
    ensures Least(counts) <= DecodePeak(counts)
  {
  }

  lemma AddAdmitted(ds: seq<Descriptor>, n: nat, segments: seq<Admitted>, evidence: seq<Evidence>, a: Admitted,
                    grams: seq<nat>, s: Summary)
    requires AllAdmitted(ds, n, segments, evidence) && AdmittedFor(ds, n, a, grams, s)
    ensures AllAdmitted(ds, n, segments + [a], evidence + [Evidence(grams, s)])
  {
    hide AdmittedFor;
  }

  /** Any gram's count past the segment's rows up to the mark. */
  predicate TooMany(s: Summary, capacity: int) {
    exists i :: 0 <= i < |s.counts| && s.counts[i] > capacity
  }

  /** The manifest claims more postings of one gram in one segment than the segment has rows up to the mark. */
  ghost predicate Overfull(ds: seq<Descriptor>, hwm: int) {
    exists begin: nat, end: nat, segment: nat, gram: nat :: IsRun(ds, begin, end, segment)
        && GramOverfull(ds, hwm, begin, end, segment, gram)
  }

  predicate GramOverfull(ds: seq<Descriptor>, hwm: int, begin: nat, end: nat, segment: nat, gram: nat) {
    begin <= end <= |ds| && CountOf(OfGram(ds[begin..end], gram)) > Capacity(segment, hwm)
  }

  /** No run that ends by `k` is overfull. */
  ghost predicate FitsUpTo(ds: seq<Descriptor>, hwm: int, k: nat) {
    forall begin: nat, end: nat, segment: nat, gram: nat :: IsRun(ds, begin, end, segment) && end <= k ==>
        !GramOverfull(ds, hwm, begin, end, segment, gram)
  }

  lemma RunTooMany(ds: seq<Descriptor>, hwm: int, begin: nat, end: nat, segment: nat, grams: seq<nat>, s: Summary,
                   gram: nat)
    requires IsRun(ds, begin, end, segment) && Summarises(ds[begin..end], grams, s) && Capacity(segment, hwm) > 0
    ensures GramOverfull(ds, hwm, begin, end, segment, gram) ==> TooMany(s, Capacity(segment, hwm))
    ensures TooMany(s, Capacity(segment, hwm)) ==> Overfull(ds, hwm)
  {
    hide Capacity, LowOf, HighOf, OfGram, CountOf;
    var group := ds[begin..end];
    if gram in grams {
      var i :| 0 <= i < |grams| && grams[i] == gram;
      assert Entry(group, grams[i], s, i);
    } else {
      NoneOfGram(group, gram);
      assert CountOf([]) == 0 by { NoCount(); }
    }
    if TooMany(s, Capacity(segment, hwm)) {
      var i :| 0 <= i < |s.counts| && s.counts[i] > Capacity(segment, hwm);
      assert Entry(group, grams[i], s, i);
      assert GramOverfull(ds, hwm, begin, end, segment, grams[i]);
    }
  }

  lemma NoCount()
    ensures CountOf([]) == 0
  {
  }

  lemma SameRun(ds: seq<Descriptor>, begin: nat, end: nat, segment: nat, b: nat, e: nat, t: nat)
    requires IsRun(ds, begin, end, segment) && IsRun(ds, b, e, t) && begin < e <= end
    ensures b == begin && e == end && t == segment
  {
    assert ds[e - 1].segment == segment && ds[e - 1].segment == t;
    assert ds[begin].segment == t && ds[end - 1].segment == t;
    assert ds[b].segment == segment;
  }

  lemma FitsRun(ds: seq<Descriptor>, hwm: int, begin: nat, end: nat, segment: nat, grams: seq<nat>, s: Summary)
    requires IsRun(ds, begin, end, segment) && Summarises(ds[begin..end], grams, s) && Capacity(segment, hwm) > 0
    requires FitsUpTo(ds, hwm, begin) && !TooMany(s, Capacity(segment, hwm))
    ensures FitsUpTo(ds, hwm, end)
  {
    hide IsRun, GramOverfull, Summarises, Capacity, TooMany;
    forall b: nat, e: nat, t: nat, gram: nat | IsRun(ds, b, e, t) && e <= end
        ensures !GramOverfull(ds, hwm, b, e, t, gram) {
      if e > begin {
        SameRun(ds, begin, end, segment, b, e, t);
        assert begin < end <= |ds| by { RunBounds(ds, begin, end, segment); }
        RunTooMany(ds, hwm, begin, end, segment, grams, s, gram);
      }
    }
  }

  lemma FitsAll(ds: seq<Descriptor>, hwm: int)
    requires FitsUpTo(ds, hwm, |ds|)
    ensures !Overfull(ds, hwm)
  {
    hide GramOverfull;
  }

  lemma FitsNone(ds: seq<Descriptor>, hwm: int)
    ensures FitsUpTo(ds, hwm, 0)
  {
    hide GramOverfull;
  }

  lemma CapacityPositive(d: Descriptor, hwm: int)
    requires ValidDescriptor(d, hwm)
    ensures Capacity(d.segment, hwm) > 0
  {
  }

  /** Exactly the segments where every gram is present and their spans meet are admitted, with their grams smallest
      first, and so every segment that can hold a candidate; unless the decoded rows exceed the budget, the totals and
      the peaks are exact and cover every admitted segment. */
  method AdmitSegments(ds: seq<Descriptor>, n: nat, hwm: int, limit: nat)
    returns (r: Result, ghost evidence: seq<Evidence>)
    requires n > 0 && Sorted(ds) && AllValid(ds, hwm)
    ensures r.Planned? ==> AllAdmitted(ds, n, r.plan.segments, evidence) && NoneLost(ds, n, r.plan.segments, |ds|)
    ensures r.Planned? ==> RunsAscend(r.plan.segments, |ds|) && AdmitsExactly(ds, n, r.plan.segments)
    ensures r.Planned? ==> Totals(r.plan, n, evidence, limit)
    ensures r.Malformed? <==> Overfull(ds, hwm)
  {
    hide FitsUpTo, Overfull, TooMany, Sorted, AllAdmitted, NoneLost, Totals, AdmittedFor, Summarises, IsRun, Admits;
    hide AllValid, GramsSorted, Capacity, AddSegment, MeetingAdmitted, AdmitsExactly;
    var plan := Plan([], 0, 0, 0, 0, 0, false);
    evidence := [];
    NothingAdmitted(ds, n, limit);
    NothingMeets(ds, n);
    FitsNone(ds, hwm);
    var begin := 0;
    while begin < |ds|
      invariant begin <= |ds| && (0 < begin < |ds| ==> ds[begin - 1].segment != ds[begin].segment)
      invariant AllAdmitted(ds, n, plan.segments, evidence) && NoneLost(ds, n, plan.segments, begin)
                && Totals(plan, n, evidence, limit)
      invariant FitsUpTo(ds, hwm, begin) && RunsAscend(plan.segments, begin)
      invariant MeetingAdmitted(ds, n, plan.segments, begin)
    {
      var end := FindEnd(ds, begin);
      var segment := ds[begin].segment;
      RunBounds(ds, begin, end, segment);
      var s, grams := Summarise(ds[begin..end]);
      assert Capacity(segment, hwm) > 0 by { ValidAt(ds, hwm, begin); CapacityPositive(ds[begin], hwm); }
      if TooMany(s, Capacity(segment, hwm)) {
        RunTooMany(ds, hwm, begin, end, segment, grams, s, 0);
        return Malformed, evidence;
      }
      FitsRun(ds, hwm, begin, end, segment, grams, s);
      if Admits(s, n) {
        plan := AdmitRun(ds, n, Capacity(segment, hwm), limit, plan, segment, begin, end, s, grams, evidence);
        evidence := evidence + [Evidence(grams, s)];
      } else {
        NoneLostStep(ds, n, plan.segments, begin, end, Admitted(segment, begin, end, []), grams, s);
        MeetingStep(ds, n, plan.segments, begin, end, Admitted(segment, begin, end, []), grams, s);
      }
      begin := end;
    }
    ExactlyMeeting(ds, n, plan.segments, evidence);
    FitsAll(ds, hwm);
    r := Planned(plan);
  }

  lemma ValidAt(ds: seq<Descriptor>, hwm: int, i: nat)
    requires AllValid(ds, hwm) && i < |ds|
    ensures ValidDescriptor(ds[i], hwm)
  {
  }

  lemma NothingAdmitted(ds: seq<Descriptor>, n: nat, limit: nat)
    ensures AllAdmitted(ds, n, [], []) && NoneLost(ds, n, [], 0) && Totals(Plan([], 0, 0, 0, 0, 0, false), n, [], limit)
  {
  }

  method AdmitRun(ds: seq<Descriptor>, n: nat, capacity: nat, limit: nat, plan: Plan, segment: nat, begin: nat,
                  end: nat, s: Summary, ghost grams: seq<nat>, ghost evidence: seq<Evidence>)
    returns (next: Plan)
    requires IsRun(ds, begin, end, segment) && begin < end <= |ds| && Summarises(ds[begin..end], grams, s)
             && Admits(s, n) && !TooMany(s, capacity)
    requires n > 0 && NoneLost(ds, n, plan.segments, begin) && MeetingAdmitted(ds, n, plan.segments, begin)
    requires AllAdmitted(ds, n, plan.segments, evidence) && Totals(plan, n, evidence, limit)
    ensures AllAdmitted(ds, n, next.segments, evidence + [Evidence(grams, s)]) && NoneLost(ds, n, next.segments, end)
    ensures Totals(next, n, evidence + [Evidence(grams, s)], limit)
    ensures RunsAscend(plan.segments, begin) ==> RunsAscend(next.segments, end)
    ensures MeetingAdmitted(ds, n, next.segments, end)
  {
    hide AllAdmitted, NoneLost, Totals, Summarises, IsRun, DecodePeak, StableOrder, CandidateBound, SpanLow, SpanHigh;
    hide Sum, Least, WorkerBytes, MeetingAdmitted;
    var a := Admitted(segment, begin, end, StableOrder(s.counts, n));
    var bytes := SegmentWorkerBytes(s.counts, capacity);
    AddAdmitted(ds, n, plan.segments, evidence, a, grams, s);
    AddTotals(plan, n, evidence, a, grams, s, bytes, limit);
    NoneLostStep(ds, n, plan.segments, begin, end, a, grams, s);
    MeetingStep(ds, n, plan.segments, begin, end, a, grams, s);
    next := AddSegment(plan, a, s, bytes, limit);
  }

  /** However many candidates the admitted segments hold, the plan's bound is no smaller. */
  lemma {:induction false} CandidatesWithinBound(ds: seq<Descriptor>, n: nat, segments: seq<Admitted>,
                                                 evidence: seq<Evidence>, candidates: seq<seq<int>>)
    requires n > 0 && AllHonest(ds, n) && AllAdmitted(ds, n, segments, evidence) && |candidates| == |segments|
    requires forall i :: 0 <= i < |candidates| ==>
             Ascending(candidates[i]) && SegmentCandidates(ds, n, segments[i].segment, candidates[i])
    ensures AllAdmit(evidence) && |Flatten(candidates)| <= BoundSum(evidence)
  {
    hide AllHonest, AdmittedFor, SegmentCandidates, CandidateBound, Admits;
    forall i | 0 <= i < |evidence| ensures Admits(evidence[i].summary, |evidence[i].summary.counts|) {
      AdmittedAdmits(ds, n, segments[i], evidence[i].grams, evidence[i].summary);
    }
    if candidates != [] {
      var k := |candidates| - 1;
      CandidatesWithinBound(ds, n, segments[..k], evidence[..k], candidates[..k]);
      assert candidates == candidates[..k] + [candidates[k]];
      FlattenSnoc(candidates[..k], candidates[k]);
      SegmentWithinBound(ds, n, segments[k], evidence[k].grams, evidence[k].summary, candidates[k]);
    }
  }

  ghost predicate SegmentCandidates(ds: seq<Descriptor>, n: nat, segment: nat, candidates: seq<int>) {
    forall i :: 0 <= i < |candidates| ==> SegmentCandidate(ds, n, segment, candidates[i])
  }

  lemma AdmittedAdmits(ds: seq<Descriptor>, n: nat, a: Admitted, grams: seq<nat>, s: Summary)
    requires AdmittedFor(ds, n, a, grams, s)
    ensures Admits(s, |s.counts|)
  {
  }

  lemma SegmentWithinBound(ds: seq<Descriptor>, n: nat, a: Admitted, grams: seq<nat>, s: Summary, candidates: seq<int>)
    requires n > 0 && AllHonest(ds, n) && AdmittedFor(ds, n, a, grams, s)
    requires Ascending(candidates) && SegmentCandidates(ds, n, a.segment, candidates)
    ensures Admits(s, |s.counts|) && |candidates| <= CandidateBound(s)
  {
    hide AllHonest, Honest, SegmentCandidate, Candidate, Summarises, SpanLow, SpanHigh, Least;
    var group := ds[a.begin..a.end];
    HonestSlice(ds, n, a.begin, a.end);
    forall i | 0 <= i < |candidates| ensures Candidate(group, n, candidates[i]) {
      RunCandidate(ds, n, a.begin, a.end, a.segment, candidates[i]);
    }
    CandidatesBounded(group, grams, s, n, candidates);
  }
}

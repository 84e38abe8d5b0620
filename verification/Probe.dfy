/** Planning a probe from the segment manifest: which segments can hold a candidate, how many, and what decoding one
    takes. */
module Probe {
  import opened Common
  import opened Leb128
  import opened Postings
  import opened SortedLists

  const ROW_BYTES := 8
  const FETCH_SCRATCH_BYTES := 256 * 1024

  /** One segments-table row of a selected gram: its manifest columns, and the blob a fetch of it returns. */
  datatype Descriptor = Descriptor(segment: nat, gram: nat, posting: nat, count: nat, low: nat, high: nat,
                                   blob: seq<byte>)

  /** What collecting the manifest checks of every row. */
  predicate ValidDescriptor(d: Descriptor, hwm: int) {
    && 0 < d.count <= d.high - d.low + 1
    && d.segment * SEGMENT_SPAN <= d.low && d.high < (d.segment + 1) * SEGMENT_SPAN && d.high <= hwm
  }

  predicate AllValid(ds: seq<Descriptor>, hwm: int) {
    forall i :: 0 <= i < |ds| ==> ValidDescriptor(ds[i], hwm)
  }

  /** The manifest's order: by segment, then gram. */
  predicate Sorted(ds: seq<Descriptor>) {
    forall i, j :: 0 <= i < j < |ds| ==>
      ds[i].segment < ds[j].segment || (ds[i].segment == ds[j].segment && ds[i].gram <= ds[j].gram)
  }

  /** What a row's blob decodes to. */
  function Rows(d: Descriptor): seq<int> {
    match Decode(d.blob)
    case Ok(rows) => rows
    case Err(_) => []
  }

  /** The blob agrees with its manifest entry. */
  predicate Honest(d: Descriptor) {
    Decode(d.blob).Ok? && d.count > 0 && |Rows(d)| == d.count && Rows(d)[0] == d.low && Rows(d)[d.count - 1] == d.high
  }

  lemma HonestSpan(d: Descriptor, x: int)
    requires Honest(d) && x in Rows(d)
    ensures d.low <= x <= d.high
  {
    var rows := Rows(d);
    var i :| 0 <= i < |rows| && rows[i] == x;
    assert i > 0 ==> rows[0] < rows[i];
    assert i < d.count - 1 ==> rows[i] < rows[d.count - 1];
  }

  // ---------------------------------------------------------------------------------------------------------------
  // One gram of one segment

  function OfGram(group: seq<Descriptor>, gram: nat): seq<Descriptor> {
    if group == [] then []
    else OfGram(group[..|group| - 1], gram) + if group[|group| - 1].gram == gram then [group[|group| - 1]] else []
  }

  function CountOf(list: seq<Descriptor>): nat {
    if list == [] then 0 else CountOf(list[..|list| - 1]) + list[|list| - 1].count
  }

  function LowOf(list: seq<Descriptor>): nat
    requires list != []
  {
    if |list| == 1 then list[0].low else Min(LowOf(list[..|list| - 1]), list[|list| - 1].low)
  }

  function HighOf(list: seq<Descriptor>): nat
    requires list != []
  {
    if |list| == 1 then list[0].high else Max(HighOf(list[..|list| - 1]), list[|list| - 1].high)
  }

  lemma {:induction false} OfGramMembers(group: seq<Descriptor>, gram: nat)
    ensures forall d :: d in OfGram(group, gram) <==> d in group && d.gram == gram
  {
    if group != [] {
      OfGramMembers(group[..|group| - 1], gram);
      assert group == group[..|group| - 1] + [group[|group| - 1]];
    }
  }

  lemma {:induction false} Bounds(list: seq<Descriptor>, i: nat)
    requires i < |list|
    ensures LowOf(list) <= list[i].low && list[i].high <= HighOf(list)
  {
    if i < |list| - 1 {
      Bounds(list[..|list| - 1], i);
    }
  }

  /** Gram `gram` of the group posts x. */
  ghost predicate Posted(group: seq<Descriptor>, gram: nat, x: int) {
    exists i :: 0 <= i < |group| && group[i].gram == gram && x in Rows(group[i])
  }

  /** Every one of the `grams` selected grams posts x: x is a candidate. */
  ghost predicate Candidate(group: seq<Descriptor>, grams: nat, x: int) {
    forall g :: 0 <= g < grams ==> Posted(group, g, x)
  }

  /** What the manifest says of one segment: each gram's count and span, in gram order. */
  datatype Summary = Summary(counts: seq<nat>, lows: seq<nat>, highs: seq<nat>)

  /** Entry i summarises gram grams[i] of the group. */
  predicate Summarises(group: seq<Descriptor>, grams: seq<nat>, s: Summary) {
    && |s.counts| == |grams| == |s.lows| == |s.highs|
    && (forall i, j :: 0 <= i < j < |grams| ==> grams[i] < grams[j])
    && (forall i :: 0 <= i < |group| ==> group[i].gram in grams)
    && forall i :: 0 <= i < |grams| ==> Entry(group, grams[i], s, i)
  }

  predicate Entry(group: seq<Descriptor>, gram: nat, s: Summary, i: nat)
    requires i < |s.counts| == |s.lows| == |s.highs|
  {
    var list := OfGram(group, gram);
    list != [] && s.counts[i] == CountOf(list) && s.lows[i] == LowOf(list) && s.highs[i] == HighOf(list)
  }

  predicate GramsSorted(group: seq<Descriptor>) {
    forall i, j :: 0 <= i < j < |group| ==> group[i].gram <= group[j].gram
  }

  method Summarise(group: seq<Descriptor>) returns (s: Summary, ghost grams: seq<nat>)
    requires GramsSorted(group)
    ensures Summarises(group, grams, s)
  {
    hide Summarises;
    s, grams := Summary([], [], []), [];
    assert Summarises(group[..0], grams, s) by { NothingSummarised(group); }
    for n := 0 to |group|
      invariant |s.counts| == |grams| == |s.lows| == |s.highs|
      invariant n > 0 <==> grams != []
      invariant n > 0 ==> grams[|grams| - 1] == group[n - 1].gram
      invariant Summarises(group[..n], grams, s)
    {
      var d := group[n];
      assert group[..n + 1] == group[..n] + [d];
      if n == 0 || d.gram != group[n - 1].gram {
        NextGram(group, n, grams, s);
        s := Summary(s.counts + [d.count], s.lows + [d.low], s.highs + [d.high]);
        grams := grams + [d.gram];
      } else {
        SameGram(group, n, grams, s);
        var last := |s.counts| - 1;
        s := Summary(s.counts[last := s.counts[last] + d.count], s.lows[last := Min(s.lows[last], d.low)],
            s.highs[last := Max(s.highs[last], d.high)]);
      }
    }
    assert group[..|group|] == group;
  }

  lemma NothingSummarised(group: seq<Descriptor>)
    ensures Summarises(group[..0], [], Summary([], [], []))
  {
  }

  lemma OfGramSnoc(group: seq<Descriptor>, d: Descriptor, gram: nat)
    ensures OfGram(group + [d], gram) == OfGram(group, gram) + if d.gram == gram then [d] else []
  {
    assert (group + [d])[..|group|] == group;
  }

  lemma EntryKeeps(group: seq<Descriptor>, d: Descriptor, gram: nat, s: Summary, s': Summary, i: nat)
    requires i < |s.counts| == |s.lows| == |s.highs| && i < |s'.counts| == |s'.lows| == |s'.highs|
    requires Entry(group, gram, s, i) && d.gram != gram
    requires s'.counts[i] == s.counts[i] && s'.lows[i] == s.lows[i] && s'.highs[i] == s.highs[i]
    ensures Entry(group + [d], gram, s', i)
  {
    OfGramSnoc(group, d, gram);
    assert OfGram(group, gram) + [] == OfGram(group, gram);
  }

  lemma OneOfGram(list: seq<Descriptor>, d: Descriptor)
    ensures CountOf(list + [d]) == CountOf(list) + d.count
    ensures list != [] ==>
            LowOf(list + [d]) == Min(LowOf(list), d.low) && HighOf(list + [d]) == Max(HighOf(list), d.high)
    ensures LowOf([d]) == d.low && HighOf([d]) == d.high && CountOf([d]) == d.count
  {
    assert (list + [d])[..|list|] == list;
  }

  lemma {:induction false} NoneOfGram(group: seq<Descriptor>, gram: nat)
    requires forall i :: 0 <= i < |group| ==> group[i].gram != gram
    ensures OfGram(group, gram) == []
  {
    if group != [] {
      NoneOfGram(group[..|group| - 1], gram);
    }
  }

  lemma NextGram(group: seq<Descriptor>, n: nat, grams: seq<nat>, s: Summary)
    requires n < |group| && GramsSorted(group) && Summarises(group[..n], grams, s) && (n > 0 <==> grams != [])
    requires n > 0 ==> grams[|grams| - 1] == group[n - 1].gram != group[n].gram
    ensures var d := group[n];
            Summarises(group[..n] + [d], grams + [d.gram],
                Summary(s.counts + [d.count], s.lows + [d.low], s.highs + [d.high]))
  {
    hide OfGram, CountOf, LowOf, HighOf, Entry;
    var d, before := group[n], group[..n];
    var s' := Summary(s.counts + [d.count], s.lows + [d.low], s.highs + [d.high]);
    forall i | 0 <= i < |grams| ensures grams[i] < d.gram {
      assert i < |grams| - 1 ==> grams[i] < grams[|grams| - 1];
    }
    forall i | 0 <= i < |grams| + 1 ensures Entry(before + [d], (grams + [d.gram])[i], s', i) {
      if i < |grams| {
        EntryKeeps(before, d, grams[i], s, s', i);
      } else {
        FreshEntry(before, d, s', i);
      }
    }
  }

  lemma FreshEntry(before: seq<Descriptor>, d: Descriptor, s: Summary, i: nat)
    requires i < |s.counts| == |s.lows| == |s.highs| && s.counts[i] == d.count && s.lows[i] == d.low
             && s.highs[i] == d.high
    requires forall j :: 0 <= j < |before| ==> before[j].gram != d.gram
    ensures Entry(before + [d], d.gram, s, i)
  {
    NoneOfGram(before, d.gram);
    OfGramSnoc(before, d, d.gram);
    OneOfGram([], d);
    assert [] + [d] == [d];
  }

  lemma SameGram(group: seq<Descriptor>, n: nat, grams: seq<nat>, s: Summary)
    requires n < |group| && Summarises(group[..n], grams, s) && grams != [] && grams[|grams| - 1] == group[n].gram
    ensures var d := group[n]; var last := |s.counts| - 1;
            Summarises(group[..n] + [d], grams,
                       Summary(s.counts[last := s.counts[last] + d.count], s.lows[last := Min(s.lows[last], d.low)],
                           s.highs[last := Max(s.highs[last], d.high)]))
  {
    hide OfGram, CountOf, LowOf, HighOf;
    var d, before, last := group[n], group[..n], |s.counts| - 1;
    var s' := Summary(s.counts[last := s.counts[last] + d.count], s.lows[last := Min(s.lows[last], d.low)],
        s.highs[last := Max(s.highs[last], d.high)]);
    forall i | 0 <= i < |grams| ensures Entry(before + [d], grams[i], s', i) {
      if i < last {
        EntryKeeps(before, d, grams[i], s, s', i);
      } else {
        OfGramSnoc(before, d, d.gram);
        OneOfGram(OfGram(before, d.gram), d);
      }
    }
  }

  // ---------------------------------------------------------------------------------------------------------------
  // Admitting one segment

  function Capacity(segment: nat, hwm: int): int {
    Min(SEGMENT_SPAN, hwm - segment * SEGMENT_SPAN + 1)
  }

  /** The segment's rowids up to the mark, counted: its first ones. */
  lemma CapacityIsRows(segment: nat, hwm: int, x: int)
    ensures segment * SEGMENT_SPAN <= x < (segment + 1) * SEGMENT_SPAN && x <= hwm
            <==> 0 <= x - segment * SEGMENT_SPAN < Capacity(segment, hwm)
  {
  }

  function Least(s: seq<nat>): (m: nat)
    requires s != []
    ensures m in s && forall i :: 0 <= i < |s| ==> m <= s[i]
  {
    if |s| == 1 then s[0] else Min(Least(s[..|s| - 1]), s[|s| - 1])
  }

  function Greatest(s: seq<nat>): (m: nat)
    requires s != []
    ensures m in s && forall i :: 0 <= i < |s| ==> s[i] <= m
  {
    if |s| == 1 then s[0] else Max(Greatest(s[..|s| - 1]), s[|s| - 1])
  }

  /** The rows all the grams' spans share. */
  function SpanLow(s: Summary): nat
    requires s.lows != []
  {
    Greatest(s.lows)
  }

  function SpanHigh(s: Summary): nat
    requires s.highs != []
  {
    Least(s.highs)
  }

  /** Every gram is present and their spans share a row. */
  predicate Admits(s: Summary, grams: nat) {
    |s.counts| == grams > 0 && |s.lows| == |s.highs| == grams && SpanLow(s) <= SpanHigh(s)
  }

  /** At most this many candidates: the smallest posting count, and the rows of the shared span. */
  function CandidateBound(s: Summary): (bound: nat)
    requires Admits(s, |s.counts|)
    ensures bound <= SpanHigh(s) - SpanLow(s) + 1 && forall i :: 0 <= i < |s.counts| ==> bound <= s.counts[i]
    ensures bound == SpanHigh(s) - SpanLow(s) + 1 || bound in s.counts
  {
    Min(Least(s.counts), SpanHigh(s) - SpanLow(s) + 1)
  }

  /** Distinct ascending gram indexes below n, n of them, are 0 to n - 1. */
  lemma {:induction false} AllGrams(grams: seq<nat>, n: nat)
    requires |grams| == n && (forall i, j :: 0 <= i < j < |grams| ==> grams[i] < grams[j])
    requires forall i :: 0 <= i < |grams| ==> grams[i] < n
    ensures forall i :: 0 <= i < n ==> grams[i] == i
  {
    if n > 0 {
      var front := grams[..n - 1];
      forall i | 0 <= i < n - 1 ensures front[i] < n - 1 {
        assert grams[i] < grams[n - 1];
      }
      AllGrams(front, n - 1);
      assert forall i :: 0 <= i < n - 1 ==> grams[i] == front[i] == i;
      if n > 1 {
        assert grams[n - 2] < grams[n - 1];
      }
    }
  }

  lemma PostedInSpan(group: seq<Descriptor>, gram: nat, x: int)
    requires (forall i :: 0 <= i < |group| ==> Honest(group[i])) && Posted(group, gram, x)
    ensures OfGram(group, gram) != [] && LowOf(OfGram(group, gram)) <= x <= HighOf(OfGram(group, gram))
  {
    hide Honest, Rows, LowOf, HighOf;
    var i :| 0 <= i < |group| && group[i].gram == gram && x in Rows(group[i]);
    OfGramMembers(group, gram);
    var list := OfGram(group, gram);
    assert group[i] in list;
    var j :| 0 <= j < |list| && list[j] == group[i];
    HonestSpan(group[i], x);
    Bounds(list, j);
  }

  /** A segment left out holds no candidate, and an admitted one's candidates lie within the shared span. */
  lemma CandidatesInSpan(group: seq<Descriptor>, grams: seq<nat>, s: Summary, n: nat, x: int)
    requires Summarises(group, grams, s) && n > 0
    requires forall i :: 0 <= i < |group| ==> Honest(group[i]) && group[i].gram < n
    requires Candidate(group, n, x)
    ensures Admits(s, n) && SpanLow(s) <= x <= SpanHigh(s) && forall i :: 0 <= i < n ==> grams[i] == i
  {
    hide Honest, Rows, OfGram, LowOf, HighOf, CountOf;
    forall i | 0 <= i < |grams| ensures grams[i] < n {
      GramPresent(group, grams[i], s, i);
    }
    AllPresent(group, grams, s, n, x);
    AllGrams(grams, n);
    forall i | 0 <= i < n ensures s.lows[i] <= x <= s.highs[i] {
      assert Posted(group, i, x) && Entry(group, grams[i], s, i);
      PostedInSpan(group, i, x);
    }
    assert SpanLow(s) in s.lows && SpanHigh(s) in s.highs;
  }

  lemma GramPresent(group: seq<Descriptor>, gram: nat, s: Summary, i: nat)
    requires i < |s.counts| == |s.lows| == |s.highs| && Entry(group, gram, s, i)
    ensures exists j :: 0 <= j < |group| && group[j].gram == gram
  {
    hide LowOf, HighOf, CountOf;
    var list := OfGram(group, gram);
    assert list[0] in list;
    OfGramMembers(group, gram);
  }

  lemma AllPresent(group: seq<Descriptor>, grams: seq<nat>, s: Summary, n: nat, x: int)
    requires Summarises(group, grams, s) && Candidate(group, n, x) && forall i :: 0 <= i < |grams| ==> grams[i] < n
    ensures |grams| == n
  {
    hide Rows, Entry;
    forall g | 0 <= g < n ensures g in grams {
      assert Posted(group, g, x);
    }
    CountGrams(grams, n);
  }

  lemma LastIsGreatest(grams: seq<nat>, k: nat)
    requires (forall i, j :: 0 <= i < j < |grams| ==> grams[i] < grams[j]) && k < |grams|
    ensures grams[k] <= grams[|grams| - 1]
  {
  }

  lemma {:induction false} CountGrams(grams: seq<nat>, n: nat)
    requires (forall i, j :: 0 <= i < j < |grams| ==> grams[i] < grams[j])
             && forall i :: 0 <= i < |grams| ==> grams[i] < n
    requires forall g: nat :: g < n ==> g in grams
    ensures |grams| == n
  {
    if n == 0 {
      var first := (grams + [0])[0];
      assert first in grams ==> first < n;
    } else {
      assert n - 1 in grams;
      var k :| 0 <= k < |grams| && grams[k] == n - 1;
      LastIsGreatest(grams, k);
      var front := grams[..|grams| - 1];
      forall g: nat | g < n - 1 ensures g in front {
        assert g in grams;
      }
      forall i | 0 <= i < |front| ensures front[i] < n - 1 {
        assert grams[i] < grams[|grams| - 1];
      }
      CountGrams(front, n - 1);
    }
  }

  /** The candidates of a segment are no more than its smallest count and its shared span allow. */
  lemma CandidatesBounded(group: seq<Descriptor>, grams: seq<nat>, s: Summary, n: nat, candidates: seq<int>)
    requires Summarises(group, grams, s) && n > 0 && Ascending(candidates)
    requires forall i :: 0 <= i < |group| ==> Honest(group[i]) && group[i].gram < n
    requires forall i :: 0 <= i < |candidates| ==> Candidate(group, n, candidates[i])
    ensures candidates != [] ==> Admits(s, n) && |candidates| <= CandidateBound(s)
  {
    hide Honest, Candidate, Summarises;
    if candidates != [] {
      CandidatesInSpan(group, grams, s, n, candidates[0]);
      forall i | 0 <= i < |candidates| ensures SpanLow(s) <= candidates[i] <= SpanHigh(s) {
        CandidatesInSpan(group, grams, s, n, candidates[i]);
      }
      WithinSpan(candidates, SpanLow(s), SpanHigh(s));
      var least := Least(s.counts);
      var g :| 0 <= g < |s.counts| && s.counts[g] == least;
      CandidatesOfGram(group, grams, s, n, g, candidates);
    }
  }

  lemma WithinSpan(list: seq<int>, low: int, high: int)
    requires Ascending(list) && low <= high + 1 && forall i :: 0 <= i < |list| ==> low <= list[i] <= high
    ensures |list| <= high - low + 1
  {
    var shifted := seq(|list|, i requires 0 <= i < |list| => list[i] - low);
    AscendingLength(shifted, high - low + 1);
  }

  lemma CandidatesOfGram(group: seq<Descriptor>, grams: seq<nat>, s: Summary, n: nat, g: nat, candidates: seq<int>)
    requires Summarises(group, grams, s) && Ascending(candidates) && g < n && |s.counts| == n && grams[g] == g
    requires forall i :: 0 <= i < |group| ==> Honest(group[i]) && group[i].gram < n
    requires forall i :: 0 <= i < |candidates| ==> Candidate(group, n, candidates[i])
    ensures |candidates| <= s.counts[g]
  {
    hide Rows, OfGram, CountOf, LowOf, HighOf, Honest;
    OfGramMembers(group, g);
    var list := OfGram(group, g);
    forall i | 0 <= i < |candidates| ensures candidates[i] in AllRows(list) {
      assert Posted(group, g, candidates[i]);
      var j :| 0 <= j < |group| && group[j].gram == g && candidates[i] in Rows(group[j]);
      InAllRows(list, group[j], candidates[i]);
    }
    forall d | d in list ensures Honest(d) {
      var j :| 0 <= j < |group| && group[j] == d;
    }
    AllRowsLength(list);
    DistinctWithin(candidates, AllRows(list));
    assert Entry(group, grams[g], s, g);
  }

  /** The rows of a list of manifest entries, generation after generation. */
  function AllRows(list: seq<Descriptor>): seq<int> {
    if list == [] then [] else AllRows(list[..|list| - 1]) + Rows(list[|list| - 1])
  }

  lemma {:induction false} InAllRows(list: seq<Descriptor>, d: Descriptor, x: int)
    requires d in list && x in Rows(d)
    ensures x in AllRows(list)
  {
    hide Rows;
    assert list == list[..|list| - 1] + [list[|list| - 1]];
    if d != list[|list| - 1] {
      InAllRows(list[..|list| - 1], d, x);
    }
  }

  lemma {:induction false} AllRowsLength(list: seq<Descriptor>)
    requires forall d :: d in list ==> Honest(d)
    ensures |AllRows(list)| == CountOf(list)
  {
    if list != [] {
      assert list[|list| - 1] in list;
      AllRowsLength(list[..|list| - 1]);
    }
  }

  /** Distinct elements of a list are no more than its length. */
  lemma {:induction false} DistinctWithin(distinct: seq<int>, all: seq<int>)
    requires Ascending(distinct) && forall i :: 0 <= i < |distinct| ==> distinct[i] in all
    ensures |distinct| <= |all|
  {
    if distinct != [] {
      var x := distinct[0];
      var k :| 0 <= k < |all| && all[k] == x;
      var rest := all[..k] + all[k + 1..];
      forall i | 0 <= i < |distinct[1..]| ensures distinct[1..][i] in rest {
        assert distinct[0] < distinct[i + 1] && distinct[i + 1] in all;
        var j :| 0 <= j < |all| && all[j] == distinct[i + 1];
        assert if j < k then rest[j] == all[j] else rest[j - 1] == all[j];
      }
      DistinctWithin(distinct[1..], rest);
    }
  }
}

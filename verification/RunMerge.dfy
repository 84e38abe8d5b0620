/** SortOffsets: a natural merge sort over the few ascending runs a group's offsets arrive in. */
module RunMerge {
  import opened Common

  /** Non-descending. */
  predicate Sorted(s: seq<int>) {
    forall i, j :: 0 <= i < j < |s| ==> s[i] <= s[j]
  }

  /** std::merge: the first range's element goes first on a tie. */
  function Merge(a: seq<int>, b: seq<int>): (r: seq<int>)
    requires Sorted(a) && Sorted(b)
    ensures Sorted(r) && |r| == |a| + |b|
    ensures multiset(r) == multiset(a) + multiset(b)
    decreases |a| + |b|
  {
    if a == [] then b
    else if b == [] then a
    else if b[0] < a[0] then
      var rest := Merge(a, b[1..]);
      HeadFirst(b, a, rest);
      [b[0]] + rest
    else
      var rest := Merge(a[1..], b);
      HeadFirst(a, b, rest);
      [a[0]] + rest
  }

  /** The smaller head goes before the merge of what is left. */
  lemma HeadFirst(a: seq<int>, b: seq<int>, rest: seq<int>)
    requires Sorted(a) && Sorted(b) && Sorted(rest) && a != [] && (b != [] ==> a[0] <= b[0])
    requires multiset(rest) == multiset(a[1..]) + multiset(b)
    ensures Sorted([a[0]] + rest) && multiset([a[0]] + rest) == multiset(a) + multiset(b)
  {
    SplitHead(a);
    ConsSorted(a[0], a[1..], b, rest);
  }

  lemma SplitHead(s: seq<int>)
    requires s != []
    ensures multiset(s) == multiset{s[0]} + multiset(s[1..])
  {
    assert s == [s[0]] + s[1..];
  }

  lemma ConsSorted(x: int, a: seq<int>, b: seq<int>, r: seq<int>)
    requires Sorted(r) && multiset(r) == multiset(a) + multiset(b)
    requires forall i :: 0 <= i < |a| ==> x <= a[i]
    requires forall i :: 0 <= i < |b| ==> x <= b[i]
    ensures Sorted([x] + r)
  {
    forall i | 0 <= i < |r| ensures x <= r[i] {
      assert r[i] in multiset(r);
      assert r[i] in a || r[i] in b;
    }
  }

  predicate SortedRange(s: seq<int>, lo: nat, hi: nat) {
    lo <= hi <= |s| && forall p, q :: lo <= p < q < hi ==> s[p] <= s[q]
  }

  /** `bounds` cuts the list into non-descending runs. */
  ghost predicate IsRuns(s: seq<int>, bounds: seq<nat>) {
    && |bounds| >= 2 && bounds[0] == 0 && bounds[|bounds| - 1] == |s|
    && forall k :: 0 <= k < |bounds| - 1 ==> SortedRange(s, bounds[k], bounds[k + 1])
  }

  /** Every run ends at a descent, so none can be longer. */
  predicate Maximal(s: seq<int>, bounds: seq<nat>) {
    forall k :: 0 < k < |bounds| - 1 ==> 0 < bounds[k] < |s| && s[bounds[k]] < s[bounds[k] - 1]
  }

  method FindRuns(offsets: seq<int>) returns (runs: seq<nat>)
    ensures IsRuns(offsets, runs) && Maximal(offsets, runs)
  {
    hide Started, IsRuns, Maximal;
    runs := [0];
    var i := 1;
    StartRuns(offsets);
    while i < |offsets|
      invariant 1 <= i && Started(offsets, runs, Min(i, |offsets|))
    {
      NextRun(offsets, runs, i);
      if offsets[i] < offsets[i - 1] {
        runs := runs + [i];
      }
      i := i + 1;
    }
    EndRuns(offsets, runs);
    runs := runs + [|offsets|];
  }

  /** The starts of the maximal runs of the first `end` elements. */
  ghost predicate Started(s: seq<int>, starts: seq<nat>, end: nat) {
    && |starts| >= 1 && starts[0] == 0
    && (forall k :: 0 <= k < |starts| - 1 ==> SortedRange(s, starts[k], starts[k + 1]))
    && SortedRange(s, starts[|starts| - 1], end) && (end > 0 ==> starts[|starts| - 1] < end)
    && forall k :: 0 < k < |starts| ==> 0 < starts[k] < |s| && s[starts[k]] < s[starts[k] - 1]
  }

  lemma StartRuns(s: seq<int>)
    ensures Started(s, [0], Min(1, |s|))
  {
  }

  lemma NextRun(s: seq<int>, starts: seq<nat>, end: nat)
    requires 1 <= end < |s| && Started(s, starts, end)
    ensures Started(s, if s[end] < s[end - 1] then starts + [end] else starts, end + 1)
  {
    hide SortedRange;
    LongerRun(s, starts[|starts| - 1], end);
    if s[end] < s[end - 1] {
      var after := starts + [end];
      forall k | 0 <= k < |starts| ensures SortedRange(s, after[k], after[k + 1]) {
        assert after[k] == starts[k] && (k < |starts| - 1 ==> after[k + 1] == starts[k + 1]);
      }
      assert forall k :: 0 < k < |starts| ==> after[k] == starts[k];
    }
  }

  lemma LongerRun(s: seq<int>, lo: nat, hi: nat)
    requires SortedRange(s, lo, hi) && lo < hi < |s|
    ensures s[hi - 1] <= s[hi] ==> SortedRange(s, lo, hi + 1)
    ensures SortedRange(s, hi, hi + 1)
  {
  }

  lemma EndRuns(s: seq<int>, starts: seq<nat>)
    requires Started(s, starts, |s|)
    ensures IsRuns(s, starts + [|s|]) && Maximal(s, starts + [|s|])
  {
    hide SortedRange;
    assert forall k :: 0 <= k < |starts| ==> (starts + [|s|])[k] == starts[k];
  }

  /** The starts of `merged` merged runs, the last of which ends the list. */
  ghost predicate Merged(scratch: seq<int>, starts: seq<nat>, merged: nat) {
    && merged <= |starts|
    && (merged == 0 ==> scratch == [])
    && (merged > 0 ==> starts[0] == 0 && SortedRange(scratch, starts[merged - 1], |scratch|))
    && forall k :: 0 <= k < merged - 1 ==> SortedRange(scratch, starts[k], starts[k + 1])
  }

  lemma MergedSnoc(scratch: seq<int>, starts: seq<nat>, merged: nat, run: seq<int>)
    requires Merged(scratch, starts, merged) && merged < |starts| && Sorted(run)
    ensures Merged(scratch + run, starts[merged := |scratch|], merged + 1)
  {
    var s', starts' := scratch + run, starts[merged := |scratch|];
    forall k | 0 <= k < merged ensures SortedRange(s', starts'[k], starts'[k + 1]) {
      if k < merged - 1 {
        assert SortedRange(scratch, starts[k], starts[k + 1]);
      }
    }
    assert SortedRange(s', |scratch|, |s'|) by {
      assert forall p :: |scratch| <= p < |s'| ==> s'[p] == run[p - |scratch|];
    }
  }

  lemma MergedRuns(scratch: seq<int>, starts: seq<nat>, merged: nat)
    requires Merged(scratch, starts, merged) && 0 < merged < |starts|
    ensures IsRuns(scratch, starts[merged := |scratch|][..merged + 1])
  {
    var bounds := starts[merged := |scratch|][..merged + 1];
    forall k | 0 <= k < |bounds| - 1 ensures SortedRange(scratch, bounds[k], bounds[k + 1]) {
      assert bounds[k] == starts[k];
      if k < merged - 1 {
        assert bounds[k + 1] == starts[k + 1];
      }
    }
  }

  /** One std::merge call of a pass. */
  lemma MergePair(s: seq<int>, begin: nat, middle: nat, end: nat)
    requires SortedRange(s, begin, middle) && SortedRange(s, middle, end)
    ensures Sorted(s[begin..middle]) && Sorted(s[middle..end])
    ensures multiset(s[..begin]) + multiset(Merge(s[begin..middle], s[middle..end])) == multiset(s[..end])
    ensures |Merge(s[begin..middle], s[middle..end])| == end - begin && Sorted(Merge(s[begin..middle], s[middle..end]))
  {
    assert s[..end] == s[..begin] + (s[begin..middle] + s[middle..end]);
  }

  /** One merge pass: neighbouring runs pair up, a last odd one is copied, so half as many are left, rounded up. The run
      bounds are rewritten in place, never ahead of the pair being read. */
  method MergePass(offsets: seq<int>, bounds: seq<nat>) returns (scratch: seq<int>, runs: seq<nat>)
    requires IsRuns(offsets, bounds) && |bounds| > 2
    ensures IsRuns(scratch, runs) && |runs| - 1 == |bounds| / 2
    ensures multiset(scratch) == multiset(offsets)
  {
    hide Merged, Merge, Sorted, SortedRange;
    scratch, runs := [], bounds;
    var merged, run := 0, 0;
    ghost var covered := 0;
    MergedNothing(runs);
    while run + 1 < |runs|
      invariant |runs| == |bounds| && run == 2 * merged <= |bounds|
      invariant forall k :: run <= k < |runs| ==> runs[k] == bounds[k]
      invariant Merged(scratch, runs, merged)
      invariant covered == bounds[Min(run, |bounds| - 1)] <= |offsets|
      invariant |scratch| == covered && multiset(scratch) == multiset(offsets[..covered])
    {
      PairBounds(offsets, bounds, run);
      var begin, middle := runs[run], runs[run + 1];
      var end := if run + 2 < |runs| then runs[run + 2] else middle;
      MergePair(offsets, begin, middle, end);
      var merge := Merge(offsets[begin..middle], offsets[middle..end]);
      MergedSnoc(scratch, runs, merged, merge);
      scratch := scratch + merge;
      runs := runs[merged := begin];
      merged := merged + 1;
      run := run + 2;
      covered := end;
    }
    assert offsets[..|offsets|] == offsets;
    MergedRuns(scratch, runs, merged);
    runs := runs[merged := |offsets|];
    runs := runs[..merged + 1];
  }

  lemma PairBounds(s: seq<int>, bounds: seq<nat>, run: nat)
    requires IsRuns(s, bounds) && run + 1 < |bounds|
    ensures bounds[run] <= bounds[run + 1] <= |s| && SortedRange(s, bounds[run], bounds[run + 1])
    ensures var end := if run + 2 < |bounds| then bounds[run + 2] else bounds[run + 1];
            bounds[run + 1] <= end <= |s| && SortedRange(s, bounds[run + 1], end)
  {
    assert SortedRange(s, bounds[run], bounds[run + 1]);
    assert run + 2 < |bounds| ==> SortedRange(s, bounds[run + 1], bounds[run + 2]);
  }

  lemma MergedNothing(starts: seq<nat>)
    ensures Merged([], starts, 0)
  {
  }

  /** std::unique on a sorted list, and the erasure of what follows: the first of each group of equals stays. */
  method EraseRepeats(sorted: seq<int>) returns (unique: seq<int>)
    requires Sorted(sorted)
    ensures Ascending(unique) && SameElements(unique, sorted)
  {
    unique := [];
    assert sorted[..0] == [];
    for i := 0 to |sorted|
      invariant Ascending(unique) && SameElements(unique, sorted[..i])
      invariant if i == 0 then unique == [] else |unique| > 0 && unique[|unique| - 1] == sorted[i - 1]
    {
      assert sorted[..i + 1] == sorted[..i] + [sorted[i]];
      ghost var before := unique;
      if i == 0 || sorted[i] != unique[|unique| - 1] {
        assert i > 0 ==> sorted[i - 1] <= sorted[i];
        assert forall k :: 0 <= k < |unique| ==> unique[k] <= unique[|unique| - 1];
        unique := unique + [sorted[i]];
        assert forall x :: x in unique <==> x in before || x == sorted[i];
      } else {
        assert sorted[i] in sorted[..i];
      }
    }
    assert sorted[..|sorted|] == sorted;
  }

  method SortOffsets(input: seq<int>) returns (offsets: seq<int>)
    ensures offsets == SortUnique(input)
  {
    offsets := input;
    var runs := FindRuns(offsets);
    while |runs| > 2
      invariant IsRuns(offsets, runs)
      invariant multiset(offsets) == multiset(input)
      decreases |runs|
    {
      offsets, runs := MergePass(offsets, runs);
    }
    assert SortedRange(offsets, runs[0], runs[1]);
    ghost var sorted := offsets;
    offsets := EraseRepeats(offsets);
    forall x ensures x in sorted <==> x in input {
      assert x in sorted <==> x in multiset(sorted);
      assert x in input <==> x in multiset(input);
    }
    SortUniqueIs(input, offsets);
  }
}

/** Sparse grams over window weights: the definition, the one-pass enumeration, and the grams a needle probes. */
module SparseGrams {
  import opened Common

  /** A gram's codepoint range [first, end). */
  datatype Range = Range(first: nat, end: nat)

  // ---------------------------------------------------------------------------------------------------------------
  // The definition

  predicate Lighter(w: seq<int>, lo: int, hi: int, bound: int)
    requires 0 <= lo && hi <= |w|
  {
    forall i :: lo <= i < hi ==> w[i] < bound
  }

  /** Border windows with only lighter windows strictly between them. */
  predicate Pair(w: seq<int>, left: int, right: int) {
    0 <= left < right < |w| && Lighter(w, left + 1, right, w[left]) && Lighter(w, left + 1, right, w[right])
  }

  /** The sparse grams of weights `w` of `span`-codepoint windows: pairs at most maxGram codepoints long. */
  predicate Gram(w: seq<int>, span: nat, maxGram: nat, left: int, right: int) {
    Pair(w, left, right) && right + span - left <= maxGram
  }

  /** The grams ending with window `right` whose first window is at least `lo`, shortest first. */
  function GramsFrom(w: seq<int>, span: nat, maxGram: nat, lo: nat, right: nat): seq<Range>
    decreases right - lo
  {
    if lo >= right then []
    else
      GramsFrom(w, span, maxGram, lo + 1, right)
      + (if Gram(w, span, maxGram, lo, right) then [Range(lo, right + span)] else [])
  }

  /** Every gram whose last window precedes `n`, by end, shorter ones first. */
  function Grams(w: seq<int>, span: nat, maxGram: nat, n: nat): seq<Range> {
    if n == 0 then [] else Grams(w, span, maxGram, n - 1) + GramsFrom(w, span, maxGram, 0, n - 1)
  }

  lemma {:induction false} InGramsFrom(w: seq<int>, span: nat, maxGram: nat, lo: nat, right: nat, g: Range)
    ensures g in GramsFrom(w, span, maxGram, lo, right) <==>
            lo <= g.first < right && g.end == right + span && Gram(w, span, maxGram, g.first, right)
    decreases right - lo
  {
    hide Gram;
    if lo < right {
      InGramsFrom(w, span, maxGram, lo + 1, right, g);
    }
  }

  /** The enumeration lists exactly the grams of the definition. */
  lemma {:induction false} InGrams(w: seq<int>, span: nat, maxGram: nat, n: nat, g: Range)
    requires n <= |w|
    ensures g in Grams(w, span, maxGram, n) <==>
            span <= g.end < n + span && Gram(w, span, maxGram, g.first, g.end - span)
  {
    hide Lighter;
    if n > 0 {
      InGrams(w, span, maxGram, n - 1, g);
      InGramsFrom(w, span, maxGram, 0, n - 1, g);
    }
  }

  /** A text's grams, viewed as pairs of border windows, never cross. */
  lemma NonCrossing(w: seq<int>, span: nat, maxGram: nat, g: Range, h: Range)
    requires g in Grams(w, span, maxGram, |w|) && h in Grams(w, span, maxGram, |w|)
    ensures !(g.first < h.first < g.end - span < h.end - span)
  {
    InGrams(w, span, maxGram, |w|, g);
    InGrams(w, span, maxGram, |w|, h);
  }

  /** Adjacent windows always pair: every window of min_gram codepoints is a gram. */
  lemma AdjacentPair(w: seq<int>, left: int)
    requires 0 <= left < |w| - 1
    ensures Pair(w, left, left + 1)
  {
  }

  // ---------------------------------------------------------------------------------------------------------------
  // ExtractGramRanges

  predicate TooFar(span: nat, maxGram: nat, position: int, right: int) {
    right + span - position > maxGram
  }

  /** The first position below `next` that a stack leaves out. */
  function Under(stack: seq<nat>, k: nat): int
    requires k <= |stack|
  {
    if k == 0 then -1 else stack[k - 1]
  }

  /** A window left out of the stack is no heavier than the next one kept, or too far away for good. */
  predicate Covered(w: seq<int>, span: nat, maxGram: nat, right: nat, position: int, next: int)
    requires 0 <= position < |w| && 0 <= next < |w|
  {
    w[position] <= w[next] || TooFar(span, maxGram, position, right)
  }

  predicate StackAt(w: seq<int>, span: nat, maxGram: nat, right: nat, stack: seq<nat>, k: nat)
    requires right <= |w| && k < |stack|
  {
    && Under(stack, k) < stack[k] < right
    && Lighter(w, stack[k] + 1, right, w[stack[k]])
    && forall i :: Under(stack, k) < i < stack[k] ==> Covered(w, span, maxGram, right, i, stack[k])
  }

  /** The stack before window `right`: windows heavier than all that follow them, ending with the latest one. */
  predicate Stacked(w: seq<int>, span: nat, maxGram: nat, right: nat, stack: seq<nat>)
    requires right <= |w|
  {
    && (right == 0 <==> stack == [])
    && (stack != [] ==> stack[|stack| - 1] == right - 1)
    && forall k :: 0 <= k < |stack| ==> StackAt(w, span, maxGram, right, stack, k)
  }

  lemma {:induction false} NoGrams(w: seq<int>, span: nat, maxGram: nat, lo: nat, hi: nat, right: nat)
    requires lo <= hi <= right < |w|
    requires forall i :: lo <= i < hi ==> !Gram(w, span, maxGram, i, right)
    ensures GramsFrom(w, span, maxGram, lo, right) == GramsFrom(w, span, maxGram, hi, right)
    decreases hi - lo
  {
    hide Gram;
    if lo < hi {
      NoGrams(w, span, maxGram, lo + 1, hi, right);
    }
  }

  /** A window left out below stack[k] cannot pair with `right`: stack[k], no lighter, lies between them. */
  lemma GapHasNoGram(w: seq<int>, span: nat, maxGram: nat, right: nat, stack: seq<nat>, k: nat, i: int)
    requires right < |w| && k < |stack| && StackAt(w, span, maxGram, right, stack, k)
    requires Under(stack, k) < i < stack[k]
    ensures !Gram(w, span, maxGram, i, right)
  {
    assert i >= 0;
    assert Covered(w, span, maxGram, right, i, stack[k]);
    if Pair(w, i, right) {
      assert w[stack[k]] < w[i];
    }
  }

  /** The windows from `low` on are lighter than `right`: what popping down to `low` establishes. */
  predicate Popped(w: seq<int>, low: nat, right: nat)
    requires right < |w|
  {
    low <= right && Lighter(w, low, right, w[right])
  }

  /** The next entry pairs with `right`, and between it and the last one popped there is no gram. */
  lemma TopPairs(w: seq<int>, span: nat, maxGram: nat, right: nat, stack: seq<nat>, m: nat, low: nat)
    requires right < |w| && 0 < m <= |stack| && Stacked(w, span, maxGram, right, stack)
    requires Popped(w, low, right) && low == (if m == |stack| then right else stack[m])
    requires !TooFar(span, maxGram, stack[m - 1], right)
    ensures stack[m - 1] < low && Pair(w, stack[m - 1], right)
    ensures GramsFrom(w, span, maxGram, stack[m - 1], right)
            == GramsFrom(w, span, maxGram, low, right) + [Range(stack[m - 1], right + span)]
    ensures w[stack[m - 1]] < w[right] ==> Popped(w, stack[m - 1], right)
  {
    hide GramsFrom, Pair;
    var top := stack[m - 1];
    assert StackAt(w, span, maxGram, right, stack, m - 1);
    if m < |stack| {
      assert StackAt(w, span, maxGram, right, stack, m);
      forall i | top < i < low ensures !Gram(w, span, maxGram, i, right) && w[i] < w[right] {
        GapHasNoGram(w, span, maxGram, right, stack, m, i);
        assert Covered(w, span, maxGram, right, i, stack[m]);
      }
    }
    PairOf(w, top, right);
    hide Lighter, StackAt, Stacked;
    NoGrams(w, span, maxGram, top + 1, low, right);
    FromTop(w, span, maxGram, top, right);
  }

  lemma PairOf(w: seq<int>, top: nat, right: nat)
    requires top < right < |w| && Lighter(w, top + 1, right, w[top]) && Lighter(w, top + 1, right, w[right])
    ensures Pair(w, top, right)
  {
  }

  lemma FromTop(w: seq<int>, span: nat, maxGram: nat, top: nat, right: nat)
    requires Pair(w, top, right) && !TooFar(span, maxGram, top, right)
    ensures GramsFrom(w, span, maxGram, top, right)
            == GramsFrom(w, span, maxGram, top + 1, right) + [Range(top, right + span)]
  {
  }

  /** Once the entry below is too far away or too heavy to look past, nothing further down pairs with `right`. */
  lemma BelowHasNoGram(w: seq<int>, span: nat, maxGram: nat, right: nat, stack: seq<nat>, m: nat, low: nat)
    requires right < |w| && m <= |stack| && Stacked(w, span, maxGram, right, stack)
    requires low == (if m == |stack| then right else stack[m])
    requires m > 0 ==> TooFar(span, maxGram, stack[m - 1], right)
    ensures GramsFrom(w, span, maxGram, 0, right) == GramsFrom(w, span, maxGram, low, right)
  {
    hide GramsFrom, Pair;
    EntriesBelow(w, span, maxGram, right, stack);
    forall i | 0 <= i < low ensures !Gram(w, span, maxGram, i, right) {
      if m < |stack| && i > Under(stack, m) {
        GapHasNoGram(w, span, maxGram, right, stack, m, i);
      }
    }
    NoGrams(w, span, maxGram, 0, low, right);
  }

  lemma BelowHeavy(w: seq<int>, span: nat, maxGram: nat, right: nat, stack: seq<nat>, m: nat)
    requires right < |w| && 0 < m <= |stack| && Stacked(w, span, maxGram, right, stack)
    requires stack[m - 1] < |w| && w[stack[m - 1]] >= w[right]
    ensures GramsFrom(w, span, maxGram, 0, right) == GramsFrom(w, span, maxGram, stack[m - 1], right)
  {
    hide GramsFrom, Lighter;
    assert StackAt(w, span, maxGram, right, stack, m - 1);
    forall i | 0 <= i < stack[m - 1] ensures !Gram(w, span, maxGram, i, right) {
      if Pair(w, i, right) {
        HeavyBetween(w, i, stack[m - 1], right);
      }
    }
    NoGrams(w, span, maxGram, 0, stack[m - 1], right);
  }

  lemma HeavyBetween(w: seq<int>, left: int, middle: int, right: int)
    requires Pair(w, left, right) && left < middle < right
    ensures w[middle] < w[right]
  {
  }

  /** Pushing `right` onto what popping leaves keeps the stack. */
  lemma Push(w: seq<int>, span: nat, maxGram: nat, right: nat, stack: seq<nat>, m: nat)
    requires right < |w| && m <= |stack| && Stacked(w, span, maxGram, right, stack)
    requires m > 0 ==> stack[m - 1] < right && (w[stack[m - 1]] > w[right])
    requires Settled(w, span, maxGram, right, stack, m)
    ensures Stacked(w, span, maxGram, right + 1, stack[..m] + [right])
  {
    var after, next := stack[..m] + [right], right + 1;
    forall k | 0 <= k < |after| ensures StackAt(w, span, maxGram, next, after, k) {
      if k < m {
        KeepEntry(w, span, maxGram, right, stack, m, k);
      } else {
        assert Under(after, m) == Under(stack, m);
        forall i | Under(after, k) < i < after[k] ensures Covered(w, span, maxGram, next, i, after[k]) {
          assert Covered(w, span, maxGram, right, i, right);
        }
      }
    }
  }

  lemma KeepEntry(w: seq<int>, span: nat, maxGram: nat, right: nat, stack: seq<nat>, m: nat, k: nat)
    requires right < |w| && k < m <= |stack| && Stacked(w, span, maxGram, right, stack)
    requires stack[m - 1] < right && w[stack[m - 1]] > w[right]
    ensures StackAt(w, span, maxGram, right + 1, stack[..m] + [right], k)
  {
    var after, next := stack[..m] + [right], right + 1;
    assert StackAt(w, span, maxGram, right, stack, k) && StackAt(w, span, maxGram, right, stack, m - 1);
    assert Under(after, k) == Under(stack, k) && after[k] == stack[k];
    StackOrder(w, span, maxGram, right, stack, k, m - 1);
    forall i | Under(after, k) < i < after[k] ensures Covered(w, span, maxGram, next, i, after[k]) {
      assert Covered(w, span, maxGram, right, i, stack[k]);
    }
  }

  lemma {:induction false} StackOrder(w: seq<int>, span: nat, maxGram: nat, right: nat, stack: seq<nat>, j: nat, k: nat)
    requires right <= |w| && j <= k < |stack| && Stacked(w, span, maxGram, right, stack)
    ensures j < k ==> stack[j] < stack[k] < right
    decreases k - j
  {
    hide Lighter, Covered;
    assert StackAt(w, span, maxGram, right, stack, k);
    if j < k {
      StackOrder(w, span, maxGram, right, stack, j, k - 1);
    }
  }

  /** Popped or retired entries and what lay between them are no heavier than `right`. */
  predicate Settled(w: seq<int>, span: nat, maxGram: nat, right: nat, stack: seq<nat>, m: nat)
    requires right < |w| && m <= |stack|
  {
    forall i :: Under(stack, m) < i < right ==> Covered(w, span, maxGram, right, i, right)
  }

  lemma SettleStart(w: seq<int>, span: nat, maxGram: nat, right: nat, stack: seq<nat>)
    requires right < |w| && Stacked(w, span, maxGram, right, stack)
    ensures Settled(w, span, maxGram, right, stack, |stack|)
  {
  }

  lemma SettleOne(w: seq<int>, span: nat, maxGram: nat, right: nat, stack: seq<nat>, m: nat)
    requires right < |w| && 0 < m <= |stack| && Stacked(w, span, maxGram, right, stack)
             && Settled(w, span, maxGram, right, stack, m)
    requires stack[m - 1] < right && w[stack[m - 1]] <= w[right]
    ensures Settled(w, span, maxGram, right, stack, m - 1)
  {
    assert StackAt(w, span, maxGram, right, stack, m - 1);
    forall i | Under(stack, m - 1) < i < right ensures Covered(w, span, maxGram, right, i, right) {
      if i < stack[m - 1] {
        assert Covered(w, span, maxGram, right, i, stack[m - 1]);
      }
    }
  }

  lemma SettleAll(w: seq<int>, span: nat, maxGram: nat, right: nat, stack: seq<nat>, m: nat)
    requires right < |w| && 0 < m <= |stack| && Settled(w, span, maxGram, right, stack, m)
    requires TooFar(span, maxGram, stack[m - 1], right)
    ensures Settled(w, span, maxGram, right, stack, 0)
  {
  }

  /** One pass over a stack of windows emits exactly the grams of the definition, in order, at most two per window. */
  method ExtractGramRanges(w: seq<int>, span: nat, maxGram: nat) returns (emitted: seq<Range>)
    ensures emitted == Grams(w, span, maxGram, |w|)
    ensures |w| > 0 ==> |emitted| <= 2 * (|w| - 1)
  {
    hide Stacked, Grams, GramsFrom;
    emitted := [];
    var stack: seq<nat> := [];
    assert Stacked(w, span, maxGram, 0, stack) && Grams(w, span, maxGram, 0) == [] by { NothingYet(w, span, maxGram); }
    for right := 0 to |w|
      invariant Stacked(w, span, maxGram, right, stack) && emitted == Grams(w, span, maxGram, right)
      invariant |emitted| + |stack| <= 2 * right && (right > 0 ==> |stack| > 0 && |emitted| + |stack| < 2 * right)
    {
      ghost var before := emitted;
      stack, emitted := ExtractWindow(w, span, maxGram, right, stack, emitted);
      assert emitted == Grams(w, span, maxGram, right + 1) by { GramsStep(w, span, maxGram, right, before); }
    }
  }

  lemma NothingYet(w: seq<int>, span: nat, maxGram: nat)
    ensures Stacked(w, span, maxGram, 0, []) && Grams(w, span, maxGram, 0) == []
  {
  }

  lemma GramsStep(w: seq<int>, span: nat, maxGram: nat, n: nat, before: seq<Range>)
    requires before == Grams(w, span, maxGram, n)
    ensures before + GramsFrom(w, span, maxGram, 0, n) == Grams(w, span, maxGram, n + 1)
  {
  }

  /** The last position popped. */
  function Low(before: seq<nat>, m: nat, right: nat): nat
    requires m <= |before|
  {
    if m == |before| then right else before[m]
  }

  lemma EntriesBelow(w: seq<int>, span: nat, maxGram: nat, right: nat, stack: seq<nat>)
    requires right <= |w| && Stacked(w, span, maxGram, right, stack)
    ensures forall k :: 0 <= k < |stack| ==> stack[k] < right
  {
    forall k | 0 <= k < |stack| ensures stack[k] < right {
      assert StackAt(w, span, maxGram, right, stack, k);
    }
  }

  lemma NothingPopped(w: seq<int>, span: nat, maxGram: nat, right: nat, sofar: seq<Range>)
    requires right < |w|
    ensures Popped(w, right, right) && sofar + GramsFrom(w, span, maxGram, right, right) == sofar
  {
  }

  /** Pair `right` with every lighter entry; one too far away clears the stack. `m` entries were not popped. */
  method PopLighter(w: seq<int>, span: nat, maxGram: nat, right: nat, before: seq<nat>, sofar: seq<Range>)
    returns (stack: seq<nat>, emitted: seq<Range>, ghost m: nat)
    requires right < |w| && Stacked(w, span, maxGram, right, before)
    ensures m <= |before| && (forall k :: 0 <= k < |before| ==> before[k] < right)
    ensures Settled(w, span, maxGram, right, before, m) && Popped(w, Low(before, m, right), right)
    ensures emitted == sofar + GramsFrom(w, span, maxGram, Low(before, m, right), right)
    ensures |emitted| + m == |sofar| + |before|
    ensures if m > 0 && w[before[m - 1]] < w[right] then stack == [] && TooFar(span, maxGram, before[m - 1], right)
            else stack == before[..m]
  {
    hide Stacked, GramsFrom, Settled;
    emitted, stack, m := sofar, before, |before|;
    EntriesBelow(w, span, maxGram, right, before);
    SettleStart(w, span, maxGram, right, before);
    NothingPopped(w, span, maxGram, right, sofar);
    while stack != [] && w[stack[|stack| - 1]] < w[right]
      invariant m <= |before| && stack == before[..m]
      invariant Popped(w, Low(before, m, right), right) && Settled(w, span, maxGram, right, before, m)
      invariant emitted == sofar + GramsFrom(w, span, maxGram, Low(before, m, right), right)
      invariant |emitted| + m == |sofar| + |before|
    {
      var top := stack[|stack| - 1];
      if right + span - top > maxGram {
        stack := [];
        break;
      }
      TopPairs(w, span, maxGram, right, before, m, Low(before, m, right));
      SettleOne(w, span, maxGram, right, before, m);
      ConcatAssociates(sofar, GramsFrom(w, span, maxGram, Low(before, m, right), right), [Range(top, right + span)]);
      emitted := emitted + [Range(top, right + span)];
      stack := stack[..|stack| - 1];
      m := m - 1;
    }
  }

  lemma HeavierBelow(w: seq<int>, span: nat, maxGram: nat, right: nat, stack: seq<nat>, k: nat)
    requires right <= |w| && Stacked(w, span, maxGram, right, stack) && 0 < k < |stack|
    ensures stack[k - 1] < stack[k] < right && w[stack[k - 1]] > w[stack[k]]
  {
    assert StackAt(w, span, maxGram, right, stack, k) && StackAt(w, span, maxGram, right, stack, k - 1);
  }

  /** Retire the entries as heavy as `right`, then push it. */
  method RetireEquals(w: seq<int>, span: nat, maxGram: nat, right: nat, ghost before: seq<nat>, kept: seq<nat>)
    returns (stack: seq<nat>)
    requires right < |w| && Stacked(w, span, maxGram, right, before)
    requires kept <= before && Settled(w, span, maxGram, right, before, |kept|)
    requires forall k :: 0 <= k < |before| ==> before[k] < right
    requires kept != [] ==> w[kept[|kept| - 1]] >= w[right]
    ensures Stacked(w, span, maxGram, right + 1, stack) && 0 < |stack| <= |kept| + 1
  {
    hide Stacked, Settled;
    stack := kept;
    while stack != [] && w[stack[|stack| - 1]] == w[right]
      invariant stack <= kept && Settled(w, span, maxGram, right, before, |stack|)
      invariant stack != [] ==> w[stack[|stack| - 1]] >= w[right]
    {
      SettleOne(w, span, maxGram, right, before, |stack|);
      if |stack| > 1 {
        HeavierBelow(w, span, maxGram, right, before, |stack| - 1);
      }
      stack := stack[..|stack| - 1];
    }
    Push(w, span, maxGram, right, before, |stack|);
    assert stack == before[..|stack|];
    stack := stack + [right];
  }

  /** The grams that end with window `right`, and the stack after it. */
  method ExtractWindow(w: seq<int>, span: nat, maxGram: nat, right: nat, before: seq<nat>, sofar: seq<Range>)
    returns (stack: seq<nat>, emitted: seq<Range>)
    requires right < |w| && Stacked(w, span, maxGram, right, before)
    ensures Stacked(w, span, maxGram, right + 1, stack) && |stack| > 0
    ensures emitted == sofar + GramsFrom(w, span, maxGram, 0, right)
    ensures |emitted| + |stack| <= |sofar| + |before| + 2
    ensures before == [] ==> |emitted| + |stack| <= |sofar| + 1
  {
    hide Stacked, GramsFrom, Settled, Popped;
    ghost var m: nat;
    stack, emitted, m := PopLighter(w, span, maxGram, right, before, sofar);
    ghost var low := Low(before, m, right);
    if stack != [] && right + span - stack[|stack| - 1] <= maxGram {
      TopPairs(w, span, maxGram, right, before, m, low);
      BelowHeavy(w, span, maxGram, right, before, m);
      ConcatAssociates(sofar, GramsFrom(w, span, maxGram, low, right), [Range(stack[|stack| - 1], right + span)]);
      emitted := emitted + [Range(stack[|stack| - 1], right + span)];
    } else {
      BelowHasNoGram(w, span, maxGram, right, before, m, low);
      if stack == [] && m > 0 {
        SettleAll(w, span, maxGram, right, before, m);
      }
    }
    stack := RetireEquals(w, span, maxGram, right, before, stack);
  }
}

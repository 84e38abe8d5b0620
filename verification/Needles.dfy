/** From text to gram keys: the grams of a folded text, the grams a needle probes, and why every text holding the needle
    holds their keys. */
module Needles {
  import opened Common
  import opened SparseGrams

  /** A folded text, by codepoint. */
  type Text = seq<nat>

  /** `minGram` equals `maxGram` for an ngram index. */
  datatype Options = Options(sparse: bool, minGram: nat, maxGram: nat)

  const MAX_SPARSE_GRAM := 64

  predicate ValidOptions(o: Options) {
    if o.sparse then 3 <= o.minGram <= o.maxGram <= MAX_SPARSE_GRAM else 1 <= o.minGram == o.maxGram
  }

  /** The storage format's functions of a gram's or window's text. */
  datatype Hashing = Hashing(weight: Text -> int, packed: Text -> int, bucket: Text -> int)

  /** Case folding is per codepoint. */
  function Fold(fold: nat -> nat, raw: Text): (r: Text)
    ensures |r| == |raw|
  {
    seq(|raw|, i requires 0 <= i < |raw| => fold(raw[i]))
  }

  function Span(o: Options): nat
    requires ValidOptions(o)
  {
    o.minGram - 1
  }

  /** The weights of a text's windows of minGram - 1 codepoints. */
  function Weights(o: Options, h: Hashing, text: Text): (w: seq<int>)
    requires ValidOptions(o) && |text| >= o.minGram
    ensures |w| == |text| - Span(o) + 1
    ensures forall i :: 0 <= i < |w| ==> w[i] == h.weight(text[i..i + Span(o)])
  {
    seq(|text| - Span(o) + 1, i requires 0 <= i <= |text| - Span(o) => h.weight(text[i..i + Span(o)]))
  }

  function Windows(n: nat, size: nat): seq<Range>
    requires size > 0
  {
    if n < size then [] else Windows(n - 1, size) + [Range(n - size, n)]
  }

  /** Every gram of a text, in arrival order. */
  function GramsOf(o: Options, h: Hashing, text: Text): seq<Range>
    requires ValidOptions(o)
  {
    if |text| < o.minGram then []
    else if !o.sparse then Windows(|text|, o.minGram)
    else Grams(Weights(o, h, text), Span(o), o.maxGram, |Weights(o, h, text)|)
  }

  lemma {:induction false} InWindows(n: nat, size: nat, g: Range)
    requires size > 0
    ensures g in Windows(n, size) <==> g.end <= n && g.end == g.first + size
  {
    if n >= size {
      InWindows(n - 1, size, g);
    }
  }

  /** A range of `text` is one of its grams. */
  predicate IsGram(o: Options, h: Hashing, text: Text, g: Range)
    requires ValidOptions(o)
  {
    && g.first + o.minGram <= g.end <= |text|
    && if o.sparse then Gram(Weights(o, h, text), Span(o), o.maxGram, g.first, g.end - Span(o))
         else g.end == g.first + o.minGram
  }

  lemma InGramsOf(o: Options, h: Hashing, text: Text, g: Range)
    requires ValidOptions(o)
    ensures g in GramsOf(o, h, text) <==> IsGram(o, h, text, g)
  {
    hide Lighter, Grams;
    if |text| >= o.minGram {
      if o.sparse {
        InGrams(Weights(o, h, text), Span(o), o.maxGram, |text| - Span(o) + 1, g);
      } else {
        InWindows(|text|, o.minGram, g);
      }
    }
  }

  /** A text has grams exactly when it has minGram codepoints. */
  lemma HasGrams(o: Options, h: Hashing, text: Text)
    requires ValidOptions(o)
    ensures GramsOf(o, h, text) == [] <==> |text| < o.minGram
  {
    hide GramsOf;
    if |text| >= o.minGram {
      var g := Range(0, o.minGram);
      if o.sparse {
        AdjacentPair(Weights(o, h, text), 0);
      }
      InGramsOf(o, h, text, g);
    } else if GramsOf(o, h, text) != [] {
      InGramsOf(o, h, text, GramsOf(o, h, text)[0]);
    }
  }

  // ---------------------------------------------------------------------------------------------------------------
  // Keys

  function GramText(text: Text, g: Range): Text
    requires g.first <= g.end <= |text|
  {
    text[g.first..g.end]
  }

  /** Grams of minGram codepoints keep their own key; a sparse index buckets longer ones. */
  function TokenizedGramKey(o: Options, h: Hashing, text: Text, g: Range): int
    requires g.first <= g.end <= |text|
  {
    if !o.sparse || g.end - g.first == o.minGram then h.packed(GramText(text, g)) else h.bucket(GramText(text, g))
  }

  /** The index posts a row under this key. */
  ghost predicate HasKey(o: Options, h: Hashing, text: Text, key: int)
    requires ValidOptions(o)
  {
    exists g :: IsGram(o, h, text, g) && TokenizedGramKey(o, h, text, g) == key
  }

  /** The key of one of the text's windows of minGram codepoints. */
  ghost predicate HasWindowKey(h: Hashing, minGram: nat, text: Text, key: int) {
    exists g: Range :: g.first + minGram == g.end <= |text| && h.packed(GramText(text, g)) == key
  }

  /** The bucket of one of the text's longer sparse grams. */
  ghost predicate HasBucket(o: Options, h: Hashing, text: Text, key: int)
    requires ValidOptions(o)
  {
    o.sparse && exists g :: IsGram(o, h, text, g) && g.end - g.first > o.minGram && h.bucket(GramText(text, g)) == key
  }

  /** The keys of a text: exactly those of its windows of minGram codepoints, and the buckets of its longer grams. */
  lemma KeysOfText(o: Options, h: Hashing, text: Text, key: int)
    requires ValidOptions(o)
    ensures HasKey(o, h, text, key) <==> HasWindowKey(h, o.minGram, text, key) || HasBucket(o, h, text, key)
  {
    hide Pair, Weights;
    if HasKey(o, h, text, key) {
      var g :| IsGram(o, h, text, g) && TokenizedGramKey(o, h, text, g) == key;
    }
    if HasWindowKey(h, o.minGram, text, key) {
      var g: Range :| g.first + o.minGram == g.end <= |text| && h.packed(GramText(text, g)) == key;
      WindowIsGram(o, h, text, g);
      assert TokenizedGramKey(o, h, text, g) == key;
    }
    if HasBucket(o, h, text, key) {
      var g :| IsGram(o, h, text, g) && g.end - g.first > o.minGram && h.bucket(GramText(text, g)) == key;
      assert TokenizedGramKey(o, h, text, g) == key;
    }
  }

  lemma WindowIsGram(o: Options, h: Hashing, text: Text, g: Range)
    requires ValidOptions(o) && g.first + o.minGram == g.end <= |text|
    ensures IsGram(o, h, text, g)
  {
    if o.sparse {
      AdjacentPair(Weights(o, h, text), g.first);
    }
  }

  /** Every key an ngram index of the same gram size posts for a text, a sparse index posts too. */
  lemma SparseHoldsNgramKeys(o: Options, h: Hashing, text: Text, key: int)
    requires ValidOptions(o)
    ensures HasKey(Options(false, o.minGram, o.minGram), h, text, key) ==> HasKey(o, h, text, key)
  {
    hide HasKey, HasWindowKey, HasBucket;
    KeysOfText(o, h, text, key);
    KeysOfText(Options(false, o.minGram, o.minGram), h, text, key);
    NgramHasNoBuckets(o.minGram, h, text, key);
  }

  lemma NgramHasNoBuckets(minGram: nat, h: Hashing, text: Text, key: int)
    requires minGram > 0
    ensures !HasBucket(Options(false, minGram, minGram), h, text, key)
  {
  }

  /** `needle` occurs in `text` at codepoint `at`. */
  predicate OccursAt(needle: Text, text: Text, at: nat) {
    at + |needle| <= |text| && text[at..at + |needle|] == needle
  }

  ghost predicate Occurs(needle: Text, text: Text) {
    exists at :: OccursAt(needle, text, at)
  }

  /** Folding keeps occurrences. */
  lemma FoldOccurs(fold: nat -> nat, needle: Text, text: Text)
    requires Occurs(needle, text)
    ensures Occurs(Fold(fold, needle), Fold(fold, text))
  {
    var at: nat :| OccursAt(needle, text, at);
    var fn, ft := Fold(fold, needle), Fold(fold, text);
    forall i | 0 <= i < |needle| ensures fn[i] == ft[at..at + |needle|][i] {
      assert needle[i] == text[at..at + |needle|][i];
    }
    assert OccursAt(fn, ft, at);
  }

  lemma SliceShift(needle: Text, text: Text, at: nat, lo: nat, hi: nat)
    requires OccursAt(needle, text, at) && lo <= hi <= |needle|
    ensures needle[lo..hi] == text[at + lo..at + hi]
  {
    SliceOfSlice(text, at, at + |needle|, lo, hi);
  }

  lemma SliceOfSlice(s: Text, a: nat, b: nat, lo: nat, hi: nat)
    requires a <= b <= |s| && lo <= hi <= b - a
    ensures s[a..b][lo..hi] == s[a + lo..a + hi]
  {
    var left, right := s[a..b][lo..hi], s[a + lo..a + hi];
    forall i | 0 <= i < hi - lo ensures left[i] == right[i] {
      assert left[i] == s[a..b][lo + i] == s[a + (lo + i)];
      assert right[i] == s[(a + lo) + i];
    }
  }

  lemma WeightsShift(o: Options, h: Hashing, needle: Text, text: Text, at: nat)
    requires ValidOptions(o) && OccursAt(needle, text, at) && |needle| >= o.minGram
    ensures forall i :: 0 <= i < |Weights(o, h, needle)| ==> Weights(o, h, needle)[i] == Weights(o, h, text)[at + i]
  {
    forall i | 0 <= i < |Weights(o, h, needle)|
      ensures Weights(o, h, needle)[i] == Weights(o, h, text)[at + i]
    {
      SliceShift(needle, text, at, i, i + Span(o));
    }
  }

  lemma PairShift(w: seq<int>, v: seq<int>, at: nat, left: int, right: int)
    requires at + |w| <= |v| && forall i :: 0 <= i < |w| ==> w[i] == v[at + i]
    requires Pair(w, left, right)
    ensures Pair(v, at + left, at + right)
  {
    forall j | at + left < j < at + right ensures v[j] < v[at + left] && v[j] < v[at + right] {
      assert v[j] == w[j - at] && v[at + left] == w[left] && v[at + right] == w[right];
    }
  }

  /** A needle's gram is a gram of every text that holds the needle, with the same key: weights and keys depend only on
      the codepoints they cover. */
  lemma GramOccurs(o: Options, h: Hashing, needle: Text, text: Text, at: nat, g: Range)
    requires ValidOptions(o) && OccursAt(needle, text, at) && IsGram(o, h, needle, g)
    ensures var moved := Range(at + g.first, at + g.end);
            IsGram(o, h, text, moved) && TokenizedGramKey(o, h, text, moved) == TokenizedGramKey(o, h, needle, g)
  {
    hide Pair;
    SliceShift(needle, text, at, g.first, g.end);
    if o.sparse {
      WeightsShift(o, h, needle, text, at);
      PairShift(Weights(o, h, needle), Weights(o, h, text), at, g.first, g.end - Span(o));
    }
  }

  lemma NeedleKeyOccurs(o: Options, h: Hashing, needle: Text, text: Text, key: int)
    requires ValidOptions(o) && Occurs(needle, text) && HasKey(o, h, needle, key)
    ensures HasKey(o, h, text, key)
  {
    hide Pair, OccursAt, Weights, GramText;
    var at: nat :| OccursAt(needle, text, at);
    var g :| IsGram(o, h, needle, g) && TokenizedGramKey(o, h, needle, g) == key;
    GramOccurs(o, h, needle, text, at, g);
  }

  // ---------------------------------------------------------------------------------------------------------------
  // The covering stack

  predicate Contains(outer: Range, inner: Range) {
    outer.first <= inner.first && inner.end <= outer.end
  }

  /** Grams arrive by end, shorter ones first. */
  predicate Arriving(grams: seq<Range>) {
    forall i, j :: 0 <= i < j < |grams| ==>
      grams[i].end < grams[j].end || (grams[i].end == grams[j].end && grams[j].first < grams[i].first)
  }

  lemma {:induction false} GramsFromArrive(w: seq<int>, span: nat, maxGram: nat, lo: nat, right: nat)
    ensures Arriving(GramsFrom(w, span, maxGram, lo, right))
    decreases right - lo
  {
    hide Gram;
    if lo < right {
      GramsFromArrive(w, span, maxGram, lo + 1, right);
      var rest := GramsFrom(w, span, maxGram, lo + 1, right);
      forall i | 0 <= i < |rest| ensures rest[i].end == right + span && lo < rest[i].first {
        InGramsFrom(w, span, maxGram, lo + 1, right, rest[i]);
      }
    }
  }

  lemma {:induction false} GramsArrive(w: seq<int>, span: nat, maxGram: nat, n: nat)
    requires n <= |w|
    ensures Arriving(Grams(w, span, maxGram, n))
  {
    hide Gram, GramsFrom;
    if n > 0 {
      GramsArrive(w, span, maxGram, n - 1);
      GramsFromArrive(w, span, maxGram, 0, n - 1);
      var before, latest := Grams(w, span, maxGram, n - 1), GramsFrom(w, span, maxGram, 0, n - 1);
      forall i | 0 <= i < |before| ensures before[i].end < n - 1 + span {
        InGrams(w, span, maxGram, n - 1, before[i]);
      }
      forall i | 0 <= i < |latest| ensures latest[i].end == n - 1 + span {
        InGramsFrom(w, span, maxGram, 0, n - 1, latest[i]);
      }
    }
  }

  predicate Rising(covering: seq<Range>) {
    forall i, j :: 0 <= i < j < |covering| ==>
        covering[i].first < covering[j].first && covering[i].end < covering[j].end
  }

  ghost predicate Held(covering: seq<Range>, g: Range) {
    exists k :: 0 <= k < |covering| && Contains(covering[k], g)
  }

  /** The grams of the first `n` arrivals that no other one contains, by first codepoint. */
  ghost predicate Maximal(grams: seq<Range>, n: nat, covering: seq<Range>)
    requires n <= |grams|
  {
    && Rising(covering)
    && (forall k :: 0 <= k < |covering| ==> covering[k] in grams[..n])
    && (forall i :: 0 <= i < n ==> Held(covering, grams[i]))
    && forall i, k :: 0 <= i < n && 0 <= k < |covering| && Contains(grams[i], covering[k]) ==> grams[i] == covering[k]
  }

  /** Retire what starts at or after the newcomer, then keep it. */
  method Cover(before: seq<Range>, g: Range) returns (covering: seq<Range>)
    requires Rising(before)
    ensures exists m :: 0 <= m <= |before| && covering == before[..m] + [g]
              && (m > 0 ==> before[m - 1].first < g.first)
                   && forall k :: m <= k < |before| ==> before[k].first >= g.first
  {
    covering := before;
    while covering != [] && covering[|covering| - 1].first >= g.first
      invariant covering <= before
      invariant forall k :: |covering| <= k < |before| ==> before[k].first >= g.first
    {
      covering := covering[..|covering| - 1];
    }
    assert covering == before[..|covering|];
    covering := covering + [g];
  }

  lemma CoverMaximal(grams: seq<Range>, n: nat, before: seq<Range>, m: nat)
    requires n < |grams| && Arriving(grams) && Maximal(grams, n, before) && m <= |before|
    requires m > 0 ==> before[m - 1].first < grams[n].first
    requires forall k :: m <= k < |before| ==> before[k].first >= grams[n].first
    ensures Maximal(grams, n + 1, before[..m] + [grams[n]])
  {
    hide Maximal, Held, Arriving;
    var g, after := grams[n], before[..m] + [grams[n]];
    CoverRises(grams, n, before, m);
    forall i | 0 <= i < n + 1 ensures Held(after, grams[i]) {
      CoverHolds(grams, n, before, m, i);
    }
    assert grams[..n + 1] == grams[..n] + [g];
    CoverMembers(grams, n, before, m);
    CoverLast(grams, n, before, m);
    assert Maximal(grams, n + 1, after) by { MaximalOf(grams, n + 1, after); }
  }

  lemma MaximalOf(grams: seq<Range>, n: nat, covering: seq<Range>)
    requires n <= |grams| && Rising(covering)
    requires forall k :: 0 <= k < |covering| ==> covering[k] in grams[..n]
    requires forall i :: 0 <= i < n ==> Held(covering, grams[i])
    requires forall i, k :: 0 <= i < n && 0 <= k < |covering| && Contains(grams[i], covering[k]) ==>
             grams[i] == covering[k]
    ensures Maximal(grams, n, covering)
  {
  }

  lemma Arrival(grams: seq<Range>, i: nat, n: nat)
    requires Arriving(grams) && i < n < |grams|
    ensures grams[i].end <= grams[n].end && (grams[i].end == grams[n].end ==> grams[n].first < grams[i].first)
  {
  }

  lemma MemberArrived(grams: seq<Range>, n: nat, before: seq<Range>, k: nat) returns (i: nat)
    requires n <= |grams| && Maximal(grams, n, before) && k < |before|
    ensures i < n && grams[i] == before[k]
  {
    hide Rising, Held, Contains;
    assert before[k] in grams[..n];
    i :| i < n && grams[i] == before[k];
  }

  lemma CoverRises(grams: seq<Range>, n: nat, before: seq<Range>, m: nat)
    requires n < |grams| && Arriving(grams) && Maximal(grams, n, before) && m <= |before|
    requires m > 0 ==> before[m - 1].first < grams[n].first
    ensures Rising(before[..m] + [grams[n]])
  {
    hide Arriving, Held;
    var after := before[..m] + [grams[n]];
    forall k | 0 <= k < m ensures after[k].first < grams[n].first && after[k].end < grams[n].end {
      assert k < m - 1 ==> before[k].first < before[m - 1].first;
      var i := MemberArrived(grams, n, before, k);
      Arrival(grams, i, n);
    }
    assert forall i, j :: 0 <= i < j < m ==> after[i] == before[i] && after[j] == before[j];
  }

  lemma CoverHolds(grams: seq<Range>, n: nat, before: seq<Range>, m: nat, i: nat)
    requires n < |grams| && Arriving(grams) && Maximal(grams, n, before) && m <= |before| && i <= n
    requires forall k :: m <= k < |before| ==> before[k].first >= grams[n].first
    ensures Held(before[..m] + [grams[n]], grams[i])
  {
    hide Arriving, Rising;
    var after := before[..m] + [grams[n]];
    if i == n {
      assert Contains(after[m], grams[n]);
    } else {
      assert Held(before, grams[i]);
      var k :| 0 <= k < |before| && Contains(before[k], grams[i]);
      if k < m {
        assert after[k] == before[k];
      } else {
        Arrival(grams, i, n);
        assert Contains(after[m], grams[i]);
      }
    }
  }

  lemma CoverMembers(grams: seq<Range>, n: nat, before: seq<Range>, m: nat)
    requires n < |grams| && Maximal(grams, n, before) && m <= |before|
    ensures forall k :: 0 <= k <= m ==> (before[..m] + [grams[n]])[k] in grams[..n + 1]
  {
    hide Rising, Held, Contains;
    assert grams[..n + 1] == grams[..n] + [grams[n]];
    assert forall k :: 0 <= k < m ==> before[k] in grams[..n];
  }

  lemma CoverLast(grams: seq<Range>, n: nat, before: seq<Range>, m: nat)
    requires n < |grams| && Arriving(grams) && Maximal(grams, n, before) && m <= |before|
    requires m > 0 ==> before[m - 1].first < grams[n].first
    ensures var after := before[..m] + [grams[n]];
            forall i, k :: 0 <= i <= n && 0 <= k <= m && Contains(grams[i], after[k]) ==> grams[i] == after[k]
  {
    hide Arriving, Held;
    var after := before[..m] + [grams[n]];
    forall i, k | 0 <= i <= n && 0 <= k <= m && Contains(grams[i], after[k]) ensures grams[i] == after[k] {
      if k < m {
        assert after[k] == before[k];
        assert k < m - 1 ==> before[k].first < before[m - 1].first;
      } else if i < n {
        Arrival(grams, i, n);
      }
    }
  }

  /** The covering stack ends with exactly the grams no other gram contains. */
  method CoveringGrams(grams: seq<Range>) returns (covering: seq<Range>)
    requires Arriving(grams)
    ensures Maximal(grams, |grams|, covering)
  {
    hide Maximal, Arriving;
    covering := [];
    assert Maximal(grams, 0, []) by { NoneMaximal(grams); }
    for n := 0 to |grams|
      invariant Maximal(grams, n, covering)
    {
      ghost var before := covering;
      assert Rising(before) by { MaximalRises(grams, n, before); }
      covering := Cover(covering, grams[n]);
      ghost var m :| 0 <= m <= |before| && covering == before[..m] + [grams[n]]
        && (m > 0 ==> before[m - 1].first < grams[n].first)
             && forall k :: m <= k < |before| ==> before[k].first >= grams[n].first;
      CoverMaximal(grams, n, before, m);
    }
  }

  lemma NoneMaximal(grams: seq<Range>)
    ensures Maximal(grams, 0, [])
  {
  }

  lemma MaximalRises(grams: seq<Range>, n: nat, covering: seq<Range>)
    requires n <= |grams| && Maximal(grams, n, covering)
    ensures Rising(covering)
  {
  }

  // ---------------------------------------------------------------------------------------------------------------
  // DecomposeNeedle

  function WithKey(keys: seq<int>, key: int): seq<int> {
    if key in keys then keys else keys + [key]
  }

  /** The distinct keys in first-occurrence order. */
  function WithKeys(keys: seq<int>, more: seq<int>): (r: seq<int>)
    ensures |r| >= |keys|
    ensures forall k :: k in r <==> k in keys || k in more
  {
    if more == [] then keys
    else
      assert forall k :: k in more <==> k in more[..|more| - 1] || k == more[|more| - 1];
      WithKey(WithKeys(keys, more[..|more| - 1]), more[|more| - 1])
  }

  /** Where a list of distinct keys comes from: each from its first occurrence, in order. */
  predicate FirstOccurrences(all: seq<int>, keys: seq<int>, at: seq<nat>) {
    && |at| == |keys| && (forall i, j :: 0 <= i < j < |at| ==> at[i] < at[j])
    && forall i :: 0 <= i < |at| ==> at[i] < |all| && all[at[i]] == keys[i] && keys[i] !in all[..at[i]]
  }

  /** The keys are distinct and in first-occurrence order, and none is missing. */
  lemma {:induction false} WithKeysInOrder(more: seq<int>) returns (at: seq<nat>)
    ensures FirstOccurrences(more, WithKeys([], more), at)
    ensures forall i, j :: 0 <= i < j < |WithKeys([], more)| ==> WithKeys([], more)[i] != WithKeys([], more)[j]
    ensures forall k :: k in WithKeys([], more) <==> k in more
  {
    if more == [] {
      at := [];
    } else {
      var front, key := more[..|more| - 1], more[|more| - 1];
      at := WithKeysInOrder(front);
      var keys := WithKeys([], front);
      assert more == front + [key];
      forall i | 0 <= i < |at| ensures more[at[i]] == keys[i] && more[..at[i]] == front[..at[i]] {
      }
      if key !in keys {
        at := at + [|front|];
      }
    }
  }

  lemma {:induction false} WithKeysGrows(keys: seq<int>, more: seq<int>, n: nat)
    requires n <= |more|
    ensures |WithKeys(keys, more[..n])| <= |WithKeys(keys, more)|
    decreases |more| - n
  {
    if n == |more| {
      assert more[..n] == more;
    } else {
      assert more[..n + 1][..n] == more[..n];
      WithKeysGrows(keys, more, n + 1);
    }
  }

  class NeedleKeys {
    var keys: seq<int>
    var seen: set<int>

    ghost predicate Valid()
      reads this
    {
      forall k :: k in seen <==> k in keys
    }

    constructor ()
      ensures Valid() && keys == []
    {
      keys, seen := [], {};
    }

    method Add(key: int, maxKeys: nat) returns (ok: bool)
      requires Valid()
      modifies this
      ensures Valid() && (ok <==> key in old(keys) || |old(keys)| < maxKeys)
      ensures keys == if ok then WithKey(old(keys), key) else old(keys)
    {
      if key in seen {
        return true;
      }
      if |keys| >= maxKeys {
        return false;
      }
      seen := seen + {key};
      keys := keys + [key];
      return true;
    }

    /** Add keys in order until one exceeds the budget. */
    method AddAll(more: seq<int>, maxKeys: nat) returns (ok: bool)
      requires Valid()
      modifies this
      ensures Valid()
      ensures ok ==> keys == WithKeys(old(keys), more) && |keys| <= Max(|old(keys)|, maxKeys)
      ensures !ok ==> |WithKeys(old(keys), more)| > maxKeys
    {
      hide WithKeys;
      assert WithKeys(keys, []) == keys by { NoKeys(keys); }
      for i := 0 to |more|
        invariant Valid() && keys == WithKeys(old(keys), more[..i]) && |keys| <= Max(|old(keys)|, maxKeys)
      {
        ok := Add(more[i], maxKeys);
        WithKeysStep(old(keys), more, i);
        if !ok {
          WithKeysGrows(old(keys), more, i + 1);
          return false;
        }
      }
      assert more[..|more|] == more;
      return true;
    }
  }

  lemma NoKeys(keys: seq<int>)
    ensures WithKeys(keys, []) == keys
  {
  }

  lemma WithKeysStep(keys: seq<int>, more: seq<int>, i: nat)
    requires i < |more|
    ensures WithKeys(keys, more[..i + 1]) == WithKey(WithKeys(keys, more[..i]), more[i])
  {
    assert more[..i + 1][..i] == more[..i];
  }

  datatype NeedleShape = Probeable | TooShort | OverBudget

  const NGRAM_NEEDLE_BYTES_PER_KEY := 16
  const SPARSE_NEEDLE_BYTES_PER_KEY := 4

  function BytesPerKey(o: Options): nat {
    if o.sparse then SPARSE_NEEDLE_BYTES_PER_KEY else NGRAM_NEEDLE_BYTES_PER_KEY
  }

  predicate AllGrams(o: Options, h: Hashing, text: Text, grams: seq<Range>)
    requires ValidOptions(o)
  {
    forall i :: 0 <= i < |grams| ==> IsGram(o, h, text, grams[i])
  }

  function KeysAt(o: Options, h: Hashing, text: Text, grams: seq<Range>): (r: seq<int>)
    requires ValidOptions(o) && AllGrams(o, h, text, grams)
    ensures |r| == |grams|
  {
    seq(|grams|, i requires 0 <= i < |grams| => TokenizedGramKey(o, h, text, grams[i]))
  }

  method ExtractWindows(n: nat, size: nat) returns (grams: seq<Range>)
    requires 0 < size <= n
    ensures grams == Windows(n, size)
  {
    grams := [];
    assert Windows(size - 1, size) == [];
    for i := 0 to n - size + 1
      invariant grams == Windows(i + size - 1, size)
    {
      grams := grams + [Range(i, i + size)];
    }
  }

  method ExtractGrams(o: Options, h: Hashing, text: Text) returns (grams: seq<Range>)
    requires ValidOptions(o)
    ensures grams == GramsOf(o, h, text)
  {
    hide Grams, Windows;
    if |text| < o.minGram {
      return [];
    }
    if !o.sparse {
      grams := ExtractWindows(|text|, o.minGram);
    } else {
      grams := SparseGrams.ExtractGramRanges(Weights(o, h, text), Span(o), o.maxGram);
    }
  }

  /** Which grams of a needle are probed: for an ngram index every one, for a sparse index only those no other
      contains. */
  ghost predicate Probes(o: Options, h: Hashing, needle: Text, probed: seq<Range>)
    requires ValidOptions(o)
  {
    if o.sparse then Maximal(GramsOf(o, h, needle), |GramsOf(o, h, needle)|, probed)
        else probed == GramsOf(o, h, needle)
  }

  lemma ProbesAreGrams(o: Options, h: Hashing, needle: Text, probed: seq<Range>)
    requires ValidOptions(o) && Probes(o, h, needle, probed)
    ensures AllGrams(o, h, needle, probed)
    ensures probed == [] <==> |needle| < o.minGram
  {
    hide GramsOf, Rising, IsGram;
    var grams := GramsOf(o, h, needle);
    assert grams[..|grams|] == grams;
    forall i | 0 <= i < |probed| ensures IsGram(o, h, needle, probed[i]) {
      InGramsOf(o, h, needle, probed[i]);
    }
    HasGrams(o, h, needle);
    assert grams != [] && o.sparse ==> Held(probed, grams[0]);
    assert probed != [] && o.sparse ==> probed[0] in grams[..|grams|];
  }

  lemma GramsOfArrive(o: Options, h: Hashing, text: Text)
    requires ValidOptions(o) && o.sparse
    ensures Arriving(GramsOf(o, h, text))
  {
    hide Grams;
    if |text| >= o.minGram {
      GramsArrive(Weights(o, h, text), Span(o), o.maxGram, |Weights(o, h, text)|);
    }
  }

  /** TOO_SHORT exactly below minGram codepoints; PROBEABLE adds the keys of the probed grams, each of which every text
      holding the needle also has; OVER_BUDGET when the bytes or the distinct keys exceed the budget. */
  method DecomposeNeedle(o: Options, h: Hashing, needle: Text, bytes: nat, maxKeys: nat, keys: NeedleKeys)
    returns (shape: NeedleShape, ghost probed: seq<Range>)
    requires ValidOptions(o) && keys.Valid()
    modifies keys
    ensures keys.Valid()
    ensures shape.TooShort? <==> bytes <= BytesPerKey(o) * maxKeys && |needle| < o.minGram
    ensures shape.TooShort? ==> keys.keys == old(keys.keys)
    ensures bytes > BytesPerKey(o) * maxKeys ==> shape.OverBudget?
    ensures shape.Probeable? ==> Probes(o, h, needle, probed) && probed != []
    ensures shape.Probeable? ==> |keys.keys| <= Max(|old(keys.keys)|, maxKeys)
    ensures shape.Probeable? ==>
            AllGrams(o, h, needle, probed) && keys.keys == WithKeys(old(keys.keys), KeysAt(o, h, needle, probed))
    ensures shape.OverBudget? && bytes <= BytesPerKey(o) * maxKeys ==>
              Probes(o, h, needle, probed) && (AllGrams(o, h, needle, probed))
              && |WithKeys(old(keys.keys), KeysAt(o, h, needle, probed))| > maxKeys
  {
    hide Probes, WithKeys, KeysAt, GramsOf, ValidOptions, AllGrams;
    probed := [];
    if bytes > BytesPerKey(o) * maxKeys {
      return OverBudget, probed;
    }
    var grams := ProbedGrams(o, h, needle);
    ProbesAreGrams(o, h, needle, grams);
    probed := grams;
    if grams == [] {
      return TooShort, probed;
    }
    var ok := keys.AddAll(KeysAt(o, h, needle, grams), maxKeys);
    shape := if ok then Probeable else OverBudget;
  }

  method ProbedGrams(o: Options, h: Hashing, needle: Text) returns (probed: seq<Range>)
    requires ValidOptions(o)
    ensures Probes(o, h, needle, probed)
  {
    hide Maximal, GramsOf, ValidOptions;
    probed := ExtractGrams(o, h, needle);
    if o.sparse {
      GramsOfArrive(o, h, needle);
      probed := CoveringGrams(probed);
    }
  }

  /** What lies inside a gram is the same gram of its text alone. */
  lemma GramInside(o: Options, h: Hashing, needle: Text, outer: Range, g: Range)
    requires ValidOptions(o) && IsGram(o, h, needle, g) && Contains(outer, g) && outer.end <= |needle|
    ensures var moved, inner := Range(g.first - outer.first, g.end - outer.first), GramText(needle, outer);
            IsGram(o, h, inner, moved) && TokenizedGramKey(o, h, inner, moved) == TokenizedGramKey(o, h, needle, g)
  {
    hide Pair, Weights;
    var inner := GramText(needle, outer);
    assert OccursAt(inner, needle, outer.first);
    SliceShift(inner, needle, outer.first, g.first - outer.first, g.end - outer.first);
    if o.sparse {
      WeightsShift(o, h, inner, needle, outer.first);
      PairBack(Weights(o, h, inner), Weights(o, h, needle), outer.first, g.first - outer.first,
               g.end - Span(o) - outer.first);
    }
  }

  lemma PairBack(w: seq<int>, v: seq<int>, at: nat, left: int, right: int)
    requires at + |w| <= |v| && forall i :: 0 <= i < |w| ==> w[i] == v[at + i]
    requires 0 <= left < right < |w| && Pair(v, at + left, at + right)
    ensures Pair(w, left, right)
  {
    forall j | left < j < right ensures w[j] < w[left] && w[j] < w[right] {
      assert w[j] == v[at + j] && w[left] == v[at + left] && w[right] == v[at + right];
    }
  }

  /** Probing only the covering grams loses nothing: a text that contains each of theirs has every gram's key. */
  lemma CoveringLosesNothing(o: Options, h: Hashing, needle: Text, probed: seq<Range>, text: Text, g: Range)
    requires ValidOptions(o) && Probes(o, h, needle, probed) && AllGrams(o, h, needle, probed)
    requires forall k :: 0 <= k < |probed| ==> Occurs(GramText(needle, probed[k]), text)
    requires IsGram(o, h, needle, g)
    ensures HasKey(o, h, text, TokenizedGramKey(o, h, needle, g))
  {
    hide Pair, Weights, Occurs, GramText, HasKey, Rising, GramsOf;
    var k := CoveredBy(o, h, needle, probed, g);
    assert IsGram(o, h, needle, probed[k]);
    GramInside(o, h, needle, probed[k], g);
    var inner, moved := GramText(needle, probed[k]), Range(g.first - probed[k].first, g.end - probed[k].first);
    assert HasKey(o, h, inner, TokenizedGramKey(o, h, inner, moved)) by { IsKeyed(o, h, inner, moved); }
    NeedleKeyOccurs(o, h, inner, text, TokenizedGramKey(o, h, inner, moved));
  }

  lemma IsKeyed(o: Options, h: Hashing, text: Text, g: Range)
    requires ValidOptions(o) && IsGram(o, h, text, g)
    ensures HasKey(o, h, text, TokenizedGramKey(o, h, text, g))
  {
    hide Pair, Weights;
  }

  lemma CoveredBy(o: Options, h: Hashing, needle: Text, probed: seq<Range>, g: Range) returns (k: nat)
    requires ValidOptions(o) && Probes(o, h, needle, probed) && IsGram(o, h, needle, g)
    ensures k < |probed| && Contains(probed[k], g)
  {
    hide GramsOf, Rising, IsGram;
    InGramsOf(o, h, needle, g);
    var grams := GramsOf(o, h, needle);
    var i :| 0 <= i < |grams| && grams[i] == g;
    if o.sparse {
      assert Held(probed, grams[i]);
      k :| k < |probed| && Contains(probed[k], g);
    } else {
      k := i;
    }
  }

  /** A key the decomposition added is a key of every text that holds the needle. */
  lemma ProbedKeysOccur(o: Options, h: Hashing, needle: Text, text: Text, probed: seq<Range>, before: seq<int>,
                        key: int)
    requires ValidOptions(o) && Occurs(needle, text)
    requires AllGrams(o, h, needle, probed)
    requires key in WithKeys(before, KeysAt(o, h, needle, probed)) && key !in before
    ensures HasKey(o, h, text, key)
  {
    hide Pair, Weights, Occurs, GramText, WithKeys;
    var keys := KeysAt(o, h, needle, probed);
    var i :| 0 <= i < |keys| && keys[i] == key;
    assert IsGram(o, h, needle, probed[i]) && TokenizedGramKey(o, h, needle, probed[i]) == key;
    NeedleKeyOccurs(o, h, needle, text, key);
  }
}

/** The standard algorithms the probes use on sorted lists: stable order by count, intersection, lower bound. */
module SortedLists {
  import opened Common

  // ---------------------------------------------------------------------------------------------------------------
  // Order by count

  /** Indexes ordered by count, equal counts by index. */
  predicate Precedes(counts: seq<nat>, i: nat, j: nat)
    requires i < |counts| && j < |counts|
  {
    counts[i] < counts[j] || (counts[i] == counts[j] && i < j)
  }

  predicate InOrder(counts: seq<nat>, order: seq<nat>) {
    && (forall i :: 0 <= i < |order| ==> order[i] < |counts|)
    && forall i, j :: 0 <= i < j < |order| ==> Precedes(counts, order[i], order[j])
  }

  /** Where stable sorting puts index n among smaller ones. */
  function InsertIndex(counts: seq<nat>, order: seq<nat>, n: nat): (r: seq<nat>)
    requires n < |counts| && InOrder(counts, order) && forall i :: 0 <= i < |order| ==> order[i] < n
    ensures InOrder(counts, r) && |r| == |order| + 1
    ensures forall x :: x in r <==> x in order || x == n
  {
    if order == [] then [n]
    else
      var front, last := order[..|order| - 1], order[|order| - 1];
      assert forall x :: x in order <==> x in front || x == last;
      if counts[last] <= counts[n] then order + [n]
      else
        var r := InsertIndex(counts, front, n);
        assert forall i :: 0 <= i < |r| ==> r[i] in r;
        r + [last]
  }

  /** The indexes below n, stably sorted by count. */
  function StableOrder(counts: seq<nat>, n: nat): (r: seq<nat>)
    requires n <= |counts|
    ensures InOrder(counts, r) && |r| == n
    ensures forall x: nat :: x in r <==> x < n
  {
    if n == 0 then []
    else
      var before := StableOrder(counts, n - 1);
      assert forall i :: 0 <= i < |before| ==> before[i] in before;
      InsertIndex(counts, before, n - 1)
  }

  /** The counts along an order, summed. */
  function SumAt(counts: seq<nat>, order: seq<nat>): nat {
    if order == [] then 0
    else SumAt(counts, order[..|order| - 1]) + if order[|order| - 1] < |counts| then counts[order[|order| - 1]] else 0
  }

  function Sum(counts: seq<nat>): nat {
    if counts == [] then 0 else Sum(counts[..|counts| - 1]) + counts[|counts| - 1]
  }

  lemma {:induction false} InsertSum(counts: seq<nat>, order: seq<nat>, n: nat)
    requires n < |counts| && InOrder(counts, order) && forall i :: 0 <= i < |order| ==> order[i] < n
    ensures SumAt(counts, InsertIndex(counts, order, n)) == SumAt(counts, order) + counts[n]
  {
    if order == [] {
      assert [n][..0] == [];
    } else {
      var front, last := order[..|order| - 1], order[|order| - 1];
      if counts[last] <= counts[n] {
        assert (order + [n])[..|order|] == order;
      } else {
        InsertSum(counts, front, n);
        var r := InsertIndex(counts, front, n);
        assert (r + [last])[..|r|] == r;
      }
    }
  }

  lemma StableOrderStep(counts: seq<nat>, n: nat)
    requires n < |counts|
    ensures forall i :: 0 <= i < |StableOrder(counts, n)| ==> StableOrder(counts, n)[i] < n
    ensures StableOrder(counts, n + 1) == InsertIndex(counts, StableOrder(counts, n), n)
  {
    hide InsertIndex, InOrder;
    var before := StableOrder(counts, n);
    assert forall i :: 0 <= i < |before| ==> before[i] in before;
  }

  /** Sorting by count changes no total. */
  lemma {:induction false} StableOrderSum(counts: seq<nat>, n: nat)
    requires n <= |counts|
    ensures SumAt(counts, StableOrder(counts, n)) == Sum(counts[..n])
  {
    hide StableOrder, InsertIndex, InOrder, SumAt, Sum;
    if n > 0 {
      StableOrderSum(counts, n - 1);
      StableOrderStep(counts, n - 1);
      InsertSum(counts, StableOrder(counts, n - 1), n - 1);
      SumStep(counts, n - 1);
    } else {
      NoSum(counts);
    }
  }

  lemma SumStep(counts: seq<nat>, n: nat)
    requires n < |counts|
    ensures Sum(counts[..n + 1]) == Sum(counts[..n]) + counts[n]
  {
    assert counts[..n + 1][..n] == counts[..n];
  }

  lemma NoSum(counts: seq<nat>)
    ensures SumAt(counts, StableOrder(counts, 0)) == Sum(counts[..0])
  {
  }

  // ---------------------------------------------------------------------------------------------------------------
  // Intersection

  /** The elements two ascending lists share, by advancing whichever is behind. */
  method SetIntersection(a: seq<int>, b: seq<int>) returns (r: seq<int>)
    requires Ascending(a) && Ascending(b)
    ensures Ascending(r) && |r| <= |a| && |r| <= |b|
    ensures forall x :: x in r <==> x in a && x in b
  {
    r := [];
    var i, j := 0, 0;
    while i < |a| && j < |b|
      invariant 0 <= i <= |a| && 0 <= j <= |b| && |r| <= i && |r| <= j
      invariant Ascending(r)
      invariant forall x :: x in r <==> x in a[..i] && x in b[..j]
      invariant i < |a| ==> forall k :: 0 <= k < j ==> b[k] < a[i]
      invariant j < |b| ==> forall k :: 0 <= k < i ==> a[k] < b[j]
    {
      Behind(a, b, i, j);
      if a[i] < b[j] {
        i := i + 1;
      } else if b[j] < a[i] {
        j := j + 1;
      } else {
        AppendCommon(a, b, i, j, r);
        r := r + [a[i]];
        i, j := i + 1, j + 1;
      }
    }
    NothingLeft(a, b, i, j, r);
  }

  lemma Behind(a: seq<int>, b: seq<int>, i: nat, j: nat)
    requires Ascending(a) && Ascending(b) && i < |a| && j < |b|
    requires (forall k :: 0 <= k < j ==> b[k] < a[i]) && (forall k :: 0 <= k < i ==> a[k] < b[j])
    ensures a[..i + 1] == a[..i] + [a[i]] && b[..j + 1] == b[..j] + [b[j]]
    ensures a[i] !in b[..j] && b[j] !in a[..i]
  {
  }

  lemma AppendCommon(a: seq<int>, b: seq<int>, i: nat, j: nat, r: seq<int>)
    requires Ascending(a) && Ascending(r) && i < |a| && j < |b| && a[i] == b[j]
    requires forall x :: x in r ==> x in a[..i]
    ensures Ascending(r + [a[i]])
  {
    forall k | 0 <= k < |r| ensures r[k] < a[i] {
      assert r[k] in r;
    }
  }

  lemma NothingLeft(a: seq<int>, b: seq<int>, i: nat, j: nat, r: seq<int>)
    requires Ascending(a) && Ascending(b) && i <= |a| && j <= |b| && (i == |a| || j == |b|)
    requires forall x :: x in r <==> x in a[..i] && x in b[..j]
    requires i < |a| ==> forall k :: 0 <= k < j ==> b[k] < a[i]
    requires j < |b| ==> forall k :: 0 <= k < i ==> a[k] < b[j]
    ensures forall x :: x in r <==> x in a && x in b
  {
    forall x ensures x in r <==> x in a && x in b {
      if x in a && x in b {
        var k :| 0 <= k < |a| && a[k] == x;
        var l :| 0 <= l < |b| && b[l] == x;
        if i < |a| {
          assert b[l] < a[i];
        }
        if j < |b| {
          assert a[k] < b[j];
        }
        assert x == a[..i][k] && x == b[..j][l];
      }
    }
  }

  // ---------------------------------------------------------------------------------------------------------------
  // Lower bound

  /** The first position from `from` on whose element is at least `x`, by bisection. */
  method LowerBound(a: seq<int>, from: nat, x: int) returns (r: nat)
    requires Ascending(a) && from <= |a|
    ensures from <= r <= |a|
    ensures forall i :: from <= i < r ==> a[i] < x
    ensures forall i :: r <= i < |a| ==> a[i] >= x
  {
    var lo: nat, hi: nat := from, |a|;
    while lo < hi
      invariant from <= lo <= hi <= |a|
      invariant forall i :: from <= i < lo ==> a[i] < x
      invariant forall i :: hi <= i < |a| ==> a[i] >= x
    {
      var mid := (lo + hi) / 2;
      if a[mid] < x {
        lo := mid + 1;
      } else {
        hi := mid;
      }
    }
    r := lo;
  }

  // ---------------------------------------------------------------------------------------------------------------
  // The rarest grams

  /** The maxGrams keys with the fewest postings, equal counts in their given order: no key left out has fewer than one
      taken. */
  method SelectRarestGrams(keys: seq<int>, counts: seq<nat>, maxGrams: nat) returns (chosen: seq<int>, order: seq<nat>)
    requires |keys| == |counts|
    ensures |chosen| == |order| == Min(|keys|, maxGrams) && InOrder(counts, order)
    ensures forall i :: 0 <= i < |order| ==> order[i] < |keys| && chosen[i] == keys[order[i]]
    ensures forall i, j: nat :: 0 <= i < |order| && j < |keys| && j !in order ==> Precedes(counts, order[i], j)
  {
    var all := StableOrder(counts, |counts|);
    order := all[..Min(|keys|, maxGrams)];
    chosen := [];
    for i := 0 to |order|
      invariant |chosen| == i && forall j :: 0 <= j < i ==> chosen[j] == keys[order[j]]
    {
      chosen := chosen + [keys[order[i]]];
    }
    forall i, j: nat | 0 <= i < |order| && j < |keys| && j !in order ensures Precedes(counts, order[i], j) {
      assert j in all;
      var k :| 0 <= k < |all| && all[k] == j;
      assert all[k] in order || k >= |order|;
    }
  }
}

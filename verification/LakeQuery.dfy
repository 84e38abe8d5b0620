/** A DuckLake probe's candidates: intersecting postings segment by segment, and the predicate the scan filters with. */
module LakeQuery {
  import opened Common
  import opened SortedLists

  /** A segments-table row whose blob decodes to `rowids`. */
  datatype PostingRow = PostingRow(key: int, segment: int, rowids: seq<int>)

  /** A segment's rows under each chosen key, by position in the key list. */
  type ByKey = seq<seq<nat>>

  predicate RowAt(rows: seq<PostingRow>, i: nat, key: int, segment: int) {
    i < |rows| && rows[i].key == key && rows[i].segment == segment
  }

  /** `key` posts x within `segment`. */
  ghost predicate PostedIn(rows: seq<PostingRow>, key: int, segment: int, x: int) {
    exists i: nat :: RowAt(rows, i, key, segment) && x in rows[i].rowids
  }

  /** Every chosen key posts x within `segment`. */
  ghost predicate AllPost(rows: seq<PostingRow>, chosen: seq<int>, segment: int, x: int) {
    forall k :: 0 <= k < |chosen| ==> PostedIn(rows, chosen[k], segment, x)
  }

  function Position(chosen: seq<int>, key: int): (r: nat)
    ensures r <= |chosen| && (r < |chosen| ==> chosen[r] == key)
    ensures forall i :: 0 <= i < r ==> chosen[i] != key
  {
    if chosen == [] then 0 else if chosen[0] == key then 0 else 1 + Position(chosen[1..], key)
  }

  predicate Distinct(chosen: seq<int>) {
    forall i, j :: 0 <= i < j < |chosen| ==> chosen[i] != chosen[j]
  }

  /** The buckets of the first n rows: a row of a chosen key is in its segment's list for that key, and nowhere else. */
  ghost predicate Bucketed(rows: seq<PostingRow>, n: nat, chosen: seq<int>, segments: map<int, ByKey>)
    requires n <= |rows|
  {
    && (forall s :: s in segments ==> |segments[s]| == |chosen|)
    && (forall s, k, i :: s in segments && 0 <= k < |chosen| && i in segments[s][k] ==>
         i < n && RowAt(rows, i, chosen[k], s))
    && (forall i :: 0 <= i < n && rows[i].key in chosen ==>
          rows[i].segment in segments && i in segments[rows[i].segment][Position(chosen, rows[i].key)])
  }

  function Empty(n: nat): (r: ByKey)
    ensures |r| == n && forall k :: 0 <= k < n ==> r[k] == []
  {
    seq(n, _ => [])
  }

  lemma InChosen(chosen: seq<int>, key: int)
    ensures key in chosen <==> Position(chosen, key) < |chosen|
  {
  }

  method Bucket(rows: seq<PostingRow>, chosen: seq<int>) returns (segments: map<int, ByKey>)
    ensures Bucketed(rows, |rows|, chosen, segments)
  {
    hide Bucketed;
    segments := map[];
    assert Bucketed(rows, 0, chosen, segments) by { NoBuckets(rows, chosen); }
    for n := 0 to |rows|
      invariant Bucketed(rows, n, chosen, segments)
    {
      var row := rows[n];
      var position := Position(chosen, row.key);
      InChosen(chosen, row.key);
      AddRow(rows, n, chosen, segments);
      if position < |chosen| {
        var byKey := if row.segment in segments then segments[row.segment] else Empty(|chosen|);
        assert |byKey| == |chosen| by { BucketSize(rows, n, chosen, segments, row.segment); }
        segments := segments[row.segment := byKey[position := byKey[position] + [n]]];
      }
    }
  }

  lemma NoBuckets(rows: seq<PostingRow>, chosen: seq<int>)
    ensures Bucketed(rows, 0, chosen, map[])
  {
  }

  lemma BucketSize(rows: seq<PostingRow>, n: nat, chosen: seq<int>, segments: map<int, ByKey>, s: int)
    requires n <= |rows| && Bucketed(rows, n, chosen, segments)
    ensures s in segments ==> |segments[s]| == |chosen|
  {
  }

  lemma AddRow(rows: seq<PostingRow>, n: nat, chosen: seq<int>, segments: map<int, ByKey>)
    requires n < |rows| && Bucketed(rows, n, chosen, segments)
    ensures Position(chosen, rows[n].key) == |chosen| ==> Bucketed(rows, n + 1, chosen, segments)
    ensures Position(chosen, rows[n].key) < |chosen| ==>
              var byKey := if rows[n].segment in segments then segments[rows[n].segment] else Empty(|chosen|);
              var position := Position(chosen, rows[n].key);
              |byKey| == |chosen| &&
              Bucketed(rows, n + 1, chosen, segments[rows[n].segment := byKey[position := byKey[position] + [n]]])
  {
    InChosen(chosen, rows[n].key);
  }

  /** What a segment's list for one key posts. */
  ghost predicate ListPosts(rows: seq<PostingRow>, list: seq<nat>, x: int) {
    exists i :: i in list && i < |rows| && x in rows[i].rowids
  }

  lemma ListIsKey(rows: seq<PostingRow>, chosen: seq<int>, segments: map<int, ByKey>, s: int, k: nat, x: int)
    requires Bucketed(rows, |rows|, chosen, segments) && Distinct(chosen) && s in segments && k < |chosen|
    ensures |segments[s]| == |chosen| && (ListPosts(rows, segments[s][k], x) <==> PostedIn(rows, chosen[k], s, x))
  {
    if PostedIn(rows, chosen[k], s, x) {
      var i: nat :| RowAt(rows, i, chosen[k], s) && x in rows[i].rowids;
      assert Position(chosen, chosen[k]) == k;
    }
    if ListPosts(rows, segments[s][k], x) {
      var i :| i in segments[s][k] && i < |rows| && x in rows[i].rowids;
      assert RowAt(rows, i, chosen[k], s);
    }
  }

  /** One key's generations united, sorted, repeats erased. */
  method Union(rows: seq<PostingRow>, list: seq<nat>) returns (decoded: seq<int>)
    requires forall i :: 0 <= i < |list| ==> list[i] < |rows|
    ensures Ascending(decoded) && forall x :: x in decoded <==> ListPosts(rows, list, x)
  {
    hide SortUnique;
    var all: seq<int> := [];
    for j := 0 to |list|
      invariant forall x :: x in all <==> ListPosts(rows, list[..j], x)
    {
      UnionStep(rows, list, j);
      all := all + rows[list[j]].rowids;
    }
    assert list[..|list|] == list;
    decoded := SortUnique(all);
  }

  lemma UnionStep(rows: seq<PostingRow>, list: seq<nat>, j: nat)
    requires j < |list| && forall i :: 0 <= i < |list| ==> list[i] < |rows|
    ensures forall x :: ListPosts(rows, list[..j + 1], x) <==>
            ListPosts(rows, list[..j], x) || x in rows[list[j]].rowids
  {
    assert list[..j + 1] == list[..j] + [list[j]];
    forall x ensures ListPosts(rows, list[..j + 1], x) <==> ListPosts(rows, list[..j], x) || x in rows[list[j]].rowids {
      if ListPosts(rows, list[..j], x) {
        var i :| i in list[..j] && i < |rows| && x in rows[i].rowids;
        assert i in list[..j + 1];
      }
      if x in rows[list[j]].rowids {
        assert list[j] in list[..j + 1];
      }
    }
  }

  function Counts(rows: seq<PostingRow>, byKey: ByKey, n: nat): (r: seq<nat>)
    requires n <= |byKey|
    ensures |r| == n
  {
    if n == 0 then [] else Counts(rows, byKey, n - 1) + [CountOf(rows, byKey[n - 1])]
  }

  function CountOf(rows: seq<PostingRow>, list: seq<nat>): nat {
    if list == [] then 0
    else CountOf(rows, list[..|list| - 1]) + (if list[|list| - 1] < |rows| then |rows[list[|list| - 1]].rowids| else 0)
  }

  /** Every one of the first n lists of `order` posts x. */
  ghost predicate AllListsPost(rows: seq<PostingRow>, byKey: ByKey, order: seq<nat>, n: nat, x: int)
    requires n <= |order|
  {
    forall step :: 0 <= step < n ==> order[step] < |byKey| && ListPosts(rows, byKey[order[step]], x)
  }

  /** The lists intersected smallest first; an empty intersection ends the segment. */
  method IntersectSegment(rows: seq<PostingRow>, byKey: ByKey) returns (current: seq<int>)
    requires byKey != [] && forall k, i :: 0 <= k < |byKey| && 0 <= i < |byKey[k]| ==> byKey[k][i] < |rows|
    ensures Ascending(current)
    ensures forall x :: x in current <==> forall k :: 0 <= k < |byKey| ==> ListPosts(rows, byKey[k], x)
  {
    hide ListPosts, Counts, StableOrder, InOrder, AllListsPost;
    var order := StableOrder(Counts(rows, byKey, |byKey|), |byKey|);
    assert forall step :: 0 <= step < |order| ==> order[step] in order;
    current := Union(rows, byKey[order[0]]);
    FirstList(rows, byKey, order);
    var step := 1;
    while step < |order| && current != []
      invariant 1 <= step <= |order| && Ascending(current)
      invariant forall x :: x in current <==> AllListsPost(rows, byKey, order, step, x)
    {
      var decoded := Union(rows, byKey[order[step]]);
      current := SetIntersection(current, decoded);
      NextList(rows, byKey, order, step);
      step := step + 1;
    }
    OrderIsAll(rows, byKey, order, step, current);
  }

  lemma FirstList(rows: seq<PostingRow>, byKey: ByKey, order: seq<nat>)
    requires order != [] && order[0] < |byKey|
    ensures forall x :: AllListsPost(rows, byKey, order, 1, x) <==> ListPosts(rows, byKey[order[0]], x)
  {
  }

  lemma NextList(rows: seq<PostingRow>, byKey: ByKey, order: seq<nat>, step: nat)
    requires step < |order| && order[step] < |byKey|
    ensures forall x :: AllListsPost(rows, byKey, order, step + 1, x) <==>
                        AllListsPost(rows, byKey, order, step, x) && ListPosts(rows, byKey[order[step]], x)
  {
    hide ListPosts;
  }

  lemma OrderIsAll(rows: seq<PostingRow>, byKey: ByKey, order: seq<nat>, step: nat, current: seq<int>)
    requires |order| == |byKey| && step <= |order| && (step < |order| ==> current == [])
    requires forall k: nat :: k in order <==> k < |byKey|
    requires forall x :: x in current <==> AllListsPost(rows, byKey, order, step, x)
    ensures forall x :: x in current <==> forall k :: 0 <= k < |byKey| ==> ListPosts(rows, byKey[k], x)
  {
    hide ListPosts;
    forall x ensures x in current <==> forall k :: 0 <= k < |byKey| ==> ListPosts(rows, byKey[k], x) {
      if x in current {
        forall k | 0 <= k < |byKey| ensures ListPosts(rows, byKey[k], x) {
          assert k in order;
          var s :| 0 <= s < |order| && order[s] == k;
        }
      } else if forall k :: 0 <= k < |byKey| ==> ListPosts(rows, byKey[k], x) {
        forall s | 0 <= s < step ensures order[s] < |byKey| && ListPosts(rows, byKey[order[s]], x) {
          assert order[s] in order;
        }
      }
    }
  }

  /** A segment's share of the result: the rows every chosen key posts there. */
  ghost predicate IsShare(rows: seq<PostingRow>, chosen: seq<int>, s: int, share: seq<int>) {
    Ascending(share) && forall x :: x in share <==> AllPost(rows, chosen, s, x)
  }

  method SegmentShare(rows: seq<PostingRow>, chosen: seq<int>, segments: map<int, ByKey>, s: int)
    returns (share: seq<int>)
    requires Bucketed(rows, |rows|, chosen, segments) && Distinct(chosen) && chosen != [] && s in segments
    ensures IsShare(rows, chosen, s, share)
  {
    hide PostedIn, ListPosts, Distinct;
    BucketSize(rows, |rows|, chosen, segments, s);
    var byKey := segments[s];
    forall k | 0 <= k < |byKey| ensures forall i :: 0 <= i < |byKey[k]| ==> byKey[k][i] < |rows| {
      assert forall i :: 0 <= i < |byKey[k]| ==> byKey[k][i] in byKey[k];
    }
    share := IntersectSegment(rows, byKey);
    forall x ensures x in share <==> AllPost(rows, chosen, s, x) {
      forall k | 0 <= k < |chosen| ensures ListPosts(rows, byKey[k], x) <==> PostedIn(rows, chosen[k], s, x) {
        ListIsKey(rows, chosen, segments, s, k, x);
      }
    }
  }

  function SegmentsOf(rows: seq<PostingRow>): (r: seq<int>)
    ensures |r| == |rows| && forall i :: 0 <= i < |r| ==> r[i] == rows[i].segment
  {
    Map((row: PostingRow) => row.segment, rows)
  }

  /** The row ids every chosen key posts within one segment, listed segment by segment in ascending order. */
  method IntersectPostings(rows: seq<PostingRow>, chosen: seq<int>) returns (result: seq<int>)
    requires Distinct(chosen) && chosen != []
    ensures forall x :: x in result <==> exists s :: AllPost(rows, chosen, s, x)
  {
    hide Bucketed, IsShare, Distinct, AllPost, SortUnique;
    var segments := Bucket(rows, chosen);
    var ordered := SortUnique(SegmentsOf(rows));
    result := [];
    for i := 0 to |ordered|
      invariant forall x :: x in result <==>
                exists s :: s in ordered[..i] && s in segments && AllPost(rows, chosen, s, x)
    {
      var s := ordered[i];
      assert ordered[..i + 1] == ordered[..i] + [s];
      if s in segments {
        var share := SegmentShare(rows, chosen, segments, s);
        ShareMembers(rows, chosen, s, share);
        result := result + share;
      }
    }
    forall x, s | AllPost(rows, chosen, s, x) ensures s in ordered[..|ordered|] && s in segments {
      SegmentKnown(rows, chosen, segments, s, x);
    }
  }

  lemma ShareMembers(rows: seq<PostingRow>, chosen: seq<int>, s: int, share: seq<int>)
    requires IsShare(rows, chosen, s, share)
    ensures forall x :: x in share <==> AllPost(rows, chosen, s, x)
  {
  }

  lemma SegmentKnown(rows: seq<PostingRow>, chosen: seq<int>, segments: map<int, ByKey>, s: int, x: int)
    requires Bucketed(rows, |rows|, chosen, segments) && chosen != [] && AllPost(rows, chosen, s, x)
    ensures s in segments && s in SegmentsOf(rows)
  {
    assert PostedIn(rows, chosen[0], s, x);
    var i: nat :| RowAt(rows, i, chosen[0], s) && x in rows[i].rowids;
    assert SegmentsOf(rows)[i] == s;
  }

  predicate InOwnSegments(rows: seq<PostingRow>) {
    forall i, j :: 0 <= i < |rows| && 0 <= j < |rows[i].rowids| ==> rows[i].rowids[j] / SEGMENT_SPAN == rows[i].segment
  }

  /** Some row, of whatever segment, posts x under the key. */
  ghost predicate PostedAnywhere(rows: seq<PostingRow>, key: int, x: int) {
    exists i :: 0 <= i < |rows| && rows[i].key == key && x in rows[i].rowids
  }

  /** Intersecting segment by segment loses nothing: since every posting lies in its own segment, it proposes exactly
      the row ids that all chosen keys post. */
  lemma SegmentsPartition(rows: seq<PostingRow>, chosen: seq<int>, x: int)
    requires InOwnSegments(rows) && chosen != []
    ensures (exists s :: AllPost(rows, chosen, s, x)) <==>
            forall k :: 0 <= k < |chosen| ==> PostedAnywhere(rows, chosen[k], x)
  {
    if s :| AllPost(rows, chosen, s, x) {
      forall k | 0 <= k < |chosen| ensures PostedAnywhere(rows, chosen[k], x) {
        assert PostedIn(rows, chosen[k], s, x);
        var i: nat :| RowAt(rows, i, chosen[k], s) && x in rows[i].rowids;
      }
    }
    if forall k :: 0 <= k < |chosen| ==> PostedAnywhere(rows, chosen[k], x) {
      var s := x / SEGMENT_SPAN;
      forall k | 0 <= k < |chosen| ensures PostedIn(rows, chosen[k], s, x) {
        assert PostedAnywhere(rows, chosen[k], x);
        var i :| 0 <= i < |rows| && rows[i].key == chosen[k] && x in rows[i].rowids;
        var j :| 0 <= j < |rows[i].rowids| && rows[i].rowids[j] == x;
        assert RowAt(rows, i, chosen[k], s);
      }
      assert AllPost(rows, chosen, s, x);
    }
  }

  // ---------------------------------------------------------------------------------------------------------------
  // The rowid predicate

  /** Which of the row ids are candidates. The cursor resumes at the previous hit and restarts only for a smaller row
      id. */
  method LakeRowids(candidates: seq<int>, input: seq<int>) returns (result: seq<bool>)
    requires Ascending(candidates)
    ensures |result| == |input| && forall i :: 0 <= i < |input| ==> (result[i] <==> input[i] in candidates)
  {
    result := [];
    var cursor: nat := 0;
    for i := 0 to |input|
      invariant |result| == i && cursor <= |candidates|
      invariant forall j :: 0 <= j < i ==> (result[j] <==> input[j] in candidates)
    {
      var rowid := input[i];
      if cursor != 0 && candidates[cursor - 1] >= rowid {
        cursor := 0;
      }
      cursor := LowerBound(candidates, cursor, rowid);
      result := result + [cursor != |candidates| && candidates[cursor] == rowid];
    }
  }

  /** Pruning drops a row group if and only if its bounds enclose no candidate. */
  method LakeRowidsPrune(candidates: seq<int>, low: int, high: int) returns (alwaysFalse: bool)
    requires Ascending(candidates)
    ensures alwaysFalse <==> forall x :: x in candidates ==> !(low <= x <= high)
  {
    var first: nat := LowerBound(candidates, 0, low);
    alwaysFalse := first == |candidates| || candidates[first] > high;
    if !alwaysFalse {
      assert candidates[first] in candidates;
    }
  }
}

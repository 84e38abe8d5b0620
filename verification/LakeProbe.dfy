/** A DuckLake query from the registry to its rows: postings and change feed merged into one list, the scan filtered by
    it, and the predicate rechecked. */
module LakeProbe {
  import opened Common
  import opened LakeRuns
  import opened LakeQuery

  /** The fetched segments-table rows hold, of the chosen keys, exactly the index's postings, each within its own
      segment. */
  ghost predicate Stores(rows: seq<PostingRow>, chosen: seq<int>, postings: set<(int, nat)>) {
    && InOwnSegments(rows)
    && forall i, x: nat :: 0 <= i < |chosen| ==> ((chosen[i], x) in postings <==> PostedAnywhere(rows, chosen[i], x))
  }

  /** The rows the tail query reads. */
  ghost predicate Reads(tail: seq<(nat, Text)>, source: iset<(nat, Text)>) {
    forall row :: row in tail <==> row in source
  }

  /** The tail rows whose text contains every probed needle, once case is folded. */
  function Passing(tail: seq<(nat, Text)>, contains: Text -> bool): (r: seq<int>)
    ensures forall x :: x in r <==> exists i :: 0 <= i < |tail| && tail[i].0 == x && contains(tail[i].1)
  {
    if tail == [] then []
    else
      var front, last := tail[..|tail| - 1], tail[|tail| - 1];
      var r := Passing(front, contains) + if contains(last.1) then [last.0] else [];
      PassingSnoc(front, last, contains, Passing(front, contains), r);
      assert front + [last] == tail;
      r
  }

  lemma PassingSnoc(front: seq<(nat, Text)>, last: (nat, Text), contains: Text -> bool, before: seq<int>, r: seq<int>)
    requires forall x :: x in before <==> exists i :: 0 <= i < |front| && front[i].0 == x && contains(front[i].1)
    requires r == before + if contains(last.1) then [last.0] else []
    ensures forall x :: x in r <==>
              exists i :: 0 <= i < |front + [last]| && (front + [last])[i].0 == x && contains((front + [last])[i].1)
  {
    var tail := front + [last];
    forall x ensures x in r <==> exists i :: 0 <= i < |tail| && tail[i].0 == x && contains(tail[i].1) {
      if x in before {
        var i :| 0 <= i < |front| && front[i].0 == x && contains(front[i].1);
        assert tail[i] == front[i];
      } else if x in r {
        assert tail[|front|] == last;
      }
      if i :| 0 <= i < |tail| && tail[i].0 == x && contains(tail[i].1) {
        assert i < |front| ==> front[i] == tail[i];
      }
    }
  }

  /** The candidates of a probe: the row ids all chosen keys post, and the tail rows that pass, sorted, each once. */
  method ProbeAtSnapshot(rows: seq<PostingRow>, chosen: seq<int>, tail: seq<(nat, Text)>, contains: Text -> bool)
    returns (rowids: seq<int>)
    requires LakeQuery.Distinct(chosen) && chosen != []
    ensures Ascending(rowids)
    ensures forall x :: x in rowids <==> (exists s :: AllPost(rows, chosen, s, x)) || x in Passing(tail, contains)
  {
    hide SortUnique, AllPost, Passing;
    var posted := IntersectPostings(rows, chosen);
    rowids := posted;
    for i := 0 to |tail|
      invariant forall x :: x in rowids <==> x in posted || x in Passing(tail[..i], contains)
    {
      OneMore(tail, contains, i);
      if contains(tail[i].1) {
        rowids := rowids + [tail[i].0];
      }
    }
    assert tail[..|tail|] == tail;
    rowids := SortUnique(rowids);
  }

  lemma OneMore(tail: seq<(nat, Text)>, contains: Text -> bool, i: nat)
    requires i < |tail|
    ensures forall x :: x in Passing(tail[..i + 1], contains) <==>
              x in Passing(tail[..i], contains) || (contains(tail[i].1) && x == tail[i].0)
    ensures i == 0 ==> Passing(tail[..0], contains) == []
  {
    assert tail[..i + 1][..i] == tail[..i];
  }

  /** What a probe asks of a matching text: every chosen key is one of its keys, and it contains every needle. */
  ghost predicate Implies(matches: Text -> bool, keysOf: Text -> set<int>, chosen: seq<int>, contains: Text -> bool) {
    && (forall text, i :: matches(text) && 0 <= i < |chosen| ==> chosen[i] in keysOf(text))
    && forall text :: matches(text) ==> contains(text)
  }

  /** A lake some run left, and its index current at snapshot n. */
  ghost predicate CurrentAt(version: nat, tableId: int, steps: seq<Step>, keysOf: Text -> set<int>, lake: Lake,
                            n: nat) {
    && Run(Initial(version, tableId), steps, keysOf) == Some(lake)
    && n < |lake.history| && lake.history[n].index.Some?
    && LakeStaleReason(lake, n, lake.history[n].index.value) == Current
  }

  /** Whether a live row id's text matches. */
  predicate RowMatches(s: Snapshot, matches: Text -> bool, r: int) {
    r >= 0 && r in s.rows && matches(s.rows[r].text)
  }

  /** In every run, while the check passes, the merged list holds every matching row id. */
  lemma MergedIsComplete(version: nat, tableId: int, steps: seq<Step>, keysOf: Text -> set<int>, lake: Lake, n: nat,
                         rows: seq<PostingRow>, chosen: seq<int>, tail: seq<(nat, Text)>, contains: Text -> bool,
                         matches: Text -> bool, r: nat)
    requires CurrentAt(version, tableId, steps, keysOf, lake, n) && chosen != []
    requires Stores(rows, chosen, lake.history[n].index.value.postings)
    requires Reads(tail, LakeTailSource(lake, lake.history[n].index.value.covered, n))
    requires Implies(matches, keysOf, chosen, contains) && RowMatches(lake.history[n], matches, r)
    ensures (exists s :: AllPost(rows, chosen, s, r)) || r in Passing(tail, contains)
  {
    hide Run, Initial, LakeStaleReason, LakeTailSource, InOwnSegments, PostedAnywhere, AllPost, Passing;
    var index, text := lake.history[n].index.value, lake.history[n].rows[r].text;
    CandidatesAreComplete(version, tableId, steps, keysOf, n, chosen, r);
    if Intersected(index.postings, chosen, r) {
      SegmentsPartition(rows, chosen, r);
    } else {
      assert (r, text) in tail;
      var i :| 0 <= i < |tail| && tail[i] == (r, text);
      InPassing(tail, contains, i);
    }
  }

  lemma InPassing(tail: seq<(nat, Text)>, contains: Text -> bool, i: nat)
    requires i < |tail| && contains(tail[i].1)
    ensures tail[i].0 in Passing(tail, contains)
  {
  }

  /** The scan of the live rows, in whatever order, that match. */
  function Matching(s: Snapshot, matches: Text -> bool, scanned: seq<int>): seq<int> {
    if scanned == [] then []
    else
      Matching(s, matches, scanned[..|scanned| - 1])
      + if RowMatches(s, matches, scanned[|scanned| - 1]) then [scanned[|scanned| - 1]] else []
  }

  /** A query through the index answers as the plain scan: filtering by the merged list before the recheck drops no
      matching row, whatever order the rows are scanned in. */
  method LakeSearch(ghost version: nat, ghost tableId: int, ghost steps: seq<Step>, ghost keysOf: Text -> set<int>,
                    ghost lake: Lake, snapshot: Snapshot, ghost n: nat, rows: seq<PostingRow>, chosen: seq<int>,
                    tail: seq<(nat, Text)>, contains: Text -> bool, matches: Text -> bool, scanned: seq<int>)
    returns (kept: seq<int>)
    requires CurrentAt(version, tableId, steps, keysOf, lake, n) && snapshot == lake.history[n]
    requires LakeQuery.Distinct(chosen) && chosen != [] && Stores(rows, chosen, snapshot.index.value.postings)
    requires Reads(tail, LakeTailSource(lake, snapshot.index.value.covered, n))
    requires Implies(matches, keysOf, chosen, contains)
    ensures kept == Matching(snapshot, matches, scanned)
  {
    hide CurrentAt, Stores, Reads, Implies, LakeTailSource, AllPost, Passing, RowMatches;
    var candidates := ProbeAtSnapshot(rows, chosen, tail, contains);
    var proposed := LakeRowids(candidates, scanned);
    kept := [];
    for i := 0 to |scanned|
      invariant kept == Matching(snapshot, matches, scanned[..i])
    {
      assert scanned[..i + 1][..i] == scanned[..i];
      if RowMatches(snapshot, matches, scanned[i]) {
        assert scanned[i] >= 0 by { NotNegative(snapshot, matches, scanned[i]); }
        MergedIsComplete(version, tableId, steps, keysOf, lake, n, rows, chosen, tail, contains, matches, scanned[i]);
      }
      if proposed[i] && RowMatches(snapshot, matches, scanned[i]) {
        kept := kept + [scanned[i]];
      }
    }
    assert scanned[..|scanned|] == scanned;
  }

  lemma NotNegative(s: Snapshot, matches: Text -> bool, r: int)
    requires RowMatches(s, matches, r)
    ensures r >= 0
  {
  }
}

/** ngram_refresh: which rows one call indexes, the mark it records, and what repeated calls converge to. */
module Refresh {
  import opened Common
  import opened SegmentTable
  import R = Ranges

  /** The index a registry row and its segments table describe. */
  datatype Index = Index(hwm: int, rows: set<SegmentRow>)

  /** One call's parameters: the rowids allocated when its script was generated, and its bound. */
  datatype Call = Call(totalRows: nat, bounded: bool, maxRows: nat)

  const LAST_ROW_ID := R.MAX_ROW_ID - 1

  /** hwm + maxRows, snapped down to a segment boundary when one lies past the mark. */
  function BoundedRefreshEnd(hwm: int, maxRows: nat): (end: int)
    requires -1 <= hwm <= LAST_ROW_ID
    ensures hwm <= end <= LAST_ROW_ID && end <= hwm + maxRows
    ensures maxRows > 0 && hwm < LAST_ROW_ID ==> end > hwm
  {
    if maxRows >= R.MAX_ROW_ID || hwm > LAST_ROW_ID - maxRows then LAST_ROW_ID
    else
      var target := hwm + maxRows;
      var aligned := (target + 1) / SEGMENT_SPAN * SEGMENT_SPAN - 1;
      if aligned > hwm then aligned else target
  }

  /** Rowid e is the last of its segment. */
  predicate EndsSegment(e: int) {
    (e + 1) % SEGMENT_SPAN == 0
  }

  /** The end is the furthest a bounded call may go: the last segment boundary past the mark and within the bound, and
      where there is none, the bound itself; the rowid space ends it in any case. */
  lemma BoundedEndIsFurthest(hwm: int, maxRows: nat)
    requires -1 <= hwm <= LAST_ROW_ID
    ensures var end := BoundedRefreshEnd(hwm, maxRows);
            var furthest := Min(hwm + maxRows, LAST_ROW_ID);
            && (forall e :: end < e <= furthest ==> !EndsSegment(e))
            && (end == furthest || (end > hwm && EndsSegment(end)))
            && (hwm + maxRows > LAST_ROW_ID ==> end == LAST_ROW_ID)
  {
    var end, target := BoundedRefreshEnd(hwm, maxRows), hwm + maxRows;
    if target <= LAST_ROW_ID {
      var segments := (target + 1) / SEGMENT_SPAN;
      assert EndsSegment(segments * SEGMENT_SPAN - 1) by { MultipleEnds(segments); }
      forall e | end < e <= target ensures !EndsSegment(e) {
        BoundaryBelow(e, target, segments);
      }
    }
  }

  lemma MultipleEnds(k: int)
    ensures EndsSegment(k * SEGMENT_SPAN - 1)
  {
  }

  /** Up to `target`, no boundary lies past the last one. */
  lemma BoundaryBelow(e: int, target: int, segments: int)
    requires segments == (target + 1) / SEGMENT_SPAN && e <= target
    ensures EndsSegment(e) ==> e <= segments * SEGMENT_SPAN - 1
  {
    if EndsSegment(e) {
      var k := (e + 1) / SEGMENT_SPAN;
      assert e + 1 == k * SEGMENT_SPAN;
      assert k <= segments;
    }
  }

  function Keep(rows: set<nat>, lo: int, hi: int): set<nat> {
    set r | r in rows && lo < r <= hi
  }

  ghost function Highest(rows: set<nat>): (r: nat)
    requires rows != {}
    ensures r in rows && forall x :: x in rows ==> x <= r
  {
    var x :| x in rows;
    var rest := rows - {x};
    assert forall y :: y in rows ==> y == x || y in rest;
    if rest == {} then x else Max(x, Highest(rest))
  }

  /** The (key, rowid) pairs of some rows; a row whose column is NULL has no keys. */
  function PairsOf(keysOf: nat -> set<int>, rows: set<nat>): Pairs {
    set r, k | r in rows && k in keysOf(r) :: (k, r)
  }

  ghost function MaxGeneration(rows: set<SegmentRow>): (g: nat)
    ensures forall row :: row in rows ==> row.generation <= g
  {
    if rows == {} then 0
    else
      var row :| row in rows;
      Max(row.generation, MaxGeneration(rows - {row}))
  }

  /** Some row has it. */
  lemma {:induction false} MaxGenerationHeld(rows: set<SegmentRow>) returns (top: SegmentRow)
    requires rows != {}
    ensures top in rows && top.generation == MaxGeneration(rows)
  {
    var row :| row in rows && MaxGeneration(rows) == Max(row.generation, MaxGeneration(rows - {row}));
    var rest := rows - {row};
    assert MaxGeneration(rows) == Max(row.generation, MaxGeneration(rest));
    top := row;
    if MaxGeneration(rest) > row.generation {
      top := MaxGenerationHeld(rest);
    }
  }

  function BoundEnd(index: Index, call: Call): int
    requires -1 <= index.hwm <= LAST_ROW_ID
  {
    if call.bounded then BoundedRefreshEnd(index.hwm, call.maxRows) else LAST_ROW_ID
  }

  /** Whether rows lie past the bound; otherwise the call works as an unbounded one. */
  predicate StopsShort(index: Index, call: Call)
    requires -1 <= index.hwm <= LAST_ROW_ID
  {
    BoundEnd(index, call) < call.totalRows - 1
  }

  /** The rows a call packs, out of those its snapshot sees. */
  function Covered(index: Index, call: Call, visible: set<nat>): set<nat>
    requires -1 <= index.hwm <= LAST_ROW_ID
  {
    Keep(visible, index.hwm, if StopsShort(index, call) then BoundEnd(index, call) else LAST_ROW_ID)
  }

  /** The mark a call records: the bound itself once a visible row past it proves every slot up to it settled, otherwise
      the highest row it covered. */
  ghost function RefreshedMark(index: Index, call: Call, visible: set<nat>): int
    requires -1 <= index.hwm <= LAST_ROW_ID
  {
    if StopsShort(index, call) && Keep(visible, BoundEnd(index, call), LAST_ROW_ID) != {} then BoundEnd(index, call)
    else if Covered(index, call, visible) == {} then index.hwm
    else Highest(Covered(index, call, visible))
  }

  /** One call, against one snapshot. Nothing past the mark means nothing to do. */
  ghost function Refreshed(index: Index, call: Call, visible: set<nat>, keysOf: nat -> set<int>): Index
    requires -1 <= index.hwm <= LAST_ROW_ID
  {
    if index.hwm >= call.totalRows - 1 then index
    else Index(RefreshedMark(index, call, visible),
               index.rows + Packed(PairsOf(keysOf, Covered(index, call, visible)), MaxGeneration(index.rows) + 1))
  }

  // ---------------------------------------------------------------------------------------------------------------
  // What an index promises

  /** Every one of these rows up to the mark is posted under all its keys. */
  predicate Covers(index: Index, keysOf: nat -> set<int>, live: set<nat>) {
    forall r, k :: r in live && r <= index.hwm && k in keysOf(r) ==> (k, r) in Postings(index.rows)
  }

  lemma CoversRow(index: Index, keysOf: nat -> set<int>, live: set<nat>, r: nat, k: int)
    requires Covers(index, keysOf, live) && r in live && r <= index.hwm && k in keysOf(r)
    ensures (k, r) in Postings(index.rows)
  {
  }

  /** Whatever is posted is a key of a row up to the mark. */
  predicate Honest(index: Index, keysOf: nat -> set<int>) {
    forall p :: p in Postings(index.rows) ==> p.1 <= index.hwm && p.0 in keysOf(p.1)
  }

  predicate ValidIndex(index: Index, keysOf: nat -> set<int>) {
    -1 <= index.hwm <= LAST_ROW_ID && WellFormed(index.rows, index.hwm) && Honest(index, keysOf)
  }

  lemma InPairs(keysOf: nat -> set<int>, rows: set<nat>, r: nat, k: int)
    ensures (k, r) in PairsOf(keysOf, rows) <==> r in rows && k in keysOf(r)
  {
  }

  lemma RefreshedPosts(index: Index, call: Call, visible: set<nat>, keysOf: nat -> set<int>)
    requires -1 <= index.hwm <= LAST_ROW_ID && index.hwm < call.totalRows - 1
    ensures Postings(Refreshed(index, call, visible, keysOf).rows) ==
            Postings(index.rows) + PairsOf(keysOf, Covered(index, call, visible))
  {
    hide Packed, Postings;
    var pairs := PairsOf(keysOf, Covered(index, call, visible));
    PackedPosts(pairs, MaxGeneration(index.rows) + 1);
    PostingsUnion(index.rows, Packed(pairs, MaxGeneration(index.rows) + 1));
  }

  /** The mark never recedes, never passes the last rowid, and never passes a rowid the snapshot proves committed. */
  lemma MarkBounds(index: Index, call: Call, visible: set<nat>, committed: nat)
    requires -1 <= index.hwm <= LAST_ROW_ID && committed <= LAST_ROW_ID + 1
    requires forall r :: r in visible ==> r < committed
    ensures var mark := RefreshedMark(index, call, visible);
            && index.hwm <= mark <= LAST_ROW_ID && (mark == index.hwm || mark < committed)
            && (forall r :: r in visible && index.hwm < r <= mark ==> r in Covered(index, call, visible))
            && (forall r :: r in Covered(index, call, visible) ==> r <= mark)
  {
    var mark := RefreshedMark(index, call, visible);
    var past := Keep(visible, BoundEnd(index, call), LAST_ROW_ID);
    if StopsShort(index, call) && past != {} {
      var settled :| settled in past;
    }
  }

  /** A call keeps a valid index valid. */
  lemma RefreshValid(index: Index, call: Call, visible: set<nat>, keysOf: nat -> set<int>)
    requires ValidIndex(index, keysOf) && forall r :: r in visible ==> r <= LAST_ROW_ID
    ensures ValidIndex(Refreshed(index, call, visible, keysOf), keysOf)
  {
    hide Packed, Postings, Covered, Keep, RefreshedMark, StopsShort, BoundEnd, BoundedRefreshEnd;
    if index.hwm < call.totalRows - 1 {
      var covered := Covered(index, call, visible);
      var pairs := PairsOf(keysOf, covered);
      var after := Refreshed(index, call, visible, keysOf);
      MarkBounds(index, call, visible, LAST_ROW_ID + 1);
      RefreshedPosts(index, call, visible, keysOf);
      PackedFits(pairs, MaxGeneration(index.rows) + 1, after.hwm);
      NewRowsPast(index, call, visible, keysOf);
      NewGeneration(index, Packed(pairs, MaxGeneration(index.rows) + 1), after.hwm);
    }
  }

  /** A call posts only rows past the mark it started from. */
  lemma NewRowsPast(index: Index, call: Call, visible: set<nat>, keysOf: nat -> set<int>)
    requires -1 <= index.hwm <= LAST_ROW_ID
    ensures var packed := Packed(PairsOf(keysOf, Covered(index, call, visible)), MaxGeneration(index.rows) + 1);
            forall row, r :: row in packed && r in row.rowids ==> r > index.hwm
  {
    hide StopsShort, BoundEnd;
  }

  lemma NewGeneration(index: Index, packed: set<SegmentRow>, hwm: int)
    requires WellFormed(index.rows, index.hwm) && WellFormed(packed, hwm) && index.hwm <= hwm
    requires forall row :: row in packed ==> row.generation == MaxGeneration(index.rows) + 1
    requires forall row, r :: row in packed && r in row.rowids ==> r > index.hwm
    ensures WellFormed(index.rows + packed, hwm)
  {
    forall a, b | a in index.rows && b in packed && a.key == b.key ensures a.rowids !! b.rowids {
      assert RowFits(a, index.hwm);
    }
    forall row | row in index.rows + packed ensures RowFits(row, hwm) {
      assert row in index.rows ==> RowFits(row, index.hwm);
    }
  }

  /** A call leaves every live row up to the new mark posted: those its snapshot saw, and, whatever else is live later,
      nothing committed after the snapshot lies at or below the mark. */
  lemma RefreshCovers(index: Index, call: Call, visible: set<nat>, keysOf: nat -> set<int>, committed: nat,
                      later: set<nat>)
    requires ValidIndex(index, keysOf) && committed <= LAST_ROW_ID + 1 && index.hwm < committed
    requires forall r :: r in visible ==> r < committed
    requires forall r :: r in later && r < committed ==> r in visible
    requires Covers(index, keysOf, visible)
    ensures Covers(Refreshed(index, call, visible, keysOf), keysOf, later)
  {
    hide Packed, Postings, Covered, Keep, RefreshedMark, StopsShort, BoundEnd, BoundedRefreshEnd, WellFormed, Honest;
    var after := Refreshed(index, call, visible, keysOf);
    if index.hwm < call.totalRows - 1 {
      MarkBounds(index, call, visible, committed);
      RefreshedPosts(index, call, visible, keysOf);
      forall r, k | r in later && r <= after.hwm && k in keysOf(r) ensures (k, r) in Postings(after.rows) {
        InPairs(keysOf, Covered(index, call, visible), r, k);
      }
    }
  }

  /** Which mark a call records: a row it sees past the mark means the bound stopped it; otherwise it covered all it
      saw, and the mark is a row it saw. */
  lemma MarkIsExact(index: Index, call: Call, visible: set<nat>, keysOf: nat -> set<int>)
    requires -1 <= index.hwm <= LAST_ROW_ID && forall r :: r in visible ==> r <= LAST_ROW_ID
    requires index.hwm < call.totalRows - 1
    ensures var mark := Refreshed(index, call, visible, keysOf).hwm;
            && (StopsShort(index, call) ==> mark <= BoundEnd(index, call))
            && (forall r :: r in visible && r > mark ==> StopsShort(index, call) && mark == BoundEnd(index, call))
            && (mark == index.hwm || mark in visible
                || (StopsShort(index, call) && mark == BoundEnd(index, call) && exists r :: r in visible && r > mark))
  {
    hide Packed, PairsOf, BoundedRefreshEnd;
    var mark := RefreshedMark(index, call, visible);
    var past := Keep(visible, BoundEnd(index, call), LAST_ROW_ID);
    if StopsShort(index, call) && past != {} {
      var r :| r in past;
      assert r in visible && r > mark;
    } else {
      forall r | r in visible && r > mark ensures StopsShort(index, call) && mark == BoundEnd(index, call) {
        assert r in Covered(index, call, visible) || r in past;
      }
    }
  }

  /** What a call adds: the covered rows' keys, all in one generation the index did not have. */
  lemma NewRowsAreFresh(index: Index, call: Call, visible: set<nat>, keysOf: nat -> set<int>)
    requires -1 <= index.hwm <= LAST_ROW_ID && index.hwm < call.totalRows - 1
    ensures var after := Refreshed(index, call, visible, keysOf).rows;
            && index.rows <= after
            && (forall row :: row in after && row !in index.rows ==> row.generation == MaxGeneration(index.rows) + 1)
            && if index.rows == {} then MaxGeneration(index.rows) == 0
               else exists row :: row in index.rows && row.generation == MaxGeneration(index.rows)
  {
    if index.rows != {} {
      var top := MaxGenerationHeld(index.rows);
    }
    hide PairsOf, Covered, RefreshedMark;
    PackedGeneration(PairsOf(keysOf, Covered(index, call, visible)), MaxGeneration(index.rows) + 1);
    hide Packed;
  }

  lemma PackedGeneration(pairs: Pairs, generation: nat)
    ensures forall row :: row in Packed(pairs, generation) ==> row.generation == generation
  {
  }

  /** Where compaction does not leave generation 0: a first refresh writes generation 1, and compacting what it wrote
      skips the merge. */
  lemma FirstRefreshStaysAtOne(call: Call, visible: set<nat>, keysOf: nat -> set<int>)
    ensures var rows := Refreshed(Index(-1, {}), call, visible, keysOf).rows;
            AllOf(rows, 1) && Compact(rows, false) == rows && (rows != {} ==> !AllOf(Compact(rows, false), 0))
  {
    hide Packed;
    var index := Index(-1, {});
    var pairs := PairsOf(keysOf, Covered(index, call, visible));
    PackedFits(pairs, 1, LAST_ROW_ID);
    assert {} + Packed(pairs, 1) == Packed(pairs, 1);
  }

  /** One row of one key, indexed and compacted: it stays at generation 1. */
  lemma GenerationOneWitness()
    ensures var rows := Refreshed(Index(-1, {}), Call(1, false, 0), {0}, (r: nat) => {0}).rows;
            rows == {SegmentRow(0, 0, 1, {0})} == Compact(rows, false)
  {
    var index, call, keysOf := Index(-1, {}), Call(1, false, 0), (r: nat) => {0};
    FirstRefreshStaysAtOne(call, {0}, keysOf);
    assert Covered(index, call, {0}) == {0};
    assert PairsOf(keysOf, {0}) == {(0, 0)};
    assert Group({(0, 0)}, 0, 0) == {0};
    assert Packed({(0, 0)}, 1) == {SegmentRow(0, 0, 1, {0})};
  }

  // ---------------------------------------------------------------------------------------------------------------
  // The catch-up loop

  /** The rows a query still scans. */
  function Tail(index: Index, visible: set<nat>): set<nat> {
    Keep(visible, index.hwm, LAST_ROW_ID)
  }

  /** On a table no one writes, a bounded call's mark stays within its span, advances while rows remain past it, and the
      index then posts exactly what it posted before and the rows it moved over. */
  lemma CallProgress(index: Index, maxRows: nat, visible: set<nat>, total: nat, keysOf: nat -> set<int>)
    requires ValidIndex(index, keysOf) && maxRows > 0 && total <= LAST_ROW_ID + 1
    requires forall r :: r in visible ==> r < total
    ensures var after := Refreshed(index, Call(total, true, maxRows), visible, keysOf);
            && index.hwm <= after.hwm <= index.hwm + maxRows
            && (Tail(index, visible) != {} ==> index.hwm < after.hwm < total)
            && Postings(after.rows) == Postings(index.rows) + PairsOf(keysOf, Keep(visible, index.hwm, after.hwm))
  {
    hide Packed, Postings, WellFormed, Honest, Covers;
    var call := Call(total, true, maxRows);
    var after := Refreshed(index, call, visible, keysOf);
    if index.hwm < total - 1 {
      MarkBounds(index, call, visible, total);
      RefreshedPosts(index, call, visible, keysOf);
      assert Covered(index, call, visible) == Keep(visible, index.hwm, after.hwm);
      if Tail(index, visible) != {} {
        var r :| r in Tail(index, visible);
        assert r in Keep(visible, BoundEnd(index, call), LAST_ROW_ID) || r in Covered(index, call, visible);
      }
    } else {
      assert Keep(visible, index.hwm, after.hwm) == {};
      assert PairsOf(keysOf, {}) == {};
      hide Keep, PairsOf;
      assert Postings(index.rows) + {} == Postings(index.rows);
      assert Tail(index, visible) == {} by { NoTail(index, visible, total); }
    }
  }

  lemma NoTail(index: Index, visible: set<nat>, total: nat)
    requires index.hwm >= total - 1 && forall r :: r in visible ==> r < total
    ensures Tail(index, visible) == {}
  {
  }

  lemma PairsJoin(keysOf: nat -> set<int>, visible: set<nat>, lo: int, mid: int, hi: int)
    requires lo <= mid <= hi
    ensures PairsOf(keysOf, Keep(visible, lo, mid)) + PairsOf(keysOf, Keep(visible, mid, hi))
            == PairsOf(keysOf, Keep(visible, lo, hi))
  {
  }

  /** The caller's loop: bounded calls until no row remains past the mark. */
  ghost function CatchUp(index: Index, maxRows: nat, visible: set<nat>, total: nat, keysOf: nat -> set<int>): Index
    requires ValidIndex(index, keysOf) && maxRows > 0 && total <= LAST_ROW_ID + 1
    requires forall r :: r in visible ==> r < total
    decreases total - index.hwm
  {
    if Tail(index, visible) == {} then index
    else
      CallProgress(index, maxRows, visible, total, keysOf);
      RefreshValid(index, Call(total, true, maxRows), visible, keysOf);
      CatchUp(Refreshed(index, Call(total, true, maxRows), visible, keysOf), maxRows, visible, total, keysOf)
  }

  lemma {:induction false} CatchUpPosts(index: Index, maxRows: nat, visible: set<nat>, total: nat,
                                        keysOf: nat -> set<int>)
    requires ValidIndex(index, keysOf) && maxRows > 0 && total <= LAST_ROW_ID + 1
    requires forall r :: r in visible ==> r < total
    ensures var last := CatchUp(index, maxRows, visible, total, keysOf);
            && ValidIndex(last, keysOf) && index.hwm <= last.hwm && Tail(last, visible) == {}
            && Postings(last.rows) == Postings(index.rows) + PairsOf(keysOf, Keep(visible, index.hwm, last.hwm))
    decreases total - index.hwm
  {
    hide ValidIndex, Refreshed, Tail, Postings, PairsOf, Keep;
    if Tail(index, visible) == {} {
      NoPairs(keysOf, visible, index.hwm);
      assert Postings(index.rows) + {} == Postings(index.rows);
    } else {
      MarkOf(index, keysOf);
      CallProgress(index, maxRows, visible, total, keysOf);
      RefreshValid(index, Call(total, true, maxRows), visible, keysOf);
      var next := Refreshed(index, Call(total, true, maxRows), visible, keysOf);
      CatchUpPosts(next, maxRows, visible, total, keysOf);
      PairsJoin(keysOf, visible, index.hwm, next.hwm, CatchUp(next, maxRows, visible, total, keysOf).hwm);
    }
  }

  /** One bounded call: rows are left, and its mark moves past the last one by no more than the bound. */
  ghost predicate IsCall(before: Index, after: Index, maxRows: nat, visible: set<nat>, total: nat,
                         keysOf: nat -> set<int>)
    requires -1 <= before.hwm <= LAST_ROW_ID
  {
    && Tail(before, visible) != {} && before.hwm < after.hwm <= before.hwm + maxRows
    && after == Refreshed(before, Call(total, true, maxRows), visible, keysOf)
  }

  ghost predicate Calls(calls: seq<Index>, maxRows: nat, visible: set<nat>, total: nat, keysOf: nat -> set<int>) {
    && (forall i :: 0 <= i < |calls| ==> -1 <= calls[i].hwm <= LAST_ROW_ID)
    && forall i, j :: 0 <= i < j < |calls| && j == i + 1 ==>
         IsCall(calls[i], calls[j], maxRows, visible, total, keysOf)
  }

  /** The loop is a chain of bounded calls, each past the last and within its bound, made while rows are left. */
  lemma {:induction false} CatchUpCalls(index: Index, maxRows: nat, visible: set<nat>, total: nat,
                                        keysOf: nat -> set<int>)
    returns (calls: seq<Index>)
    requires ValidIndex(index, keysOf) && maxRows > 0 && total <= LAST_ROW_ID + 1
    requires forall r :: r in visible ==> r < total
    ensures calls != [] && calls[0] == index
            && calls[|calls| - 1] == CatchUp(index, maxRows, visible, total, keysOf)
    ensures Tail(calls[|calls| - 1], visible) == {}
    ensures Calls(calls, maxRows, visible, total, keysOf)
    decreases total - index.hwm
  {
    hide ValidIndex, Refreshed, Tail;
    MarkOf(index, keysOf);
    if Tail(index, visible) == {} {
      calls := [index];
    } else {
      CallProgress(index, maxRows, visible, total, keysOf);
      RefreshValid(index, Call(total, true, maxRows), visible, keysOf);
      var next := Refreshed(index, Call(total, true, maxRows), visible, keysOf);
      var rest := CatchUpCalls(next, maxRows, visible, total, keysOf);
      assert IsCall(index, next, maxRows, visible, total, keysOf);
      calls := [index] + rest;
    }
  }

  /** The loop ends with an empty tail, and from any committed mark the index then posts what one unbounded call would
      have: resuming after a crash reaches the same index. */
  lemma CatchUpIsOneRefresh(index: Index, maxRows: nat, visible: set<nat>, total: nat, keysOf: nat -> set<int>)
    requires ValidIndex(index, keysOf) && maxRows > 0 && total <= LAST_ROW_ID + 1
    requires forall r :: r in visible ==> r < total
    ensures var last := CatchUp(index, maxRows, visible, total, keysOf);
            && Tail(last, visible) == {}
            && Postings(last.rows) == Postings(Refreshed(index, Call(total, false, 0), visible, keysOf).rows)
  {
    hide ValidIndex, Refreshed, Tail, Postings, PairsOf, Keep, CatchUp;
    MarkOf(index, keysOf);
    CatchUpPosts(index, maxRows, visible, total, keysOf);
    CaughtUp(index, CatchUp(index, maxRows, visible, total, keysOf), visible, total, keysOf);
  }

  lemma NoPairs(keysOf: nat -> set<int>, visible: set<nat>, hwm: int)
    ensures PairsOf(keysOf, Keep(visible, hwm, hwm)) == {}
  {
    assert Keep(visible, hwm, hwm) == {};
  }

  lemma MarkOf(index: Index, keysOf: nat -> set<int>)
    requires ValidIndex(index, keysOf)
    ensures -1 <= index.hwm <= LAST_ROW_ID
  {
  }

  lemma CaughtUp(start: Index, index: Index, visible: set<nat>, total: nat, keysOf: nat -> set<int>)
    requires ValidIndex(start, keysOf) && total <= LAST_ROW_ID + 1 && forall r :: r in visible ==> r < total
    requires Tail(index, visible) == {} && start.hwm <= index.hwm
    requires Postings(index.rows) == Postings(start.rows) + PairsOf(keysOf, Keep(visible, start.hwm, index.hwm))
    ensures Postings(index.rows) == Postings(start.rows) + PairsOf(keysOf, Tail(start, visible))
    ensures Postings(index.rows) == Postings(Refreshed(start, Call(total, false, 0), visible, keysOf).rows)
  {
    hide Packed, Postings, WellFormed, Honest, PairsOf;
    var call := Call(total, false, 0);
    assert Keep(visible, start.hwm, index.hwm) == Tail(start, visible) by {
      forall r | r in Tail(start, visible) ensures r <= index.hwm {
        assert r !in Tail(index, visible);
      }
    }
    if start.hwm < total - 1 {
      RefreshedPosts(start, call, visible, keysOf);
      assert Covered(start, call, visible) == Tail(start, visible);
    } else {
      NoTail(start, visible, total);
      assert PairsOf(keysOf, {}) == {} by { NoPairs(keysOf, {}, 0); assert Keep({}, 0, 0) == {}; }
      assert Postings(start.rows) + {} == Postings(start.rows);
    }
  }

  // ---------------------------------------------------------------------------------------------------------------
  // Packing the tail in partitions

  /** The partitions of a call's tail, packed one statement each, write the rows the whole tail would. */
  lemma PartitionsPackTheTail(index: Index, call: Call, visible: set<nat>, keysOf: nat -> set<int>,
                              ranges: seq<R.Range>, generation: nat)
    requires -1 <= index.hwm <= LAST_ROW_ID
    requires R.Tiles(ranges, index.hwm + 1, if StopsShort(index, call) then BoundEnd(index, call) else LAST_ROW_ID)
    requires forall i :: 0 <= i < |ranges| ==> ranges[i].lo <= ranges[i].hi
    ensures R.PackedByRange(PairsOf(keysOf, visible), ranges, generation)
            == Packed(PairsOf(keysOf, Covered(index, call, visible)), generation)
  {
    hide Packed, StopsShort, BoundEnd, R.Tiles;
    var hi := if StopsShort(index, call) then BoundEnd(index, call) else LAST_ROW_ID;
    R.PackedByRangeIsPacked(PairsOf(keysOf, visible), ranges, index.hwm + 1, hi, generation);
    assert R.Within(PairsOf(keysOf, visible), R.Range(index.hwm + 1, hi))
        == PairsOf(keysOf, Covered(index, call, visible));
  }

  /** Where a bounded call may end inside a segment: in the one the mark lies in, or at the end of the rowid space. */
  lemma BoundedEndIsAligned(hwm: int, maxRows: nat)
    requires -1 <= hwm <= LAST_ROW_ID
    ensures var end := BoundedRefreshEnd(hwm, maxRows);
            || end == LAST_ROW_ID
            || (end + 1) % SEGMENT_SPAN == 0
            || (end == hwm + maxRows && (end + 1) / SEGMENT_SPAN == (hwm + 1) / SEGMENT_SPAN)
  {
    if maxRows < R.MAX_ROW_ID && hwm <= LAST_ROW_ID - maxRows {
      AlignedDown(hwm + 1, hwm + maxRows + 1);
    }
  }

  lemma AlignedDown(from: nat, to: nat)
    requires from <= to
    ensures var aligned := to / SEGMENT_SPAN * SEGMENT_SPAN;
            aligned % SEGMENT_SPAN == 0
                && (aligned > from || aligned == from || to / SEGMENT_SPAN == from / SEGMENT_SPAN)
  {
  }

  /** Increments that end on a segment boundary pack the rows one longer call would: each (key, segment) is whole in one
      of them. */
  lemma AlignedIncrementsPackWhole(keysOf: nat -> set<int>, visible: set<nat>, lo: int, mid: int, hi: int,
                                   generation: nat)
    requires -1 <= lo <= mid < hi && (mid + 1) % SEGMENT_SPAN == 0
    ensures Packed(PairsOf(keysOf, Keep(visible, lo, mid)), generation)
            + Packed(PairsOf(keysOf, Keep(visible, mid, hi)), generation)
            == Packed(PairsOf(keysOf, Keep(visible, lo, hi)), generation)
  {
    hide Packed;
    var all := PairsOf(keysOf, visible);
    assert R.Within(all, R.Range(lo + 1, mid)) == PairsOf(keysOf, Keep(visible, lo, mid));
    assert R.Within(all, R.Range(mid + 1, hi)) == PairsOf(keysOf, Keep(visible, mid, hi));
    assert R.Within(all, R.Range(lo + 1, hi)) == PairsOf(keysOf, Keep(visible, lo, hi));
    R.JoinRanges(all, lo + 1, R.Range(mid + 1, hi), generation);
  }
}

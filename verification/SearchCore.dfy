/** The search as a whole: fetch and range batches, tail units and the local-storage unit, in batch order, emit every
    matching visible row exactly once. */
module SearchCore {
  import opened Common
  import opened SegmentQueue
  import opened QueueRuns
  import opened FetchWorkers
  import B = BoundedScan

  /** What the query's snapshot holds: the committed rowids below `end` it sees, which rows satisfy the predicate, and
      the transaction's own rows that do, in order. */
  datatype Table = Table(end: nat, visible: set<int>, matching: set<int>, local: seq<int>)

  predicate ValidTable(t: Table) {
    forall r :: r in t.visible ==> 0 <= r < t.end
  }

  predicate Hit(t: Table, r: int) {
    r in t.visible && r in t.matching
  }

  /** The rows a fetch returns and the recheck keeps, in the order asked. */
  function Keep(t: Table, rows: seq<int>): seq<int> {
    if rows == [] then [] else Keep(t, rows[..|rows| - 1]) + if Hit(t, rows[|rows| - 1]) then [rows[|rows| - 1]] else []
  }

  /** What a scan of rows [lo, hi) under the filters produces. */
  function Scan(t: Table, lo: int, hi: int): seq<int>
    decreases hi - lo
  {
    if lo >= hi then [] else Scan(t, lo, hi - 1) + if Hit(t, hi - 1) then [hi - 1] else []
  }

  lemma {:induction false} KeepConcat(t: Table, a: seq<int>, b: seq<int>)
    ensures Keep(t, a + b) == Keep(t, a) + Keep(t, b)
  {
    if b == [] {
      assert a + b == a;
    } else {
      var front, last := b[..|b| - 1], b[|b| - 1];
      KeepConcat(t, a, front);
      assert (a + b)[..|a + b| - 1] == a + front;
      ConcatAssociates(Keep(t, a), Keep(t, front), if Hit(t, last) then [last] else []);
    }
  }

  lemma {:induction false} ScanSplit(t: Table, lo: int, mid: int, hi: int)
    requires lo <= mid <= hi
    ensures Scan(t, lo, hi) == Scan(t, lo, mid) + Scan(t, mid, hi)
    decreases hi - mid
  {
    if mid < hi {
      ScanSplit(t, lo, mid, hi - 1);
      ConcatAssociates(Scan(t, lo, mid), Scan(t, mid, hi - 1), if Hit(t, hi - 1) then [hi - 1] else []);
    }
  }

  lemma {:induction false} ScanIs(t: Table, lo: int, hi: int)
    ensures Ascending(Scan(t, lo, hi))
    ensures forall r :: r in Scan(t, lo, hi) <==> lo <= r < hi && Hit(t, r)
    decreases hi - lo
  {
    if lo < hi {
      ScanIs(t, lo, hi - 1);
      var before := Scan(t, lo, hi - 1);
      forall i | 0 <= i < |before| ensures before[i] < hi - 1 {
        assert before[i] in before;
      }
    }
  }

  lemma {:induction false} KeepIs(t: Table, rows: seq<int>)
    requires Ascending(rows)
    ensures Ascending(Keep(t, rows))
    ensures forall r :: r in Keep(t, rows) <==> r in rows && Hit(t, r)
  {
    if rows != [] {
      var front, last := rows[..|rows| - 1], rows[|rows| - 1];
      KeepIs(t, front);
      assert rows == front + [last];
      var before := Keep(t, front);
      forall i | 0 <= i < |before| ensures before[i] < last {
        assert before[i] in before && before[i] in front;
      }
    }
  }

  /** An ascending list that holds every hit of [lo, hi), and nothing outside it, is kept as the scan finds it. */
  lemma KeepIsScan(t: Table, rows: seq<int>, lo: int, hi: int)
    requires Ascending(rows) && (forall i :: 0 <= i < |rows| ==> lo <= rows[i] < hi)
    requires forall r :: lo <= r < hi && Hit(t, r) ==> r in rows
    ensures Keep(t, rows) == Scan(t, lo, hi)
  {
    hide Keep, Scan, Hit;
    KeepIs(t, rows);
    ScanIs(t, lo, hi);
    AscendingUnique(Keep(t, rows), Scan(t, lo, hi));
  }

  /** The rows a bounded committed scan reads, filtered, are the scan of its range: no hit is missing from the row
      groups, and zone maps exclude none. */
  lemma BoundedScanIsScan(t: Table, groups: seq<B.RowGroup>, start: nat, end: nat, rows: seq<int>)
    requires Ascending(rows) && forall r :: r in rows <==> start <= r < end && B.Present(groups, r)
    requires forall r :: Hit(t, r) ==> B.Present(groups, r)
    ensures Keep(t, rows) == Scan(t, start, end)
  {
    hide Keep, Scan, Hit, B.Present;
    assert forall i :: 0 <= i < |rows| ==> rows[i] in rows;
    KeepIsScan(t, rows, start, end);
  }

  // ---------------------------------------------------------------------------------------------------------------
  // Batches

  /** The candidates a probe proposes: every hit up to the mark is among them. */
  predicate Complete(t: Table, plan: Plan, hwm: int) {
    && (forall i :: 0 <= i < |Flatten(plan.candidates)| ==> Flatten(plan.candidates)[i] <= hwm)
    && forall r :: 0 <= r <= hwm && Hit(t, r) ==> r in Flatten(plan.candidates)
  }

  /** How a batch is read: one scan bounded to its span when it was sized for one and is still dense, a fetch per row
      otherwise. */
  function BatchOutput(t: Table, plan: Plan, b: Batch): seq<int>
    requires BatchOf(plan, b)
  {
    var rowids := plan.candidates[b.ordinal];
    if b.range && RangeScanPays(rowids, b.begin, b.end) then Scan(t, rowids[b.begin], rowids[b.end - 1] + 1)
    else Keep(t, BatchRows(plan, b))
  }

  lemma {:induction false} InFlatten(ss: seq<seq<int>>, i: nat, x: int)
    requires i < |ss| && x in ss[i]
    ensures x in Flatten(ss)
  {
    if i > 0 {
      InFlatten(ss[1..], i - 1, x);
    }
  }

  lemma {:induction false} FlattenFrom(ss: seq<seq<int>>, x: int) returns (i: nat)
    requires x in Flatten(ss)
    ensures i < |ss| && x in ss[i]
  {
    if x in ss[0] {
      i := 0;
    } else {
      var j := FlattenFrom(ss[1..], x);
      i := j + 1;
    }
  }

  /** Between two candidates of one segment lie only candidates of that segment. */
  lemma BetweenCandidates(plan: Plan, b: Batch, r: int)
    requires ValidPlan(plan) && BatchOf(plan, b) && r in Flatten(plan.candidates)
    requires plan.candidates[b.ordinal][b.begin] <= r <= plan.candidates[b.ordinal][b.end - 1]
    ensures r in BatchRows(plan, b)
  {
    var rowids := plan.candidates[b.ordinal];
    var o := FlattenFrom(plan.candidates, r);
    assert Yields(plan.segments[b.ordinal], rowids) && Yields(plan.segments[o], plan.candidates[o]);
    SameSegment(plan, b.ordinal, o, rowids[b.begin], rowids[b.end - 1], r);
    var i :| 0 <= i < |rowids| && rowids[i] == r;
    assert b.begin <= i < b.end;
    assert BatchRows(plan, b)[i - b.begin] == r;
  }

  lemma SameSegment(plan: Plan, a: nat, b: nat, low: int, high: int, r: int)
    requires ValidPlan(plan) && a < |plan.segments| && b < |plan.segments| && low <= r <= high
    requires plan.segments[a] * SEGMENT_SPAN <= low && high < (plan.segments[a] + 1) * SEGMENT_SPAN
    requires plan.segments[b] * SEGMENT_SPAN <= r < (plan.segments[b] + 1) * SEGMENT_SPAN
    ensures a == b
  {
    SameNumber(plan.segments[a], plan.segments[b], r);
    DistinctSegments(plan, a, b);
  }

  lemma DistinctSegments(plan: Plan, a: nat, b: nat)
    requires ValidPlan(plan) && a < |plan.segments| && b < |plan.segments|
    ensures plan.segments[a] == plan.segments[b] ==> a == b
  {
  }

  lemma SameNumber(a: int, b: int, r: int)
    requires a * SEGMENT_SPAN <= r < (a + 1) * SEGMENT_SPAN && b * SEGMENT_SPAN <= r < (b + 1) * SEGMENT_SPAN
    ensures a == b
  {
  }

  /** Whether a batch is fetched row by row or range-scanned, it emits the same rows: what lies between its candidates
      is no candidate, so no hit. */
  lemma RangeIsFetch(t: Table, plan: Plan, hwm: int, b: Batch)
    requires ValidPlan(plan) && BatchOf(plan, b) && Complete(t, plan, hwm)
    ensures BatchOutput(t, plan, b) == Keep(t, BatchRows(plan, b))
  {
    hide Keep, Scan, Hit, RangeScanPays, ValidPlan, Flatten;
    var rowids := plan.candidates[b.ordinal];
    if b.range && RangeScanPays(rowids, b.begin, b.end) {
      BatchBounds(plan, b);
      var first, last := rowids[b.begin], rowids[b.end - 1];
      InFlatten(plan.candidates, b.ordinal, last);
      forall r | first <= r < last + 1 && Hit(t, r) ensures r in BatchRows(plan, b) {
        BetweenCandidates(plan, b, r);
      }
      KeepIsScan(t, BatchRows(plan, b), first, last + 1);
    }
  }

  lemma BatchBounds(plan: Plan, b: Batch)
    requires ValidPlan(plan) && BatchOf(plan, b)
    ensures var rows := BatchRows(plan, b); var rowids := plan.candidates[b.ordinal];
            && Ascending(rows) && 0 <= rowids[b.begin]
            && forall i :: 0 <= i < |rows| ==> rowids[b.begin] <= rows[i] <= rowids[b.end - 1]
  {
    assert Yields(plan.segments[b.ordinal], plan.candidates[b.ordinal]);
  }

  /** The batches' outputs, in batch order. */
  function LogOutput(t: Table, plan: Plan, log: seq<Batch>): seq<int>
    requires BatchesOf(plan, log)
  {
    if log == [] then [] else LogOutput(t, plan, log[..|log| - 1]) + BatchOutput(t, plan, log[|log| - 1])
  }

  lemma {:induction false} LogOutputIsKept(t: Table, plan: Plan, hwm: int, log: seq<Batch>)
    requires ValidPlan(plan) && BatchesOf(plan, log) && Complete(t, plan, hwm)
    ensures LogOutput(t, plan, log) == Keep(t, Emitted(plan, log))
  {
    hide Keep, Complete, ValidPlan, BatchOutput, BatchRows;
    if log == [] {
      assert Keep(t, []) == [] by { KeepNothing(t); }
    } else {
      var front, last := log[..|log| - 1], log[|log| - 1];
      LogOutputIsKept(t, plan, hwm, front);
      assert BatchOf(plan, last);
      RangeIsFetch(t, plan, hwm, last);
      KeepConcat(t, Emitted(plan, front), BatchRows(plan, last));
    }
  }

  lemma KeepNothing(t: Table)
    ensures Keep(t, []) == []
  {
  }

  // ---------------------------------------------------------------------------------------------------------------
  // The tail

  function TailStart(probed: bool, hwm: int): nat {
    if probed && hwm >= 0 then hwm + 1 else 0
  }

  function TailUnits(start: nat, end: nat, unitRows: nat): nat
    requires unitRows > 0
  {
    if start < end then (end - start + unitRows - 1) / unitRows else 0
  }

  /** Tail unit `unit` scans its share of the committed rows past the index. */
  function UnitOutput(t: Table, start: nat, unitRows: nat, unit: nat): seq<int> {
    Scan(t, start + unit * unitRows, Min(start + (unit + 1) * unitRows, t.end))
  }

  function TailOutput(t: Table, start: nat, unitRows: nat, units: nat): seq<int> {
    if units == 0 then [] else TailOutput(t, start, unitRows, units - 1) + UnitOutput(t, start, unitRows, units - 1)
  }

  lemma UnitBounds(start: nat, end: nat, unitRows: nat, unit: nat)
    requires unitRows > 0 && start < end
    ensures unit < TailUnits(start, end, unitRows) ==> start + unit * unitRows < end
    ensures unit + 1 == TailUnits(start, end, unitRows) ==> start + (unit + 1) * unitRows >= end
    ensures unit * unitRows + unitRows == (unit + 1) * unitRows && unit * unitRows >= 0
  {
    var span := end - start + unitRows - 1;
    var units := span / unitRows;
    assert units * unitRows <= span < units * unitRows + unitRows;
    if unit < units {
      MulLess(unit, units, unitRows);
    }
  }

  lemma MulLess(a: nat, b: nat, c: nat)
    requires a < b
    ensures a * c + c <= b * c
  {
    MulMonotone(a + 1, b, c);
    assert (a + 1) * c == a * c + c;
  }

  /** The units tile the tail. */
  lemma {:induction false} TailTiles(t: Table, start: nat, unitRows: nat, units: nat)
    requires unitRows > 0 && start < t.end && units <= TailUnits(start, t.end, unitRows)
    ensures units * unitRows >= 0 && TailOutput(t, start, unitRows, units)
            == Scan(t, start, Min(start + units * unitRows, t.end))
  {
    hide Scan, TailUnits;
    if units == 0 {
      assert Scan(t, start, start) == [] by { ScanNothing(t, start); }
    } else {
      TailTiles(t, start, unitRows, units - 1);
      UnitBounds(start, t.end, unitRows, units - 1);
      ScanSplit(t, start, start + (units - 1) * unitRows, Min(start + units * unitRows, t.end));
    }
  }

  lemma ScanNothing(t: Table, lo: int)
    ensures Scan(t, lo, lo) == []
  {
  }

  lemma TailIsScan(t: Table, start: nat, unitRows: nat)
    requires unitRows > 0
    ensures TailOutput(t, start, unitRows, TailUnits(start, t.end, unitRows)) == Scan(t, start, t.end)
    ensures var units := TailUnits(start, t.end, unitRows);
            if start < t.end then units > 0 && start + (units - 1) * unitRows < t.end <= start + units * unitRows
            else units == 0
  {
    if start < t.end {
      var units := TailUnits(start, t.end, unitRows);
      assert units > 0 by { UnitsPositive(start, t.end, unitRows); }
      TailTiles(t, start, unitRows, units);
      UnitBounds(start, t.end, unitRows, units - 1);
    }
  }

  /** Without a probe, whatever mark an index has, a query scans the whole table in tail units: just as exhaustive. */
  lemma UnprobedIsExhaustive(t: Table, hwm: int, unitRows: nat)
    requires unitRows > 0
    ensures var start := TailStart(false, hwm);
            TailOutput(t, start, unitRows, TailUnits(start, t.end, unitRows)) == Scan(t, 0, t.end)
    ensures Ascending(Scan(t, 0, t.end)) && forall r :: r in Scan(t, 0, t.end) <==> 0 <= r < t.end && Hit(t, r)
  {
    TailIsScan(t, TailStart(false, hwm), unitRows);
    ScanIs(t, 0, t.end);
  }

  lemma UnitsPositive(start: nat, end: nat, unitRows: nat)
    requires unitRows > 0 && start < end
    ensures TailUnits(start, end, unitRows) > 0
  {
    QuotientPositive(end - start + unitRows - 1, unitRows);
  }

  lemma QuotientPositive(n: int, d: int)
    requires n >= d > 0
    ensures n / d >= 1
  {
  }

  // ---------------------------------------------------------------------------------------------------------------
  // Everything

  /** The output an ordered sink assembles: fetch batches, then tail units, then the local rows. */
  function Output(t: Table, plan: Plan, log: seq<Batch>, hwm: int, unitRows: nat): seq<int>
    requires BatchesOf(plan, log) && unitRows > 0
  {
    var start := TailStart(true, hwm);
    LogOutput(t, plan, log) + TailOutput(t, start, unitRows, TailUnits(start, t.end, unitRows)) + t.local
  }

  /** For every interleaving that ends without a decode failure, every range-or-fetch choice and every unit size, the
      query emits exactly the matching visible rows, each once, in rowid order, followed by the local ones. */
  lemma SearchIsExhaustive(t: Table, plan: Plan, steps: seq<Step>, hwm: int, unitRows: nat)
    requires ValidTable(t) && ValidPlan(plan) && Complete(t, plan, hwm) && unitRows > 0 && -1 <= hwm
    requires Run(plan, steps).Some? && !Run(plan, steps).value.queue.failed
    requires ClaimIn(Run(plan, steps).value.queue, |plan.segments|, plan.maxThreads).0.Exhausted?
    ensures var s := Run(plan, steps).value;
            BatchesOf(plan, s.log) && Output(t, plan, s.log, hwm, unitRows) == Scan(t, 0, t.end) + t.local
    ensures Ascending(Scan(t, 0, t.end)) && forall r :: r in Scan(t, 0, t.end) <==> 0 <= r < t.end && Hit(t, r)
  {
    hide ValidPlan, Run, Keep, Scan, Hit, Flatten, Emitted, LogOutput, TailOutput, TailUnits, BatchesOf;
    ExhaustedIsComplete(plan, steps);
    var log := Run(plan, steps).value.log;
    LogOutputIsKept(t, plan, hwm, log);
    FetchedIsScan(t, plan, hwm);
    var start := TailStart(true, hwm);
    TailIsScan(t, start, unitRows);
    TailMeetsIndex(t, start);
    ScanIs(t, 0, t.end);
  }

  /** The index and the tail meet without overlap, also when vacuuming has shrunk the table below the mark. */
  lemma TailMeetsIndex(t: Table, start: nat)
    requires ValidTable(t)
    ensures Scan(t, 0, start) + Scan(t, start, t.end) == Scan(t, 0, t.end)
  {
    hide Scan;
    if start <= t.end {
      ScanSplit(t, 0, start, t.end);
    } else {
      ScanSplit(t, 0, t.end, start);
      ScanIs(t, t.end, start);
      ScanIs(t, start, t.end);
      NoElements(Scan(t, t.end, start));
      NoElements(Scan(t, start, t.end));
    }
  }

  lemma NoElements(s: seq<int>)
    requires forall x :: x !in s
    ensures s == []
  {
    var first := (s + [0])[0];
    assert first !in s;
  }

  lemma FetchedIsScan(t: Table, plan: Plan, hwm: int)
    requires ValidPlan(plan) && Complete(t, plan, hwm) && -1 <= hwm
    ensures Keep(t, Flatten(plan.candidates)) == Scan(t, 0, TailStart(true, hwm))
  {
    hide ValidPlan, Keep, Scan, Hit, Flatten;
    var all := Flatten(plan.candidates);
    assert plan.candidates[..|plan.candidates|] == plan.candidates;
    FlattenAscending(plan, |plan.candidates|);
    FirstIsNonnegative(plan);
    KeepIsScan(t, all, 0, TailStart(true, hwm));
  }

  lemma FirstIsNonnegative(plan: Plan)
    requires ValidPlan(plan)
    ensures forall i :: 0 <= i < |Flatten(plan.candidates)| ==> Flatten(plan.candidates)[i] >= 0
  {
    hide Flatten;
    var all := Flatten(plan.candidates);
    forall i | 0 <= i < |all| ensures all[i] >= 0 {
      var o := FlattenFrom(plan.candidates, all[i]);
      assert Yields(plan.segments[o], plan.candidates[o]);
    }
  }
}

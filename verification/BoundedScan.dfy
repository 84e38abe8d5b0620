/** A committed scan of rows [start, end): it seeks the first row group that reaches the range, since vacuumed groups
    leave holes in the numbering, and starts at a vector boundary. */
module BoundedScan {
  import opened Common

  /** Rows [start, start + count) of one row group; `excluded` when the filters' zone maps rule out every row of it. */
  datatype RowGroup = RowGroup(start: nat, count: nat, excluded: bool)

  predicate InGroup(g: RowGroup, r: int) {
    g.start <= r < g.start + g.count
  }

  /** Row groups in order, disjoint, possibly with holes between them. */
  predicate Laid(groups: seq<RowGroup>) {
    forall i, j :: 0 <= i < j < |groups| ==> groups[i].start + groups[i].count <= groups[j].start
  }

  /** The table has this row, and no zone map rules its group out. */
  ghost predicate Present(groups: seq<RowGroup>, r: int) {
    exists i :: 0 <= i < |groups| && InGroup(groups[i], r) && !groups[i].excluded
  }

  function Numbers(lo: int, hi: int): (r: seq<int>)
    ensures |r| == Max(hi - lo, 0) && forall i :: 0 <= i < |r| ==> r[i] == lo + i
    decreases hi - lo
  {
    if lo >= hi then [] else Numbers(lo, hi - 1) + [hi - 1]
  }

  lemma InNumbers(lo: int, hi: int, r: int)
    ensures r in Numbers(lo, hi) <==> lo <= r < hi
  {
    if lo <= r < hi {
      assert Numbers(lo, hi)[r - lo] == r;
    }
  }

  /** Where the scan is positioned: the first row group it reads and the first row of it. */
  datatype Position = AtEnd | At(group: nat, row: nat)

  /** A group a scan from `start` may read. */
  predicate Reaches(g: RowGroup, start: int) {
    g.start + g.count > start && !g.excluded
  }

  /** Where a scan from `start` begins in a group: its first row, or the vector that holds `start`. */
  predicate Begins(g: RowGroup, start: int, row: int) {
    if start <= g.start then row == g.start
    else (row - g.start) % STANDARD_VECTOR_SIZE == 0 && row <= start < row + STANDARD_VECTOR_SIZE
  }

  /** Seek past the groups that end at or before `start`, then past excluded ones, only while they begin before `end`:
      to the first group the scan may read, and no further back in it than the vector that holds `start`. */
  method Seek(groups: seq<RowGroup>, start: nat, end: nat) returns (p: Position)
    requires Laid(groups) && start < end
    ensures p.At? ==> p.group < |groups| && groups[p.group].start <= p.row && groups[p.group].start < end
    ensures p.At? ==> Reaches(groups[p.group], start) && Begins(groups[p.group], start, p.row)
    ensures p.At? ==> forall i :: 0 <= i < p.group ==> !Reaches(groups[i], start)
    ensures p.AtEnd? ==> forall i :: 0 <= i < |groups| && groups[i].start < end ==> !Reaches(groups[i], start)
    ensures p.At? ==> forall i, r :: 0 <= i < p.group && InGroup(groups[i], r) && !groups[i].excluded ==> r < start
    ensures p.At? ==> forall r :: InGroup(groups[p.group], r) && r < p.row ==> r < start
    ensures p.AtEnd? ==>
            forall i, r :: 0 <= i < |groups| && InGroup(groups[i], r) && !groups[i].excluded ==> r < start || r >= end
  {
    var i := 0;
    while i < |groups| && groups[i].start + groups[i].count <= start
      invariant i <= |groups|
      invariant forall k, r :: 0 <= k < i && InGroup(groups[k], r) ==> r < start
      invariant forall k :: 0 <= k < i ==> !Reaches(groups[k], start)
    {
      i := i + 1;
    }
    if i == |groups| {
      return AtEnd;
    }
    var vector := if groups[i].start >= start then 0 else (start - groups[i].start) / STANDARD_VECTOR_SIZE;
    ghost var first := i;
    while i < |groups| && groups[i].start < end
      invariant first <= i <= |groups|
      invariant i == first ==>
                vector == (if groups[i].start >= start then 0 else (start - groups[i].start) / STANDARD_VECTOR_SIZE)
      invariant i > first ==> vector == 0
      invariant forall k :: 0 <= k < i ==> !Reaches(groups[k], start)
      invariant forall k, r :: 0 <= k < i && InGroup(groups[k], r) && !groups[k].excluded ==> r < start
    {
      if !groups[i].excluded {
        VectorStart(groups[i].start, start, vector);
        assert i > first ==> groups[first].start + groups[first].count <= groups[i].start;
        return At(i, groups[i].start + vector * STANDARD_VECTOR_SIZE);
      }
      i := i + 1;
      vector := 0;
    }
    RestIsPast(groups, i, end);
    return AtEnd;
  }

  lemma VectorStart(groupStart: nat, start: nat, vector: nat)
    requires vector == 0 || (groupStart < start && vector == (start - groupStart) / STANDARD_VECTOR_SIZE)
    ensures vector == 0 || groupStart + vector * STANDARD_VECTOR_SIZE <= start
    ensures groupStart < start && vector == (start - groupStart) / STANDARD_VECTOR_SIZE ==>
              start < groupStart + vector * STANDARD_VECTOR_SIZE + STANDARD_VECTOR_SIZE
  {
  }

  lemma RestIsPast(groups: seq<RowGroup>, i: nat, end: nat)
    requires Laid(groups) && i <= |groups| && (i < |groups| ==> groups[i].start >= end)
    ensures forall k :: i <= k < |groups| ==> groups[k].start >= end
  {
    forall k | i <= k < |groups| ensures groups[k].start >= end {
      if k > i {
        assert groups[i].start + groups[i].count <= groups[k].start;
      }
    }
  }

  /** Group i's row r lies at or after the position. */
  predicate Visits(groups: seq<RowGroup>, p: Position, i: nat, r: int)
    requires p.At? && i < |groups|
  {
    InGroup(groups[i], r) && !groups[i].excluded && (i == p.group ==> r >= p.row)
  }

  /** The rows a scan visits: from its position on, group after group, stopping at `end`; excluded groups are
      skipped. */
  method Visit(groups: seq<RowGroup>, p: Position, end: nat) returns (visited: seq<int>)
    requires Laid(groups) && (p.At? ==> p.group < |groups| && groups[p.group].start <= p.row)
    ensures Ascending(visited)
    ensures p.AtEnd? ==> visited == []
    ensures p.At? ==>
            forall r :: r in visited <==> r < end && exists i :: p.group <= i < |groups| && Visits(groups, p, i, r)
  {
    visited := [];
    if p.AtEnd? {
      return;
    }
    var i := p.group;
    while i < |groups|
      invariant p.group <= i <= |groups|
      invariant Ascending(visited) && forall r :: r in visited ==>
                i > p.group && r < groups[i - 1].start + groups[i - 1].count
      invariant forall r :: r in visited <==> r < end && exists k :: p.group <= k < i && Visits(groups, p, k, r)
    {
      var from := if i == p.group then p.row else groups[i].start;
      var more := if groups[i].excluded then [] else Numbers(from, Min(groups[i].start + groups[i].count, end));
      VisitGroup(groups, p, i, end, visited, more);
      visited := visited + more;
      i := i + 1;
    }
  }

  lemma VisitGroup(groups: seq<RowGroup>, p: Position, i: nat, end: nat, visited: seq<int>, more: seq<int>)
    requires Laid(groups) && p.At? && p.group <= i < |groups| && groups[p.group].start <= p.row && Ascending(visited)
    requires forall r :: r in visited ==> i > p.group && r < groups[i - 1].start + groups[i - 1].count
    requires var from := if i == p.group then p.row else groups[i].start;
             more == if groups[i].excluded then [] else Numbers(from, Min(groups[i].start + groups[i].count, end))
    ensures Ascending(visited + more)
    ensures forall r :: r in visited + more ==> r < groups[i].start + groups[i].count
    ensures forall r :: r in more <==> r < end && Visits(groups, p, i, r)
  {
    var from := if i == p.group then p.row else groups[i].start;
    forall r ensures r in more <==> r < end && Visits(groups, p, i, r) {
      InNumbers(from, Min(groups[i].start + groups[i].count, end), r);
    }
    forall r | r in visited ensures r < groups[i].start {
      assert groups[i - 1].start + groups[i - 1].count <= groups[i].start;
    }
    forall k, l | 0 <= k < l < |visited + more| ensures (visited + more)[k] < (visited + more)[l] {
      if k < |visited| <= l {
        assert visited[k] in visited;
      }
    }
  }

  /** With the filter rowid >= start, the scan reads exactly the table's rows of [start, end), in order. */
  method BoundedScan(groups: seq<RowGroup>, start: nat, end: nat) returns (rows: seq<int>)
    requires Laid(groups) && start < end
    ensures Ascending(rows)
    ensures forall r :: r in rows <==> start <= r < end && Present(groups, r)
  {
    hide Laid, InGroup;
    var p := Seek(groups, start, end);
    var visited := Visit(groups, p, end);
    rows := [];
    for i := 0 to |visited|
      invariant Ascending(rows) && forall r :: r in rows <==> r in visited[..i] && r >= start
    {
      assert visited[..i + 1] == visited[..i] + [visited[i]];
      forall k | 0 <= k < |rows| ensures rows[k] < visited[i] {
        assert rows[k] in rows;
      }
      if visited[i] >= start {
        rows := rows + [visited[i]];
      }
    }
    assert visited[..|visited|] == visited;
    forall r ensures r in rows <==> start <= r < end && Present(groups, r) {
      if start <= r < end && Present(groups, r) {
        var i :| 0 <= i < |groups| && InGroup(groups[i], r) && !groups[i].excluded;
        assert p.At? && p.group <= i;
        assert Visits(groups, p, i, r);
      }
    }
  }
}

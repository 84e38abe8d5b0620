/** Finalizing a group, and what any tree of updates and combines finalizes to. */
module PackTree {
  import opened Common
  import opened Leb128
  import opened Postings
  import opened OffsetStream
  import opened PackSegment
  import opened RunMerge

  /** What ngram_pack_segment returns for one group. */
  datatype Segment = Segment(postings: seq<byte>, rowidCount: nat, minRowid: int, maxRowid: int)

  function Rows(base: int, offsets: seq<nat>): (rows: seq<int>)
    ensures |rows| == |offsets| && forall i :: 0 <= i < |rows| ==> rows[i] == base + offsets[i]
  {
    seq(|offsets|, i requires 0 <= i < |offsets| => base + offsets[i])
  }

  predicate IsBase(base: int) {
    IsRowid(base) && base % SEGMENT_SPAN == 0
  }

  lemma RowsAreRowids(base: int, offsets: seq<nat>)
    requires IsBase(base) && AreOffsets(offsets)
    ensures AreRowids(Rows(base, offsets))
    ensures Ascending(offsets) ==> Ascending(Rows(base, offsets))
    ensures forall i :: 0 <= i < |offsets| ==> SegmentStart(base + offsets[i]) == base
  {
    forall i | 0 <= i < |offsets|
      ensures IsRowid(base + offsets[i]) && SegmentStart(base + offsets[i]) == base
    {
      BaseRow(base, offsets[i]);
    }
  }

  lemma BaseRow(base: int, offset: nat)
    requires IsBase(base) && offset < SEGMENT_SPAN
    ensures IsRowid(base + offset) && SegmentStart(base + offset) == base
  {
  }

  /** Sorting and deduplicating commutes with adding the segment's start. */
  lemma SortUniqueRows(base: int, offsets: seq<nat>, sorted: seq<nat>, rows: seq<int>)
    requires sorted == SortUnique(offsets) && SameElements(Rows(base, offsets), rows)
    ensures Rows(base, sorted) == SortUnique(rows)
  {
    var r := Rows(base, sorted);
    forall x ensures x in r <==> x in rows {
      if x in rows {
        assert x in Rows(base, offsets);
        var i :| 0 <= i < |offsets| && x == base + offsets[i];
        assert offsets[i] in sorted;
        var j :| 0 <= j < |sorted| && sorted[j] == offsets[i];
        assert r[j] == x;
      }
      if x in r {
        var j :| 0 <= j < |sorted| && x == base + sorted[j];
        assert sorted[j] in offsets;
        var i :| 0 <= i < |offsets| && offsets[i] == sorted[j];
        assert Rows(base, offsets)[i] == x;
      }
    }
    SortUniqueIs(rows, r);
  }

  // ---------------------------------------------------------------------------------------------------------------
  // EncodeSortedOffsets

  /** The in-place writer. 21 bytes hold the version and the two long varints; a difference within one segment needs
      three at most. */
  method EncodeSortedOffsets(base: int, offsets: seq<nat>) returns (blob: seq<byte>)
    requires IsBase(base) && offsets != [] && Ascending(offsets) && AreOffsets(offsets)
    ensures AreRowids(Rows(base, offsets)) && Ascending(Rows(base, offsets))
    ensures blob == EncodeSorted(Rows(base, offsets))
  {
    hide DeltaBytes;
    RowsAreRowids(base, offsets);
    ghost var rows := Rows(base, offsets);
    var buffer := new byte[1 + 10 + 10 + 3 * |offsets|];
    var out: nat := WriteHeader(buffer, base, offsets);
    var i := 1;
    while i < |offsets|
      invariant 1 <= i <= |offsets| && out <= 21 + 3 * (i - 1) && out <= buffer.Length
      invariant Above(rows[i..], rows[i - 1], true)
      invariant buffer[..out] + DeltaBytes(rows[i..], rows[i - 1]) == EncodeSorted(rows)
    {
      var delta := offsets[i] - offsets[i - 1];
      DeltaSize(delta);
      DeltaStep(rows, i, buffer[..out]);
      out := WriteVarint(buffer, out, delta);
      i := i + 1;
    }
    DeltasDone(rows, buffer[..out]);
    blob := buffer[..out];
  }

  method WriteHeader(buffer: array<byte>, base: int, offsets: seq<nat>) returns (out: nat)
    requires IsBase(base) && offsets != [] && Ascending(offsets) && AreOffsets(offsets)
    requires AreRowids(Rows(base, offsets)) && Ascending(Rows(base, offsets))
    requires buffer.Length == 1 + 10 + 10 + 3 * |offsets|
    modifies buffer
    ensures out <= 21 <= buffer.Length && Above(Rows(base, offsets)[1..], Rows(base, offsets)[0], true)
    ensures buffer[..out] + DeltaBytes(Rows(base, offsets)[1..], Rows(base, offsets)[0])
            == EncodeSorted(Rows(base, offsets))
  {
    ghost var rows := Rows(base, offsets);
    HeaderSizes(base, offsets);
    buffer[0] := POSTINGS_FORMAT_VERSION;
    assert buffer[..1] == [POSTINGS_FORMAT_VERSION];
    out := WriteVarint(buffer, 1, |offsets|);
    out := WriteVarint(buffer, out, base + offsets[0]);
    HeaderBytes(rows);
  }

  lemma HeaderSizes(base: int, offsets: seq<nat>)
    requires IsBase(base) && offsets != [] && Ascending(offsets) && AreOffsets(offsets)
    ensures |Varint(|offsets|)| <= 10 && base + offsets[0] >= 0 && |Varint(base + offsets[0])| <= 10
  {
    Pow128Values();
    AscendingLength(offsets, SEGMENT_SPAN);
    VarintLength(|offsets|, 10);
    VarintLength(base + offsets[0], 10);
  }

  lemma HeaderBytes(rows: seq<int>)
    requires rows != [] && Ascending(rows) && AreRowids(rows)
    ensures Above(rows[1..], rows[0], true)
    ensures [POSTINGS_FORMAT_VERSION] + Varint(|rows|) + Varint(rows[0]) + DeltaBytes(rows[1..], rows[0])
            == EncodeSorted(rows)
  {
    hide Varint;
    var first := Varint(rows[0]);
    assert DeltaBytes(rows, 0) == first + DeltaBytes(rows[1..], rows[0]);
    ConcatAssociates([POSTINGS_FORMAT_VERSION] + Varint(|rows|), Varint(rows[0]), DeltaBytes(rows[1..], rows[0]));
  }

  lemma DeltaSize(delta: nat)
    requires delta < SEGMENT_SPAN
    ensures |Varint(delta)| <= 3
  {
    Pow128Values();
    VarintLength(delta, 3);
  }

  lemma DeltaStep(rows: seq<int>, i: nat, before: seq<byte>)
    requires 1 <= i < |rows| && Ascending(rows)
    requires Above(rows[i..], rows[i - 1], true)
    ensures Above(rows[i + 1..], rows[i], true) && rows[i] - rows[i - 1] >= 0
    ensures before + Varint(rows[i] - rows[i - 1]) + DeltaBytes(rows[i + 1..], rows[i])
            == before + DeltaBytes(rows[i..], rows[i - 1])
  {
    assert rows[i..][1..] == rows[i + 1..];
    ConcatAssociates(before, Varint(rows[i] - rows[i - 1]), DeltaBytes(rows[i + 1..], rows[i]));
  }

  lemma DeltasDone(rows: seq<int>, blob: seq<byte>)
    requires rows != [] && Ascending(rows)
    ensures blob + DeltaBytes(rows[|rows|..], rows[|rows| - 1]) == blob
  {
    assert rows[|rows|..] == [];
  }

  // ---------------------------------------------------------------------------------------------------------------
  // EncodePostingsFinalize

  function Describe(sorted: seq<int>): Segment
    requires sorted != [] && Ascending(sorted) && AreRowids(sorted)
  {
    Segment(EncodeSorted(sorted), |sorted|, sorted[0], sorted[|sorted| - 1])
  }

  lemma SortedOffsets(base: int, offsets: seq<nat>, sorted: seq<int>, rows: seq<int>)
    requires IsBase(base) && AreOffsets(offsets) && sorted == SortUnique(offsets)
    requires SameElements(Rows(base, offsets), rows)
    ensures forall i :: 0 <= i < |sorted| ==> 0 <= sorted[i] < SEGMENT_SPAN
    ensures SortUnique(rows) == Rows(base, sorted)
    ensures AreRowids(rows) && AreRowids(SortUnique(rows))
    ensures sorted == [] <==> offsets == []
    ensures rows == [] <==> offsets == []
  {
    forall i | 0 <= i < |sorted| ensures 0 <= sorted[i] < SEGMENT_SPAN {
      assert sorted[i] in offsets;
    }
    SortUniqueRows(base, offsets, sorted, rows);
    RowsAreRowids(base, offsets);
    RowsAreRowids(base, sorted);
    var shifted := Rows(base, offsets);
    forall i | 0 <= i < |rows| ensures IsRowid(rows[i]) {
      assert rows[i] in shifted;
    }
    assert offsets != [] ==> offsets[0] in sorted && shifted[0] in rows;
    assert sorted != [] ==> sorted[0] in offsets;
  }

  /** A group no row reached is NULL; any other is its deduplicated set's blob, count, minimum and maximum. */
  method Finalize(state: EncodePostingsState, ghost rows: seq<int>) returns (r: Option<Segment>)
    requires state.Valid() && SameElements(Rows(state.base, state.fed), rows)
    ensures r == Described(rows)
  {
    hide EncodeSorted, SortUnique, SameElements, EncodePostingsState.Listed, EncodePostingsState.Inline;
    state.EmptyIff();
    ghost var expected := SortUnique(state.fed);
    SortedOffsets(state.base, state.fed, expected, rows);
    if state.Empty() {
      return None;
    }
    var offsets := state.ForEachOffset();
    var sorted := SortOffsets(offsets);
    var blob := EncodeSortedOffsets(state.base, sorted);
    return Some(Segment(blob, |sorted|, state.base + sorted[0], state.base + sorted[|sorted| - 1]));
  }

  /** The segment row of a list of rowids, as a function of their set alone. */
  function Described(rows: seq<int>): Option<Segment> {
    if rows == [] || !AreRowids(rows) then None
    else
      SortedAreRowids(rows);
      assert rows[0] in SortUnique(rows);
      Some(Describe(SortUnique(rows)))
  }

  // ---------------------------------------------------------------------------------------------------------------
  // Any tree of updates and combines

  /** How a group's rowids may reach its state: row by row, and by combining partial states either way. */
  datatype Plan =
    | Start
    | Update(plan: Plan, rowid: int)
    | Combine(target: Plan, source: Plan, destructive: bool)

  function Fed(plan: Plan): seq<int> {
    match plan
    case Start => []
    case Update(before, rowid) => Fed(before) + [rowid]
    case Combine(target, source, _) => Fed(target) + Fed(source)
  }

  /** The rows one group may hold: no negative rowid, and one segment. */
  predicate Packable(rows: seq<int>) {
    && AreRowids(rows)
    && forall i, j :: 0 <= i < |rows| && 0 <= j < |rows| ==> SegmentStart(rows[i]) == SegmentStart(rows[j])
  }

  predicate InRange(rows: seq<int>) {
    forall i :: 0 <= i < |rows| ==> rows[i] <= INT64_MAX
  }

  /** A state of these offsets carries exactly these rows. */
  ghost predicate Carries(base: int, fed: seq<nat>, rows: seq<int>) {
    IsBase(base) && AreOffsets(fed) && SameElements(Rows(base, fed), rows)
  }

  lemma CarriedRows(base: int, fed: seq<nat>, rows: seq<int>)
    requires Carries(base, fed, rows)
    ensures fed == [] <==> rows == []
    ensures forall i :: 0 <= i < |rows| ==> IsRowid(rows[i]) && SegmentStart(rows[i]) == base
  {
    var shifted := Rows(base, fed);
    RowsAreRowids(base, fed);
    forall i | 0 <= i < |rows| ensures IsRowid(rows[i]) && SegmentStart(rows[i]) == base {
      assert rows[i] in shifted;
      var j :| 0 <= j < |shifted| && shifted[j] == rows[i];
    }
    var row := (rows + [-1])[0];
    assert row in rows ==> row in shifted;
    assert fed != [] ==> shifted[0] in rows;
  }

  lemma RowsConcat(base: int, a: seq<nat>, b: seq<nat>)
    ensures Rows(base, a + b) == Rows(base, a) + Rows(base, b)
  {
  }

  /** A row joins a state exactly when the longer list is packable, and is then carried. */
  lemma UpdateCarries(base: int, fed: seq<nat>, rows: seq<int>, rowid: int)
    requires Carries(base, fed, rows) && rowid <= INT64_MAX
    ensures Packable(rows + [rowid]) <==> rowid >= 0 && (fed == [] || base == SegmentStart(rowid))
    ensures Packable(rows + [rowid]) ==>
              0 <= rowid - SegmentStart(rowid) < SEGMENT_SPAN
              && Carries(SegmentStart(rowid), fed + [rowid - SegmentStart(rowid)], rows + [rowid])
  {
    CarriedRows(base, fed, rows);
    var all := rows + [rowid];
    assert all[|rows|] == rowid;
    if rowid >= 0 && (fed == [] || base == SegmentStart(rowid)) {
      var start := SegmentStart(rowid);
      RowsConcat(start, fed, [rowid - start]);
      assert Rows(start, [rowid - start]) == [rowid];
    } else if rowid >= 0 {
      assert SegmentStart(all[0]) == base;
    }
  }

  lemma CombineCarries(base: int, fed: seq<nat>, rows: seq<int>, base': int, fed': seq<nat>, rows': seq<int>)
    requires Carries(base, fed, rows) && Carries(base', fed', rows')
    ensures Packable(rows + rows') <==> fed == [] || fed' == [] || base == base'
    ensures Packable(rows + rows') ==>
              var joined := if fed' == [] then base else base';
              Carries(joined, fed + fed', rows + rows') && Carries(joined, fed' + fed, rows + rows')
  {
    CarriedRows(base, fed, rows);
    CarriedRows(base', fed', rows');
    var all := rows + rows';
    if fed == [] || fed' == [] || base == base' {
      var joined := if fed' == [] then base else base';
      RowsConcat(joined, fed, fed');
      RowsConcat(joined, fed', fed);
      assert forall x :: x in all <==> x in rows || x in rows';
    } else {
      assert SegmentStart(all[0]) == base && SegmentStart(all[|rows|]) == base';
    }
  }

  lemma PackableParts(a: seq<int>, b: seq<int>)
    ensures Packable(a + b) ==> Packable(a) && Packable(b)
    ensures InRange(a + b) <==> InRange(a) && InRange(b)
  {
    var all := a + b;
    assert forall i :: 0 <= i < |a| ==> all[i] == a[i];
    assert forall i :: 0 <= i < |b| ==> all[|a| + i] == b[i];
  }

  /** Running a plan. It fails exactly when the rows it feeds cannot share a group. */
  method Run(plan: Plan) returns (state: EncodePostingsState?)
    requires InRange(Fed(plan))
    ensures state != null <==> Packable(Fed(plan))
    ensures state != null ==> fresh(state.Footprint()) && state.Valid() && Carries(state.base, state.fed, Fed(plan))
    decreases plan, 2
  {
    hide Carries, Packable, InRange;
    match plan {
      case Start =>
        state := new EncodePostingsState();
        StartCarries(state.base);
      case Update(_, _) =>
        state := RunUpdate(plan);
      case Combine(_, _, _) =>
        state := RunCombine(plan);
    }
  }

  lemma StartCarries(base: int)
    requires IsBase(base)
    ensures Carries(base, [], []) && Packable([])
  {
  }

  method RunUpdate(plan: Plan) returns (state: EncodePostingsState?)
    requires plan.Update? && InRange(Fed(plan))
    ensures state != null <==> Packable(Fed(plan))
    ensures state != null ==> fresh(state.Footprint()) && state.Valid() && Carries(state.base, state.fed, Fed(plan))
    decreases plan, 0
  {
    hide Carries, Packable, EncodePostingsState.Listed, EncodePostingsState.Inline;
    PackableParts(Fed(plan.plan), [plan.rowid]);
    assert [plan.rowid][0] == plan.rowid;
    state := Run(plan.plan);
    if state == null {
      return null;
    }
    UpdateCarries(state.base, state.fed, Fed(plan.plan), plan.rowid);
    var ok := state.AppendRowid(plan.rowid);
    if !ok {
      return null;
    }
  }

  method RunCombine(plan: Plan) returns (state: EncodePostingsState?)
    requires plan.Combine? && InRange(Fed(plan))
    ensures state != null <==> Packable(Fed(plan))
    ensures state != null ==> fresh(state.Footprint()) && state.Valid() && Carries(state.base, state.fed, Fed(plan))
    decreases plan, 1
  {
    hide Carries, Packable, EncodePostingsState.Valid;
    PackableParts(Fed(plan.target), Fed(plan.source));
    var left, right := RunBoth(plan, plan.target, plan.source);
    if left == null || right == null {
      return null;
    }
    var ok := CombineCarried(left, right, plan.destructive, Fed(plan.target), Fed(plan.source));
    if !ok {
      return null;
    }
    state := left;
  }

  /** The states of two plans share nothing. */
  method RunBoth(ghost whole: Plan, left: Plan, right: Plan)
    returns (state: EncodePostingsState?, source: EncodePostingsState?)
    requires whole.Combine? && whole.target == left && whole.source == right
    requires InRange(Fed(left)) && InRange(Fed(right))
    ensures (state != null <==> Packable(Fed(left))) && (source != null <==> Packable(Fed(right)))
    ensures state != null ==> fresh(state.Footprint()) && state.Valid() && Carries(state.base, state.fed, Fed(left))
    ensures source != null ==>
            fresh(source.Footprint()) && source.Valid() && Carries(source.base, source.fed, Fed(right))
    ensures state != null && source != null ==> state.Footprint() !! source.Footprint()
    decreases whole, 0
  {
    hide Carries, Packable, InRange, EncodePostingsState.Listed, EncodePostingsState.Inline;
    state := Run(left);
    source := Run(right);
  }

  method CombineCarried(state: EncodePostingsState, source: EncodePostingsState, destructive: bool,
                        ghost left: seq<int>, ghost right: seq<int>) returns (ok: bool)
    requires state.Valid() && source.Valid() && state.Footprint() !! source.Footprint()
    requires Carries(state.base, state.fed, left) && Carries(source.base, source.fed, right)
    modifies state.Footprint(), source.Footprint()
    ensures ok <==> Packable(left + right)
    ensures state.Valid() && fresh(state.Footprint() - old(state.Footprint()) - old(source.Footprint()))
    ensures ok ==> Carries(state.base, state.fed, left + right)
  {
    hide Carries, Packable, EncodePostingsState.Listed, EncodePostingsState.Inline;
    CombineCarries(state.base, state.fed, left, source.base, source.fed, right);
    ok := state.Combine(source, destructive);
  }

  /** The aggregate's law. Whatever the order, the repeats, the split among states and the way they combine, a group
      yields byte for byte the blob EncodePostings writes for the rows fed, with their count, minimum and maximum; it
      fails exactly when a row is negative or two rows lie in different segments. */
  method Pack(plan: Plan) returns (ok: bool, segment: Option<Segment>)
    requires InRange(Fed(plan))
    ensures ok <==> Packable(Fed(plan))
    ensures ok ==> segment == Described(Fed(plan))
    ensures ok && Fed(plan) != [] ==> segment.Some? && Encode(Fed(plan)) == Ok(segment.value.postings)
  {
    var state := Run(plan);
    if state == null {
      return false, None;
    }
    segment := Finalize(state, Fed(plan));
    ok := true;
  }
}

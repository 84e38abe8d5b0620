/** What packing leaves in a segments-table row: the blob, count and span of the row's rowids, and that reading them
    back gives the row's rowids again, entry by entry and chunk by chunk. */
module StoredRows {
  import opened Common
  import opened SegmentTable
  import C = Postings
  import K = PackTree
  import U = Unpack

  /** `stored` is what the aggregate returns for the row's group, in whatever order and however often its rowids were
      `fed`. */
  ghost predicate Stores(row: SegmentRow, stored: K.Segment, fed: seq<int>) {
    && (forall x :: x in fed <==> x >= 0 && x in row.rowids)
    && K.Described(fed) == Some(stored)
  }

  lemma StoredDecodes(row: SegmentRow, stored: K.Segment, fed: seq<int>, hwm: int) returns (sorted: seq<int>)
    requires Stores(row, stored, fed) && RowFits(row, hwm)
    ensures sorted != [] && Ascending(sorted) && C.Decode(stored.postings) == Result.Ok(sorted)
    ensures stored == K.Segment(stored.postings, |sorted|, sorted[0], sorted[|sorted| - 1])
    ensures forall x :: x in sorted <==> x >= 0 && x in row.rowids
    ensures InSegmentUpTo(sorted, row.segment, hwm)
  {
    hide SortUnique, C.EncodeSorted, C.Decode;
    sorted := SortUnique(fed);
    C.SortedAreRowids(fed);
    forall i | 0 <= i < |sorted| ensures RowInside(sorted[i], row.segment, hwm) {
      assert sorted[i] in sorted;
      assert SegmentOf(sorted[i]) == row.segment;
    }
    SegmentLength(row.segment, sorted);
    C.DecodeEncodeSorted(sorted);
  }

  // ---------------------------------------------------------------------------------------------------------------
  // What compaction reads back

  /** An input row of the unpack function made from a segments-table row, with or without the columns it checks. */
  ghost predicate Feeds(input: U.InputRow, row: SegmentRow, fed: seq<int>, hwm: int) {
    && input.key == row.key && input.segment == row.segment
    && exists stored :: Stores(row, stored, fed) && FeedsStored(input, row, stored, hwm)
  }

  predicate FeedsStored(input: U.InputRow, row: SegmentRow, stored: K.Segment, hwm: int) {
    && input.blob == stored.postings
    && !input.hasNull
    && (input.descriptor.Some? ==>
          input.descriptor.value
          == U.Descriptor(stored.rowidCount, stored.minRowid, stored.maxRowid, row.generation, hwm))
  }

  lemma FedRowDecodes(input: U.InputRow, row: SegmentRow, fed: seq<int>, hwm: int)
    requires Feeds(input, row, fed, hwm) && RowFits(row, hwm)
    ensures input.key == row.key && U.Decoded(input).Ok?
    ensures forall x :: x in U.Decoded(input).value <==> x >= 0 && x in row.rowids
  {
    hide C.Decode, K.Described;
    var stored :| Stores(row, stored, fed) && FeedsStored(input, row, stored, hwm);
    var sorted := StoredDecodes(row, stored, fed, hwm);
  }

  /** A packed row whose columns were corrupted is refused: with another count, minimum or maximum, no output agrees
      with it. */
  lemma CorruptRowFails(input: U.InputRow, row: SegmentRow, stored: K.Segment, fed: seq<int>, hwm: int)
    requires Stores(row, stored, fed) && RowFits(row, hwm) && input.blob == stored.postings && input.descriptor.Some?
    requires var d := input.descriptor.value;
             d.count != stored.rowidCount || d.low != stored.minRowid || d.high != stored.maxRowid
    ensures !U.Acceptable(input)
  {
    hide C.Decode, K.Described, InSegmentUpTo;
    var sorted := StoredDecodes(row, stored, fed, hwm);
    forall part | U.IsPart(input, part) ensures !U.Agrees(input, part) {
      assert U.RowidsOf(part) == sorted;
    }
  }

  /** And so is one moved to another segment, or read under a mark its rows pass. */
  lemma MisplacedRowFails(input: U.InputRow, row: SegmentRow, stored: K.Segment, fed: seq<int>, hwm: int)
    requires Stores(row, stored, fed) && RowFits(row, hwm) && input.blob == stored.postings && input.descriptor.Some?
    requires input.segment != row.segment || input.descriptor.value.hwm < stored.maxRowid
    ensures !U.Acceptable(input)
  {
    hide C.Decode, K.Described;
    var sorted := StoredDecodes(row, stored, fed, hwm);
    forall part | U.IsPart(input, part) ensures !U.Agrees(input, part) {
      assert U.RowidsOf(part) == sorted;
    }
  }

  /** The (key, rowid) pairs of some output. */
  function PairsOf(out: seq<U.Triple>): Pairs {
    set t | t in out && t.rowid >= 0 :: (t.key, t.rowid)
  }

  /** The chunk holds exactly these rows of the table. */
  ghost predicate Holds(input: seq<U.InputRow>, rows: seq<SegmentRow>, fed: seq<seq<int>>, hwm: int) {
    && |rows| == |input| == |fed|
    && forall i :: 0 <= i < |input| ==> Feeds(input[i], rows[i], fed[i], hwm) && RowFits(rows[i], hwm)
  }

  function RowSet(rows: seq<SegmentRow>): set<SegmentRow> {
    set row | row in rows
  }

  /** Read as pairs, the triples of a chunk's rows are what those rows post. */
  lemma {:induction false} TriplesArePostings(input: seq<U.InputRow>, rows: seq<SegmentRow>, fed: seq<seq<int>>,
                                              hwm: int, n: nat)
    requires Holds(input, rows, fed, hwm) && n <= |input|
    ensures U.RowsDecode(input, n) && PairsOf(U.AllTriples(input, n)) == Postings(RowSet(rows[..n]))
  {
    hide U.Decoded, RowFits, Feeds, PairsOf, Postings, RowSet, U.RowTriples;
    if n == 0 {
      assert PairsOf([]) == Postings(RowSet([])) by { NoPairs(); }
    } else {
      TriplesArePostings(input, rows, fed, hwm, n - 1);
      FedRowDecodes(input[n - 1], rows[n - 1], fed[n - 1], hwm);
      RowPairs(input[n - 1], rows[n - 1]);
      assert rows[..n] == rows[..n - 1] + [rows[n - 1]];
      RowSetSnoc(rows[..n - 1], rows[n - 1]);
      PostingsUnion(RowSet(rows[..n - 1]), {rows[n - 1]});
      PairsConcat(U.AllTriples(input, n - 1), U.RowTriples(input[n - 1]));
    }
  }

  lemma NoPairs()
    ensures PairsOf([]) == Postings(RowSet([]))
  {
  }

  lemma RowSetSnoc(rows: seq<SegmentRow>, row: SegmentRow)
    ensures RowSet(rows + [row]) == RowSet(rows) + {row}
  {
  }

  lemma PairsConcat(a: seq<U.Triple>, b: seq<U.Triple>)
    ensures PairsOf(a + b) == PairsOf(a) + PairsOf(b)
  {
  }

  lemma RowPairs(input: U.InputRow, row: SegmentRow)
    requires input.key == row.key && U.Decoded(input).Ok?
    requires forall x :: x in U.Decoded(input).value <==> x >= 0 && x in row.rowids
    ensures PairsOf(U.RowTriples(input)) == Postings({row})
  {
    hide U.Decoded;
    var rowids := U.Decoded(input).value;
    var out := U.RowTriples(input);
    forall p ensures p in PairsOf(out) <==> p in Postings({row}) {
      if p in Postings({row}) {
        var r: int := p.1;
        assert r in rowids;
        var i :| 0 <= i < |rowids| && rowids[i] == r;
        assert out[i] == U.Triple(input.key, input.segment, r);
        assert out[i] in out;
      }
      if p in PairsOf(out) {
        var t :| t in out && t.rowid >= 0 && p == (t.key, t.rowid);
        var i :| 0 <= i < |out| && out[i] == t;
        assert rowids[i] in rowids;
      }
    }
  }

  /** Wherever the resumable unpack stops within a chunk, its outputs together are the pairs the chunk's rows post. */
  method UnpackRows(state: U.UnpackPostingsLocalState, input: seq<U.InputRow>,
                    ghost rows: seq<SegmentRow>, ghost fed: seq<seq<int>>, ghost hwm: int)
    returns (out: seq<U.Triple>)
    requires state.AtStart() && Holds(input, rows, fed, hwm)
    modifies state
    ensures state.AtStart() && PairsOf(out) == Postings(RowSet(rows))
  {
    hide PairsOf, Postings, RowSet, Feeds, RowFits;
    TriplesArePostings(input, rows, fed, hwm, |input|);
    assert rows[..|input|] == rows;
    var status;
    ghost var parts;
    out, status, parts := U.UnpackChunk(state, input);
  }

  ghost predicate AllHold(chunks: seq<seq<U.InputRow>>, rows: seq<seq<SegmentRow>>, fed: seq<seq<seq<int>>>, hwm: int) {
    |chunks| == |rows| == |fed| && forall i :: 0 <= i < |chunks| ==> Holds(chunks[i], rows[i], fed[i], hwm)
  }

  /** However the fragmented rows are cut into chunks, and wherever unpacking a chunk stops, packing what it output is
      what a merge writes for them: every key's postings stay as they were. */
  method Repack(chunks: seq<seq<U.InputRow>>, ghost rows: seq<seq<SegmentRow>>, ghost fed: seq<seq<seq<int>>>,
                ghost hwm: int, ghost table: set<SegmentRow>)
    returns (out: seq<U.Triple>)
    requires AllHold(chunks, rows, fed, hwm) && RowSet(Flatten(rows)) == Split(table)
    ensures PairsOf(out) == Postings(Split(table))
    ensures Merge(table) == Packed(PairsOf(out), 0) + Kept(table)
    ensures Postings(Packed(PairsOf(out), 0) + Kept(table)) == Postings(table)
  {
    hide Holds, PairsOf, Postings, RowSet, Packed, Split, Kept, Flatten;
    var state := new U.UnpackPostingsLocalState();
    out := [];
    NothingYet();
    for i := 0 to |chunks|
      invariant fresh(state) && state.AtStart() && PairsOf(out) == Postings(RowSet(Flatten(rows[..i])))
    {
      var more := UnpackRows(state, chunks[i], rows[i], fed[i], hwm);
      MoreRows(rows, i);
      PairsConcat(out, more);
      out := out + more;
    }
    assert rows[..|chunks|] == rows;
    MergePreserves(table);
  }

  lemma NothingYet()
    ensures PairsOf([]) == Postings(RowSet(Flatten([])))
  {
    NoPairs();
  }

  lemma MoreRows(rows: seq<seq<SegmentRow>>, i: nat)
    requires i < |rows|
    ensures Postings(RowSet(Flatten(rows[..i + 1]))) == Postings(RowSet(Flatten(rows[..i]))) + Postings(RowSet(rows[i]))
  {
    hide Postings, Flatten;
    assert rows[..i + 1] == rows[..i] + [rows[i]];
    FlattenSnoc(rows[..i], rows[i]);
    assert RowSet(Flatten(rows[..i]) + rows[i]) == RowSet(Flatten(rows[..i])) + RowSet(rows[i]);
    PostingsUnion(RowSet(Flatten(rows[..i])), RowSet(rows[i]));
  }
}

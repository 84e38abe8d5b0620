/** The segments table as a relation: which rowids each row posts under its key, how pairs are packed into rows, and how
    compaction merges them. */
module SegmentTable {
  import opened Common

  function SegmentOf(rowid: nat): nat {
    rowid / SEGMENT_SPAN
  }

  datatype SegmentRow = SegmentRow(key: int, segment: nat, generation: nat, rowids: set<nat>)

  /** (gram key, rowid) pairs. */
  type Pairs = set<(int, nat)>

  /** Everything the rows post. */
  function Postings(rows: set<SegmentRow>): Pairs {
    set row, r | row in rows && r in row.rowids :: (row.key, r)
  }

  lemma InPostings(rows: set<SegmentRow>, row: SegmentRow, r: nat)
    requires row in rows && r in row.rowids
    ensures (row.key, r) in Postings(rows)
  {
  }

  lemma PostingsUnion(a: set<SegmentRow>, b: set<SegmentRow>)
    ensures Postings(a + b) == Postings(a) + Postings(b)
  {
  }

  // ---------------------------------------------------------------------------------------------------------------
  // Packing

  /** One (key, segment) group of the pair stream. */
  function Group(pairs: Pairs, key: int, segment: nat): set<nat> {
    set p | p in pairs && p.0 == key && SegmentOf(p.1) == segment :: p.1
  }

  function PackedRow(pairs: Pairs, key: int, segment: nat, generation: nat): SegmentRow {
    SegmentRow(key, segment, generation, Group(pairs, key, segment))
  }

  /** One row per group, as ngram_pack_segment under GROUP BY gram_key, segment_no writes them. */
  function Packed(pairs: Pairs, generation: nat): set<SegmentRow> {
    set p | p in pairs :: PackedRow(pairs, p.0, SegmentOf(p.1), generation)
  }

  lemma InPacked(pairs: Pairs, generation: nat, p: (int, nat))
    requires p in pairs
    ensures PackedRow(pairs, p.0, SegmentOf(p.1), generation) in Packed(pairs, generation)
    ensures p.1 in Group(pairs, p.0, SegmentOf(p.1))
  {
  }

  /** Packing posts exactly the pairs. */
  lemma PackedPosts(pairs: Pairs, generation: nat)
    ensures Postings(Packed(pairs, generation)) == pairs
  {
    forall p ensures p in Postings(Packed(pairs, generation)) <==> p in pairs {
      if p in pairs {
        InPacked(pairs, generation, p);
        InPostings(Packed(pairs, generation), PackedRow(pairs, p.0, SegmentOf(p.1), generation), p.1);
      }
    }
  }

  /** Rows of one generation never share a key and segment. */
  predicate OnePerGeneration(rows: set<SegmentRow>) {
    forall a, b ::
      a in rows && b in rows && a.key == b.key && a.segment == b.segment && a.generation == b.generation ==> a == b
  }

  /** No two rows of a key post the same rowid. */
  predicate PostedOnce(rows: set<SegmentRow>) {
    forall a, b :: a in rows && b in rows && a.key == b.key && a != b ==> a.rowids !! b.rowids
  }

  /** Each row posts something, only rowids of its own segment, none past the mark, and none another row of its key
      posts. */
  predicate WellFormed(rows: set<SegmentRow>, hwm: int) {
    && OnePerGeneration(rows) && PostedOnce(rows)
    && forall row :: row in rows ==> RowFits(row, hwm)
  }

  predicate RowFits(row: SegmentRow, hwm: int) {
    row.rowids != {} && forall r :: r in row.rowids ==> SegmentOf(r) == row.segment && r <= hwm
  }

  lemma PackedFits(pairs: Pairs, generation: nat, hwm: int)
    requires forall p :: p in pairs ==> p.1 <= hwm
    ensures WellFormed(Packed(pairs, generation), hwm)
    ensures forall row :: row in Packed(pairs, generation) ==> row.generation == generation
  {
    forall row | row in Packed(pairs, generation) ensures RowFits(row, hwm) {
      var q :| q in pairs && row == PackedRow(pairs, q.0, SegmentOf(q.1), generation);
      assert q.1 in row.rowids;
    }
    OneRowPosts(Packed(pairs, generation), hwm);
  }

  predicate OnePerKey(rows: set<SegmentRow>) {
    forall a, b :: a in rows && b in rows && a.key == b.key && a.segment == b.segment ==> a == b
  }

  /** One row per key and segment posts nothing twice. */
  lemma OneRowPosts(rows: set<SegmentRow>, hwm: int)
    requires OnePerKey(rows) && forall row :: row in rows ==> RowFits(row, hwm)
    ensures PostedOnce(rows)
  {
    hide RowFits;
    forall a, b | a in rows && b in rows && a.key == b.key && a != b ensures a.rowids !! b.rowids {
      SegmentsApart(a, b, hwm);
    }
  }

  lemma SegmentsApart(a: SegmentRow, b: SegmentRow, hwm: int)
    requires RowFits(a, hwm) && RowFits(b, hwm) && a.segment != b.segment
    ensures a.rowids !! b.rowids
  {
    forall r | r in a.rowids ensures r !in b.rowids {
      assert SegmentOf(r) == a.segment;
    }
  }

  // ---------------------------------------------------------------------------------------------------------------
  // Compaction

  function Sharing(rows: set<SegmentRow>, key: int, segment: nat): set<SegmentRow> {
    set row | row in rows && row.key == key && row.segment == segment
  }

  /** A (key, segment) held by more than one row. */
  predicate Fragmented(rows: set<SegmentRow>, row: SegmentRow) {
    |Sharing(rows, row.key, row.segment)| > 1
  }

  /** The rows a merge packs again, and the ones it only renumbers. */
  function Split(rows: set<SegmentRow>): set<SegmentRow> {
    set row | row in rows && Fragmented(rows, row)
  }

  function Kept(rows: set<SegmentRow>): set<SegmentRow> {
    set row | row in rows && !Fragmented(rows, row) :: row.(generation := 0)
  }

  /** The fragmented keys' rows are decoded and packed again; every other row joins generation 0. */
  function Merge(rows: set<SegmentRow>): set<SegmentRow> {
    Packed(Postings(Split(rows)), 0) + Kept(rows)
  }

  /** Two generations mean fragmentation cannot be excluded; so do missing statistics, statistics wider than the rows,
      and rows this transaction appended, which `uncertain` stands for. */
  predicate MayHoldFragmentedKeys(rows: set<SegmentRow>, uncertain: bool) {
    uncertain || exists a, b :: a in rows && b in rows && a.generation != b.generation
  }

  function Compact(rows: set<SegmentRow>, uncertain: bool): set<SegmentRow> {
    if MayHoldFragmentedKeys(rows, uncertain) then Merge(rows) else rows
  }

  /** Purging rewrites every key and keeps the rowids live in the snapshot. */
  function Purge(rows: set<SegmentRow>, live: set<nat>): set<SegmentRow> {
    Packed(set p | p in Postings(rows) && p.1 in live, 0)
  }

  lemma SharesKey(rows: set<SegmentRow>, a: SegmentRow, b: SegmentRow)
    requires a in rows && b in rows && a.key == b.key && a.segment == b.segment && a != b
    ensures Fragmented(rows, a)
  {
    var sharing := Sharing(rows, a.key, a.segment);
    assert {a, b} <= sharing && |{a, b}| == 2;
    assert sharing == {a, b} + (sharing - {a, b});
  }

  /** A table of one generation is not fragmented: skipping it loses nothing. */
  lemma OneGeneration(rows: set<SegmentRow>, hwm: int)
    requires WellFormed(rows, hwm) && !MayHoldFragmentedKeys(rows, false)
    ensures OnePerKey(rows)
  {
  }

  lemma RowSegment(rows: set<SegmentRow>, hwm: int, row: SegmentRow, r: nat)
    requires WellFormed(rows, hwm) && row in rows && r in row.rowids
    ensures SegmentOf(r) == row.segment && r <= hwm
  {
    assert RowFits(row, hwm);
  }

  /** Merge-only compaction preserves every key's posting set. */
  lemma MergePreserves(rows: set<SegmentRow>)
    ensures Postings(Merge(rows)) == Postings(rows)
  {
    hide Fragmented, Packed;
    var split, kept := Split(rows), Kept(rows);
    var whole := set row | row in rows && !Fragmented(rows, row);
    PackedPosts(Postings(split), 0);
    PostingsUnion(Packed(Postings(split), 0), kept);
    PostingsUnion(split, whole);
    assert split + whole == rows;
    assert Postings(kept) == Postings(whole) by { RenumberedPosts(whole, kept); }
  }

  lemma RenumberedPosts(whole: set<SegmentRow>, kept: set<SegmentRow>)
    requires kept == set row | row in whole :: row.(generation := 0)
    ensures Postings(kept) == Postings(whole)
  {
    forall p ensures p in Postings(kept) <==> p in Postings(whole) {
      if p in Postings(whole) {
        var row :| row in whole && p.0 == row.key && p.1 in row.rowids;
        InPostings(kept, row.(generation := 0), p.1);
      }
    }
  }

  /** A packed row's key and segment are those of a fragmented row. */
  lemma PackedIsFragmented(rows: set<SegmentRow>, hwm: int, a: SegmentRow)
    requires WellFormed(rows, hwm) && a in Packed(Postings(Split(rows)), 0)
    ensures |Sharing(rows, a.key, a.segment)| > 1
  {
    hide Group, OnePerGeneration;
    var pairs := Postings(Split(rows));
    var p :| p in pairs && a == PackedRow(pairs, p.0, SegmentOf(p.1), 0);
    var row :| row in Split(rows) && p.0 == row.key && p.1 in row.rowids;
    RowSegment(rows, hwm, row, p.1);
  }

  lemma KeptRow(rows: set<SegmentRow>, b: SegmentRow) returns (row: SegmentRow)
    requires b in Kept(rows)
    ensures row in rows && !Fragmented(rows, row) && b == row.(generation := 0)
  {
    hide Fragmented;
    row :| row in rows && !Fragmented(rows, row) && b == row.(generation := 0);
  }

  lemma PostingsBelow(rows: set<SegmentRow>, hwm: int)
    requires WellFormed(rows, hwm)
    ensures forall p :: p in Postings(Split(rows)) ==> p.1 <= hwm
  {
    hide Fragmented, OnePerGeneration;
    forall p | p in Postings(Split(rows)) ensures p.1 <= hwm {
      var row :| row in Split(rows) && p.0 == row.key && p.1 in row.rowids;
      RowSegment(rows, hwm, row, p.1);
    }
  }

  /** A merge leaves one row per (key, segment), all at generation 0. */
  lemma MergeDefragments(rows: set<SegmentRow>, hwm: int)
    requires WellFormed(rows, hwm)
    ensures OnePerKey(Merge(rows)) && WellFormed(Merge(rows), hwm)
    ensures forall row :: row in Merge(rows) ==> row.generation == 0
  {
    PostingsBelow(rows, hwm);
    PackedFits(Postings(Split(rows)), 0, hwm);
    hide Packed, Kept, Split, Fragmented;
    forall a, b | a in Merge(rows) && b in Merge(rows) && a.key == b.key && a.segment == b.segment ensures a == b {
      MergeDistinct(rows, hwm, a, b);
    }
    forall b | b in Kept(rows) ensures b.generation == 0 && RowFits(b, hwm) {
      var row := KeptRow(rows, b);
      assert RowFits(row, hwm);
    }
    OneRowPosts(Merge(rows), hwm);
  }

  lemma MergeDistinct(rows: set<SegmentRow>, hwm: int, a: SegmentRow, b: SegmentRow)
    requires WellFormed(rows, hwm) && a in Merge(rows) && b in Merge(rows) && a.key == b.key && a.segment == b.segment
    ensures a == b
  {
    PostingsBelow(rows, hwm);
    PackedFits(Postings(Split(rows)), 0, hwm);
    hide Packed, Kept, Split, Sharing;
    if a in Kept(rows) {
      var x := KeptRow(rows, a);
      if b in Kept(rows) {
        var y := KeptRow(rows, b);
        if x != y {
          SharesKey(rows, x, y);
        }
      } else {
        PackedIsFragmented(rows, hwm, b);
      }
    } else {
      PackedIsFragmented(rows, hwm, a);
      if b in Kept(rows) {
        var y := KeptRow(rows, b);
      }
    }
  }

  /** Merging what holds one row per key, all at generation 0, changes nothing. */
  lemma MergeIdempotent(rows: set<SegmentRow>)
    requires OnePerKey(rows) && forall row :: row in rows ==> row.generation == 0
    ensures Merge(rows) == rows
  {
    forall row | row in rows ensures !Fragmented(rows, row) {
      assert Sharing(rows, row.key, row.segment) == {row};
    }
    assert Split(rows) == {};
    hide Fragmented;
    assert Postings({}) == {} && Packed({}, 0) == {};
    assert Kept(rows) == rows by {
      forall row | row in rows ensures row in Kept(rows) {
        assert row.(generation := 0) == row;
      }
    }
  }

  predicate AllOf(rows: set<SegmentRow>, generation: nat) {
    forall row :: row in rows ==> row.generation == generation
  }

  /** What ngram_compact keeps and leaves: every key's posting set, one row per (key, segment) and one generation, which
      is 0 exactly when the call merged or every row was at 0 before it; a call that merges nothing changes nothing, and
      neither does calling it again. */
  lemma Compaction(rows: set<SegmentRow>, hwm: int, uncertain: bool)
    requires WellFormed(rows, hwm)
    ensures var after := Compact(rows, uncertain);
            && Postings(after) == Postings(rows) && OnePerKey(after) && WellFormed(after, hwm)
            && (AllOf(after, 0) <==> MayHoldFragmentedKeys(rows, uncertain) || AllOf(rows, 0))
            && (exists g: nat :: AllOf(after, g))
            && (!MayHoldFragmentedKeys(rows, uncertain) ==> after == rows)
            && Compact(after, false) == after
            && (AllOf(after, 0) ==> Compact(after, true) == after)
  {
    hide Merge, Postings;
    if MayHoldFragmentedKeys(rows, uncertain) {
      MergePreserves(rows);
      MergeDefragments(rows, hwm);
      MergeIdempotent(Merge(rows));
      assert AllOf(Merge(rows), 0);
    } else {
      OneGeneration(rows, hwm);
      var g := TheGeneration(rows);
      if AllOf(rows, 0) {
        MergeIdempotent(rows);
      }
    }
  }

  lemma TheGeneration(rows: set<SegmentRow>) returns (g: nat)
    requires !MayHoldFragmentedKeys(rows, false)
    ensures AllOf(rows, g)
  {
    if rows == {} {
      g := 0;
    } else {
      var row :| row in rows;
      g := row.generation;
    }
  }

  /** Purging keeps exactly the live postings, one row per (key, segment) at generation 0. */
  lemma PurgeKeepsLive(rows: set<SegmentRow>, hwm: int, live: set<nat>)
    requires WellFormed(rows, hwm)
    ensures Postings(Purge(rows, live)) == set p | p in Postings(rows) && p.1 in live
    ensures OnePerKey(Purge(rows, live)) && WellFormed(Purge(rows, live), hwm) && AllOf(Purge(rows, live), 0)
  {
    hide Packed;
    var kept := set p | p in Postings(rows) && p.1 in live;
    forall p | p in kept ensures p.1 <= hwm {
      var row :| row in rows && p.0 == row.key && p.1 in row.rowids;
      RowSegment(rows, hwm, row, p.1);
    }
    PackedPosts(kept, 0);
    PackedFits(kept, 0, hwm);
  }
}

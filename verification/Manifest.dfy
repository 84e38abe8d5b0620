/** What a probe's manifest lists of an index: one entry for each segments-table row of a probed key, with the blob,
    count and span that packing the row's rowids wrote. From a well-formed table, planning and decoding never meet a
    malformed index. */
module Manifest {
  import opened Common
  import opened Postings
  import opened Probe
  import opened AdmitSegments
  import opened ProbeDecode
  import opened ProbeRun
  import T = SegmentTable
  import K = PackTree
  import W = StoredRows

  /** A segments-table row of one probed gram; `fed` is a list of the rowids its group was fed, in any order, with any
      repeats. */
  datatype Source = Source(row: T.SegmentRow, gram: nat, fed: seq<int>)

  /** The entry is what packing the row's rowids stored. */
  ghost predicate IsEntry(d: Descriptor, source: Source) {
    && d.segment == source.row.segment && d.gram == source.gram
    && W.Stores(source.row, K.Segment(d.blob, d.count, d.low, d.high), source.fed)
  }

  /** `from` says which row of which key each entry lists: rows of the probed keys, each once per gram. */
  ghost predicate Lists(ds: seq<Descriptor>, from: seq<Source>, keys: seq<int>, rows: set<T.SegmentRow>) {
    && |from| == |ds| && Sorted(ds)
    && (forall i :: 0 <= i < |ds| ==> Listed(ds[i], from[i], keys, rows))
    && (forall i, j :: 0 <= i < j < |from| ==> from[i].row != from[j].row || from[i].gram != from[j].gram)
    && forall row, g :: row in rows && 0 <= g < |keys| && row.key == keys[g] ==> HasEntry(from, row, g)
  }

  ghost predicate Listed(d: Descriptor, source: Source, keys: seq<int>, rows: set<T.SegmentRow>) {
    source.gram < |keys| && source.row in rows && source.row.key == keys[source.gram] && IsEntry(d, source)
  }

  predicate HasEntry(from: seq<Source>, row: T.SegmentRow, g: nat) {
    exists i :: 0 <= i < |from| && from[i].row == row && from[i].gram == g
  }

  // ---------------------------------------------------------------------------------------------------------------
  // One entry

  /** An entry's blob decodes to the row's rowids, and its count and span are theirs. */
  lemma EntryIsHonest(d: Descriptor, source: Source, hwm: int)
    requires IsEntry(d, source) && T.RowFits(source.row, hwm)
    ensures Honest(d) && ValidDescriptor(d, hwm)
    ensures forall x :: x in Rows(d) <==> x >= 0 && x in source.row.rowids
  {
    hide Decode, W.Stores;
    var sorted := W.StoredDecodes(source.row, K.Segment(d.blob, d.count, d.low, d.high), source.fed, hwm);
    WithinSpan(sorted, sorted[0], sorted[|sorted| - 1]);
  }

  /** A stored blob under an entry with another count, minimum or maximum is refused with its whole gram. */
  lemma CorruptEntryFails(list: seq<Descriptor>, i: nat, row: T.SegmentRow, stored: K.Segment, fed: seq<int>,
                          segment: nat, hwm: int)
    requires i < |list| && W.Stores(row, stored, fed) && T.RowFits(row, hwm) && list[i].blob == stored.postings
    requires list[i].count != stored.rowidCount || list[i].low != stored.minRowid || list[i].high != stored.maxRowid
    ensures !Decodable(list, segment, hwm)
  {
    hide Decode, W.Stores, AllRows, InSegmentUpTo;
    var sorted := W.StoredDecodes(row, stored, fed, hwm);
    assert Rows(list[i]) == sorted;
  }

  /** So is a gram two of whose entries post one rowid. */
  lemma {:induction false} SharedRowidFails(list: seq<Descriptor>, i: nat, j: nat, x: int)
    requires i < j < |list| && x in Rows(list[i]) && x in Rows(list[j])
    ensures !NoRepeats(AllRows(list))
  {
    hide Rows;
    var front, last := list[..|list| - 1], list[|list| - 1];
    var before := AllRows(front);
    if j < |list| - 1 {
      SharedRowidFails(front, i, j, x);
      var k, l :| 0 <= k < l < |before| && before[k] == before[l];
      assert AllRows(list)[k] == AllRows(list)[l];
    } else {
      assert front[i] == list[i];
      InAllRows(front, list[i], x);
      var k :| 0 <= k < |before| && before[k] == x;
      var l :| 0 <= l < |Rows(last)| && Rows(last)[l] == x;
      assert AllRows(list)[k] == x == AllRows(list)[|before| + l];
    }
  }

  /** And so is one with a rowid of another segment, or past the mark. */
  lemma StrayRowidFails(list: seq<Descriptor>, i: nat, x: int, segment: nat, hwm: int)
    requires i < |list| && x in Rows(list[i])
    requires x < segment * SEGMENT_SPAN || x >= (segment + 1) * SEGMENT_SPAN || x > hwm
    ensures !Decodable(list, segment, hwm)
  {
    hide Rows, Honest, AllRows, NoRepeats;
    InAllRows(list, list[i], x);
    var k :| 0 <= k < |AllRows(list)| && AllRows(list)[k] == x;
  }

  lemma ListedFits(d: Descriptor, source: Source, keys: seq<int>, rows: set<T.SegmentRow>, hwm: int)
    requires Listed(d, source, keys, rows) && T.WellFormed(rows, hwm)
    ensures Honest(d) && ValidDescriptor(d, hwm) && d.gram < |keys|
    ensures forall x :: x in Rows(d) <==> x >= 0 && x in source.row.rowids
  {
    hide T.OnePerGeneration, T.PostedOnce, T.RowFits, Honest, ValidDescriptor, Rows, W.Stores;
    assert T.RowFits(source.row, hwm);
    EntryIsHonest(d, source, hwm);
  }

  // ---------------------------------------------------------------------------------------------------------------
  // The whole manifest

  /** A manifest of a well-formed table passes every check of the planner. */
  lemma ManifestIsHonest(ds: seq<Descriptor>, from: seq<Source>, keys: seq<int>, rows: set<T.SegmentRow>, hwm: int)
    requires Lists(ds, from, keys, rows) && T.WellFormed(rows, hwm)
    ensures AllHonest(ds, |keys|) && AllValid(ds, hwm) && GramsBelow(ds, |keys|)
  {
    hide Listed, Honest, ValidDescriptor, T.WellFormed, Sorted;
    forall i | 0 <= i < |ds| ensures Honest(ds[i]) && ValidDescriptor(ds[i], hwm) && ds[i].gram < |keys| {
      ListedFits(ds[i], from[i], keys, rows, hwm);
    }
  }

  /** Whatever a row of a probed key posts, some entry of that gram and segment lists. */
  lemma PostingIsListed(ds: seq<Descriptor>, from: seq<Source>, keys: seq<int>, rows: set<T.SegmentRow>, hwm: int,
                        row: T.SegmentRow, g: nat, r: nat)
    requires Lists(ds, from, keys, rows) && T.WellFormed(rows, hwm)
    requires row in rows && g < |keys| && row.key == keys[g] && r in row.rowids
    ensures SegmentPosted(ds, g, row.segment, r)
  {
    hide Honest, ValidDescriptor, T.WellFormed, Sorted, Rows, W.Stores;
    assert HasEntry(from, row, g);
    var i :| 0 <= i < |from| && from[i].row == row && from[i].gram == g;
    ListedFits(ds[i], from[i], keys, rows, hwm);
  }

  /** Entries of one gram share no rowid. */
  predicate Separate(ds: seq<Descriptor>) {
    forall i, j :: 0 <= i < j < |ds| && ds[i].gram == ds[j].gram ==> Disjoint(Rows(ds[i]), Rows(ds[j]))
  }

  predicate Disjoint(a: seq<int>, b: seq<int>) {
    forall i :: 0 <= i < |a| ==> a[i] !in b
  }

  lemma ManifestIsSeparate(ds: seq<Descriptor>, from: seq<Source>, keys: seq<int>, rows: set<T.SegmentRow>, hwm: int)
    requires Lists(ds, from, keys, rows) && T.WellFormed(rows, hwm)
    ensures Separate(ds)
  {
    hide Honest, ValidDescriptor, T.RowFits, Sorted, Rows, W.Stores, Disjoint, IsEntry;
    forall i, j | 0 <= i < j < |ds| && ds[i].gram == ds[j].gram ensures Disjoint(Rows(ds[i]), Rows(ds[j])) {
      assert Listed(ds[i], from[i], keys, rows) && Listed(ds[j], from[j], keys, rows);
      SameGram(ds[i], from[i], ds[j], from[j]);
      ListedFits(ds[i], from[i], keys, rows, hwm);
      ListedFits(ds[j], from[j], keys, rows, hwm);
      RowsApart(ds[i], ds[j], from[i].row.rowids, from[j].row.rowids);
    }
  }

  lemma SameGram(a: Descriptor, from: Source, b: Descriptor, from': Source)
    requires IsEntry(a, from) && IsEntry(b, from') && a.gram == b.gram
    ensures from.gram == from'.gram
  {
  }

  lemma RowsApart(a: Descriptor, b: Descriptor, x: set<nat>, y: set<nat>)
    requires x !! y
    requires (forall r :: r in Rows(a) <==> r >= 0 && r in x) && (forall r :: r in Rows(b) <==> r >= 0 && r in y)
    ensures Disjoint(Rows(a), Rows(b))
  {
    hide Rows;
    forall i | 0 <= i < |Rows(a)| ensures Rows(a)[i] !in Rows(b) {
      assert Rows(a)[i] in Rows(a);
      var r: nat := Rows(a)[i];
      assert r in x && r !in y;
    }
  }

  lemma SeparateSlice(ds: seq<Descriptor>, begin: nat, end: nat)
    requires Separate(ds) && begin <= end <= |ds|
    ensures Separate(ds[begin..end])
  {
    hide Disjoint, Rows;
  }

  /** A gram's entries, read generation after generation, repeat no rowid. */
  lemma {:induction false} GramRepeatsNothing(group: seq<Descriptor>, gram: nat)
    requires Separate(group) && forall i :: 0 <= i < |group| ==> Honest(group[i])
    ensures NoRepeats(AllRows(OfGram(group, gram)))
  {
    hide Rows, Honest;
    if group != [] {
      var front, last := group[..|group| - 1], group[|group| - 1];
      GramRepeatsNothing(front, gram);
      if last.gram == gram {
        var list := OfGram(front, gram);
        assert (list + [last])[..|list|] == list;
        EntryAscends(last);
        forall x | x in AllRows(list) ensures x !in Rows(last) {
          OtherRow(group, gram, x);
        }
        JoinedNoRepeats(AllRows(list), Rows(last));
      } else {
        assert OfGram(front, gram) + [] == OfGram(front, gram);
      }
    }
  }

  lemma EntryAscends(d: Descriptor)
    requires Honest(d)
    ensures NoRepeats(Rows(d))
  {
  }

  lemma OtherRow(group: seq<Descriptor>, gram: nat, x: int)
    requires Separate(group) && group != [] && group[|group| - 1].gram == gram
    requires x in AllRows(OfGram(group[..|group| - 1], gram))
    ensures x !in Rows(group[|group| - 1])
  {
    hide Rows, AllRows, OfGram;
    var front := group[..|group| - 1];
    OfGramMembers(front, gram);
    var d := RowsEntry(OfGram(front, gram), x);
    assert d in front;
    var i :| 0 <= i < |front| && front[i] == d;
    assert group[i] == d && Disjoint(Rows(group[i]), Rows(group[|group| - 1]));
  }

  /** A row of a list of entries is a row of one of them. */
  lemma {:induction false} RowsEntry(list: seq<Descriptor>, x: int) returns (d: Descriptor)
    requires x in AllRows(list)
    ensures d in list && x in Rows(d)
  {
    hide Rows;
    var last := list[|list| - 1];
    d := last;
    if x !in Rows(last) {
      d := RowsEntry(list[..|list| - 1], x);
    }
  }

  lemma JoinedNoRepeats(a: seq<int>, b: seq<int>)
    requires NoRepeats(a) && NoRepeats(b) && forall x :: x in a ==> x !in b
    ensures NoRepeats(a + b)
  {
    var all := a + b;
    forall i, j | 0 <= i < j < |all| ensures all[i] != all[j] {
      if i < |a| <= j {
        assert all[i] in a && all[j] == b[j - |a|];
      }
    }
  }

  // ---------------------------------------------------------------------------------------------------------------
  // Nothing is malformed

  /** Every admitted gram of every segment decodes. */
  lemma GroupDecodes(ds: seq<Descriptor>, n: nat, begin: nat, end: nat, segment: nat, gram: nat, hwm: int)
    requires AllHonest(ds, n) && AllValid(ds, hwm) && Separate(ds) && IsRun(ds, begin, end, segment)
    ensures OfGram(ds[begin..end], gram) != [] ==> Decodable(OfGram(ds[begin..end], gram), segment, hwm)
    ensures CountOf(OfGram(ds[begin..end], gram)) == |AllRows(OfGram(ds[begin..end], gram))|
    ensures NoRepeats(AllRows(OfGram(ds[begin..end], gram)))
            && InSegmentUpTo(AllRows(OfGram(ds[begin..end], gram)), segment, hwm)
  {
    hide Honest, Rows, NoRepeats, AllRows, OfGram, Separate, CountOf, ValidDescriptor, InSegmentUpTo;
    var group := ds[begin..end];
    HonestSlice(ds, n, begin, end);
    SeparateSlice(ds, begin, end);
    GramRepeatsNothing(group, gram);
    OfGramMembers(group, gram);
    var list := OfGram(group, gram);
    forall d | d in list ensures Honest(d) && ValidDescriptor(d, hwm) && d.segment == segment {
      assert d in group;
      var i :| 0 <= i < |group| && group[i] == d;
      assert ds[begin + i] == d;
    }
    AllRowsLength(list);
    AllRowsInside(list, segment, hwm);
  }

  lemma AllRowsInside(list: seq<Descriptor>, segment: nat, hwm: int)
    requires forall d :: d in list ==> Honest(d) && ValidDescriptor(d, hwm) && d.segment == segment
    ensures InSegmentUpTo(AllRows(list), segment, hwm)
  {
    hide Honest, Rows, AllRows;
    var rows := AllRows(list);
    forall i | 0 <= i < |rows| ensures RowInside(rows[i], segment, hwm) {
      var d := RowsEntry(list, rows[i]);
      HonestSpan(d, rows[i]);
    }
  }

  /** No gram claims more postings than its segment has rows up to the mark. */
  lemma ManifestFits(ds: seq<Descriptor>, n: nat, hwm: int)
    requires AllHonest(ds, n) && AllValid(ds, hwm) && Separate(ds)
    ensures !Overfull(ds, hwm)
  {
    hide Honest, AllHonest, AllValid, Separate, OfGram, CountOf, IsRun, Capacity, ValidDescriptor;
    forall begin: nat, end: nat, segment: nat, gram: nat | IsRun(ds, begin, end, segment)
      ensures !GramOverfull(ds, hwm, begin, end, segment, gram)
    {
      RunBounds(ds, begin, end, segment);
      GroupDecodes(ds, n, begin, end, segment, gram, hwm);
      assert Capacity(segment, hwm) > 0 by { RunStart(ds, begin, end, segment, hwm); }
      InsideFits(AllRows(OfGram(ds[begin..end], gram)), segment, hwm);
    }
  }

  lemma RunStart(ds: seq<Descriptor>, begin: nat, end: nat, segment: nat, hwm: int)
    requires IsRun(ds, begin, end, segment) && AllValid(ds, hwm)
    ensures Capacity(segment, hwm) > 0
  {
    CapacityPositive(ds[begin], hwm);
  }

  lemma InsideFits(rows: seq<int>, segment: nat, hwm: int)
    requires NoRepeats(rows) && InSegmentUpTo(rows, segment, hwm) && Capacity(segment, hwm) > 0
    ensures |rows| <= Capacity(segment, hwm)
  {
    hide NoRepeats, SortUnique;
    var sorted := SortUnique(rows);
    UniqueSize(rows);
    FewerInside(sorted, rows, segment, hwm);
    WithinSpan(sorted, segment * SEGMENT_SPAN, segment * SEGMENT_SPAN + Capacity(segment, hwm) - 1);
  }

  /** Every gram of every admitted segment decodes. */
  lemma AdmittedIsSound(ds: seq<Descriptor>, n: nat, hwm: int, a: Admitted, grams: seq<nat>, s: Summary)
    requires AllHonest(ds, n) && AllValid(ds, hwm) && Separate(ds) && GramsBelow(ds, n) && Sorted(ds)
    requires AdmittedFor(ds, n, a, grams, s)
    ensures Sound(ds, n, a, hwm)
  {
    hide Honest, AllHonest, AllValid, Separate, CountOf, Decodable, GramsBelow, Sorted, LowOf, HighOf, SpanLow;
    hide SpanHigh;
    AdmittedGrams(ds, n, a, grams, s);
    var group := ds[a.begin..a.end];
    forall g | 0 <= g < n ensures Decodable(OfGram(group, g), a.segment, hwm) {
      GroupDecodes(ds, n, a.begin, a.end, a.segment, g, hwm);
      assert Entry(group, grams[g], s, g);
    }
  }
}

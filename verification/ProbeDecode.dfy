/** Decoding one admitted segment: each gram's generations united, the grams intersected smallest first, in buffers that
    never hold more rows than the plan charged. */
module ProbeDecode {
  import opened Common
  import opened Leb128
  import opened Postings
  import opened SortedLists
  import opened Probe
  import opened AdmitSegments

  /** A gram's manifest entries decode: every blob agrees with its entry, no rowid is posted twice, and all lie in the
      segment up to the mark. */
  predicate Decodable(list: seq<Descriptor>, segment: nat, hwm: int) {
    && list != [] && (forall i :: 0 <= i < |list| ==> Honest(list[i]))
    && NoRepeats(AllRows(list))
    && InSegmentUpTo(AllRows(list), segment, hwm)
  }

  lemma AscendingNoRepeats(s: seq<int>)
    requires Ascending(s)
    ensures NoRepeats(s) && SortUnique(s) == s
  {
    SortUniqueIs(s, s);
  }

  // ---------------------------------------------------------------------------------------------------------------
  // One gram

  lemma {:induction false} OfGramConcat(a: seq<Descriptor>, b: seq<Descriptor>, gram: nat)
    ensures OfGram(a + b, gram) == OfGram(a, gram) + OfGram(b, gram)
  {
    if b == [] {
      assert a + b == a;
    } else {
      var front, last := b[..|b| - 1], b[|b| - 1];
      OfGramConcat(a, front, gram);
      assert (a + b)[..|a + b| - 1] == a + front;
      ConcatAssociates(OfGram(a, gram), OfGram(front, gram), if last.gram == gram then [last] else []);
    }
  }

  lemma {:induction false} AllOfGram(list: seq<Descriptor>, gram: nat)
    requires forall i :: 0 <= i < |list| ==> list[i].gram == gram
    ensures OfGram(list, gram) == list
  {
    if list != [] {
      AllOfGram(list[..|list| - 1], gram);
    }
  }

  /** The gram's entries of a segment, which the manifest's order keeps together. */
  method GramRange(group: seq<Descriptor>, gram: nat) returns (list: seq<Descriptor>)
    requires GramsSorted(group)
    ensures list == OfGram(group, gram)
  {
    var begin := 0;
    while begin < |group| && group[begin].gram != gram
      invariant begin <= |group| && forall i :: 0 <= i < begin ==> group[i].gram != gram
    {
      begin := begin + 1;
    }
    var end := begin;
    while end < |group| && group[end].gram == gram
      invariant begin <= end <= |group| && forall i :: begin <= i < end ==> group[i].gram == gram
    {
      end := end + 1;
    }
    list := group[begin..end];
    RangeIsGram(group, gram, begin, end);
  }

  lemma RangeIsGram(group: seq<Descriptor>, gram: nat, begin: nat, end: nat)
    requires GramsSorted(group) && begin <= end <= |group|
    requires forall i :: 0 <= i < begin ==> group[i].gram != gram
    requires forall i :: begin <= i < end ==> group[i].gram == gram
    requires (begin < |group| ==> begin < end) && (end < |group| ==> group[end].gram != gram)
    ensures group[begin..end] == OfGram(group, gram)
  {
    hide OfGram;
    var a, b, c := group[..begin], group[begin..end], group[end..];
    AfterGram(group, gram, begin, end);
    NoneOfGram(a, gram);
    AllOfGram(b, gram);
    NoneOfGram(c, gram);
    ThreeParts(group, begin, end);
    OfGramConcat(a + b, c, gram);
    OfGramConcat(a, b, gram);
    assert [] + b + [] == b;
  }

  lemma ThreeParts(group: seq<Descriptor>, begin: nat, end: nat)
    requires begin <= end <= |group|
    ensures group == (group[..begin] + group[begin..end]) + group[end..]
  {
  }

  lemma AfterGram(group: seq<Descriptor>, gram: nat, begin: nat, end: nat)
    requires GramsSorted(group) && begin <= end <= |group|
    requires forall i :: begin <= i < end ==> group[i].gram == gram
    requires (begin < |group| ==> begin < end) && (end < |group| ==> group[end].gram != gram)
    ensures forall i :: 0 <= i < |group| - end ==> group[end..][i].gram != gram
  {
    forall i | 0 <= i < |group| - end ensures group[end..][i].gram != gram {
      assert group[begin].gram <= group[end].gram && group[end..][i] == group[end + i];
      assert i > 0 ==> group[end].gram <= group[end + i].gram;
    }
  }

  lemma {:induction false} CountGrows(list: seq<Descriptor>, i: nat)
    requires i < |list|
    ensures CountOf(list[..i]) + list[i].count <= CountOf(list)
    decreases |list| - i
  {
    assert list[..i + 1][..i] == list[..i];
    if i == |list| - 1 {
      assert list[..i + 1] == list;
    } else {
      CountGrows(list, i + 1);
    }
  }

  /** One blob, checked against its manifest entry. */
  method DecodeDescriptor(d: Descriptor, room: int) returns (r: Common.Result<seq<int>, ()>)
    requires d.count <= room
    ensures r.Ok? <==> Honest(d)
    ensures r.Ok? ==> r.value == Rows(d)
  {
    hide Decode, IsPostings;
    var encoded := PostingsCount(d.blob);
    if encoded.Err? || d.count == 0 || encoded.value != d.count || encoded.value > room {
      return Err(());
    }
    var decoded := DecodePostings(d.blob, []);
    if decoded.Err? {
      return Err(());
    }
    assert [] + Rows(d) == Rows(d);
    var rows := decoded.value;
    if rows[0] != d.low || rows[|rows| - 1] != d.high {
      return Err(());
    }
    return Ok(rows);
  }

  /** The rows of one gram in one segment, generations united, or malformed. */
  method DecodeDescriptorRange(group: seq<Descriptor>, gram: nat, segment: nat, hwm: int)
    returns (r: Common.Result<seq<int>, ()>)
    requires GramsSorted(group)
    ensures r.Ok? <==> Decodable(OfGram(group, gram), segment, hwm)
    ensures r.Ok? ==> r.value == SortUnique(AllRows(OfGram(group, gram))) && |r.value| == CountOf(OfGram(group, gram))
    ensures r.Ok? ==> InSegmentUpTo(r.value, segment, hwm)
  {
    hide OfGram, Honest, Rows, SortUnique, NoRepeats, InSegmentUpTo;
    var list := GramRange(group, gram);
    if list == [] {
      return Err(());
    }
    var rows := DecodeAll(list);
    if rows.Err? {
      return Err(());
    }
    AllRowsLength(list);
    var sorted := SortUnique(rows.value);
    UniqueSize(rows.value);
    if |list| > 1 && |sorted| != |rows.value| {
      return Err(());
    }
    assert |list| == 1 ==> NoRepeats(rows.value) && sorted == rows.value by {
      OneBlob(list);
    }
    var inside := AllInside(sorted, segment, hwm);
    SameInside(rows.value, sorted, segment, hwm);
    r := if inside then Ok(sorted) else Err(());
  }

  lemma OneBlob(list: seq<Descriptor>)
    ensures |list| == 1 ==> NoRepeats(AllRows(list)) && SortUnique(AllRows(list)) == AllRows(list)
  {
    hide NoRepeats, SortUnique, Decode;
    if |list| == 1 {
      assert AllRows(list[..0]) == [];
      assert AllRows(list) == [] + Rows(list[0]) == Rows(list[0]);
      AscendingNoRepeats(Rows(list[0]));
    }
  }

  method DecodeAll(list: seq<Descriptor>) returns (r: Common.Result<seq<int>, ()>)
    ensures r.Ok? <==> forall i :: 0 <= i < |list| ==> Honest(list[i])
    ensures r.Ok? ==> r.value == AllRows(list)
  {
    hide Honest, Rows;
    ghost var expected := CountOf(list);
    var room: int := Total(list);
    var postings: seq<int> := [];
    for i := 0 to |list|
      invariant postings == AllRows(list[..i]) && room == expected - CountOf(list[..i])
      invariant forall j :: 0 <= j < i ==> Honest(list[j])
    {
      CountGrows(list, i);
      assert list[..i + 1][..i] == list[..i];
      var rows := DecodeDescriptor(list[i], room);
      if rows.Err? {
        return Err(());
      }
      postings := postings + rows.value;
      room := room - list[i].count;
    }
    assert list[..|list|] == list;
    return Ok(postings);
  }

  method Total(list: seq<Descriptor>) returns (expected: nat)
    ensures expected == CountOf(list)
  {
    expected := 0;
    for i := 0 to |list|
      invariant expected == CountOf(list[..i])
    {
      assert list[..i + 1][..i] == list[..i];
      expected := expected + list[i].count;
    }
    assert list[..|list|] == list;
  }

  method AllInside(rows: seq<int>, segment: nat, hwm: int) returns (inside: bool)
    ensures inside <==> InSegmentUpTo(rows, segment, hwm)
  {
    for i := 0 to |rows|
      invariant InSegmentUpTo(rows[..i], segment, hwm)
    {
      if rows[i] < segment * SEGMENT_SPAN || rows[i] >= (segment + 1) * SEGMENT_SPAN || rows[i] > hwm {
        return false;
      }
    }
    assert rows[..|rows|] == rows;
    inside := true;
  }

  lemma FewerInside(some: seq<int>, all: seq<int>, segment: nat, hwm: int)
    requires InSegmentUpTo(all, segment, hwm) && forall i :: 0 <= i < |some| ==> some[i] in all
    ensures InSegmentUpTo(some, segment, hwm)
  {
    forall i | 0 <= i < |some| ensures RowInside(some[i], segment, hwm) {
      var j :| 0 <= j < |all| && all[j] == some[i];
    }
  }

  lemma SameInside(rows: seq<int>, sorted: seq<int>, segment: nat, hwm: int)
    requires SameElements(sorted, rows)
    ensures InSegmentUpTo(rows, segment, hwm) <==> InSegmentUpTo(sorted, segment, hwm)
  {
    hide InSegmentUpTo;
    if InSegmentUpTo(rows, segment, hwm) {
      FewerInside(sorted, rows, segment, hwm);
    }
    if InSegmentUpTo(sorted, segment, hwm) {
      FewerInside(rows, sorted, segment, hwm);
    }
  }

  // ---------------------------------------------------------------------------------------------------------------
  // One segment

  /** A row buffer: what it holds, and the rows it has room for. */
  datatype Buffer = Buffer(rows: seq<int>, capacity: nat)

  /** Every gram of the segment posts x. */
  predicate InEveryGram(group: seq<Descriptor>, order: seq<nat>, n: nat, x: int)
    requires n <= |order|
  {
    forall position :: 0 <= position < n ==> x in AllRows(OfGram(group, order[position]))
  }

  /** Decoding comes to the gram at `position`: the earlier ones leave a rowid. */
  ghost predicate Reached(group: seq<Descriptor>, order: seq<nat>, position: nat)
    requires position <= |order|
  {
    position == 0 || exists x: int :: InEveryGram(group, order, position, x)
  }

  /** Every gram decoding comes to decodes. */
  ghost predicate DecodesThrough(group: seq<Descriptor>, order: seq<nat>, segment: nat, hwm: int) {
    forall p :: 0 <= p < |order| && Reached(group, order, p) ==> Decodable(OfGram(group, order[p]), segment, hwm)
  }

  /** In particular when every gram does. */
  lemma AllDecode(group: seq<Descriptor>, n: nat, order: seq<nat>, segment: nat, hwm: int)
    requires forall g :: 0 <= g < n ==> Decodable(OfGram(group, g), segment, hwm)
    requires forall p :: 0 <= p < |order| ==> order[p] < n
    ensures DecodesThrough(group, order, segment, hwm)
  {
    hide Decodable, OfGram;
  }

  predicate DecodableTo(group: seq<Descriptor>, order: seq<nat>, position: nat, segment: nat, hwm: int)
    requires position <= |order|
  {
    forall p :: 0 <= p < position ==> Decodable(OfGram(group, order[p]), segment, hwm)
  }

  /** A gram that is reached and does not decode fails the segment. */
  lemma StopsAt(group: seq<Descriptor>, order: seq<nat>, position: nat, candidates: seq<int>, segment: nat, hwm: int)
    requires position < |order| && !Decodable(OfGram(group, order[position]), segment, hwm)
    requires position == 0
             || (candidates != [] && forall x :: x in candidates <==> InEveryGram(group, order, position, x))
    ensures !DecodesThrough(group, order, segment, hwm)
  {
    hide Decodable, OfGram, InEveryGram;
    if position > 0 {
      assert candidates[0] in candidates && InEveryGram(group, order, position, candidates[0]);
    }
    assert Reached(group, order, position);
  }

  /** Once no candidate is left, the grams that remain are not reached. */
  lemma RestUnreached(group: seq<Descriptor>, order: seq<nat>, position: nat, candidates: seq<int>, segment: nat,
                      hwm: int)
    requires 0 < position <= |order| && DecodableTo(group, order, position, segment, hwm)
    requires position < |order| ==> candidates == []
    requires forall x :: x in candidates <==> InEveryGram(group, order, position, x)
    ensures DecodesThrough(group, order, segment, hwm)
  {
    hide Decodable, OfGram, AllRows;
    forall p | 0 <= p < |order| && Reached(group, order, p) ensures p < position {
      if x: int :| InEveryGram(group, order, p, x) {
        InFewer(group, order, p, position, x);
      }
    }
  }

  lemma InFewer(group: seq<Descriptor>, order: seq<nat>, more: nat, fewer: nat, x: int)
    requires more <= |order| && fewer <= |order| && InEveryGram(group, order, more, x)
    ensures fewer <= more ==> InEveryGram(group, order, fewer, x)
  {
    hide OfGram, AllRows;
  }

  predicate CountsOf(group: seq<Descriptor>, counts: seq<nat>) {
    forall g :: 0 <= g < |counts| ==> counts[g] == CountOf(OfGram(group, g))
  }

  /** The order's first gram has the smallest count. */
  lemma FirstIsLeast(counts: seq<nat>, order: seq<nat>)
    requires counts != [] && order == StableOrder(counts, |counts|)
    ensures order != [] && order[0] < |counts| && counts[order[0]] == Least(counts)
    ensures forall i :: 0 <= i < |order| ==> order[i] < |counts|
  {
    hide StableOrder;
    assert forall i :: 0 <= i < |order| ==> order[i] in order;
    var least := Least(counts);
    var k :| 0 <= k < |counts| && counts[k] == least;
    assert k in order;
    var j :| 0 <= j < |order| && order[j] == k;
    assert j > 0 ==> Precedes(counts, order[0], order[j]);
  }

  /** A worker's buffers; `peak` is the most rows they have had room for at once since the segment was begun. */
  class ProbeDecodeScratch {
    var candidates: Buffer
    var postings: Buffer
    var intersection: Buffer
    var peak: nat
    /** Rowids decoded so far. */
    var decodedRowids: nat

    constructor ()
      ensures AtRest() && peak == 0 == decodedRowids && candidates == Buffer([], 0)
    {
      candidates, postings, intersection, peak, decodedRowids := Buffer([], 0), Buffer([], 0), Buffer([], 0), 0, 0;
    }

    function Held(): nat
      reads this
    {
      candidates.capacity + postings.capacity + intersection.capacity
    }

    /** Between segments a worker keeps no postings buffer. */
    predicate AtRest()
      reads this
    {
      postings.capacity == 0 && intersection.capacity == 0
    }

    method Track()
      modifies this`peak
      ensures peak == Max(old(peak), Held())
    {
      peak := Max(peak, Held());
    }

    /** A published vector leaves with its allocation, and its charge with it. */
    method Publish() returns (published: Buffer)
      modifies this`candidates
      ensures published == old(candidates) && candidates == Buffer([], 0)
    {
      published := candidates;
      candidates := Buffer([], 0);
    }

    /** Decode the next gram and intersect; the superseded candidates leave at once. */
    method IntersectNext(group: seq<Descriptor>, gram: nat, segment: nat, hwm: int, ghost least: nat) returns (ok: bool)
      requires GramsSorted(group) && intersection.capacity == 0
      requires Ascending(candidates.rows) && |candidates.rows| <= candidates.capacity <= least
      requires InSegmentUpTo(candidates.rows, segment, hwm)
      modifies this
      ensures Decodable(OfGram(group, gram), segment, hwm) <==> ok
      ensures ok ==> InSegmentUpTo(candidates.rows, segment, hwm)
      ensures ok ==> intersection.capacity == 0
      ensures ok ==> Ascending(candidates.rows) && |candidates.rows| <= candidates.capacity <= least
      ensures ok ==>
              forall x :: x in candidates.rows <==> x in old(candidates.rows) && x in AllRows(OfGram(group, gram))
      ensures peak <= Max(old(peak), 2 * least + CountOf(OfGram(group, gram)))
      ensures decodedRowids == old(decodedRowids) + if ok then CountOf(OfGram(group, gram)) else 0
    {
      hide OfGram, Decodable, AllRows, SortUnique, CountOf, InSegmentUpTo;
      var expected := RangeCount(group, gram);
      postings := Buffer([], expected);
      Track();
      var decoded := DecodeDescriptorRange(group, gram, segment, hwm);
      if decoded.Err? {
        return false;
      }
      postings := postings.(rows := decoded.value);
      decodedRowids := decodedRowids + |decoded.value|;
      intersection := Buffer([], Min(|candidates.rows|, |postings.rows|));
      Track();
      var both := SetIntersection(candidates.rows, postings.rows);
      assert forall i :: 0 <= i < |both| ==> both[i] in both;
      FewerInside(both, candidates.rows, segment, hwm);
      intersection := intersection.(rows := both);
      candidates, intersection := intersection, candidates;
      intersection := Buffer([], 0);
      Track();
      ok := true;
    }

    method RangeCount(group: seq<Descriptor>, gram: nat) returns (expected: nat)
      requires GramsSorted(group)
      ensures expected == CountOf(OfGram(group, gram))
    {
      var list := GramRange(group, gram);
      expected := Total(list);
    }

    /** Decode the segment's first gram: its rowids are the candidates so far. */
    method DecodeFirst(group: seq<Descriptor>, gram: nat, segment: nat, hwm: int) returns (ok: bool)
      requires GramsSorted(group) && AtRest()
      modifies this
      ensures ok <==> Decodable(OfGram(group, gram), segment, hwm)
      ensures AtRest() && peak == CountOf(OfGram(group, gram))
      ensures ok ==> Ascending(candidates.rows) && InSegmentUpTo(candidates.rows, segment, hwm)
      ensures ok ==> |candidates.rows| <= candidates.capacity == CountOf(OfGram(group, gram))
      ensures ok ==> forall x :: x in candidates.rows <==> x in AllRows(OfGram(group, gram))
      ensures decodedRowids == old(decodedRowids) + if ok then CountOf(OfGram(group, gram)) else 0
    {
      hide OfGram, Decodable, AllRows, SortUnique, CountOf, InSegmentUpTo;
      var expected := RangeCount(group, gram);
      candidates, peak := Buffer([], expected), 0;
      Track();
      var decoded := DecodeDescriptorRange(group, gram, segment, hwm);
      if decoded.Err? {
        return false;
      }
      candidates := candidates.(rows := decoded.value);
      decodedRowids := decodedRowids + |decoded.value|;
      ok := true;
    }

    /** The segment's candidates: the rowids every gram posts, smallest posting list first, stopping once none is left.
        It fails exactly when a gram it comes to does not decode. The buffers never held more rows than the plan charged
        the worker, the candidates keep room for no more than the smallest list, and unless none is left every posting
        was decoded. */
    method DecodeCandidateSegment(group: seq<Descriptor>, ghost counts: seq<nat>, order: seq<nat>, segment: nat,
                                  hwm: int)
      returns (ok: bool)
      requires GramsSorted(group) && counts != [] && CountsOf(group, counts) && order == StableOrder(counts, |counts|)
      requires AtRest()
      modifies this
      ensures ok ==>
              Ascending(candidates.rows) && forall x :: x in candidates.rows <==> InEveryGram(group, order, |order|, x)
      ensures ok ==> InSegmentUpTo(candidates.rows, segment, hwm)
      ensures ok ==> AtRest() && |candidates.rows| <= candidates.capacity <= Least(counts)
      ensures ok <==> DecodesThrough(group, order, segment, hwm)
      ensures ok && candidates.rows != [] ==> decodedRowids == old(decodedRowids) + Sum(counts)
      ensures peak <= DecodePeak(counts)
      ensures ok ==> decodedRowids <= old(decodedRowids) + Sum(counts)
      ensures decodedRowids >= old(decodedRowids)
    {
      hide SumAt, Sum, OfGram, Decodable, AllRows, SortUnique, CountOf, StableOrder, InOrder, InEveryGram, GramsSorted;
      hide Least, Greatest, InSegmentUpTo, DecodesThrough, DecodableTo;
      FirstIsLeast(counts, order);
      ghost var least := Least(counts);
      ok := DecodeFirst(group, order[0], segment, hwm);
      if !ok {
        StopsAt(group, order, 0, [], segment, hwm);
        return;
      }
      StableOrderSum(counts, |counts|);
      assert counts[..|counts|] == counts;
      SumFirst(counts, order);
      assert forall x :: x in candidates.rows <==> InEveryGram(group, order, 1, x) by { FirstGram(group, order); }
      assert DecodableTo(group, order, 1, segment, hwm) by { FirstDecodes(group, order, segment, hwm); }
      var position := 1;
      while position < |order| && candidates.rows != []
        invariant 1 <= position <= |order| == |counts| && intersection.capacity == 0
        invariant Ascending(candidates.rows) && |candidates.rows| <= candidates.capacity <= least
        invariant forall x :: x in candidates.rows <==> InEveryGram(group, order, position, x)
        invariant InSegmentUpTo(candidates.rows, segment, hwm)
        invariant peak <= DecodePeak(counts)
        invariant DecodableTo(group, order, position, segment, hwm)
        invariant decodedRowids == old(decodedRowids) + SumAt(counts, order[..position])
      {
        ghost var before := candidates.rows;
        NextGrams(group, order, position);
        SumNext(counts, order, position);
        ok := IntersectNext(group, order[position], segment, hwm, least);
        if !ok {
          StopsAt(group, order, position, before, segment, hwm);
          return false;
        }
        NextDecodes(group, order, position, segment, hwm);
        position := position + 1;
      }
      NoneAfter(group, order, position, candidates.rows);
      RestUnreached(group, order, position, candidates.rows, segment, hwm);
      assert order[..|order|] == order;
      SumPrefix(counts, order, position);
      postings := Buffer([], 0);
      Track();
      ok := true;
    }
  }

  lemma SumFirst(counts: seq<nat>, order: seq<nat>)
    requires order != [] && order[0] < |counts|
    ensures SumAt(counts, order[..1]) == counts[order[0]]
  {
    assert order[..1][..0] == [];
  }

  lemma SumNext(counts: seq<nat>, order: seq<nat>, position: nat)
    requires position < |order| && order[position] < |counts|
    ensures SumAt(counts, order[..position + 1]) == SumAt(counts, order[..position]) + counts[order[position]]
  {
    assert order[..position + 1][..position] == order[..position];
  }

  lemma {:induction false} SumPrefix(counts: seq<nat>, order: seq<nat>, position: nat)
    requires position <= |order|
    ensures SumAt(counts, order[..position]) <= SumAt(counts, order)
    decreases |order| - position
  {
    if position == |order| {
      assert order[..position] == order;
    } else {
      assert order[..position + 1][..position] == order[..position];
      SumPrefix(counts, order, position + 1);
    }
  }

  lemma FirstGram(group: seq<Descriptor>, order: seq<nat>)
    requires order != []
    ensures forall x :: InEveryGram(group, order, 1, x) <==> x in AllRows(OfGram(group, order[0]))
  {
    hide OfGram, AllRows;
  }

  lemma FirstDecodes(group: seq<Descriptor>, order: seq<nat>, segment: nat, hwm: int)
    requires order != [] && Decodable(OfGram(group, order[0]), segment, hwm)
    ensures DecodableTo(group, order, 1, segment, hwm)
  {
  }

  lemma NextDecodes(group: seq<Descriptor>, order: seq<nat>, position: nat, segment: nat, hwm: int)
    requires position < |order| && DecodableTo(group, order, position, segment, hwm)
             && Decodable(OfGram(group, order[position]), segment, hwm)
    ensures DecodableTo(group, order, position + 1, segment, hwm)
  {
    hide Decodable, OfGram;
  }

  lemma NextGrams(group: seq<Descriptor>, order: seq<nat>, position: nat)
    requires position < |order|
    ensures forall x :: InEveryGram(group, order, position + 1, x) <==>
                        InEveryGram(group, order, position, x) && x in AllRows(OfGram(group, order[position]))
  {
    hide OfGram, AllRows;
  }

  /** Once no candidate is left, no row is in every gram. */
  lemma NoneAfter(group: seq<Descriptor>, order: seq<nat>, position: nat, candidates: seq<int>)
    requires position <= |order| && (position < |order| ==> candidates == [])
    requires forall x :: x in candidates <==> InEveryGram(group, order, position, x)
    ensures forall x :: x in candidates <==> InEveryGram(group, order, |order|, x)
  {
    hide OfGram, AllRows;
    forall x | InEveryGram(group, order, |order|, x) ensures InEveryGram(group, order, position, x) {
    }
  }
}

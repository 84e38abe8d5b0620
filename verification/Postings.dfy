/** The postings blob, format 1: a version byte, the rowid count, the first rowid, and the deltas between consecutive
    sorted unique rowids, all varints. */
module Postings {
  import opened Common
  import opened Leb128

  const POSTINGS_FORMAT_VERSION: byte := 1

  /** A std::vector of 64-bit values never holds more elements than this. */
  const MAX_VECTOR_SIZE := 0x1000_0000_0000_0000

  datatype Error = NegativeRowid | UnknownFormat | Malformed

  predicate IsRowid(x: int) {
    0 <= x <= INT64_MAX
  }

  predicate AreRowids(s: seq<int>) {
    forall i :: 0 <= i < |s| ==> IsRowid(s[i])
  }

  /** The listing a blob can hold. */
  predicate IsPostings(s: seq<int>) {
    Ascending(s) && AreRowids(s) && |s| <= INT64_MAX
  }

  function DeltaBytes(rowids: seq<int>, previous: int): seq<byte>
    requires forall i :: 0 <= i < |rowids| ==> previous <= rowids[i]
    requires Ascending(rowids)
  {
    if rowids == [] then [] else Varint(rowids[0] - previous) + DeltaBytes(rowids[1..], rowids[0])
  }

  function EncodeSorted(rowids: seq<int>): seq<byte>
    requires Ascending(rowids) && AreRowids(rowids)
  {
    [POSTINGS_FORMAT_VERSION] + Varint(|rowids|) + DeltaBytes(rowids, 0)
  }

  function Encode(rowids: seq<int>): Result<seq<byte>, Error> {
    if AreRowids(rowids) then
      SortedAreRowids(rowids);
      Ok(EncodeSorted(SortUnique(rowids)))
    else Err(NegativeRowid)
  }

  /** EncodePostings: rejects negative rowids, sorts and deduplicates, then appends the varints. */
  method EncodePostings(rowids: seq<int>) returns (r: Result<seq<byte>, Error>)
    requires forall i :: 0 <= i < |rowids| ==> rowids[i] <= INT64_MAX
    ensures r == Encode(rowids)
  {
    for i := 0 to |rowids|
      invariant AreRowids(rowids[..i])
    {
      if rowids[i] < 0 {
        return Err(NegativeRowid);
      }
    }
    assert rowids[..|rowids|] == rowids;
    SortedAreRowids(rowids);
    var blob := WriteSorted(SortUnique(rowids));
    return Ok(blob);
  }

  method WriteSorted(sorted: seq<int>) returns (blob: seq<byte>)
    requires Ascending(sorted) && AreRowids(sorted)
    ensures blob == EncodeSorted(sorted)
  {
    blob := AppendVarint([POSTINGS_FORMAT_VERSION], |sorted|);
    var previous := 0;
    var i := 0;
    assert sorted[0..] == sorted;
    while i < |sorted|
      invariant 0 <= i <= |sorted|
      invariant previous == if i == 0 then 0 else sorted[i - 1]
      invariant forall k :: i <= k < |sorted| ==> previous <= sorted[k]
      invariant blob + DeltaBytes(sorted[i..], previous) == EncodeSorted(sorted)
    {
      var current := sorted[i];
      assert sorted[i..][1..] == sorted[i + 1..];
      ghost var rest := DeltaBytes(sorted[i + 1..], current);
      assert DeltaBytes(sorted[i..], previous) == Varint(current - previous) + rest;
      assert blob + (Varint(current - previous) + rest) == (blob + Varint(current - previous)) + rest;
      blob := AppendVarint(blob, if i == 0 then current else current - previous);
      previous := current;
      i := i + 1;
    }
    assert blob + [] == blob;
  }

  lemma SortedAreRowids(rowids: seq<int>)
    requires AreRowids(rowids)
    ensures AreRowids(SortUnique(rowids))
  {
    var sorted := SortUnique(rowids);
    forall i | 0 <= i < |sorted| ensures IsRowid(sorted[i]) {
      assert sorted[i] in sorted;
    }
  }

  /** Every entry lies past `current`; only a list's first entry may equal it. */
  predicate Above(rowids: seq<int>, current: int, first: bool) {
    forall i :: 0 <= i < |rowids| ==> current <= rowids[i] && (first || current < rowids[i])
  }

  lemma AboveRest(rowids: seq<int>, current: int, first: bool)
    requires |rowids| > 0 && Ascending(rowids) && AreRowids(rowids) && Above(rowids, current, first)
    ensures Ascending(rowids[1..]) && AreRowids(rowids[1..]) && Above(rowids[1..], rowids[0], false)
    ensures IsRowid(rowids[0]) && current <= rowids[0] && (first || current < rowids[0])
  {
  }

  datatype DeltaRead = DeltaRead(rowids: seq<int>, next: nat)

  /** `count` rowids read from `pos` on, each a delta over `current`; only the first entry may repeat it. */
  function ReadDeltas(data: seq<byte>, pos: nat, count: nat, current: int, first: bool): (r: Option<DeltaRead>)
    requires pos <= |data| && IsRowid(current)
    ensures r.Some? ==> pos <= r.value.next <= |data| && |r.value.rowids| == count
    ensures r.Some? ==> Ascending(r.value.rowids) && AreRowids(r.value.rowids)
    ensures r.Some? ==> Above(r.value.rowids, current, first)
    decreases count
  {
    if count == 0 then Some(DeltaRead([], pos))
    else
      match Read(data, pos)
      case None => None
      case Some(delta) =>
        if !first && delta.value == 0 then None
        else if delta.value > INT64_MAX - current then None
        else
          match ReadDeltas(data, delta.next, count - 1, current + delta.value, false)
          case None => None
          case Some(rest) => Some(DeltaRead([current + delta.value] + rest.rowids, rest.next))
  }

  /** The rowids a blob denotes, if it is well formed to its last byte. */
  function Decode(data: seq<byte>): (r: Result<seq<int>, Error>)
    ensures r.Ok? ==> IsPostings(r.value)
  {
    if |data| == 0 || data[0] != POSTINGS_FORMAT_VERSION then Err(UnknownFormat)
    else
      match Read(data, 1)
      case None => Err(Malformed)
      case Some(count) =>
        match ReadDeltas(data, count.next, count.value, 0, true)
        case None => Err(Malformed)
        case Some(deltas) => if deltas.next == |data| then Ok(deltas.rowids) else Err(Malformed)
  }

  /** DecodePostings appends to a vector that may already hold another generation's rowids; a rejected blob leaves the
      vector to the exception. */
  method DecodePostings(data: seq<byte>, result: seq<int>) returns (r: Result<seq<int>, Error>)
    ensures r == match Decode(data) case Ok(rowids) => Ok(result + rowids) case Err(e) => Err(e)
  {
    if |data| == 0 || data[0] != POSTINGS_FORMAT_VERSION {
      return Err(UnknownFormat);
    }
    var header := ReadVarint(data, 1);
    if header.None? {
      return Err(Malformed);
    }
    var count := header.value.value;
    var pos: nat := header.value.next;
    var current := 0;
    var out := result;
    var i := 0;
    ghost var all := ReadDeltas(data, pos, count, 0, true);
    while i < count
      invariant 0 <= i <= count
      invariant pos <= |data| && IsRowid(current)
      invariant match ReadDeltas(data, pos, count - i, current, i == 0)
                case None => all.None?
                case Some(rest) =>
                  all.Some? && out + rest.rowids == result + all.value.rowids && rest.next == all.value.next
    {
      var delta := ReadVarint(data, pos);
      if delta.None? {
        return Err(Malformed);
      }
      if i > 0 && delta.value.value == 0 {
        return Err(Malformed);
      }
      if delta.value.value > INT64_MAX - current {
        return Err(Malformed);
      }
      pos := delta.value.next;
      current := current + delta.value.value;
      ghost var rest := ReadDeltas(data, pos, count - i - 1, current, false);
      assert rest.Some? ==> out + ([current] + rest.value.rowids) == (out + [current]) + rest.value.rowids;
      out := out + [current];
      i := i + 1;
    }
    assert out + [] == out;
    if pos != |data| {
      return Err(Malformed);
    }
    return Ok(out);
  }

  /** PostingsCount: the header's count alone. */
  method PostingsCount(data: seq<byte>) returns (r: Result<nat, Error>)
    ensures forall s :: Decode(data) == Ok(s) ==> r == Ok(|s|)
    ensures r.Err? ==> Decode(data) == Err(r.error)
    ensures r.Ok? ==> r.value <= INT64_MAX
  {
    if |data| == 0 || data[0] != POSTINGS_FORMAT_VERSION {
      return Err(UnknownFormat);
    }
    var count := ReadVarint(data, 1);
    if count.None? {
      return Err(Malformed);
    }
    return Ok(count.value.value);
  }

  lemma ReadDeltasStep(data: seq<byte>, pos: nat, current: int, first: bool, delta: VarintRead, rest: DeltaRead)
    requires pos <= |data| && IsRowid(current)
    requires Read(data, pos) == Some(delta) && (first || delta.value > 0) && IsRowid(current + delta.value)
    requires ReadDeltas(data, delta.next, |rest.rowids|, current + delta.value, false) == Some(rest)
    ensures ReadDeltas(data, pos, |rest.rowids| + 1, current, first)
         == Some(DeltaRead([current + delta.value] + rest.rowids, rest.next))
  {
  }

  lemma ReadBackAt(before: seq<byte>, value: nat, after: seq<byte>, data: seq<byte>)
    requires value <= INT64_MAX && data == before + (Varint(value) + after)
    ensures Read(data, |before|) == Some(VarintRead(value, |before| + |Varint(value)|))
    ensures data[|before| + |Varint(value)|..] == after
  {
    ReadBack(before, value, after);
    assert data == before + Varint(value) + after;
  }

  lemma ReadDeltaBack(data: seq<byte>, pos: nat, rowids: seq<int>, current: int) returns (delta: VarintRead)
    requires |rowids| > 0 && Ascending(rowids) && AreRowids(rowids) && IsRowid(current) && current <= rowids[0]
    requires pos <= |data| && data[pos..] == DeltaBytes(rowids, current)
    ensures Read(data, pos) == Some(delta) && current + delta.value == rowids[0]
    ensures data[delta.next..] == DeltaBytes(rowids[1..], rowids[0])
  {
    var value := rowids[0] - current;
    var after := DeltaBytes(rowids[1..], rowids[0]);
    assert data == data[..pos] + data[pos..];
    ReadBackAt(data[..pos], value, after, data);
    delta := VarintRead(value, pos + |Varint(value)|);
  }

  lemma {:induction false} ReadDeltasBack(data: seq<byte>, pos: nat, rowids: seq<int>, current: int, first: bool)
    requires Ascending(rowids) && AreRowids(rowids) && IsRowid(current)
    requires Above(rowids, current, first)
    requires pos <= |data| && data[pos..] == DeltaBytes(rowids, current)
    ensures ReadDeltas(data, pos, |rowids|, current, first) == Some(DeltaRead(rowids, |data|))
    decreases |rowids|
  {
    if rowids != [] {
      var delta := ReadDeltaBack(data, pos, rowids, current);
      var rest := rowids[1..];
      AboveRest(rowids, current, first);
      ReadDeltasBack(data, delta.next, rest, rowids[0], false);
      ReadDeltasStep(data, pos, current, first, delta, DeltaRead(rest, |data|));
      assert [rowids[0]] + rest == rowids;
    }
  }

  lemma DecodeEncodeSorted(rowids: seq<int>)
    requires IsPostings(rowids)
    ensures Decode(EncodeSorted(rowids)) == Ok(rowids)
  {
    var deltas := DeltaBytes(rowids, 0);
    ReadBack([POSTINGS_FORMAT_VERSION], |rowids|, deltas);
    var head := [POSTINGS_FORMAT_VERSION] + Varint(|rowids|);
    var data := EncodeSorted(rowids);
    assert data == head + deltas && data[|head|..] == deltas;
    ReadDeltasBack(data, |head|, rowids, 0, true);
  }

  /** The codec's law: decoding an encoded list gives its sorted, deduplicated elements. */
  lemma DecodeEncode(rowids: seq<int>)
    requires AreRowids(rowids) && |rowids| <= MAX_VECTOR_SIZE
    ensures AreRowids(SortUnique(rowids))
    ensures Decode(EncodeSorted(SortUnique(rowids))) == Ok(SortUnique(rowids))
  {
    SortedAreRowids(rowids);
    UniqueSize(rowids);
    DecodeEncodeSorted(SortUnique(rowids));
  }

  /** The numbers a blob's varints hold for a listing: its length, then its deltas. */
  function Header(rowids: seq<int>): seq<int> {
    [|rowids|] + Deltas(rowids, 0)
  }

  function Deltas(rowids: seq<int>, previous: int): seq<int> {
    if rowids == [] then [] else [rowids[0] - previous] + Deltas(rowids[1..], rowids[0])
  }

  /** data[pos..] is exactly one group per number, each of at most ten bytes: the grammar, which admits padded groups
      the encoder never writes. */
  ghost predicate SpellsFrom(data: seq<byte>, pos: nat, numbers: seq<int>)
    decreases |numbers|
  {
    if numbers == [] then pos == |data|
    else exists end: nat :: && GroupAt(data, pos, end) && end - pos <= 10
                            && LebValue(data[pos..end]) == numbers[0] <= INT64_MAX
                            && SpellsFrom(data, end, numbers[1..])
  }

  lemma SpellsRead(data: seq<byte>, pos: nat, numbers: seq<int>)
    requires |numbers| > 0 && pos <= |data|
    ensures SpellsFrom(data, pos, numbers)
       <==> && Read(data, pos).Some? && Read(data, pos).value.value == numbers[0]
            && SpellsFrom(data, Read(data, pos).value.next, numbers[1..])
  {
    if SpellsFrom(data, pos, numbers) {
      var end: nat :| && GroupAt(data, pos, end) && end - pos <= 10
                      && LebValue(data[pos..end]) == numbers[0] <= INT64_MAX && SpellsFrom(data, end, numbers[1..]);
      GroupEndIs(data, pos, end);
    }
  }

  /** The numbers the reader finds from `pos` to the end. */
  predicate ReadsFrom(data: seq<byte>, pos: nat, numbers: seq<int>)
    requires pos <= |data|
    decreases |numbers|
  {
    if numbers == [] then pos == |data|
    else
      var here := Read(data, pos);
      here.Some? && here.value.value == numbers[0] && ReadsFrom(data, here.value.next, numbers[1..])
  }

  lemma {:induction false} SpellsReads(data: seq<byte>, pos: nat, numbers: seq<int>)
    requires pos <= |data|
    ensures SpellsFrom(data, pos, numbers) <==> ReadsFrom(data, pos, numbers)
    decreases |numbers|
  {
    if numbers != [] {
      SpellsRead(data, pos, numbers);
      if Read(data, pos).Some? {
        SpellsReads(data, Read(data, pos).value.next, numbers[1..]);
      }
    }
  }

  lemma {:induction false} ReadDeltasReads(data: seq<byte>, pos: nat, rowids: seq<int>, current: int, first: bool)
    requires pos <= |data| && IsRowid(current)
    requires ReadDeltas(data, pos, |rowids|, current, first) == Some(DeltaRead(rowids, |data|))
    ensures ReadsFrom(data, pos, Deltas(rowids, current))
    decreases |rowids|
  {
    if rowids != [] {
      var here := Read(data, pos).value;
      var rest := ReadDeltas(data, here.next, |rowids| - 1, current + here.value, false).value;
      assert rowids[1..] == rest.rowids;
      ReadDeltasReads(data, here.next, rowids[1..], rowids[0], false);
      assert Deltas(rowids, current)[1..] == Deltas(rowids[1..], rowids[0]);
    }
  }

  lemma {:induction false} ReadsReadDeltas(data: seq<byte>, pos: nat, rowids: seq<int>, current: int, first: bool)
    requires pos <= |data| && IsRowid(current)
    requires ReadsFrom(data, pos, Deltas(rowids, current)) && Ascending(rowids) && AreRowids(rowids)
    requires Above(rowids, current, first)
    ensures ReadDeltas(data, pos, |rowids|, current, first) == Some(DeltaRead(rowids, |data|))
    decreases |rowids|
  {
    if rowids != [] {
      var delta := Read(data, pos).value;
      assert Deltas(rowids, current)[1..] == Deltas(rowids[1..], rowids[0]);
      AboveRest(rowids, current, first);
      ReadsReadDeltas(data, delta.next, rowids[1..], rowids[0], false);
      ReadDeltasStep(data, pos, current, first, delta, DeltaRead(rowids[1..], |data|));
      assert [rowids[0]] + rowids[1..] == rowids;
    }
  }

  /** Exactly which byte strings decode, and to what: no byte outside the grammar is accepted, and every blob of the
      grammar is. */
  lemma DecodeIff(data: seq<byte>, rowids: seq<int>)
    ensures Decode(data) == Ok(rowids)
       <==> && |data| > 0 && data[0] == POSTINGS_FORMAT_VERSION
            && SpellsFrom(data, 1, Header(rowids)) && Ascending(rowids) && AreRowids(rowids)
  {
    if |data| > 0 && data[0] == POSTINGS_FORMAT_VERSION {
      assert Header(rowids)[1..] == Deltas(rowids, 0);
      SpellsReads(data, 1, Header(rowids));
      if Read(data, 1).Some? {
        var count := Read(data, 1).value;
        if Decode(data) == Ok(rowids) {
          ReadDeltasReads(data, count.next, rowids, 0, true);
        } else if count.value == |rowids| && ReadsFrom(data, count.next, Deltas(rowids, 0))
                  && Ascending(rowids) && AreRowids(rowids) {
          ReadsReadDeltas(data, count.next, rowids, 0, true);
        }
      }
    }
  }
}

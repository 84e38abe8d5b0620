/** ngram_unpack_postings: the resumable stream of a chunk's postings, one output chunk per call. */
module Unpack {
  import opened Common
  import opened Leb128
  import opened Postings

  /** The segments-table columns the checked form compares with the blob. */
  datatype Descriptor = Descriptor(count: int, low: int, high: int, generation: int, hwm: int)

  /** `hasNull` when some column read is NULL. */
  datatype InputRow = InputRow(key: int, segment: int, blob: seq<byte>, descriptor: Option<Descriptor>, hasNull: bool)

  datatype Triple = Triple(key: int, segment: int, rowid: int)

  datatype UnpackError = NullInput | BadBlob(error: Error) | OutsideSegment | DescriptorDisagrees

  predicate Inside(row: InputRow, rowids: seq<int>, hwm: int) {
    row.segment >= 0 && forall i :: 0 <= i < |rowids| ==>
        rowids[i] >= 0 && rowids[i] / SEGMENT_SPAN == row.segment && rowids[i] <= hwm
  }

  predicate Described(d: Descriptor, rowids: seq<int>) {
    d.count > 0 && d.count == |rowids| && d.low == rowids[0] && d.high == rowids[|rowids| - 1] && d.generation >= 0
  }

  /** A row's rowids, when no column is NULL, its blob decodes and the checks pass. */
  function Decoded(row: InputRow): Result<seq<int>, UnpackError> {
    if row.hasNull then Err(NullInput)
    else
      match Decode(row.blob)
      case Err(e) => Err(BadBlob(e))
      case Ok(rowids) => Checked(row, rowids)
  }

  /** The checks of the form that reads the segments table's columns. */
  function Checked(row: InputRow, rowids: seq<int>): Result<seq<int>, UnpackError> {
    if row.descriptor.None? then Ok(rowids)
    else if rowids != [] && !Inside(row, rowids, row.descriptor.value.hwm) then Err(OutsideSegment)
    else if !Described(row.descriptor.value, rowids) then Err(DescriptorDisagrees)
    else Ok(rowids)
  }

  function Triples(row: InputRow, rowids: seq<int>): (r: seq<Triple>)
    ensures |r| == |rowids| && forall i :: 0 <= i < |r| ==> r[i] == Triple(row.key, row.segment, rowids[i])
  {
    seq(|rowids|, i requires 0 <= i < |rowids| => Triple(row.key, row.segment, rowids[i]))
  }

  function RowTriples(row: InputRow): seq<Triple> {
    match Decoded(row)
    case Ok(rowids) => Triples(row, rowids)
    case Err(_) => []
  }

  /** The postings of the first `n` rows, in order. */
  function AllTriples(input: seq<InputRow>, n: nat): seq<Triple>
    requires n <= |input|
  {
    if n == 0 then [] else AllTriples(input, n - 1) + RowTriples(input[n - 1])
  }

  predicate RowsDecode(input: seq<InputRow>, n: nat)
    requires n <= |input|
  {
    forall i :: 0 <= i < n ==> Decoded(input[i]).Ok?
  }

  lemma NextRow(input: seq<InputRow>, n: nat, rowids: seq<int>)
    requires n < |input| && RowsDecode(input, n) && Decoded(input[n]) == Ok(rowids)
    ensures RowsDecode(input, n + 1) && AllTriples(input, n + 1) == AllTriples(input, n) + Triples(input[n], rowids)
  {
    hide Decoded;
  }

  datatype Status = NeedMoreInput | HaveMoreOutput | Failed(row: nat, error: UnpackError)

  class UnpackPostingsLocalState {
    var inputOffset: nat
    var rowids: seq<int>
    var rowidOffset: nat
    var rowDecoded: bool

    constructor ()
      ensures AtStart()
    {
      inputOffset, rowids, rowidOffset, rowDecoded := 0, [], 0, false;
    }

    predicate AtStart()
      reads this
    {
      inputOffset == 0 && !rowDecoded
    }

    ghost predicate Valid(input: seq<InputRow>)
      reads this
    {
      && inputOffset <= |input| && RowsDecode(input, inputOffset)
      && (rowDecoded ==> inputOffset < |input| && Decoded(input[inputOffset]) == Ok(rowids) && rowidOffset <= |rowids|)
    }

    /** What earlier calls over this chunk have output. */
    ghost function Emitted(input: seq<InputRow>): seq<Triple>
      requires Valid(input)
      reads this
    {
      AllTriples(input, inputOffset) + if rowDecoded then Triples(input[inputOffset], rowids)[..rowidOffset] else []
    }

    /** One call: at most a vector of output, resuming where the last call stopped. */
    method UnpackPostings(input: seq<InputRow>) returns (out: seq<Triple>, status: Status)
      requires Valid(input)
      modifies this
      ensures |out| <= STANDARD_VECTOR_SIZE
      ensures status.NeedMoreInput? ==>
              AtStart() && RowsDecode(input, |input|) && old(Emitted(input)) + out == AllTriples(input, |input|)
      ensures status.HaveMoreOutput? ==>
              Valid(input) && |out| == STANDARD_VECTOR_SIZE && old(Emitted(input)) + out == Emitted(input)
      ensures status.Failed? ==> status.row < |input| && Decoded(input[status.row]) == Err(status.error)
      ensures status.Failed? ==> RowsDecode(input, status.row)
    {
      hide Decoded, Triples, AllTriples;
      out := [];
      assert old(Emitted(input)) + [] == Emitted(input);
      while inputOffset < |input|
        invariant Valid(input) && |out| <= STANDARD_VECTOR_SIZE && old(Emitted(input)) + out == Emitted(input)
        decreases |input| - inputOffset
      {
        var row := input[inputOffset];
        if !rowDecoded {
          match Decoded(row) {
            case Err(e) =>
              status := Failed(inputOffset, e);
              return;
            case Ok(decoded) =>
              rowids, rowidOffset := decoded, 0;
              rowDecoded := true;
              StartRow(input);
          }
        }
        var full;
        out, full := EmitRow(input, out, old(Emitted(input)));
        if full {
          return out, HaveMoreOutput;
        }
        FinishRow(input);
        rowDecoded := false;
        inputOffset := inputOffset + 1;
      }
      inputOffset := 0;
      status := NeedMoreInput;
    }

    /** Output the decoded row's remaining rowids; `full` when the chunk has no room for the next one. */
    method EmitRow(input: seq<InputRow>, before: seq<Triple>, ghost emitted: seq<Triple>)
      returns (out: seq<Triple>, full: bool)
      requires Valid(input) && rowDecoded && |before| <= STANDARD_VECTOR_SIZE && emitted + before == Emitted(input)
      modifies this`rowidOffset
      ensures Valid(input) && |out| <= STANDARD_VECTOR_SIZE && emitted + out == Emitted(input)
      ensures full ==> |out| == STANDARD_VECTOR_SIZE
      ensures !full ==> rowidOffset == |rowids|
    {
      hide Decoded, AllTriples;
      var row := input[inputOffset];
      out := before;
      while rowidOffset < |rowids|
        invariant Valid(input) && |out| <= STANDARD_VECTOR_SIZE && emitted + out == Emitted(input)
      {
        if |out| >= STANDARD_VECTOR_SIZE {
          return out, true;
        }
        NextTriple(input);
        ConcatAssociates(emitted, out, [Triple(row.key, row.segment, rowids[rowidOffset])]);
        out := out + [Triple(row.key, row.segment, rowids[rowidOffset])];
        rowidOffset := rowidOffset + 1;
      }
      full := false;
    }

    lemma StartRow(input: seq<InputRow>)
      requires Valid(input) && rowDecoded && rowidOffset == 0
      ensures Emitted(input) == AllTriples(input, inputOffset) + []
    {
    }

    lemma NextTriple(input: seq<InputRow>)
      requires Valid(input) && rowDecoded && rowidOffset < |rowids|
      ensures var row := input[inputOffset];
              AllTriples(input, inputOffset) + Triples(row, rowids)[..rowidOffset + 1]
              == Emitted(input) + [Triple(row.key, row.segment, rowids[rowidOffset])]
    {
      var all := Triples(input[inputOffset], rowids);
      assert all[..rowidOffset + 1] == all[..rowidOffset] + [all[rowidOffset]];
      ConcatAssociates(AllTriples(input, inputOffset), all[..rowidOffset], [all[rowidOffset]]);
    }

    lemma FinishRow(input: seq<InputRow>)
      requires Valid(input) && rowDecoded && rowidOffset == |rowids|
      ensures RowsDecode(input, inputOffset + 1)
      ensures AllTriples(input, inputOffset + 1) + [] == Emitted(input)
    {
      NextRow(input, inputOffset, rowids);
      hide Decoded, AllTriples, RowTriples;
      var all := Triples(input[inputOffset], rowids);
      assert all[..rowidOffset] == all;
    }
  }

  lemma {:induction false} AllTriplesGrow(input: seq<InputRow>, n: nat)
    requires n <= |input|
    ensures |AllTriples(input, n)| <= |AllTriples(input, |input|)|
    decreases |input| - n
  {
    hide RowTriples;
    if n < |input| {
      AllTriplesGrow(input, n + 1);
    }
  }

  lemma EmittedBound(state: UnpackPostingsLocalState, input: seq<InputRow>)
    requires state.Valid(input)
    ensures |state.Emitted(input)| <= |AllTriples(input, |input|)|
  {
    hide Decoded, AllTriples, RowTriples;
    AllTriplesGrow(input, state.inputOffset);
    if state.rowDecoded {
      NextRow(input, state.inputOffset, state.rowids);
      AllTriplesGrow(input, state.inputOffset + 1);
    }
  }

  // ---------------------------------------------------------------------------------------------------------------
  // What a successful chunk says of each row

  /** `part` is the output of a row without NULL: its blob's rowids, under its key and segment. */
  predicate IsPart(row: InputRow, part: seq<Triple>) {
    && !row.hasNull && Decode(row.blob) == Result.Ok(RowidsOf(part))
    && forall i :: 0 <= i < |part| ==> part[i].key == row.key && part[i].segment == row.segment
  }

  function RowidsOf(part: seq<Triple>): (r: seq<int>)
    ensures |r| == |part| && forall i :: 0 <= i < |r| ==> r[i] == part[i].rowid
  {
    Map((t: Triple) => t.rowid, part)
  }

  /** The row's columns are those of its output: its count, which is positive, its minimum and its maximum, every rowid
      in the declared segment and none past the mark. */
  predicate Agrees(row: InputRow, part: seq<Triple>) {
    row.descriptor.Some? ==>
      var d := row.descriptor.value;
      && 0 < d.count == |part| && d.low == part[0].rowid && d.high == part[|part| - 1].rowid && d.generation >= 0
      && row.segment >= 0 && InSegmentUpTo(RowidsOf(part), row.segment, d.hwm)
  }

  ghost predicate Acceptable(row: InputRow) {
    exists part :: IsPart(row, part) && Agrees(row, part)
  }

  /** The output, cut into its rows. */
  ghost predicate Parts(input: seq<InputRow>, parts: seq<seq<Triple>>) {
    |parts| == |input| && forall i :: 0 <= i < |input| ==> IsPart(input[i], parts[i]) && Agrees(input[i], parts[i])
  }

  lemma InsideIs(row: InputRow, rowids: seq<int>, hwm: int)
    requires AreRowids(rowids)
    ensures Inside(row, rowids, hwm) <==> row.segment >= 0 && InSegmentUpTo(rowids, row.segment, hwm)
  {
    if row.segment >= 0 {
      forall i | 0 <= i < |rowids|
        ensures rowids[i] / SEGMENT_SPAN == row.segment
                <==> row.segment * SEGMENT_SPAN <= rowids[i] < (row.segment + 1) * SEGMENT_SPAN
      {
      }
    }
  }

  /** A row decodes exactly when some output agrees with it, and that is its output. */
  lemma DecodedIff(row: InputRow)
    ensures Decoded(row).Ok? <==> Acceptable(row)
    ensures Decoded(row).Ok? ==> IsPart(row, RowTriples(row)) && Agrees(row, RowTriples(row))
  {
    hide Decode, Inside, InSegmentUpTo;
    match Decode(row.blob) {
      case Err(_) =>
      case Ok(rowids) =>
        if row.descriptor.Some? {
          InsideIs(row, rowids, row.descriptor.value.hwm);
        }
        var part := Triples(row, rowids);
        assert RowidsOf(part) == rowids;
        if Decoded(row).Ok? {
          assert IsPart(row, part) && Agrees(row, part);
        }
        if Acceptable(row) {
          var other: seq<Triple> :| IsPart(row, other) && Agrees(row, other);
          assert RowidsOf(other) == rowids;
          if row.descriptor.Some? {
            assert rowids[0] == other[0].rowid && rowids[|rowids| - 1] == other[|other| - 1].rowid;
          }
        }
    }
  }

  lemma {:induction false} RowsToParts(input: seq<InputRow>, n: nat) returns (parts: seq<seq<Triple>>)
    requires n <= |input| && RowsDecode(input, n)
    ensures Parts(input[..n], parts) && Flatten(parts) == AllTriples(input, n)
  {
    hide Decoded, IsPart, Agrees, RowTriples;
    if n == 0 {
      parts := [];
    } else {
      var front := RowsToParts(input, n - 1);
      DecodedIff(input[n - 1]);
      parts := front + [RowTriples(input[n - 1])];
      FlattenSnoc(front, RowTriples(input[n - 1]));
      assert forall i :: 0 <= i < n - 1 ==> input[..n][i] == input[..n - 1][i] && parts[i] == front[i];
    }
  }

  /** Wherever the calls stop, their outputs together are exactly the decoded rows in order; a chunk fails exactly when
      one of its rows does. */
  method UnpackChunk(state: UnpackPostingsLocalState, input: seq<InputRow>)
    returns (out: seq<Triple>, status: Status, ghost parts: seq<seq<Triple>>)
    requires state.AtStart()
    modifies state
    ensures status.NeedMoreInput? <==> RowsDecode(input, |input|)
    ensures status.NeedMoreInput? <==> forall i :: 0 <= i < |input| ==> Acceptable(input[i])
    ensures status.NeedMoreInput? ==> out == AllTriples(input, |input|) && state.AtStart()
    ensures status.NeedMoreInput? ==> Parts(input, parts) && out == Flatten(parts)
    ensures status.Failed? ==> status.row < |input| && !Acceptable(input[status.row])
    ensures status.Failed? ==> forall i :: 0 <= i < status.row ==> Acceptable(input[i])
    ensures !status.HaveMoreOutput?
  {
    hide Decoded, AllTriples, RowsDecode, Acceptable, Parts, Flatten;
    out, status := [], HaveMoreOutput;
    assert state.Valid(input) && state.Emitted(input) == [] by { FreshChunk(state, input); }
    while status.HaveMoreOutput?
      invariant status.HaveMoreOutput? ==> state.Valid(input) && out == state.Emitted(input)
      invariant status.NeedMoreInput? ==>
                state.AtStart() && RowsDecode(input, |input|) && out == AllTriples(input, |input|)
      invariant status.Failed? ==> status.row < |input| && Decoded(input[status.row]) == Err(status.error)
      invariant status.Failed? ==> RowsDecode(input, status.row)
      decreases status.HaveMoreOutput?, if status.HaveMoreOutput?
                then |AllTriples(input, |input|)| - |state.Emitted(input)| else 0
    {
      EmittedBound(state, input);
      var more;
      more, status := state.UnpackPostings(input);
      out := out + more;
      if status.HaveMoreOutput? {
        EmittedBound(state, input);
      }
    }
    parts := [];
    if status.Failed? {
      assert !RowsDecode(input, |input|) by { OneFails(input, status.row); }
      DecodedIff(input[status.row]);
      RowsAcceptable(input, status.row);
    } else {
      parts := RowsToParts(input, |input|);
      assert input[..|input|] == input;
      RowsAcceptable(input, |input|);
    }
  }

  lemma RowsAcceptable(input: seq<InputRow>, n: nat)
    requires n <= |input| && RowsDecode(input, n)
    ensures forall i :: 0 <= i < n ==> Acceptable(input[i])
  {
    hide Decoded, Acceptable;
    forall i | 0 <= i < n ensures Acceptable(input[i]) {
      DecodedIff(input[i]);
    }
  }

  lemma FreshChunk(state: UnpackPostingsLocalState, input: seq<InputRow>)
    requires state.AtStart()
    ensures state.Valid(input) && state.Emitted(input) == []
  {
  }

  lemma OneFails(input: seq<InputRow>, row: nat)
    requires row < |input| && Decoded(input[row]).Err?
    ensures !RowsDecode(input, |input|)
  {
  }
}

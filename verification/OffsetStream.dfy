/** How a group keeps its rowids while it grows: as coded offsets, a difference from the previous offset where that is
    possible, and after a zero byte the offset itself, so that any order can be written. */
module OffsetStream {
  import opened Common
  import opened Leb128

  // ---------------------------------------------------------------------------------------------------------------
  // The stream format

  /** The offset the n-th code is taken from. */
  function LastBefore(offsets: seq<nat>, n: nat): nat
    requires n <= |offsets|
  {
    if n == 0 then 0 else offsets[n - 1]
  }

  /** One offset in the stream. Ascending offsets are written as their difference; a descending one gets a zero byte
      first and is then written whole. One is added, which keeps zero free. */
  function CodeBytes(last: nat, offset: nat): seq<byte> {
    if offset < last then [0] + Varint(offset + 1) else Varint(offset - last + 1)
  }

  /** The codes of a stretch's first n offsets, each coded against the one before it. */
  function StretchBytes(offsets: seq<nat>, n: nat): seq<byte>
    requires n <= |offsets|
  {
    if n == 0 then [] else StretchBytes(offsets, n - 1) + CodeBytes(LastBefore(offsets, n - 1), offsets[n - 1])
  }

  predicate AreOffsets(offsets: seq<nat>) {
    forall i :: 0 <= i < |offsets| ==> offsets[i] < SEGMENT_SPAN
  }

  lemma {:induction false} StretchExtends(offsets: seq<nat>, more: seq<nat>, n: nat)
    requires n <= |offsets| && offsets <= more
    ensures StretchBytes(more, n) == StretchBytes(offsets, n)
  {
    hide CodeBytes;
    if n > 0 {
      StretchExtends(offsets, more, n - 1);
    }
  }

  lemma StretchSnoc(offsets: seq<nat>, offset: nat)
    ensures StretchBytes(offsets + [offset], |offsets| + 1)
         == StretchBytes(offsets, |offsets|) + CodeBytes(LastBefore(offsets, |offsets|), offset)
  {
    StretchExtends(offsets, offsets + [offset], |offsets|);
  }

  /** Codes are never empty, so earlier positions lie strictly below later ones. */
  lemma {:induction false} StretchPrefix(offsets: seq<nat>, k: nat, n: nat)
    requires k <= n <= |offsets|
    ensures StretchBytes(offsets, k) <= StretchBytes(offsets, n)
    ensures |StretchBytes(offsets, k)| + (n - k) <= |StretchBytes(offsets, n)|
  {
    hide CodeBytes;
    if k < n {
      StretchPrefix(offsets, k, n - 1);
      CodeNotEmpty(LastBefore(offsets, n - 1), offsets[n - 1]);
    }
  }

  lemma CodeNotEmpty(last: nat, offset: nat)
    ensures |CodeBytes(last, offset)| >= 1
  {
  }

  /** A code restarts exactly when its offset descends, and otherwise spells the difference alone. */
  lemma RestartsOnDescent(last: nat, offset: nat)
    ensures CodeBytes(last, offset)[..1] == [0] <==> offset < last
    ensures offset >= last ==> CodeBytes(last, offset) == CodeBytes(0, offset - last)
  {
    assert Varint(offset + 1) != [] && Varint(offset + 1)[0] != 0;
    assert offset >= last ==> Varint(offset - last + 1) != [] && Varint(offset - last + 1)[0] != 0;
  }

  lemma CodeLength(last: nat, offset: nat)
    requires last < SEGMENT_SPAN && offset < SEGMENT_SPAN
    ensures 1 <= |CodeBytes(last, offset)| <= 4
  {
    Pow128Values();
    VarintLength(offset + 1, 3);
    if offset >= last {
      VarintLength(offset - last + 1, 3);
    }
  }

  function VarintSize(value: nat): (r: nat)
    requires value < 0x1_0000_0000
    ensures r == |Varint(value)|
  {
    Pow128Values();
    VarintSizes(value);
    if value < 0x80 then 1 else if value < 0x4000 then 2 else if value < 0x20_0000 then 3
    else if value < 0x1000_0000 then 4 else 5
  }

  lemma VarintSizes(value: nat)
    ensures forall n :: 1 <= n <= 5 ==> (|Varint(value)| <= n <==> value < Pow128(n))
    ensures Pow128(1) == 0x80 && Pow128(2) == 0x4000 && Pow128(3) == 0x20_0000 && Pow128(4) == 0x1000_0000
    ensures Pow128(5) == 0x8_0000_0000
  {
    forall n | 1 <= n <= 5 ensures |Varint(value)| <= n <==> value < Pow128(n) {
      VarintLength(value, n);
    }
    assert Pow128(1) == 128 * Pow128(0);
    assert Pow128(2) == 128 * Pow128(1);
    assert Pow128(3) == 128 * Pow128(2);
    assert Pow128(4) == 128 * Pow128(3);
    assert Pow128(5) == 128 * Pow128(4);
  }

  /** The bytes a code takes, computed before it is written. */
  function OffsetCodeSize(last: nat, offset: nat): (r: nat)
    requires last < SEGMENT_SPAN && offset < SEGMENT_SPAN
    ensures r == |CodeBytes(last, offset)|
  {
    if offset < last then 1 + VarintSize(offset + 1) else VarintSize(offset - last + 1)
  }

  // ---------------------------------------------------------------------------------------------------------------
  // Writing and reading bytes in place

  method WriteVarint(buffer: array<byte>, at: nat, value: nat) returns (out: nat)
    requires at + |Varint(value)| <= buffer.Length
    modifies buffer
    ensures out == at + |Varint(value)|
    ensures buffer[..out] == old(buffer[..at]) + Varint(value)
    ensures forall i :: out <= i < buffer.Length ==> buffer[i] == old(buffer[i])
  {
    out := at;
    var v := value;
    while v >= 128
      invariant at <= out <= out + |Varint(v)| == at + |Varint(value)|
      invariant buffer[..out] + Varint(v) == old(buffer[..at]) + Varint(value)
      invariant forall i :: out <= i < buffer.Length ==> buffer[i] == old(buffer[i])
      decreases v
    {
      ghost var before := buffer[..out];
      buffer[out] := v % 128 + 128;
      assert buffer[..out + 1] == before + [v % 128 + 128];
      out := out + 1;
      v := v / 128;
    }
    ghost var before := buffer[..out];
    buffer[out] := v;
    assert buffer[..out + 1] == before + [v];
    out := out + 1;
  }

  method WriteOffsetCode(buffer: array<byte>, at: nat, last: nat, offset: nat) returns (out: nat)
    requires at + |CodeBytes(last, offset)| <= buffer.Length
    modifies buffer
    ensures out == at + |CodeBytes(last, offset)|
    ensures buffer[..out] == old(buffer[..at]) + CodeBytes(last, offset)
    ensures forall i :: out <= i < buffer.Length ==> buffer[i] == old(buffer[i])
  {
    ghost var before := buffer[..at];
    if offset < last {
      buffer[at] := 0;
      assert buffer[..at + 1] == before + [0];
      out := WriteVarint(buffer, at + 1, offset + 1);
      ConcatAssociates(before, [0], Varint(offset + 1));
    } else {
      out := WriteVarint(buffer, at, offset - last + 1);
    }
  }

  predicate ReadsAs(bytes: seq<byte>, pos: nat, end: nat, value: nat) {
    GroupAt(bytes, pos, end) && LebValue(bytes[pos..end]) == value
  }

  /** One code of a stretch: the inner loop of the decoder. */
  method ReadCode(data: array<byte>, size: nat, pos: nat, ghost end: nat, ghost value: nat)
    returns (code: nat, next: nat)
    requires size <= data.Length && ReadsAs(data[..size], pos, end, value)
    ensures pos < next == end <= size && code == value
  {
    code, next := 0, pos;
    var more := true;
    while more
      invariant pos <= next <= end
      invariant more <==> next < end
      invariant code == LebValue(data[..size][pos..next])
      decreases end - next
    {
      ReadStep(data[..size], pos, next);
      var b := data[next];
      assert b == data[..size][next];
      code := code + (b % 128) * Pow128(next - pos);
      next := next + 1;
      more := b >= 128;
    }
  }

  lemma VarintAt(bytes: seq<byte>, pos: nat, value: nat)
    requires pos + |Varint(value)| <= |bytes| && bytes[pos..pos + |Varint(value)|] == Varint(value)
    ensures GroupAt(bytes, pos, pos + |Varint(value)|)
    ensures LebValue(bytes[pos..pos + |Varint(value)|]) == value
  {
    VarintIsGroup(value);
    var code := Varint(value);
    assert forall i :: pos <= i < pos + |code| ==> bytes[i] == code[i - pos];
  }

  lemma RestartByte(bytes: seq<byte>, pos: nat)
    requires pos < |bytes| && bytes[pos] == 0
    ensures GroupAt(bytes, pos, pos + 1) && LebValue(bytes[pos..pos + 1]) == 0
  {
    assert bytes[pos..pos + 1] == [0] && [0][1..] == [];
    assert LebValue([0]) == 0;
  }

  /** bytes[here..there] reads as the code of `offset` after `last`: a restart when it descends, then its delta. */
  predicate IsCode(bytes: seq<byte>, here: nat, there: nat, last: nat, offset: nat) {
    if offset < last
    then ReadsAs(bytes, here, here + 1, 0) && ReadsAs(bytes, here + 1, there, offset + 1)
    else ReadsAs(bytes, here, there, offset - last + 1)
  }

  lemma CodeInPlace(bytes: seq<byte>, here: nat, there: nat, last: nat, offset: nat)
    requires here < there <= |bytes| && bytes[here..there] == CodeBytes(last, offset)
    ensures IsCode(bytes, here, there, last, offset)
  {
    var code := bytes[here..there];
    if offset < last {
      assert bytes[here] == code[0];
      RestartByte(bytes, here);
      assert bytes[here + 1..there] == code[1..] == Varint(offset + 1);
      VarintAt(bytes, here + 1, offset + 1);
    } else {
      VarintAt(bytes, here, offset - last + 1);
    }
  }

  /** Offset i's code stands right after the codes of the offsets before it. */
  lemma CodeAt(bytes: seq<byte>, offsets: seq<nat>, i: nat)
    requires i < |offsets| && bytes == StretchBytes(offsets, |offsets|)
    ensures IsCode(bytes, |StretchBytes(offsets, i)|, |StretchBytes(offsets, i + 1)|, LastBefore(offsets, i),
            offsets[i])
  {
    StretchPrefix(offsets, i + 1, |offsets|);
    StretchPrefix(offsets, i, i + 1);
    var prefix := StretchBytes(offsets, i + 1);
    var here, there := |StretchBytes(offsets, i)|, |prefix|;
    assert bytes[here..there] == prefix[here..];
    CodeInPlace(bytes, here, there, LastBefore(offsets, i), offsets[i]);
  }

  /** The boundaries of a stretch's codes. */
  ghost predicate Layout(bytes: seq<byte>, offsets: seq<nat>, bounds: seq<nat>) {
    && |bounds| == |offsets| + 1
    && bounds[0] == 0 && bounds[|offsets|] == |bytes|
    && forall i :: 0 <= i < |offsets| ==> IsCode(bytes, bounds[i], bounds[i + 1], LastBefore(offsets, i), offsets[i])
  }

  lemma StretchLayout(bytes: seq<byte>, offsets: seq<nat>) returns (bounds: seq<nat>)
    requires bytes == StretchBytes(offsets, |offsets|)
    ensures Layout(bytes, offsets, bounds)
  {
    hide IsCode, CodeBytes;
    bounds := seq(|offsets| + 1, i requires 0 <= i <= |offsets| => |StretchBytes(offsets, i)|);
    forall i | 0 <= i < |offsets|
      ensures IsCode(bytes, bounds[i], bounds[i + 1], LastBefore(offsets, i), offsets[i])
    {
      CodeAt(bytes, offsets, i);
    }
  }

  /** `bytes` is the stretch of exactly these offsets. */
  ghost predicate Holds(bytes: seq<byte>, offsets: seq<nat>) {
    bytes == StretchBytes(offsets, |offsets|) && AreOffsets(offsets)
  }

  lemma HoldsNothing()
    ensures Holds([], [])
  {
  }

  lemma HoldsSnoc(bytes: seq<byte>, offsets: seq<nat>, offset: nat)
    requires Holds(bytes, offsets) && offset < SEGMENT_SPAN
    ensures Holds(bytes + CodeBytes(LastBefore(offsets, |offsets|), offset), offsets + [offset])
  {
    hide CodeBytes;
    StretchSnoc(offsets, offset);
  }

  /** Every offset takes at least a byte. */
  lemma HoldsSize(bytes: seq<byte>, offsets: seq<nat>)
    requires Holds(bytes, offsets)
    ensures |offsets| <= |bytes|
  {
    hide CodeBytes;
    StretchPrefix(offsets, 0, |offsets|);
  }

  lemma HoldsEmpty(bytes: seq<byte>, offsets: seq<nat>)
    requires Holds(bytes, offsets)
    ensures offsets == [] <==> bytes == []
  {
    HoldsSize(bytes, offsets);
  }

  /** Decoding a stretch gives back exactly the offsets appended to it, in order. */
  method DecodeStretch(data: array<byte>, size: nat, ghost offsets: seq<nat>) returns (out: seq<nat>)
    requires size <= data.Length && Holds(data[..size], offsets)
    ensures out == offsets
  {
    hide CodeBytes;
    ghost var bounds := StretchLayout(data[..size], offsets);
    out := DecodeCodes(data, size, offsets, bounds);
  }

  method DecodeCodes(data: array<byte>, size: nat, ghost offsets: seq<nat>, ghost bounds: seq<nat>)
    returns (out: seq<nat>)
    requires size <= data.Length && Layout(data[..size], offsets, bounds)
    ensures out == offsets
  {
    hide LebValue, ReadsAs, Layout;
    ghost var bytes := data[..size];
    var offset, pos := 0, 0;
    out := [];
    ghost var done, restarted := 0, false;
    LayoutAt(bytes, offsets, bounds, 0);
    while pos < size
      invariant done <= |offsets| == |bounds| - 1 && out == offsets[..done]
      invariant restarted ==> done < |offsets| && offsets[done] < LastBefore(offsets, done)
      invariant offset == if restarted then 0 else LastBefore(offsets, done)
      invariant pos == bounds[done] + if restarted then 1 else 0
      invariant pos <= size && (done == |offsets| <==> pos == size)
      decreases size - pos
    {
      LayoutAt(bytes, offsets, bounds, done);
      LayoutAt(bytes, offsets, bounds, done + 1);
      ghost var end := if !restarted && offsets[done] < LastBefore(offsets, done) then pos + 1 else bounds[done + 1];
      ghost var value := if restarted then offsets[done] + 1
                         else if offsets[done] < LastBefore(offsets, done) then 0
                         else offsets[done] - LastBefore(offsets, done) + 1;
      assert ReadsAs(bytes, pos, end, value);
      var code, next := ReadCode(data, size, pos, end, value);
      pos := next;
      if code == 0 {
        offset := 0;
        restarted := true;
        continue;
      }
      offset := offset + (code - 1);
      out := out + [offset];
      assert offsets[..done + 1] == offsets[..done] + [offsets[done]];
      done, restarted := done + 1, false;
    }
  }

  /** What a layout says at one boundary. */
  lemma LayoutAt(bytes: seq<byte>, offsets: seq<nat>, bounds: seq<nat>, i: nat)
    requires Layout(bytes, offsets, bounds) && i <= |offsets|
    ensures |bounds| == |offsets| + 1 && bounds[0] == 0 && bounds[|offsets|] == |bytes|
    ensures i < |offsets| ==> IsCode(bytes, bounds[i], bounds[i + 1], LastBefore(offsets, i), offsets[i])
    ensures bounds[i] <= |bytes| && (bounds[i] == |bytes| <==> i == |offsets|)
    ensures i < |offsets| && offsets[i] < LastBefore(offsets, i) ==> bounds[i] + 1 < |bytes|
  {
    hide LebValue;
  }
}

/** Unsigned LEB128, as the postings blobs and the packing aggregate's streams use it (DWARF Version 5, section 7.6):
    seven payload bits a byte, least significant group first, the high bit set on every byte but the last. */
module Leb128 {
  import opened Common

  const INT64_MAX := 0x7FFF_FFFF_FFFF_FFFF

  type byte = x: int | 0 <= x < 256

  /** The bytes of `value`, shortest form. */
  function Varint(value: nat): (r: seq<byte>)
    ensures |r| >= 1
  {
    if value < 128 then [value] else [value % 128 + 128] + Varint(value / 128)
  }

  /** The number a group of bytes denotes, whatever its continuation bits. */
  function LebValue(group: seq<byte>): nat {
    if group == [] then 0 else group[0] % 128 + 128 * LebValue(group[1..])
  }

  /** data[pos..end] is one group: continuation bits set on all its bytes but the last. */
  predicate GroupAt(data: seq<byte>, pos: nat, end: nat) {
    && pos < end <= |data|
    && data[end - 1] < 128
    && forall i :: pos <= i < end - 1 ==> data[i] >= 128
  }

  function Pow128(n: nat): (r: nat)
    ensures r >= 1
  {
    if n == 0 then 1 else 128 * Pow128(n - 1)
  }

  lemma {:induction false} VarintIsGroup(value: nat)
    ensures GroupAt(Varint(value), 0, |Varint(value)|)
    ensures LebValue(Varint(value)) == value
  {
    var r := Varint(value);
    if value < 128 {
      assert r[1..] == [];
    } else {
      VarintIsGroup(value / 128);
      var t := Varint(value / 128);
      assert r[1..] == t;
      assert r[0] % 128 == value % 128;
      assert forall i :: 1 <= i < |r| ==> r[i] == t[i - 1];
    }
  }

  /** The encoding takes n bytes at most exactly when the value lies below 128^n. */
  lemma {:induction false} VarintLength(value: nat, n: nat)
    requires n >= 1
    ensures |Varint(value)| <= n <==> value < Pow128(n)
  {
    if value >= 128 {
      if n > 1 {
        VarintLength(value / 128, n - 1);
        var p := Pow128(n - 1);
        assert value < 128 * p <==> value / 128 < p;
      } else {
        assert Pow128(1) == 128 * Pow128(0);
      }
    } else {
      assert Pow128(n) == 128 * Pow128(n - 1);
    }
  }

  lemma {:induction false} LebValueSnoc(group: seq<byte>, b: byte)
    ensures LebValue(group + [b]) == LebValue(group) + (b % 128) * Pow128(|group|)
  {
    if group == [] {
      assert group + [b] == [b] && [b][1..] == [];
      assert LebValue([b]) == b % 128;
    } else {
      LebValueSnoc(group[1..], b);
      assert (group + [b])[1..] == group[1..] + [b];
      assert 128 * ((b % 128) * Pow128(|group| - 1)) == (b % 128) * Pow128(|group|);
    }
  }

  lemma {:induction false} LebValuePrefix(group: seq<byte>, k: nat)
    requires k <= |group|
    ensures LebValue(group[..k]) <= LebValue(group)
  {
    if k < |group| {
      var n := |group| - 1;
      assert group == group[..n] + [group[n]];
      LebValueSnoc(group[..n], group[n]);
      LebValuePrefix(group[..n], k);
      assert group[..n][..k] == group[..k];
    } else {
      assert group[..k] == group;
    }
  }

  /** One past the first byte at or after `pos` that ends a group. */
  function GroupEnd(data: seq<byte>, pos: nat): (r: Option<nat>)
    requires pos <= |data|
    ensures r.Some? ==> GroupAt(data, pos, r.value)
    ensures r.None? ==> forall i :: pos <= i < |data| ==> data[i] >= 128
    decreases |data| - pos
  {
    if pos == |data| then None
    else if data[pos] < 128 then Some(pos + 1)
    else GroupEnd(data, pos + 1)
  }

  lemma GroupEndIs(data: seq<byte>, pos: nat, end: nat)
    requires GroupAt(data, pos, end)
    ensures GroupEnd(data, pos) == Some(end)
  {
    var r := GroupEnd(data, pos);
    assert data[end - 1] < 128;
  }

  datatype VarintRead = VarintRead(value: nat, next: nat)

  /** What reading a varint at `pos` means: the group that starts there, of at most ten bytes and within int64. */
  function Read(data: seq<byte>, pos: nat): (r: Option<VarintRead>)
    requires pos <= |data|
    ensures r.Some? ==> pos < r.value.next <= |data| && r.value.value <= INT64_MAX
  {
    match GroupEnd(data, pos)
    case None => None
    case Some(end) =>
      var value := LebValue(data[pos..end]);
      if end - pos <= 10 && value <= INT64_MAX then Some(VarintRead(value, end)) else None
  }

  method AppendVarint(blob: seq<byte>, value: nat) returns (out: seq<byte>)
    ensures out == blob + Varint(value)
  {
    out := blob;
    var v := value;
    while v >= 128
      invariant out + Varint(v) == blob + Varint(value)
      decreases v
    {
      assert out + Varint(v) == (out + [v % 128 + 128]) + Varint(v / 128);
      out := out + [v % 128 + 128];
      v := v / 128;
    }
    out := out + [v];
  }

  lemma {:induction false} Pow128Values()
    ensures Pow128(3) == 0x20_0000
    ensures Pow128(9) == 0x8000_0000_0000_0000
    ensures Pow128(10) == 0x40_0000_0000_0000_0000
  {
    assert Pow128(1) == 128;
    assert Pow128(2) == 128 * Pow128(1);
    assert Pow128(3) == 128 * Pow128(2);
    assert Pow128(4) == 128 * Pow128(3);
    assert Pow128(5) == 128 * Pow128(4);
    assert Pow128(6) == 128 * Pow128(5);
    assert Pow128(7) == 128 * Pow128(6);
    assert Pow128(8) == 128 * Pow128(7);
    assert Pow128(9) == 128 * Pow128(8);
    assert Pow128(10) == 128 * Pow128(9);
  }

  /** Bytes [pos, p) all continue their group. */
  predicate Continues(data: seq<byte>, pos: nat, p: nat) {
    pos <= p <= |data| && forall i :: pos <= i < p ==> data[i] >= 128
  }

  lemma ReadStep(data: seq<byte>, pos: nat, p: nat)
    requires pos <= p < |data|
    ensures LebValue(data[pos..p + 1]) == LebValue(data[pos..p]) + (data[p] % 128) * Pow128(p - pos)
  {
    assert data[pos..p + 1] == data[pos..p] + [data[p]];
    LebValueSnoc(data[pos..p], data[p]);
  }

  lemma ReadPastEnd(data: seq<byte>, pos: nat, p: nat)
    requires Continues(data, pos, p) && (p == |data| || p - pos >= 10)
    ensures Read(data, pos).None?
  {
    var ending := GroupEnd(data, pos);
    assert ending.Some? ==> data[ending.value - 1] < 128;
  }

  lemma ReadTooLarge(data: seq<byte>, pos: nat, p: nat)
    requires Continues(data, pos, p) && p < |data| && p - pos == 9 && data[p] % 128 >= 2
    ensures Read(data, pos).None?
  {
    var ending := GroupEnd(data, pos);
    assert ending.Some? ==> data[ending.value - 1] < 128;
    if ending.Some? {
      Pow128Values();
      ReadStep(data, pos, p);
      LebValuePrefix(data[pos..ending.value], 10);
      assert data[pos..ending.value][..10] == data[pos..p + 1];
    }
  }

  /** The decoder's loop. Payload bits land above those already read, so the bitwise or is a sum, and shifting by
      `shift` multiplies by 128 for every byte read. */
  method ReadVarint(data: seq<byte>, pos: nat) returns (r: Option<VarintRead>)
    requires pos <= |data|
    ensures r == Read(data, pos)
  {
    var value, shift, p := 0, 0, pos;
    while true
      invariant Continues(data, pos, p)
      invariant shift == 7 * (p - pos) <= 70
      invariant value == LebValue(data[pos..p])
      decreases |data| - p
    {
      if p >= |data| || shift > 63 {
        ReadPastEnd(data, pos, p);
        return None;
      }
      var b := data[p];
      if shift == 63 && b % 128 >= 2 {
        ReadTooLarge(data, pos, p);
        return None;
      }
      ReadStep(data, pos, p);
      value := value + (b % 128) * Pow128(p - pos);
      p := p + 1;
      if b < 128 {
        GroupEndIs(data, pos, p);
        if value > INT64_MAX {
          return None;
        }
        return Some(VarintRead(value, p));
      }
      shift := shift + 7;
    }
  }

  /** Reading back what was written, wherever it stands. */
  lemma ReadBack(before: seq<byte>, value: nat, after: seq<byte>)
    requires value <= INT64_MAX
    ensures Read(before + Varint(value) + after, |before|) == Some(VarintRead(value, |before| + |Varint(value)|))
  {
    var code := Varint(value);
    var data := before + code + after;
    var end := |before| + |code|;
    VarintIsGroup(value);
    assert data[|before|..end] == code;
    assert forall i :: |before| <= i < end ==> data[i] == code[i - |before|];
    VarintLength(value, 9);
    Pow128Values();
    GroupEndIs(data, |before|, end);
  }
}

/** 128-bit storage keys of grams, and the 64-bit codes that sort a row's keys faster. */
module GramKeys {
  import opened Common

  const TWO_32 := 0x1_0000_0000
  const TWO_64 := 0x1_0000_0000_0000_0000
  const SPARSE_BUCKET_KEY_UPPER := 0xFFFF_FFFF_FFFF_FFFE
  const PACKED_KEY_BYTES := 16

  /** A key's two 64-bit halves. */
  datatype Key = Key(upper: nat, lower: nat)

  predicate IsKey(k: Key) {
    k.upper < TWO_64 && k.lower < TWO_64
  }

  /** The key as one 128-bit integer, which orders as the halves do. */
  function Value(k: Key): nat {
    k.upper * TWO_64 + k.lower
  }

  lemma ValueOrder(a: Key, b: Key)
    requires IsKey(a) && IsKey(b)
    ensures Value(a) < Value(b) <==> a.upper < b.upper || (a.upper == b.upper && a.lower < b.lower)
    ensures Value(a) == Value(b) <==> a == b
  {
  }

  // ---------------------------------------------------------------------------------------------------------------
  // Packed keys

  predicate IsBytes(s: seq<nat>) {
    forall i :: 0 <= i < |s| ==> s[i] < 256
  }

  /** Base-256 digits, most significant first. */
  function Digits(s: seq<nat>): nat {
    if s == [] then 0 else 256 * Digits(s[..|s| - 1]) + s[|s| - 1]
  }

  function Zeros(n: nat): (r: seq<nat>)
    ensures |r| == n && forall i :: 0 <= i < n ==> r[i] == 0
  {
    seq(n, _ => 0)
  }

  /** A gram of at most 16 bytes fills the key's high bytes and zeros pad the rest. */
  function PackedKey(gram: seq<nat>): nat
    requires |gram| <= PACKED_KEY_BYTES
  {
    Digits(gram + Zeros(PACKED_KEY_BYTES - |gram|))
  }

  lemma {:induction false} DigitsOrder(a: seq<nat>, b: seq<nat>)
    requires |a| == |b| && IsBytes(a) && IsBytes(b)
    ensures Digits(a) == Digits(b) ==> a == b
  {
    if a != [] {
      var a', b' := a[..|a| - 1], b[..|b| - 1];
      DigitsOrder(a', b');
      if Digits(a) == Digits(b) {
        assert a == a' + [a[|a| - 1]] && b == b' + [b[|b| - 1]];
      }
    }
  }

  /** Packing collides only on padding: of two grams with one key, one is the other followed by NUL bytes. */
  lemma PackedCollision(a: seq<nat>, b: seq<nat>)
    requires IsBytes(a) && IsBytes(b) && |a| <= |b| <= PACKED_KEY_BYTES
    ensures PackedKey(a) == PackedKey(b) <==> b == a + Zeros(|b| - |a|)
  {
    var pa, pb := a + Zeros(PACKED_KEY_BYTES - |a|), b + Zeros(PACKED_KEY_BYTES - |b|);
    if b == a + Zeros(|b| - |a|) {
      assert pa == pb;
    }
    if PackedKey(a) == PackedKey(b) {
      DigitsOrder(pa, pb);
      assert forall i :: 0 <= i < |a| ==> b[i] == pb[i] == pa[i] == a[i];
      assert forall i :: |a| <= i < |b| ==> b[i] == pb[i] == pa[i] == 0;
    }
  }

  function Pow256(n: nat): nat {
    if n == 0 then 1 else 256 * Pow256(n - 1)
  }

  /** The first byte bounds the number. */
  lemma {:induction false} FirstByteBounds(s: seq<nat>)
    requires s != [] && IsBytes(s)
    ensures Digits(s) < (s[0] + 1) * Pow256(|s| - 1)
  {
    var k := |s| - 1;
    if k > 0 {
      FirstByteBounds(s[..k]);
      var bound := (s[0] + 1) * Pow256(k - 1);
      assert 256 * Digits(s[..k]) + s[k] < 256 * bound;
      assert (s[0] + 1) * Pow256(k) == 256 * bound by { Regroup(s[0] + 1, Pow256(k - 1)); }
    } else {
      assert s[..0] == [];
    }
  }

  lemma Regroup(a: nat, b: nat)
    ensures a * (256 * b) == 256 * (a * b)
  {
  }

  /** No packed key of UTF-8, which has no byte 0xFF, is a sparse bucket's. */
  lemma PackedIsNoBucket(gram: seq<nat>, bucket: nat)
    requires IsBytes(gram) && 0 < |gram| <= PACKED_KEY_BYTES && gram[0] < 0xFF
    ensures PackedKey(gram) != Value(Key(SPARSE_BUCKET_KEY_UPPER, bucket))
  {
    var padded := gram + Zeros(PACKED_KEY_BYTES - |gram|);
    FirstByteBounds(padded);
    Pow256Of15();
    MulMonotone(padded[0] + 1, 0xFF, Pow256(15));
  }

  lemma Pow256Of15()
    ensures Pow256(15) == 0x1_0000_0000_0000_00 * TWO_64
  {
    assert Pow256(5) == 0x1_00_0000_0000;
    assert Pow256(10) == 0x1_00_0000_0000 * Pow256(5);
    assert Pow256(15) == 0x1_00_0000_0000 * Pow256(10);
  }

  // ---------------------------------------------------------------------------------------------------------------
  // Sort codes

  /** A gram of at most four bytes, or a sparse bucket. */
  predicate SortCodeFits(k: Key) {
    (k.lower == 0 && k.upper % TWO_32 == 0) || (k.upper == SPARSE_BUCKET_KEY_UPPER && k.lower < TWO_32)
  }

  function SortCode(k: Key): nat {
    if k.upper == SPARSE_BUCKET_KEY_UPPER then TWO_32 + k.lower else k.upper / TWO_32
  }

  function FromSortCode(code: nat): Key {
    if code / TWO_32 != 0 then Key(SPARSE_BUCKET_KEY_UPPER, code - TWO_32) else Key(code * TWO_32, 0)
  }

  lemma {:induction false} PaddedDigits(s: seq<nat>, n: nat)
    ensures Digits(s + Zeros(n)) == Digits(s) * Pow256(n)
  {
    if n == 0 {
      assert s + Zeros(0) == s;
    } else {
      PaddedDigits(s, n - 1);
      assert (s + Zeros(n))[..|s| + n - 1] == s + Zeros(n - 1);
      Regroup(Digits(s), Pow256(n - 1));
    }
  }

  /** The keys that have codes are those of the grams there are: packed grams of at most four bytes, and buckets. */
  lemma ShortGramsHaveCodes(gram: seq<nat>)
    requires IsBytes(gram) && |gram| <= 4
    ensures var k := Key(Digits(gram + Zeros(4 - |gram|)) * TWO_32, 0);
            IsKey(k) && SortCodeFits(k) && Value(k) == PackedKey(gram)
  {
    hide Digits, Pow256;
    var four := gram + Zeros(4 - |gram|);
    assert gram + Zeros(PACKED_KEY_BYTES - |gram|) == four + Zeros(12);
    PaddedDigits(four, 12);
    FirstByteBounds(four);
    Pow256Of3And12();
    MulMonotone(four[0] + 1, 256, Pow256(3));
    AboveTwo32(Digits(four));
  }

  lemma Pow256Of3And12()
    ensures Pow256(3) * 256 == TWO_32 && Pow256(12) == TWO_32 * TWO_64
  {
    assert Pow256(3) == 0x100_0000;
    assert Pow256(6) == 0x100_0000 * Pow256(3);
    assert Pow256(9) == 0x100_0000 * Pow256(6);
    assert Pow256(12) == 0x100_0000 * Pow256(9);
  }

  lemma AboveTwo32(n: nat)
    requires n < TWO_32
    ensures n * TWO_32 < TWO_64 && n * TWO_32 % TWO_32 == 0
  {
  }

  lemma BucketsHaveCodes(bucket: nat)
    ensures SortCodeFits(Key(SPARSE_BUCKET_KEY_UPPER, bucket)) <==> bucket < TWO_32
  {
  }

  /** Codes fit 64 bits, invert, and order as the keys do. */
  lemma SortCodeRoundTrip(k: Key)
    requires IsKey(k) && SortCodeFits(k)
    ensures SortCode(k) < TWO_64 && FromSortCode(SortCode(k)) == k
  {
    if k.upper != SPARSE_BUCKET_KEY_UPPER {
      assert k.upper / TWO_32 < TWO_32;
    }
  }

  lemma SortCodeOrder(a: Key, b: Key)
    requires IsKey(a) && IsKey(b) && SortCodeFits(a) && SortCodeFits(b)
    ensures SortCode(a) < SortCode(b) <==> Value(a) < Value(b)
  {
    ValueOrder(a, b);
  }

  function Values(keys: seq<Key>): (r: seq<int>)
    ensures |r| == |keys| && forall i :: 0 <= i < |r| ==> r[i] == Value(keys[i])
  {
    seq(|keys|, i requires 0 <= i < |keys| => Value(keys[i]))
  }

  /** When every key has a code, the codes are sorted and turned back. */
  method DistinctByCode(keys: seq<Key>) returns (distinct: seq<Key>)
    requires forall i :: 0 <= i < |keys| ==> IsKey(keys[i]) && SortCodeFits(keys[i])
    ensures Values(distinct) == SortUnique(Values(keys))
  {
    hide SortUnique, SortCodeFits, SortCode, FromSortCode, IsKey;
    var codes: seq<nat> := [];
    for i := 0 to |keys|
      invariant |codes| == i && forall j :: 0 <= j < i ==> codes[j] == SortCode(keys[j])
    {
      codes := codes + [SortCode(keys[i])];
    }
    var sorted := SortUnique(codes);
    distinct := [];
    for i := 0 to |sorted|
      invariant |distinct| == i && forall j :: 0 <= j < i ==> sorted[j] >= 0 && distinct[j] == FromSortCode(sorted[j])
    {
      assert sorted[i] in sorted;
      distinct := distinct + [FromSortCode(sorted[i])];
    }
    CodesSortKeys(keys, codes, sorted, distinct);
  }

  lemma CodesSortKeys(keys: seq<Key>, codes: seq<nat>, sorted: seq<int>, distinct: seq<Key>)
    requires forall i :: 0 <= i < |keys| ==> IsKey(keys[i]) && SortCodeFits(keys[i])
    requires |codes| == |keys| && forall j :: 0 <= j < |codes| ==> codes[j] == SortCode(keys[j])
    requires sorted == SortUnique(codes)
    requires |distinct| == |sorted| && forall j :: 0 <= j < |sorted| ==>
             sorted[j] >= 0 && distinct[j] == FromSortCode(sorted[j])
    ensures Values(distinct) == SortUnique(Values(keys))
  {
    hide SortUnique, SortCodeFits, SortCode, FromSortCode, IsKey, Value;
    forall j | 0 <= j < |sorted| ensures CodedBy(keys, sorted[j], distinct[j]) {
      assert sorted[j] in codes;
      var i :| 0 <= i < |codes| && codes[i] == sorted[j];
      SortCodeRoundTrip(keys[i]);
      assert CodedAt(keys, i, sorted[j], distinct[j]);
    }
    ValuesAscend(keys, sorted, distinct);
    ValuesSame(keys, codes, sorted, distinct);
    SortUniqueIs(Values(keys), Values(distinct));
  }

  predicate CodedAt(keys: seq<Key>, i: int, code: int, key: Key) {
    0 <= i < |keys| && keys[i] == key && code == SortCode(key)
  }

  /** A code and the key of the list it stands for. */
  ghost predicate CodedBy(keys: seq<Key>, code: int, key: Key) {
    exists i :: CodedAt(keys, i, code, key)
  }

  lemma ValuesAscend(keys: seq<Key>, sorted: seq<int>, distinct: seq<Key>)
    requires forall i :: 0 <= i < |keys| ==> IsKey(keys[i]) && SortCodeFits(keys[i])
    requires Ascending(sorted) && |distinct| == |sorted|
    requires forall j :: 0 <= j < |sorted| ==> CodedBy(keys, sorted[j], distinct[j])
    ensures Ascending(Values(distinct))
  {
    hide SortCodeFits, SortCode, IsKey, Value;
    forall i, j | 0 <= i < j < |distinct| ensures Value(distinct[i]) < Value(distinct[j]) {
      assert CodedBy(keys, sorted[i], distinct[i]) && CodedBy(keys, sorted[j], distinct[j]);
      SortCodeOrder(distinct[i], distinct[j]);
    }
  }

  lemma ValuesSame(keys: seq<Key>, codes: seq<nat>, sorted: seq<int>, distinct: seq<Key>)
    requires forall i :: 0 <= i < |keys| ==> IsKey(keys[i]) && SortCodeFits(keys[i])
    requires |codes| == |keys| && forall j :: 0 <= j < |codes| ==> codes[j] == SortCode(keys[j])
    requires SameElements(sorted, codes) && |distinct| == |sorted|
    requires forall j :: 0 <= j < |sorted| ==> sorted[j] >= 0 && distinct[j] == FromSortCode(sorted[j])
    requires forall j :: 0 <= j < |sorted| ==> CodedBy(keys, sorted[j], distinct[j])
    ensures SameElements(Values(distinct), Values(keys))
  {
    hide SortCodeFits, SortCode, FromSortCode, IsKey, Value;
    forall x ensures x in Values(distinct) <==> x in Values(keys) {
      if x in Values(distinct) {
        var j :| 0 <= j < |distinct| && x == Value(distinct[j]);
        assert CodedBy(keys, sorted[j], distinct[j]);
        var i :| CodedAt(keys, i, sorted[j], distinct[j]);
        assert Values(keys)[i] == x;
      }
      if x in Values(keys) {
        var i :| 0 <= i < |keys| && x == Value(keys[i]);
        assert codes[i] in sorted;
        var j :| 0 <= j < |sorted| && sorted[j] == codes[i];
        SortCodeRoundTrip(keys[i]);
        assert Values(distinct)[j] == x;
      }
    }
  }
}

/** Shapes every component shares: results, strictly ascending lists, flattening. */
module Common {

  /** Rowids of one segment: 1 << SEGMENT_SHIFT. */
  const SEGMENT_SPAN := 0x10_0000

  /** Rows of one of the host's vectors. */
  const STANDARD_VECTOR_SIZE := 2048

  /** A range scan may read this many rows for each row a fetch would. */
  const RANGE_ROWS_PER_FETCH := 4

  datatype Option<+T> = None | Some(value: T)

  datatype Result<+T, +E> = Ok(value: T) | Err(error: E)

  function Min(a: int, b: int): int {
    if a <= b then a else b
  }

  function Max(a: int, b: int): int {
    if a >= b then a else b
  }

  /** Strictly ascending, hence free of repeats. */
  predicate Ascending(s: seq<int>) {
    forall i, j :: 0 <= i < j < |s| ==> s[i] < s[j]
  }

  /** Every row lies in the segment. */
  predicate InSegment(segment: int, rows: seq<int>) {
    forall i :: 0 <= i < |rows| ==> segment * SEGMENT_SPAN <= rows[i] < (segment + 1) * SEGMENT_SPAN
  }

  /** A row of the segment that does not lie past the mark. */
  predicate RowInside(x: int, segment: nat, hwm: int) {
    segment * SEGMENT_SPAN <= x < (segment + 1) * SEGMENT_SPAN && x <= hwm
  }

  predicate InSegmentUpTo(rows: seq<int>, segment: nat, hwm: int) {
    InSegment(segment, rows) && forall i :: 0 <= i < |rows| ==> rows[i] <= hwm
  }

  lemma MulMonotone(a: int, b: int, c: int)
    requires a <= b && c >= 0
    ensures a * c <= b * c
  {
  }

  ghost predicate SameElements<T(!new)>(a: seq<T>, b: seq<T>) {
    forall x :: x in a <==> x in b
  }

  /** A set of integers has one strictly ascending listing. */
  lemma {:induction false} AscendingUnique(a: seq<int>, b: seq<int>)
    requires Ascending(a) && Ascending(b)
    requires SameElements(a, b)
    ensures a == b
    decreases |a|
  {
    if |a| == 0 {
      var first := (b + [0])[0];
      assert first in b ==> first in a;
    } else {
      assert a[|a| - 1] in b;
      var x, y := a[|a| - 1], b[|b| - 1];
      assert x in b && y in a;
      var a', b' := a[..|a| - 1], b[..|b| - 1];
      assert x == y;
      assert a == a' + [x] && b == b' + [y];
      forall z ensures z in a' <==> z in b' {
        assert z in a <==> z in b;
      }
      AscendingUnique(a', b');
    }
  }

  function Flatten<T>(ss: seq<seq<T>>): seq<T> {
    if ss == [] then [] else ss[0] + Flatten(ss[1..])
  }

  lemma ConcatAssociates<T>(a: seq<T>, b: seq<T>, c: seq<T>)
    ensures (a + b) + c == a + (b + c)
  {
  }

  lemma {:induction false} FlattenConcat<T>(a: seq<seq<T>>, b: seq<seq<T>>)
    ensures Flatten(a + b) == Flatten(a) + Flatten(b)
  {
    if a == [] {
      assert a + b == b;
    } else {
      FlattenConcat(a[1..], b);
      assert (a + b)[1..] == a[1..] + b;
      ConcatAssociates(a[0], Flatten(a[1..]), Flatten(b));
    }
  }

  lemma {:induction false} FlattenSnoc<T>(ss: seq<seq<T>>, s: seq<T>)
    ensures Flatten(ss + [s]) == Flatten(ss) + s
  {
    FlattenConcat(ss, [s]);
    assert Flatten([s]) == s + Flatten([]);
  }

  /** Insert into a strictly ascending list, keeping it a set. */
  function Insert(s: seq<int>, x: int): (r: seq<int>)
    requires Ascending(s)
    ensures Ascending(r)
    ensures forall y :: y in r <==> y in s || y == x
  {
    if s == [] then [x]
    else if x < s[0] then [x] + s
    else if x == s[0] then s
    else
      var t := Insert(s[1..], x);
      var r := [s[0]] + t;
      assert forall y :: y in s <==> y == s[0] || y in s[1..];
      assert forall i :: 0 <= i < |t| ==> t[i] in t;
      r
  }

  /** The sorted, deduplicated listing of a list's elements: what std::sort followed by erasing std::unique's tail
      leaves. */
  function SortUnique(s: seq<int>): (r: seq<int>)
    ensures Ascending(r)
    ensures SameElements(r, s)
  {
    if s == [] then []
    else
      assert forall y :: y in s <==> y in s[..|s| - 1] || y == s[|s| - 1];
      Insert(SortUnique(s[..|s| - 1]), s[|s| - 1])
  }

  lemma SortUniqueIs(s: seq<int>, sorted: seq<int>)
    requires Ascending(sorted) && SameElements(sorted, s)
    ensures SortUnique(s) == sorted
  {
    AscendingUnique(SortUnique(s), sorted);
  }

  /** A strictly ascending list of numbers of [0, limit) has at most `limit` of them. */
  lemma {:induction false} AscendingLength(s: seq<int>, limit: nat)
    requires Ascending(s)
    requires forall i :: 0 <= i < |s| ==> 0 <= s[i] < limit
    ensures |s| <= limit
    decreases limit
  {
    if |s| > 0 {
      AscendingLength(s[..|s| - 1], s[|s| - 1]);
    }
  }

  lemma SegmentLength(segment: int, rows: seq<int>)
    requires Ascending(rows) && InSegment(segment, rows)
    ensures |rows| <= SEGMENT_SPAN
  {
    var shifted := seq(|rows|, i requires 0 <= i < |rows| => rows[i] - segment * SEGMENT_SPAN);
    AscendingLength(shifted, SEGMENT_SPAN);
  }

  predicate NoRepeats(s: seq<int>) {
    forall i, j :: 0 <= i < j < |s| ==> s[i] != s[j]
  }

  lemma {:induction false} InsertSize(s: seq<int>, x: int)
    requires Ascending(s)
    ensures |Insert(s, x)| == if x in s then |s| else |s| + 1
  {
    if s != [] && x > s[0] {
      InsertSize(s[1..], x);
    } else if s != [] && x < s[0] {
      assert x !in s;
    }
  }

  /** Sorting leaves adjacent equals exactly when the list repeats. */
  lemma {:induction false} UniqueSize(s: seq<int>)
    ensures |SortUnique(s)| <= |s|
    ensures |SortUnique(s)| == |s| <==> NoRepeats(s)
  {
    if s != [] {
      var front, last := s[..|s| - 1], s[|s| - 1];
      UniqueSize(front);
      InsertSize(SortUnique(front), last);
      if NoRepeats(front) && !NoRepeats(s) {
        var i, j :| 0 <= i < j < |s| && s[i] == s[j];
        assert s[i] == front[i];
      }
      if last in front {
        var i :| 0 <= i < |front| && front[i] == last;
        assert s[i] == s[|s| - 1];
      }
    }
  }

  function Map<A, B>(f: A -> B, s: seq<A>): (r: seq<B>)
    ensures |r| == |s| && forall i :: 0 <= i < |r| ==> r[i] == f(s[i])
  {
    seq(|s|, i requires 0 <= i < |s| => f(s[i]))
  }
}

/** The whole claim: a query whose filter is harvested for needles, over a table that may be truncated and reissue
    rowids, an index maintained beside the writes, and a guard whose verdict is safe, answers exactly. */
module GuardedSearch {
  import opened Common
  import opened Needles
  import opened LikeNeedles
  import A = AdmitSegments
  import F = Refresh
  import G = GuardedRuns
  import H = GuardRuns
  import L = Manifest
  import P = Probe
  import Q = QueueRuns
  import S = SearchCore
  import SG = SparseGrams
  import X = Search

  /** How an index reads a column: its tokenizer, hashing and case folding. */
  datatype Indexing = Indexing(options: Options, hashing: Hashing, ci: bool, fold: nat -> nat)

  ghost predicate ValidIndexing(x: Indexing) {
    ValidOptions(x.options) && KeepsWildcards(x.fold) && YieldsNoWildcard(x.fold)
  }

  ghost predicate TextHasKey(x: Indexing, text: Text, key: int)
    requires ValidOptions(x.options)
  {
    HasKey(x.options, x.hashing, Indexed(x.ci, x.fold, text), key)
  }

  /** `key` is a key of some harvested needle the index can serve. */
  ghost predicate FromNeedle(x: Indexing, f: Filter, key: int)
    requires ValidOptions(x.options)
  {
    exists n :: n in Harvest(f) && (n.requiresCi ==> x.ci) && TextHasKey(x, n.text, key)
  }

  /** A row's text, None for NULL, satisfies the filter; `other` answers what the index does not read. */
  ghost predicate Satisfies(x: Indexing, f: Filter, text: Option<Text>, other: int -> bool) {
    text.Some? && Holds(f, text.value, x.fold, other)
  }

  /** What decomposing a needle adds are keys of the needle. */
  lemma ProbedKeysAreFromNeedles(x: Indexing, f: Filter, n: RewriteNeedle, probed: seq<SG.Range>, key: int)
    requires ValidIndexing(x) && n in Harvest(f) && (n.requiresCi ==> x.ci)
    requires AllGrams(x.options, x.hashing, Indexed(x.ci, x.fold, n.text), probed)
    requires key in KeysAt(x.options, x.hashing, Indexed(x.ci, x.fold, n.text), probed)
    ensures FromNeedle(x, f, key)
  {
    hide Harvest, Indexed, SG.Pair, Weights, GramText;
    var needle := Indexed(x.ci, x.fold, n.text);
    var keys := KeysAt(x.options, x.hashing, needle, probed);
    var i :| 0 <= i < |keys| && keys[i] == key;
    assert IsGram(x.options, x.hashing, needle, probed[i]);
    assert TokenizedGramKey(x.options, x.hashing, needle, probed[i]) == key;
    assert TextHasKey(x, n.text, key);
  }

  /** Matching rows have every probed key: what the end-to-end statement asks of the keys follows from the filter. */
  lemma FilterImpliesKeys(x: Indexing, f: Filter, t: S.Table, textAt: nat -> Option<Text>, otherAt: nat -> int -> bool,
                          keysOf: nat -> set<int>, keys: seq<int>)
    requires ValidIndexing(x)
    requires forall r: nat :: S.Hit(t, r) ==> Satisfies(x, f, textAt(r), otherAt(r))
    requires forall r: nat, key :: textAt(r).Some? && TextHasKey(x, textAt(r).value, key) ==> key in keysOf(r)
    requires forall g :: 0 <= g < |keys| ==> FromNeedle(x, f, keys[g])
    ensures X.KeysImplied(t, keys, keysOf)
  {
    hide S.Hit, Holds, HasKey, Harvest, Indexed, ValidOptions;
    forall r: nat, g | S.Hit(t, r) && 0 <= g < |keys| ensures keys[g] in keysOf(r) {
      assert Satisfies(x, f, textAt(r), otherAt(r)) && FromNeedle(x, f, keys[g]);
      var n :| n in Harvest(f) && (n.requiresCi ==> x.ci) && TextHasKey(x, n.text, keys[g]);
      HarvestedKeysArePosted(f, textAt(r).value, x.fold, otherAt(r), n, x.options, x.hashing, x.ci, keys[g]);
      assert TextHasKey(x, textAt(r).value, keys[g]);
    }
  }

  /** The history a query follows: what it left, under a safe verdict. */
  ghost predicate SafeAfter(start: H.Host, history: seq<G.Step>, rowKeys: H.Row -> set<int>, s: G.State) {
    && G.Run(start, history, rowKeys) == Some(s) && H.VerdictSafe(s.host)
  }

  /** The text a rowid has now. */
  function TextAt(s: G.State, textOf: H.Row -> Option<Text>): nat -> Option<Text> {
    (r: nat) => if r < |s.host.rows| then textOf(s.host.rows[r]) else None
  }

  /** The keys of a row are those of its text. */
  ghost predicate KeyedByText(x: Indexing, textOf: H.Row -> Option<Text>, rowKeys: H.Row -> set<int>)
    requires ValidOptions(x.options)
  {
    forall row, key :: textOf(row).Some? && TextHasKey(x, textOf(row).value, key) ==> key in rowKeys(row)
  }

  /** The query's snapshot: the live rows, of which exactly those whose text satisfies the filter match. */
  ghost predicate Snapshot(x: Indexing, f: Filter, t: S.Table, s: G.State, textOf: H.Row -> Option<Text>,
                           otherAt: nat -> int -> bool)
  {
    && S.ValidTable(t) && t.visible == G.Alive(s.host.rows, s.dead)
    && forall r: nat :: r in t.visible ==> (r in t.matching <==> Satisfies(x, f, TextAt(s, textOf)(r), otherAt(r)))
  }

  /** In every history of writes, deletes, truncations, reissues, crashes, foreign checkpoints and maintenance, a query
      that finds the verdict safe answers exactly: every live row whose text satisfies the filter, once, in order, and
      no other. */
  lemma QueryUnderSafeVerdict(x: Indexing, f: Filter, textOf: H.Row -> Option<Text>, otherAt: nat -> int -> bool,
                              rowKeys: H.Row -> set<int>, inMemory: bool, iteration: nat, rows: seq<H.Row>,
                              history: seq<G.Step>, s: G.State, t: S.Table, keys: seq<int>, ds: seq<P.Descriptor>,
                              from: seq<L.Source>, segments: seq<A.Admitted>, evidence: seq<A.Evidence>,
                              candidates: seq<seq<int>>, maxThreads: nat, steps: seq<Q.Step>, unitRows: nat)
    requires ValidIndexing(x) && KeyedByText(x, textOf, rowKeys)
    requires SafeAfter(H.Initial(inMemory, iteration, rows), history, rowKeys, s)
             && Snapshot(x, f, t, s, textOf, otherAt)
    requires keys != [] && forall g :: 0 <= g < |keys| ==> FromNeedle(x, f, keys[g])
    requires L.Lists(ds, from, keys, s.index.rows)
    requires X.Probed(ds, |keys|, segments, evidence, candidates, s.index.hwm) && maxThreads >= 1 && unitRows > 0
    requires X.Completed(Q.Plan(X.Numbers(segments), candidates, maxThreads), steps)
    ensures var plan := Q.Plan(X.Numbers(segments), candidates, maxThreads);
            && Q.BatchesOf(plan, Q.Run(plan, steps).value.log)
            && S.Output(t, plan, Q.Run(plan, steps).value.log, s.index.hwm, unitRows) == S.Scan(t, 0, t.end) + t.local
    ensures Ascending(S.Scan(t, 0, t.end))
    ensures forall r :: r in S.Scan(t, 0, t.end) <==>
              0 <= r < t.end && r in t.visible && Satisfies(x, f, TextAt(s, textOf)(r), otherAt(r))
  {
    hide F.ValidIndex, F.Covers, X.KeysImplied, L.Lists, X.Probed, S.ValidTable, S.Scan, S.Output, Q.BatchesOf, Q.Run;
    hide G.Run;
    hide H.Initial, H.VerdictSafe, G.Alive, G.KeysNow, FromNeedle, Satisfies, TextHasKey;
    G.SafeIndexCovers(inMemory, iteration, rows, history, rowKeys);
    var keysOf := G.KeysNow(s.host, rowKeys);
    AliveCovers(s, t.visible, rowKeys);
    assert forall r: nat :: S.Hit(t, r) ==> Satisfies(x, f, TextAt(s, textOf)(r), otherAt(r));
    RowsHaveTheirKeys(x, s, textOf, rowKeys);
    FilterImpliesKeys(x, f, t, TextAt(s, textOf), otherAt, keysOf, keys);
    X.QueryIsExact(t, s.index, keysOf, keys, ds, from, segments, evidence, candidates, maxThreads, steps, unitRows);
  }

  lemma RowsHaveTheirKeys(x: Indexing, s: G.State, textOf: H.Row -> Option<Text>, rowKeys: H.Row -> set<int>)
    requires ValidOptions(x.options) && KeyedByText(x, textOf, rowKeys)
    requires forall r :: 0 <= r < |s.host.rows| ==> G.KeysNow(s.host, rowKeys)(r) == rowKeys(s.host.rows[r])
    ensures forall r: nat, key :: TextAt(s, textOf)(r).Some? && TextHasKey(x, TextAt(s, textOf)(r).value, key) ==>
              key in G.KeysNow(s.host, rowKeys)(r)
  {
    hide TextHasKey, G.KeysNow;
    forall r: nat, key | TextAt(s, textOf)(r).Some? && TextHasKey(x, TextAt(s, textOf)(r).value, key)
      ensures key in G.KeysNow(s.host, rowKeys)(r)
    {
      assert r < |s.host.rows|;
      var row := s.host.rows[r];
      assert textOf(row) == TextAt(s, textOf)(r);
      assert key in rowKeys(row);
    }
  }

  lemma AliveCovers(s: G.State, visible: set<int>, rowKeys: H.Row -> set<int>)
    requires visible == G.Alive(s.host.rows, s.dead)
    requires F.Covers(s.index, G.KeysNow(s.host, rowKeys), G.Alive(s.host.rows, s.dead))
    ensures forall r: nat :: r in visible ==> F.Covers(s.index, G.KeysNow(s.host, rowKeys), {r})
  {
    hide G.KeysNow, G.Alive;
  }
}

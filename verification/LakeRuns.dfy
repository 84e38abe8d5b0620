/** An index on a DuckLake table: postings that cover one snapshot, the change feed after it, and the staleness check.
    Any client may write the table; runs interleave its writes with schema changes, snapshot expiry and maintenance. */
module LakeRuns {
  import opened Common

  /** A row's text, by identity. */
  type Text = int

  /** A live row's current version and the snapshot that inserted it; an update keeps the row id and inserts anew. */
  datatype Version = Version(text: Text, since: nat)

  /** An index's id and the table id it records. */
  datatype Ref = Ref(id: int, tableId: int)

  /** A registry row with its segments: every row held at `covered` is posted. */
  datatype LakeIndex = LakeIndex(ref: Ref, covered: nat, schemaVersion: int, postings: set<(int, nat)>)

  /** One snapshot: the table and the index as it holds them, and what its commit changed. */
  datatype Snapshot = Snapshot(
    version: nat,
    tableId: int,
    rows: map<nat, Version>,
    index: Option<LakeIndex>,
    inserted: map<nat, Text>,
    altered: set<int>,
    dropped: set<int>)

  /** Snapshot ids are consecutive: history[n] is snapshot n. Expired snapshots are no longer listed. */
  datatype Lake = Lake(history: seq<Snapshot>, expired: set<nat>)

  predicate Changed(s: Snapshot, tableId: int) {
    tableId in s.altered || tableId in s.dropped
  }

  /** No listed change to the table in snapshots (lo, hi]. */
  predicate NoChange(h: seq<Snapshot>, tableId: int, lo: int, hi: int)
    requires -1 <= lo && hi < |h|
  {
    forall j :: lo < j <= hi ==> !Changed(h[j], tableId)
  }

  predicate Listed(lake: Lake, lo: int, hi: int) {
    forall j :: lo < j <= hi ==> j !in lake.expired
  }

  // ---------------------------------------------------------------------------------------------------------------
  // LakeStaleReason and LakeTailSource

  datatype Staleness = Current | CoversLaterSnapshot | TableAltered | SnapshotsExpired

  /** Whether a listed snapshot of (lo, hi] altered or dropped the table. */
  predicate ListedChange(lake: Lake, tableId: int, lo: int, hi: int)
    requires -1 <= lo && hi < |lake.history|
  {
    exists j :: lo < j <= hi && j !in lake.expired && Changed(lake.history[j], tableId)
  }

  function LakeStaleReason(lake: Lake, snapshot: nat, index: LakeIndex): Staleness
    requires snapshot < |lake.history|
  {
    if index.covered > snapshot then CoversLaterSnapshot
    else if index.schemaVersion >= 0 && index.schemaVersion == lake.history[snapshot].version then Current
    else if ListedChange(lake, index.ref.tableId, index.covered, snapshot) then TableAltered
    else if !Listed(lake, index.covered, snapshot) then SnapshotsExpired
    else Current
  }

  /** Rows inserted after `covered`, with the text inserted: the change feed while its snapshots are listed, otherwise
      the live rows filtered on the snapshot that inserted them. */
  ghost function LakeTailSource(lake: Lake, covered: nat, snapshot: nat): iset<(nat, Text)>
    requires snapshot < |lake.history|
  {
    if Listed(lake, covered, snapshot) then
      iset r, j | covered < j <= snapshot && r in lake.history[j].inserted :: (r, lake.history[j].inserted[r])
    else
      var rows := lake.history[snapshot].rows;
      iset r | r in rows && rows[r].since > covered :: (r, rows[r].text)
  }

  // ---------------------------------------------------------------------------------------------------------------
  // Commits

  datatype Step =
    | Write(removed: set<nat>, written: map<nat, Text>, raise: nat)
    | Alter(texts: map<nat, Text>, raise: nat)
    | Replace(tableId: int, raise: nat)
    | OtherDdl(raise: nat)
    | Expire(snapshots: set<nat>)
    | CreateIndex(base: nat, id: int, raise: nat)
    | RefreshIndex(planned: nat, expiredThen: set<nat>, base: nat, fed: set<(nat, Text)>, raise: nat)
    | CompactIndex(planned: nat, expiredThen: set<nat>, base: nat, purge: bool, raise: nat)
    | DropIndex(raise: nat)

  function Last(lake: Lake): Snapshot
    requires lake.history != []
  {
    lake.history[|lake.history| - 1]
  }

  /** A maintenance script is planned at one snapshot, where the index must be current by the snapshots listed then, and
      runs at a later one, where the registry row must be unchanged; the lock row it rewrites lets no other maintenance
      commit in between. */
  predicate Maintainable(lake: Lake, planned: nat, expiredThen: set<nat>, base: nat) {
    && planned <= base < |lake.history|
    && lake.history[planned].index.Some? && lake.history[base].index.Some?
    && LakeStaleReason(Lake(lake.history, expiredThen), planned, lake.history[planned].index.value) == Current
    && lake.history[base].index.value.ref == lake.history[planned].index.value.ref
    && lake.history[base].index.value.covered == lake.history[planned].index.value.covered
    && Last(lake).index == lake.history[base].index
  }

  ghost predicate Enabled(lake: Lake, step: Step) {
    && lake.history != []
    && match step
      case Write(_, _, _) => true
      case Alter(texts, raise) => texts.Keys == Last(lake).rows.Keys && raise > 0
      case Replace(tableId, raise) => tableId != Last(lake).tableId && raise > 0
      case OtherDdl(raise) => raise > 0
      case Expire(_) => true
      case CreateIndex(base, _, raise) => base < |lake.history| && Last(lake).index.None? && raise > 0
      case RefreshIndex(planned, expiredThen, base, fed, _) =>
        && Maintainable(lake, planned, expiredThen, base) && lake.history[planned].index.value.covered < planned
        && (forall f :: f in fed <==>
             f in LakeTailSource(Lake(lake.history, expiredThen), lake.history[planned].index.value.covered, planned))
      case CompactIndex(planned, expiredThen, base, _, _) => Maintainable(lake, planned, expiredThen, base)
      case DropIndex(raise) => raise > 0
  }

  function Keyed(keysOf: Text -> set<int>, rows: map<nat, Version>): set<(int, nat)> {
    set r, k | r in rows && k in keysOf(rows[r].text) :: (k, r)
  }

  function FeedKeys(keysOf: Text -> set<int>, fed: set<(nat, Text)>): set<(int, nat)> {
    set f, k | f in fed && k in keysOf(f.1) :: (k, f.0)
  }

  function Unchanged(s: Snapshot, raise: nat): Snapshot {
    s.(version := s.version + raise, inserted := map[], altered := {}, dropped := {})
  }

  /** The snapshot a commit adds. */
  function Committed(lake: Lake, step: Step, keysOf: Text -> set<int>): Snapshot
    requires Enabled(lake, step) && !step.Expire?
  {
    var n, last := |lake.history|, Last(lake);
    match step
    case Write(removed, written, raise) =>
      Unchanged(last, raise).(
        rows := (last.rows - removed) + (map r | r in written :: Version(written[r], n)),
        inserted := written)
    case Alter(texts, raise) =>
      Unchanged(last, raise).(
        rows := map r | r in last.rows :: Version(texts[r], last.rows[r].since),
        altered := {last.tableId})
    case Replace(tableId, raise) => Unchanged(last, raise).(tableId := tableId, rows := map[],
        dropped := {last.tableId})
    case OtherDdl(raise) => Unchanged(last, raise)
    case CreateIndex(base, id, raise) =>
      var read := lake.history[base];
      Unchanged(last, raise).(index := Some(LakeIndex(Ref(id, read.tableId), base, read.version + 1,
          Keyed(keysOf, read.rows))))
    case RefreshIndex(planned, _, base, fed, raise) =>
      var index := lake.history[base].index.value;
      Unchanged(last, raise).(index := Some(index.(
        covered := planned,
        schemaVersion := lake.history[planned].version,
        postings := index.postings + FeedKeys(keysOf, fed))))
    case CompactIndex(planned, _, base, purge, raise) =>
      var index := lake.history[base].index.value;
      Unchanged(last, raise).(index := Some(index.(
        schemaVersion := lake.history[planned].version,
        postings := if purge then (set p | p in index.postings && p.1 in lake.history[base].rows) else index.postings)))
    case DropIndex(raise) => Unchanged(last, raise).(index := None)
  }

  ghost function Next(lake: Lake, step: Step, keysOf: Text -> set<int>): Lake
    requires Enabled(lake, step)
  {
    if step.Expire? then lake.(expired := lake.expired + step.snapshots)
    else lake.(history := lake.history + [Committed(lake, step, keysOf)])
  }

  ghost function Run(start: Lake, steps: seq<Step>, keysOf: Text -> set<int>): Option<Lake> {
    if steps == [] then Some(start)
    else
      var before := Run(start, steps[..|steps| - 1], keysOf);
      var step := steps[|steps| - 1];
      if before.Some? && Enabled(before.value, step) then Some(Next(before.value, step, keysOf)) else None
  }

  /** A lake before its table holds rows or an index. */
  function Initial(version: nat, tableId: int): Lake {
    Lake([Snapshot(version, tableId, map[], None, map[], {}, {})], {})
  }

  // ---------------------------------------------------------------------------------------------------------------
  // What consecutive snapshots keep

  /** Every schema change raises the version; a row not inserted by a snapshot that leaves its table alone was there
      before, unchanged; a row inserted by it is in its feed. */
  predicate Linked(prev: Snapshot, cur: Snapshot, n: nat) {
    && prev.version <= cur.version
    && (cur.altered + cur.dropped != {} ==> prev.version < cur.version)
    && (prev.tableId == cur.tableId || prev.tableId in cur.dropped)
    && (forall r :: r in cur.rows ==> cur.rows[r].since <= n)
    && (!Changed(cur, prev.tableId) ==>
         forall r :: r in cur.rows && cur.rows[r].since < n ==> r in prev.rows && prev.rows[r] == cur.rows[r])
    && (forall r :: r in cur.rows && cur.rows[r].since == n ==>
         r in cur.inserted && cur.inserted[r] == cur.rows[r].text)
  }

  predicate Chain(h: seq<Snapshot>) {
    && h != []
    && (forall r :: r in h[0].rows ==> h[0].rows[r].since == 0)
    && forall n :: 0 < n < |h| ==> Linked(h[n - 1], h[n], n)
  }

  lemma {:induction false} VersionsRise(h: seq<Snapshot>, m: nat, n: nat)
    requires Chain(h) && m <= n < |h|
    ensures h[m].version <= h[n].version
  {
    hide Changed;
    if m < n {
      VersionsRise(h, m, n - 1);
      assert Linked(h[n - 1], h[n], n);
    }
  }

  /** Two snapshots of one version have no change to any table between them. */
  lemma SameVersion(h: seq<Snapshot>, tableId: int, m: nat, n: nat)
    requires Chain(h) && m <= n < |h| && h[m].version == h[n].version
    ensures NoChange(h, tableId, m, n)
  {
    forall j | m < j <= n ensures !Changed(h[j], tableId) {
      VersionsRise(h, m, j - 1);
      VersionsRise(h, j, n);
      assert Linked(h[j - 1], h[j], j);
    }
  }

  /** A row live at n, inserted by m, was live at m as it is now, when nothing changed its table in between. */
  lemma {:induction false} RowWasThere(h: seq<Snapshot>, m: nat, n: nat, r: nat)
    requires Chain(h) && m <= n < |h| && NoChange(h, h[m].tableId, m, n)
    requires r in h[n].rows && h[n].rows[r].since <= m
    ensures h[n].tableId == h[m].tableId && r in h[m].rows && h[m].rows[r] == h[n].rows[r]
    decreases n - m
  {
    SameTable(h, m, n);
    if m < n {
      SameTable(h, m, n - 1);
      assert Linked(h[n - 1], h[n], n);
      RowWasThere(h, m, n - 1, r);
    }
  }

  lemma {:induction false} SameTable(h: seq<Snapshot>, m: nat, n: nat)
    requires Chain(h) && m <= n < |h| && NoChange(h, h[m].tableId, m, n)
    ensures h[n].tableId == h[m].tableId
  {
    if m < n {
      SameTable(h, m, n - 1);
      assert Linked(h[n - 1], h[n], n);
      assert !Changed(h[n], h[m].tableId);
    }
  }

  /** Snapshot 0 inserts nothing, and every row was inserted by a snapshot no later than the one that holds it. */
  lemma SinceBound(h: seq<Snapshot>, n: nat, r: nat)
    requires Chain(h) && n < |h| && r in h[n].rows
    ensures h[n].rows[r].since <= n
  {
    if n > 0 {
      assert Linked(h[n - 1], h[n], n);
    }
  }

  /** A row live at n and inserted after m is in the feed of (m, n], with the text it has, when nothing changed its
      table. */
  lemma {:induction false} RowIsFed(h: seq<Snapshot>, m: nat, n: nat, r: nat)
    requires Chain(h) && m <= n < |h| && NoChange(h, h[m].tableId, m, n)
    requires r in h[n].rows && h[n].rows[r].since > m
    ensures var j := h[n].rows[r].since; j <= n && r in h[j].inserted && h[j].inserted[r] == h[n].rows[r].text
    decreases n - m
  {
    SinceBound(h, n, r);
    SameTable(h, m, n);
    if h[n].rows[r].since < n {
      SameTable(h, m, n - 1);
      assert Linked(h[n - 1], h[n], n);
      RowIsFed(h, m, n - 1, r);
    } else {
      assert Linked(h[n - 1], h[n], n);
    }
  }

  // ---------------------------------------------------------------------------------------------------------------
  // The invariant

  /** While nothing changed its table since the covered snapshot, an index posts every row inserted by then under all
      the keys of its text. */
  predicate Posts(h: seq<Snapshot>, n: nat, index: LakeIndex, keysOf: Text -> set<int>)
    requires index.covered <= n < |h|
  {
    && h[index.covered].tableId == index.ref.tableId
    && forall r, k :: r in h[n].rows && h[n].rows[r].since <= index.covered && k in keysOf(h[n].rows[r].text) ==>
         (k, r) in index.postings
  }

  predicate IndexOk(h: seq<Snapshot>, n: nat, keysOf: Text -> set<int>)
    requires n < |h|
  {
    h[n].index.Some? ==>
      var index := h[n].index.value;
      && index.covered <= n && 0 <= index.schemaVersion <= h[n].version
      && (index.schemaVersion == h[n].version ==> NoChange(h, index.ref.tableId, index.covered, n))
      && (NoChange(h, index.ref.tableId, index.covered, n) ==> Posts(h, n, index, keysOf))
  }

  predicate Inv(lake: Lake, keysOf: Text -> set<int>) {
    Chain(lake.history) && forall n :: 0 <= n < |lake.history| ==> IndexOk(lake.history, n, keysOf)
  }

  lemma NoChangePrefix(h: seq<Snapshot>, s: Snapshot, tableId: int, lo: int, hi: int)
    requires -1 <= lo && hi < |h|
    ensures NoChange(h + [s], tableId, lo, hi) <==> NoChange(h, tableId, lo, hi)
  {
    hide Changed;
    var g := h + [s];
    assert forall j :: lo < j <= hi ==> g[j] == h[j];
    if NoChange(g, tableId, lo, hi) {
      forall j | lo < j <= hi ensures !Changed(h[j], tableId) {
        assert !Changed(g[j], tableId);
      }
    }
  }

  lemma IndexOkPrefix(h: seq<Snapshot>, s: Snapshot, n: nat, keysOf: Text -> set<int>)
    requires n < |h| && IndexOk(h, n, keysOf)
    ensures IndexOk(h + [s], n, keysOf)
  {
    hide NoChange;
    if h[n].index.Some? {
      NoChangePrefix(h, s, h[n].index.value.ref.tableId, h[n].index.value.covered, n);
    }
  }

  /** A passing staleness check proves that nothing changed the index's table since its covered snapshot. */
  lemma CurrentMeansUnchanged(lake: Lake, n: nat, keysOf: Text -> set<int>)
    requires n < |lake.history| && IndexOk(lake.history, n, keysOf) && lake.history[n].index.Some?
    requires LakeStaleReason(lake, n, lake.history[n].index.value) == Current
    ensures var index := lake.history[n].index.value;
            index.covered <= n && NoChange(lake.history, index.ref.tableId, index.covered, n)
                && Posts(lake.history, n, index, keysOf)
  {
    hide Changed, Posts;
  }

  lemma ChainGrows(h: seq<Snapshot>, s: Snapshot)
    requires Chain(h) && Linked(h[|h| - 1], s, |h|)
    ensures Chain(h + [s])
  {
    hide Linked;
    var g := h + [s];
    forall n | 0 < n < |g| ensures Linked(g[n - 1], g[n], n) {
      if n < |h| {
        assert g[n - 1] == h[n - 1] && g[n] == h[n];
      }
    }
  }

  /** A commit that leaves the index alone keeps it sound, whatever it does to the table. */
  lemma IndexCarries(h: seq<Snapshot>, keysOf: Text -> set<int>)
    requires Chain(h) && |h| > 1 && IndexOk(h, |h| - 2, keysOf) && h[|h| - 1].index == h[|h| - 2].index
    ensures IndexOk(h, |h| - 1, keysOf)
  {
    hide Changed;
    var n := |h| - 1;
    assert Linked(h[n - 1], h[n], n);
    if h[n].index.Some? {
      var index := h[n].index.value;
      if index.schemaVersion == h[n].version {
        SameVersion(h, index.ref.tableId, n - 1, n);
      }
      if NoChange(h, index.ref.tableId, index.covered, n) {
        PostsCarries(h, index, keysOf);
      }
    }
  }

  lemma PostsCarries(h: seq<Snapshot>, index: LakeIndex, keysOf: Text -> set<int>)
    requires Chain(h) && |h| > 1 && index.covered <= |h| - 2 && Posts(h, |h| - 2, index, keysOf)
    requires NoChange(h, index.ref.tableId, index.covered, |h| - 1)
    ensures Posts(h, |h| - 1, index, keysOf)
  {
    hide Changed;
    var n := |h| - 1;
    assert Linked(h[n - 1], h[n], n);
    SameTable(h, index.covered, n - 1);
  }

  /** A created index covers the snapshot its script read; a version one above that one's means no other schema change
      committed in between. */
  lemma CreateOk(h: seq<Snapshot>, base: nat, keysOf: Text -> set<int>)
    requires Chain(h) && base < |h| - 1 && h[|h| - 1].index.Some? && h[|h| - 2].version < h[|h| - 1].version
    requires h[|h| - 1].altered == {} == h[|h| - 1].dropped
    requires var index := h[|h| - 1].index.value;
             index.covered == base && index.schemaVersion == h[base].version + 1 && index.ref.tableId == h[base].tableId
             && index.postings == Keyed(keysOf, h[base].rows)
    ensures IndexOk(h, |h| - 1, keysOf)
  {
    var n, index := |h| - 1, h[|h| - 1].index.value;
    VersionsRise(h, base, n - 1);
    if index.schemaVersion == h[n].version {
      SameVersion(h, index.ref.tableId, base, n - 1);
      assert NoChange(h, index.ref.tableId, base, n) by { UnchangedLast(h, index.ref.tableId, base); }
    }
    if NoChange(h, index.ref.tableId, base, n) {
      forall r, k | r in h[n].rows && h[n].rows[r].since <= base && k in keysOf(h[n].rows[r].text)
        ensures (k, r) in index.postings
      {
        RowWasThere(h, base, n, r);
      }
    }
  }

  lemma UnchangedLast(h: seq<Snapshot>, tableId: int, lo: nat)
    requires lo < |h| - 1 && NoChange(h, tableId, lo, |h| - 2) && !Changed(h[|h| - 1], tableId)
    ensures NoChange(h, tableId, lo, |h| - 1)
  {
  }

  /** What a maintenance commit may rely on: its index was unchanged and posting at `planned`, and its base still holds
      it. */
  predicate Maintained(h: seq<Snapshot>, planned: nat, base: nat, ref: Ref, covered: nat, postings: set<(int, nat)>,
                       keysOf: Text -> set<int>) {
    && covered <= planned <= base < |h| - 1
    && NoChange(h, ref.tableId, covered, planned)
    && h[covered].tableId == ref.tableId
    && (NoChange(h, ref.tableId, covered, base) ==> Posts(h, base, LakeIndex(ref, covered, 0, postings), keysOf))
  }

  lemma JoinNoChange(h: seq<Snapshot>, tableId: int, lo: nat, mid: nat, hi: nat)
    requires lo <= mid <= hi < |h| && NoChange(h, tableId, lo, mid)
    ensures NoChange(h, tableId, mid, hi) <==> NoChange(h, tableId, lo, hi)
  {
    hide Changed;
  }

  /** A refresh moves the covered snapshot to the one it was planned at and posts what the feed inserted up to it. */
  lemma RefreshOk(h: seq<Snapshot>, planned: nat, base: nat, covered: nat, before: set<(int, nat)>,
                  keysOf: Text -> set<int>)
    requires Chain(h) && |h| > 1 && h[|h| - 1].index.Some?
    requires var index := h[|h| - 1].index.value;
             Maintained(h, planned, base, index.ref, covered, before, keysOf)
             && index.covered == planned && index.schemaVersion == h[planned].version && before <= index.postings
             && forall r, k :: r in h[planned].rows && h[planned].rows[r].since > covered
                  && k in keysOf(h[planned].rows[r].text)
                  ==> (k, r) in index.postings
    ensures IndexOk(h, |h| - 1, keysOf)
  {
    hide Changed;
    var n, index := |h| - 1, h[|h| - 1].index.value;
    VersionsRise(h, planned, n);
    SameTable(h, covered, planned);
    if index.schemaVersion == h[n].version {
      SameVersion(h, index.ref.tableId, planned, n);
    }
    if NoChange(h, index.ref.tableId, planned, n) {
      JoinNoChange(h, index.ref.tableId, covered, planned, n);
      forall r, k | r in h[n].rows && h[n].rows[r].since <= planned && k in keysOf(h[n].rows[r].text)
        ensures (k, r) in index.postings
      {
        RowWasThere(h, planned, n, r);
        if h[n].rows[r].since <= covered {
          RowAtBase(h, index.ref.tableId, covered, base, n, r);
        }
      }
    }
  }

  /** A row posted by the covered snapshot and live at n was live, as it is, at every snapshot in between. */
  lemma RowAtBase(h: seq<Snapshot>, tableId: int, covered: nat, base: nat, n: nat, r: nat)
    requires Chain(h) && covered <= base <= n < |h| && h[covered].tableId == tableId && NoChange(h, tableId, covered, n)
    requires r in h[n].rows && h[n].rows[r].since <= covered
    ensures r in h[base].rows && h[base].rows[r] == h[n].rows[r] && NoChange(h, tableId, covered, base)
  {
    hide Changed;
    SameTable(h, covered, base);
    JoinNoChange(h, tableId, covered, base, n);
    RowWasThere(h, base, n, r);
  }

  /** Compaction keeps the covered snapshot but records the schema version it was planned at: the staleness check it
      passed makes that sound. Purging drops only rows its base no longer holds. */
  lemma CompactOk(h: seq<Snapshot>, planned: nat, base: nat, before: set<(int, nat)>, keysOf: Text -> set<int>)
    requires Chain(h) && |h| > 1 && h[|h| - 1].index.Some?
    requires var index := h[|h| - 1].index.value;
             Maintained(h, planned, base, index.ref, index.covered, before, keysOf)
             && index.schemaVersion == h[planned].version
             && forall p :: p in before && p.1 in h[base].rows ==> p in index.postings
    ensures IndexOk(h, |h| - 1, keysOf)
  {
    hide Changed;
    var n, index := |h| - 1, h[|h| - 1].index.value;
    VersionsRise(h, planned, n);
    if index.schemaVersion == h[n].version {
      SameVersion(h, index.ref.tableId, planned, n);
      JoinNoChange(h, index.ref.tableId, index.covered, planned, n);
    }
    if NoChange(h, index.ref.tableId, index.covered, n) {
      forall r, k | r in h[n].rows && h[n].rows[r].since <= index.covered && k in keysOf(h[n].rows[r].text)
        ensures (k, r) in index.postings
      {
        RowAtBase(h, index.ref.tableId, index.covered, base, n, r);
      }
    }
  }

  // ---------------------------------------------------------------------------------------------------------------
  // Every commit keeps it

  lemma CommitLinked(lake: Lake, step: Step, keysOf: Text -> set<int>)
    requires Chain(lake.history) && Enabled(lake, step) && !step.Expire?
    ensures Linked(Last(lake), Committed(lake, step, keysOf), |lake.history|)
  {
    hide Maintainable, Keyed, FeedKeys;
    var n := |lake.history| - 1;
    forall r | r in lake.history[n].rows ensures lake.history[n].rows[r].since <= n {
      SinceBound(lake.history, n, r);
    }
  }

  /** Feed or filter, the tail lists all rows inserted past the covered snapshot that the planned one still holds. */
  lemma FeedIsComplete(lake: Lake, covered: nat, planned: nat, r: nat)
    requires Chain(lake.history) && covered <= planned < |lake.history|
    requires NoChange(lake.history, lake.history[covered].tableId, covered, planned)
    requires r in lake.history[planned].rows && lake.history[planned].rows[r].since > covered
    ensures (r, lake.history[planned].rows[r].text) in LakeTailSource(lake, covered, planned)
  {
    hide Changed;
    RowIsFed(lake.history, covered, planned, r);
  }

  lemma MaintainedAfter(lake: Lake, s: Snapshot, planned: nat, expiredThen: set<nat>, base: nat,
                        keysOf: Text -> set<int>)
    requires Inv(lake, keysOf) && Maintainable(lake, planned, expiredThen, base)
    ensures var index := lake.history[base].index.value;
            Maintained(lake.history + [s], planned, base, index.ref, index.covered, index.postings, keysOf)
  {
    hide Changed, Chain;
    var h, index := lake.history, lake.history[base].index.value;
    assert IndexOk(h, planned, keysOf) && IndexOk(h, base, keysOf);
    CurrentMeansUnchanged(Lake(h, expiredThen), planned, keysOf);
    NoChangePrefix(h, s, index.ref.tableId, index.covered, planned);
    NoChangePrefix(h, s, index.ref.tableId, index.covered, base);
  }

  lemma RefreshStep(lake: Lake, step: Step, keysOf: Text -> set<int>)
    requires Inv(lake, keysOf) && Enabled(lake, step) && step.RefreshIndex?
             && Chain(lake.history + [Committed(lake, step, keysOf)])
    ensures IndexOk(lake.history + [Committed(lake, step, keysOf)], |lake.history|, keysOf)
  {
    hide Changed, Chain, LakeTailSource, Linked, NoChange, IndexOk;
    var s := Committed(lake, step, keysOf);
    var h, planned := lake.history + [s], step.planned;
    var index := lake.history[step.base].index.value;
    MaintainedAfter(lake, s, planned, step.expiredThen, step.base, keysOf);
    NoChangePrefix(lake.history, s, index.ref.tableId, index.covered, planned);
    forall r, k | r in h[planned].rows && h[planned].rows[r].since > index.covered
        && k in keysOf(h[planned].rows[r].text)
      ensures (k, r) in s.index.value.postings
    {
      FeedIsComplete(Lake(lake.history, step.expiredThen), index.covered, planned, r);
      assert (r, h[planned].rows[r].text) in step.fed;
    }
    RefreshOk(h, planned, step.base, index.covered, index.postings, keysOf);
  }

  lemma CommitOk(lake: Lake, step: Step, keysOf: Text -> set<int>)
    requires Inv(lake, keysOf) && Enabled(lake, step) && !step.Expire?
             && Chain(lake.history + [Committed(lake, step, keysOf)])
    ensures IndexOk(lake.history + [Committed(lake, step, keysOf)], |lake.history|, keysOf)
  {
    hide Changed, Chain, LakeTailSource, Linked, NoChange;
    var s, n := Committed(lake, step, keysOf), |lake.history|;
    var h := lake.history + [s];
    if step.CreateIndex? {
      CreateOk(h, step.base, keysOf);
    } else if step.RefreshIndex? {
      RefreshStep(lake, step, keysOf);
    } else if step.CompactIndex? {
      MaintainedAfter(lake, s, step.planned, step.expiredThen, step.base, keysOf);
      CompactOk(h, step.planned, step.base, lake.history[step.base].index.value.postings, keysOf);
    } else if !step.DropIndex? {
      assert IndexOk(lake.history, n - 1, keysOf);
      IndexOkPrefix(lake.history, s, n - 1, keysOf);
      IndexCarries(h, keysOf);
    }
  }

  lemma NextInv(lake: Lake, step: Step, keysOf: Text -> set<int>)
    requires Inv(lake, keysOf) && Enabled(lake, step)
    ensures Inv(Next(lake, step, keysOf), keysOf)
  {
    hide Enabled, Committed, IndexOk, Chain, Linked;
    if !step.Expire? {
      var s := Committed(lake, step, keysOf);
      CommitLinked(lake, step, keysOf);
      NonEmpty(lake.history);
      ChainGrows(lake.history, s);
      CommitOk(lake, step, keysOf);
      forall n | 0 <= n < |lake.history| + 1 ensures IndexOk(lake.history + [s], n, keysOf) {
        if n < |lake.history| {
          IndexOkPrefix(lake.history, s, n, keysOf);
        }
      }
    }
  }

  lemma NonEmpty(h: seq<Snapshot>)
    requires Chain(h)
    ensures h != []
  {
  }

  lemma {:induction false} RunInv(version: nat, tableId: int, steps: seq<Step>, keysOf: Text -> set<int>)
    requires Run(Initial(version, tableId), steps, keysOf).Some?
    ensures Inv(Run(Initial(version, tableId), steps, keysOf).value, keysOf)
  {
    if steps == [] {
    } else {
      hide Inv, Next, Enabled, Initial;
      RunInv(version, tableId, steps[..|steps| - 1], keysOf);
      NextInv(Run(Initial(version, tableId), steps[..|steps| - 1], keysOf).value, steps[|steps| - 1], keysOf);
    }
  }

  // ---------------------------------------------------------------------------------------------------------------
  // What a query relies on

  /** A row id every chosen key posts. */
  predicate Intersected(postings: set<(int, nat)>, chosen: seq<int>, r: nat) {
    forall i :: 0 <= i < |chosen| ==> (chosen[i], r) in postings
  }

  /** In every run, at every snapshot whose index passes the staleness check, each live row whose text has all the
      probed keys is proposed: by the intersected postings, or by the change feed with the text it has now. */
  lemma CandidatesAreComplete(version: nat, tableId: int, steps: seq<Step>, keysOf: Text -> set<int>, n: nat,
                              chosen: seq<int>, r: nat)
    requires Run(Initial(version, tableId), steps, keysOf).Some?
    requires var lake := Run(Initial(version, tableId), steps, keysOf).value;
             && n < |lake.history| && lake.history[n].index.Some?
             && LakeStaleReason(lake, n, lake.history[n].index.value) == Current
             && r in lake.history[n].rows
             && forall i :: 0 <= i < |chosen| ==> chosen[i] in keysOf(lake.history[n].rows[r].text)
    ensures var lake := Run(Initial(version, tableId), steps, keysOf).value;
            var index := lake.history[n].index.value;
            Intersected(index.postings, chosen, r)
                || (r, lake.history[n].rows[r].text) in LakeTailSource(lake, index.covered, n)
  {
    hide Run, Initial, Changed, Chain, LakeTailSource;
    RunInv(version, tableId, steps, keysOf);
    var lake := Run(Initial(version, tableId), steps, keysOf).value;
    var index := lake.history[n].index.value;
    assert IndexOk(lake.history, n, keysOf);
    CurrentMeansUnchanged(lake, n, keysOf);
    if lake.history[n].rows[r].since > index.covered {
      FeedIsComplete(lake, index.covered, n, r);
    } else {
      forall i | 0 <= i < |chosen| ensures (chosen[i], r) in index.postings {
        PostsRow(lake.history, n, index, keysOf, r, chosen[i]);
      }
    }
  }

  /** The check raises no false alarm: in every run it refuses an index only for a change to its table, or for a
      snapshot since the covered one that is no longer listed. */
  lemma StaleIsJustified(version: nat, tableId: int, steps: seq<Step>, keysOf: Text -> set<int>, n: nat)
    requires Run(Initial(version, tableId), steps, keysOf).Some?
    requires var lake := Run(Initial(version, tableId), steps, keysOf).value;
             n < |lake.history| && lake.history[n].index.Some?
    ensures var lake := Run(Initial(version, tableId), steps, keysOf).value;
            var index := lake.history[n].index.value;
            var reason := LakeStaleReason(lake, n, index);
            && index.covered <= n
            && (reason == Current ==> NoChange(lake.history, index.ref.tableId, index.covered, n))
            && (reason == TableAltered ==> !NoChange(lake.history, index.ref.tableId, index.covered, n))
            && (reason == SnapshotsExpired ==> !Listed(lake, index.covered, n))
            && reason != CoversLaterSnapshot
  {
    hide Run, Initial, Changed, Chain, Posts;
    RunInv(version, tableId, steps, keysOf);
    var lake := Run(Initial(version, tableId), steps, keysOf).value;
    assert IndexOk(lake.history, n, keysOf);
    if LakeStaleReason(lake, n, lake.history[n].index.value) == Current {
      CurrentMeansUnchanged(lake, n, keysOf);
    }
  }

  lemma PostsRow(h: seq<Snapshot>, n: nat, index: LakeIndex, keysOf: Text -> set<int>, r: nat, k: int)
    requires index.covered <= n < |h| && Posts(h, n, index, keysOf)
    requires r in h[n].rows && h[n].rows[r].since <= index.covered && k in keysOf(h[n].rows[r].text)
    ensures (k, r) in index.postings
  {
  }
}

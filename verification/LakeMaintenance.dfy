/** What DuckLake maintenance achieves: the index each commit leaves, exactly when the staleness check passes, and why a
    refresh or compaction makes an index outlive the expiry of snapshots. */
module LakeMaintenance {
  import opened Common
  import opened LakeRuns

  /** The index the newest snapshot holds. */
  function NewIndex(lake: Lake): Option<LakeIndex>
    requires lake.history != []
  {
    Last(lake).index
  }

  /** A commit that changes only the index: the table is as it was, under a snapshot of its own. */
  predicate OnlyIndex(before: Lake, after: Lake) {
    && before.history != [] && |after.history| == |before.history| + 1
    && before.history <= after.history && after.expired == before.expired
    && Last(after).rows == Last(before).rows && Last(after).tableId == Last(before).tableId
    && Last(after).inserted == map[] && Last(after).altered == {} == Last(after).dropped
  }

  /** Creating an index: it covers the snapshot read, records one version more, and posts exactly its rows' keys. */
  lemma CreateEffect(lake: Lake, step: Step, keysOf: Text -> set<int>)
    requires Enabled(lake, step) && step.CreateIndex?
    ensures var after := Next(lake, step, keysOf);
            && OnlyIndex(lake, after) && NewIndex(after).Some?
            && var index := NewIndex(after).value;
               var read := lake.history[step.base];
               && index.ref == Ref(step.id, read.tableId) && index.covered == step.base
               && index.schemaVersion == read.version + 1
               && forall k, r :: (k, r) in index.postings <==> r in read.rows && k in keysOf(read.rows[r].text)
  {
  }

  /** A refresh commits an index that covers the snapshot it was planned at and records that one's version. It posts
      what was posted, every key of each row the planned snapshot holds that came after the old mark, and keys of fed
      rows alone. */
  lemma RefreshEffect(lake: Lake, step: Step, keysOf: Text -> set<int>)
    requires Inv(lake, keysOf) && Enabled(lake, step) && step.RefreshIndex?
    ensures var after := Next(lake, step, keysOf);
            && OnlyIndex(lake, after) && NewIndex(lake).Some? && NewIndex(after).Some?
            && var before := NewIndex(lake).value;
               var index := NewIndex(after).value;
               var planned := lake.history[step.planned];
               && index.ref == before.ref && before.covered < index.covered == step.planned
               && index.schemaVersion == planned.version
               && before.postings <= index.postings
               && (forall r, k ::
                     r in planned.rows && planned.rows[r].since > before.covered
                         && k in keysOf(planned.rows[r].text) ==>
                       (k, r) in index.postings)
               && forall k, r :: (k, r) in index.postings - before.postings ==> FedKey(step.fed, keysOf, k, r)
  {
    hide Changed, Chain, LakeTailSource, NoChange, LakeStaleReason;
    var covered := lake.history[step.planned].index.value.covered;
    var planned := lake.history[step.planned];
    var index := NewIndex(Next(lake, step, keysOf)).value;
    assert IndexOk(lake.history, step.planned, keysOf);
    CurrentMeansUnchanged(Lake(lake.history, step.expiredThen), step.planned, keysOf);
    forall r, k | r in planned.rows && planned.rows[r].since > covered && k in keysOf(planned.rows[r].text)
      ensures (k, r) in index.postings
    {
      FeedIsComplete(Lake(lake.history, step.expiredThen), covered, step.planned, r);
      assert (r, planned.rows[r].text) in step.fed;
    }
    forall k, r | (k, r) in index.postings - NewIndex(lake).value.postings ensures FedKey(step.fed, keysOf, k, r) {
      var f :| f in step.fed && k in keysOf(f.1) && r == f.0;
    }
  }

  predicate FedKey(fed: set<(nat, Text)>, keysOf: Text -> set<int>, key: int, r: nat) {
    exists f :: f in fed && f.0 == r && key in keysOf(f.1)
  }

  /** Compaction keeps the covered snapshot and every posting, purging exactly those of rows its base holds, and records
      the version it was planned at. */
  lemma CompactEffect(lake: Lake, step: Step, keysOf: Text -> set<int>)
    requires Enabled(lake, step) && step.CompactIndex?
    ensures var after := Next(lake, step, keysOf);
            && OnlyIndex(lake, after) && NewIndex(lake).Some? && NewIndex(after).Some?
            && var before := NewIndex(lake).value;
               var index := NewIndex(after).value;
               && index.ref == before.ref && index.covered == before.covered
               && index.schemaVersion == lake.history[step.planned].version
               && forall p :: p in index.postings <==>
                    p in before.postings && (step.purge ==> p.1 in lake.history[step.base].rows)
  {
  }

  // ---------------------------------------------------------------------------------------------------------------
  // When the check passes

  /** In every run the check passes exactly when the recorded version is the snapshot's, or every snapshot since the
      covered one is listed and none changed the table. */
  lemma CheckIsExact(lake: Lake, n: nat, keysOf: Text -> set<int>)
    requires Inv(lake, keysOf) && n < |lake.history| && lake.history[n].index.Some?
    ensures var index := lake.history[n].index.value;
            && index.covered <= n
            && (LakeStaleReason(lake, n, index) == Current <==>
                  || index.schemaVersion == lake.history[n].version
                  || (Listed(lake, index.covered, n) && NoChange(lake.history, index.ref.tableId, index.covered, n)))
  {
    hide Changed, Chain, Posts;
    assert IndexOk(lake.history, n, keysOf);
  }

  /** So of an index with the snapshot's version, no expiry matters. */
  lemma VersionOutlivesExpiry(lake: Lake, n: nat, keysOf: Text -> set<int>, expired: set<nat>)
    requires Inv(lake, keysOf) && n < |lake.history| && lake.history[n].index.Some?
    requires lake.history[n].index.value.schemaVersion == lake.history[n].version
    ensures LakeStaleReason(Lake(lake.history, expired), n, lake.history[n].index.value) == Current
  {
    CheckIsExact(Lake(lake.history, expired), n, keysOf);
  }

  /** Writes and expiries, and no schema change. */
  predicate NoSchemaChange(steps: seq<Step>) {
    forall i :: 0 <= i < |steps| ==> steps[i].Expire? || (steps[i].Write? && steps[i].raise == 0)
  }

  /** From a commit that recorded the version in force, the index stays current through any writes and any expiry, until
      a schema change commits. */
  lemma {:induction false} CurrentUntilSchemaChange(lake: Lake, steps: seq<Step>, keysOf: Text -> set<int>)
    requires Inv(lake, keysOf) && lake.history != [] && Last(lake).index.Some?
    requires Last(lake).index.value.schemaVersion == Last(lake).version
    requires Run(lake, steps, keysOf).Some? && NoSchemaChange(steps)
    ensures var end := Run(lake, steps, keysOf).value;
            && Inv(end, keysOf) && |end.history| >= |lake.history|
            && Last(end).index == Last(lake).index && Last(end).version == Last(lake).version
            && LakeStaleReason(end, |end.history| - 1, Last(end).index.value) == Current
  {
    hide Inv, LakeStaleReason, Enabled;
    if steps != [] {
      var front := steps[..|steps| - 1];
      assert forall i :: 0 <= i < |front| ==> front[i] == steps[i];
      CurrentUntilSchemaChange(lake, front, keysOf);
      var before := Run(lake, front, keysOf).value;
      NextInv(before, steps[|steps| - 1], keysOf);
      KeepsIndex(before, steps[|steps| - 1], keysOf);
    }
    var end := Run(lake, steps, keysOf).value;
    VersionOutlivesExpiry(end, |end.history| - 1, keysOf, end.expired);
    assert Lake(end.history, end.expired) == end;
  }

  lemma KeepsIndex(lake: Lake, step: Step, keysOf: Text -> set<int>)
    requires Enabled(lake, step) && (step.Expire? || (step.Write? && step.raise == 0))
    ensures var after := Next(lake, step, keysOf);
            && |after.history| >= |lake.history| > 0
            && Last(after).index == Last(lake).index && Last(after).version == Last(lake).version
  {
  }

  /** A refresh or compaction planned at a snapshot of the version still in force leaves such an index. */
  lemma MaintenanceRecordsVersion(lake: Lake, step: Step, keysOf: Text -> set<int>)
    requires Inv(lake, keysOf) && Enabled(lake, step) && (step.RefreshIndex? || step.CompactIndex?) && step.raise == 0
    requires lake.history[step.planned].version == Last(lake).version
    ensures var after := Next(lake, step, keysOf);
            && Inv(after, keysOf) && NewIndex(after).Some?
            && NewIndex(after).value.schemaVersion == Last(after).version
  {
    hide Inv, LakeStaleReason, LakeTailSource;
    NextInv(lake, step, keysOf);
  }

  /** The reason to refresh before snapshots expire: once refreshed at `planned`, expiring any snapshots up to `planned`
      leaves the index current at every later snapshot, whatever the versions, unless one since altered the table. */
  lemma RefreshOutlivesExpiry(lake: Lake, step: Step, keysOf: Text -> set<int>, later: Lake, n: nat)
    requires Inv(lake, keysOf) && Enabled(lake, step) && step.RefreshIndex?
    requires Inv(later, keysOf) && Next(lake, step, keysOf).history <= later.history && n < |later.history|
    requires later.history[n].index == NewIndex(Next(lake, step, keysOf)) && step.planned <= n
    requires forall j :: j in later.expired ==> j <= step.planned
    requires NoChange(later.history, NewIndex(Next(lake, step, keysOf)).value.ref.tableId, step.planned, n)
    ensures LakeStaleReason(later, n, later.history[n].index.value) == Current
  {
    hide Inv, LakeStaleReason, NoChange, Enabled, Next;
    RefreshEffect(lake, step, keysOf);
    CheckIsExact(later, n, keysOf);
  }

  // ---------------------------------------------------------------------------------------------------------------
  // Expired snapshots are never read

  /** Two lakes that differ at most in what expired snapshots recorded. */
  predicate SameListed(a: Lake, b: Lake, n: nat) {
    && |a.history| == |b.history| && n < |a.history| && a.expired == b.expired
    && a.history[n].rows == b.history[n].rows && a.history[n].version == b.history[n].version
    && forall j :: 0 <= j < |a.history| && j !in a.expired ==> a.history[j] == b.history[j]
  }

  /** Neither the check nor the tail reads what an expired snapshot recorded. */
  lemma ExpiredAreUnread(a: Lake, b: Lake, n: nat, index: LakeIndex)
    requires SameListed(a, b, n)
    ensures LakeStaleReason(a, n, index) == LakeStaleReason(b, n, index)
    ensures LakeTailSource(a, index.covered, n) == LakeTailSource(b, index.covered, n)
  {
    hide Changed;
    ChangesListed(a, b, n, index);
    ChangesListed(b, a, n, index);
  }

  lemma ChangesListed(a: Lake, b: Lake, n: nat, index: LakeIndex)
    requires SameListed(a, b, n)
    ensures ListedChange(a, index.ref.tableId, index.covered, n) ==>
            ListedChange(b, index.ref.tableId, index.covered, n)
  {
    hide Changed;
    if ListedChange(a, index.ref.tableId, index.covered, n) {
      var j :| index.covered < j <= n && j !in a.expired && Changed(a.history[j], index.ref.tableId);
      assert Changed(b.history[j], index.ref.tableId);
    }
  }

  /** Some snapshot since `covered` inserted the row. */
  predicate InsertedSince(lake: Lake, covered: nat, n: nat, row: (nat, Text))
    requires n < |lake.history|
  {
    exists j :: covered < j <= n && row.0 in lake.history[j].inserted && lake.history[j].inserted[row.0] == row.1
  }

  /** A live row that came after `covered`. */
  predicate LiveSince(lake: Lake, covered: nat, n: nat, row: (nat, Text))
    requires n < |lake.history|
  {
    var rows := lake.history[n].rows;
    row.0 in rows && rows[row.0].since > covered && rows[row.0].text == row.1
  }

  /** The tail is the change feed exactly when all its snapshots are listed, and otherwise the live rows that came
      since; either way it holds nothing that was there when the index was built. */
  lemma TailIsNew(lake: Lake, covered: nat, n: nat, row: (nat, Text))
    requires n < |lake.history|
    ensures Listed(lake, covered, n) ==>
              (row in LakeTailSource(lake, covered, n) <==> InsertedSince(lake, covered, n, row))
    ensures !Listed(lake, covered, n) ==>
              (row in LakeTailSource(lake, covered, n) <==> LiveSince(lake, covered, n, row))
  {
  }
}

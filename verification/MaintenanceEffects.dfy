/** What committed maintenance achieves: the index a create, a refresh, a compaction or a purge leaves behind, in runs
    where rows are written meanwhile. */
module MaintenanceEffects {
  import opened Common
  import T = SegmentTable
  import F = Refresh
  import R = RefreshRuns
  import G = GuardedRuns
  import H = GuardRuns

  /** The live postings of an index's rows. */
  function LivePostings(rows: set<T.SegmentRow>, live: set<nat>): T.Pairs {
    set p | p in T.Postings(rows) && p.1 in live
  }

  /** A refresh's index: it adds every key of the visible rows the mark moved over, all in one new generation, and
      leaves a visible row past the mark only where its bound stopped it; a call that saw nothing allocated past the
      mark changes nothing. */
  ghost predicate IsRefreshed(before: F.Index, after: F.Index, call: F.Call, visible: set<nat>,
                              keysOf: nat -> set<int>) {
    && before.hwm <= after.hwm && (before.hwm >= call.totalRows - 1 ==> after == before)
    && T.Postings(after.rows)
       == T.Postings(before.rows) + F.PairsOf(keysOf, F.Keep(visible, before.hwm, after.hwm))
    && before.rows <= after.rows
    && (forall row :: row in after.rows && row !in before.rows ==>
          row.generation == F.MaxGeneration(before.rows) + 1)
    && (forall r :: r in visible && r > after.hwm && before.hwm < call.totalRows - 1 ==>
          call.bounded && -1 <= before.hwm <= F.LAST_ROW_ID
          && after.hwm == F.BoundedRefreshEnd(before.hwm, call.maxRows) < call.totalRows - 1)
    && (after.hwm != before.hwm && after.hwm !in visible ==> exists r :: r in visible && r > after.hwm)
  }

  /** A compacted index posts what it posted, one row per key and segment. */
  predicate IsCompacted(before: F.Index, after: F.Index, uncertain: bool) {
    && after.hwm == before.hwm && T.Postings(after.rows) == T.Postings(before.rows) && T.OnePerKey(after.rows)
    && (T.MayHoldFragmentedKeys(before.rows, uncertain) ==> T.AllOf(after.rows, 0))
    && (!T.MayHoldFragmentedKeys(before.rows, uncertain) ==> after.rows == before.rows)
  }

  /** A purged index posts the live rows alone, one row per key and segment at generation 0. */
  predicate IsPurged(before: F.Index, after: F.Index, live: set<nat>) {
    && after.hwm == before.hwm && T.Postings(after.rows) == LivePostings(before.rows, live)
    && T.OnePerKey(after.rows) && T.AllOf(after.rows, 0)
  }

  lemma RefreshEffect(index: F.Index, call: F.Call, visible: set<nat>, keysOf: nat -> set<int>)
    requires F.ValidIndex(index, keysOf) && forall r :: r in visible ==> r <= F.LAST_ROW_ID
    ensures -1 <= index.hwm <= F.LAST_ROW_ID
    ensures IsRefreshed(index, F.Refreshed(index, call, visible, keysOf), call, visible, keysOf)
  {
    hide T.Packed, T.Postings, T.WellFormed, F.Honest, F.RefreshedMark, F.BoundedRefreshEnd, F.PairsOf;
    var after := F.Refreshed(index, call, visible, keysOf);
    if index.hwm < call.totalRows - 1 {
      F.MarkBounds(index, call, visible, F.LAST_ROW_ID + 1);
      F.RefreshedPosts(index, call, visible, keysOf);
      F.MarkIsExact(index, call, visible, keysOf);
      F.NewRowsAreFresh(index, call, visible, keysOf);
      assert F.Covered(index, call, visible) == F.Keep(visible, index.hwm, after.hwm);
    } else {
      F.NoPairs(keysOf, visible, index.hwm);
      assert T.Postings(index.rows) + {} == T.Postings(index.rows);
    }
  }

  lemma CompactEffect(index: F.Index, uncertain: bool, keysOf: nat -> set<int>)
    requires F.ValidIndex(index, keysOf)
    ensures IsCompacted(index, index.(rows := T.Compact(index.rows, uncertain)), uncertain)
  {
    hide T.Postings, T.WellFormed, F.Honest, T.Compact;
    T.Compaction(index.rows, index.hwm, uncertain);
  }

  lemma PurgeEffect(index: F.Index, live: set<nat>, keysOf: nat -> set<int>)
    requires F.ValidIndex(index, keysOf)
    ensures IsPurged(index, index.(rows := T.Purge(index.rows, live)), live)
  {
    hide T.Postings, T.WellFormed, F.Honest, T.Purge;
    T.PurgeKeepsLive(index.rows, index.hwm, live);
  }

  // ---------------------------------------------------------------------------------------------------------------
  // Under snapshot isolation

  /** What a committing transaction leaves, whatever was appended and deleted while it ran: the table is untouched, and
      the index is what its own snapshot asked for. */
  lemma CommitTakesEffect(s: R.State, i: nat, keysOf: nat -> set<int>)
    requires R.Inv(s, keysOf) && R.Enabled(s, R.Commit(i))
    ensures var t, before, now := s.running[i], s.now.index, R.Next(s, R.Commit(i), keysOf).now;
            && now.committed == s.now.committed && now.deleted == s.now.deleted
            && match t.work
               case Refreshing(call) => IsRefreshed(before, now.index, call, R.Visible(t.snapshot), keysOf)
               case Compacting(uncertain) => IsCompacted(before, now.index, uncertain)
               case Purging => IsPurged(before, now.index, R.Visible(t.snapshot))
  {
    hide IsRefreshed, IsCompacted, IsPurged, F.Refreshed, T.Compact, T.Purge, F.ValidIndex, F.Covers;
    var t := s.running[i];
    assert R.Sound(t.snapshot, keysOf);
    match t.work {
      case Refreshing(call) => RefreshEffect(t.snapshot.index, call, R.Visible(t.snapshot), keysOf);
      case Compacting(uncertain) => CompactEffect(t.snapshot.index, uncertain, keysOf);
      case Purging => PurgeEffect(t.snapshot.index, R.Visible(t.snapshot), keysOf);
    }
  }

  /** An unbounded refresh whose script saw every committed row catches up: once it commits, a live row past the mark
      was appended after it began. */
  lemma RefreshCatchesUp(s: R.State, i: nat, keysOf: nat -> set<int>, r: nat)
    requires R.Inv(s, keysOf) && R.Enabled(s, R.Commit(i)) && s.running[i].work.Refreshing?
    requires !s.running[i].work.call.bounded && s.running[i].snapshot.committed <= s.running[i].work.call.totalRows
    requires r in R.Visible(s.now) && r > R.Next(s, R.Commit(i), keysOf).now.index.hwm
    ensures r >= s.running[i].snapshot.committed
  {
    hide R.Sound, R.Next, F.BoundedRefreshEnd, T.Postings, F.PairsOf;
    CommitTakesEffect(s, i, keysOf);
    SeenBefore(s.running[i].snapshot, s.now, r);
  }

  /** What is live now and was committed before a snapshot, the snapshot sees. */
  lemma SeenBefore(a: R.Snapshot, b: R.Snapshot, r: nat)
    requires R.Earlier(a, b) && r in R.Visible(b)
    ensures r < a.committed ==> r in R.Visible(a)
  {
  }

  // ---------------------------------------------------------------------------------------------------------------
  // On a guarded table

  /** Maintenance begun under a safe verdict and committed: a created index posts exactly the live rows' keys up to the
      end asked for, and a refresh, compaction or purge does to the guarded index what it does to any. */
  lemma GuardedEffect(s: G.State, work: G.Work, rowKeys: H.Row -> set<int>)
    requires G.AllSound(s, rowKeys) && G.Enabled(s, G.Begin(work))
    ensures var begun := G.Next(s, G.Begin(work), rowKeys);
            G.Enabled(begun, G.Commit(|s.running|))
            && var after := G.Next(begun, G.Commit(|s.running|), rowKeys).index;
               Achieved(s, work, after, G.KeysAt(rowKeys, s.host.rows), G.Alive(s.host.rows, s.dead))
  {
    hide Achieved, G.Alive, G.KeysAt, G.AllSound, G.Built, F.LAST_ROW_ID;
    BuiltAchieves(s, work, rowKeys);
    assert G.Built(s, work, rowKeys).base == s.index by { BuiltOnIndex(s, work, rowKeys); }
  }

  ghost predicate Achieved(s: G.State, work: G.Work, after: F.Index, keysOf: nat -> set<int>, live: set<nat>) {
    match work
    case Creating(upTo) =>
      after.hwm == upTo - 1 && T.AllOf(after.rows, 0) && T.OnePerKey(after.rows)
      && forall k, r :: (k, r) in T.Postings(after.rows) <==> r in live && r < upTo && k in keysOf(r)
    case Refreshing(call) => IsRefreshed(s.index, after, call, live, keysOf)
    case Compacting(uncertain) => IsCompacted(s.index, after, uncertain)
    case Purging => IsPurged(s.index, after, live)
  }

  lemma BuiltOnIndex(s: G.State, work: G.Work, rowKeys: H.Row -> set<int>)
    requires G.Enabled(s, G.Begin(work))
    ensures G.Built(s, work, rowKeys).base == s.index
  {
    hide T.Packed, F.Refreshed, T.Compact, T.Purge;
  }

  lemma BuiltAchieves(s: G.State, work: G.Work, rowKeys: H.Row -> set<int>)
    requires G.AllSound(s, rowKeys) && G.Enabled(s, G.Begin(work))
    ensures Achieved(s, work, G.Built(s, work, rowKeys).index, G.KeysAt(rowKeys, s.host.rows),
                     G.Alive(s.host.rows, s.dead))
  {
    hide IsRefreshed, IsCompacted, IsPurged, F.Refreshed, T.Compact, T.Purge, T.Packed, T.Postings, F.ValidIndex;
    hide G.GoneInv, H.Inv, H.VerdictSafe;
    var keys, live := G.KeysAt(rowKeys, s.host.rows), G.Alive(s.host.rows, s.dead);
    match work {
      case Creating(upTo) => CreateEffect(live, upTo, keys);
      case Refreshing(call) => GuardedRefresh(s, call, rowKeys);
      case Compacting(uncertain) => CompactEffect(s.index, uncertain, G.KeysAt(rowKeys, s.host.indexed));
      case Purging => PurgeEffect(s.index, live, G.KeysAt(rowKeys, s.host.indexed));
    }
  }

  lemma CreateEffect(live: set<nat>, upTo: nat, keysOf: nat -> set<int>)
    ensures var rows := T.Packed(F.PairsOf(keysOf, F.Keep(live, -1, upTo - 1)), 0);
            T.AllOf(rows, 0) && T.OnePerKey(rows)
            && forall k, r :: (k, r) in T.Postings(rows) <==> r in live && r < upTo && k in keysOf(r)
  {
    var pairs := F.PairsOf(keysOf, F.Keep(live, -1, upTo - 1));
    T.PackedPosts(pairs, 0);
    T.PackedFits(pairs, 0, upTo - 1);
    hide T.Packed, T.Postings;
  }

  /** The listing a refresh extends agrees with the table where the refresh reads it. */
  lemma GuardedRefresh(s: G.State, call: F.Call, rowKeys: H.Row -> set<int>)
    requires G.AllSound(s, rowKeys) && G.Enabled(s, G.Begin(G.Refreshing(call)))
    ensures IsRefreshed(s.index, G.Built(s, G.Refreshing(call), rowKeys).index, call, G.Alive(s.host.rows, s.dead),
                        G.KeysAt(rowKeys, s.host.rows))
  {
    hide IsRefreshed, F.Refreshed, T.Postings, G.Joined, G.Alive, H.Inv, G.GoneInv, F.Covers, H.Agree, G.Gone;
    var rows, indexed, visible := s.host.rows, s.host.indexed, G.Alive(s.host.rows, s.dead);
    assert s.host.(indexed := indexed) == s.host;
    G.SafeMatches(s.host, s.dead);
    G.JoinedIs(indexed, rows);
    var joined := G.Joined(indexed, rows);
    G.OkOfPrefix(indexed, joined, s.dead, s.index, rowKeys);
    G.SameRefresh(s.index, call, visible, rowKeys, joined, rows, s.dead);
    assert forall r :: r in visible ==> r < |rows| by { G.AliveBelow(rows, s.dead); }
    hide F.ValidIndex, G.KeysAt;
    RefreshEffect(s.index, call, visible, G.KeysAt(rowKeys, joined));
    SameEffect(s.index, call, visible, rowKeys, joined, rows);
  }

  lemma SameEffect(index: F.Index, call: F.Call, visible: set<nat>, rowKeys: H.Row -> set<int>, joined: seq<H.Row>,
                   rows: seq<H.Row>)
    requires forall r :: r in visible ==> r < |rows| <= |joined| && joined[r] == rows[r]
    requires -1 <= index.hwm <= F.LAST_ROW_ID
    requires F.Refreshed(index, call, visible, G.KeysAt(rowKeys, rows))
             == F.Refreshed(index, call, visible, G.KeysAt(rowKeys, joined))
    requires IsRefreshed(index, F.Refreshed(index, call, visible, G.KeysAt(rowKeys, joined)), call, visible,
                         G.KeysAt(rowKeys, joined))
    ensures IsRefreshed(index, F.Refreshed(index, call, visible, G.KeysAt(rowKeys, rows)), call, visible,
                        G.KeysAt(rowKeys, rows))
  {
    hide F.Refreshed, G.KeysAt, T.Postings, F.PairsOf, F.BoundedRefreshEnd;
    var after := F.Refreshed(index, call, visible, G.KeysAt(rowKeys, rows));
    G.KeysAgree(rowKeys, rows, joined, F.Keep(visible, index.hwm, after.hwm));
  }
}

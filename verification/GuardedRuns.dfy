/** The guard, the table and the index in one history: appends, failed commits, deletes, truncations, reissued rowids,
    crashes, checkpoints without the extension, and maintenance in flight. Under a safe verdict every live row up to the
    mark is posted under the keys of the text it has now. */
module GuardedRuns {
  import opened Common
  import opened Guards
  import opened GuardRuns
  import T = SegmentTable
  import F = Refresh

  /** The keys of a rowid, by the row that owns it in a listing. */
  function KeysAt(rowKeys: Row -> set<int>, rows: seq<Row>): nat -> set<int> {
    (r: nat) => if r < |rows| then rowKeys(rows[r]) else {}
  }

  /** The rowids whose owner in a listing is not deleted. */
  function Alive(rows: seq<Row>, dead: set<Row>): set<nat> {
    set r: nat | r < |rows| && rows[r] !in dead
  }

  datatype Work = Creating(upTo: nat) | Refreshing(call: F.Call) | Compacting(uncertain: bool) | Purging

  /** What a maintenance transaction will commit, and the index it read. */
  datatype Build = Build(base: F.Index, indexed: seq<Row>, index: F.Index)

  /** `dead` holds the rows deleted so far; the mark is the last rowid of `host.indexed`. */
  datatype State = State(host: Host, dead: set<Row>, index: F.Index, running: seq<Build>)

  datatype Step =
    | TableStep(step: GuardRuns.Step)
    | Delete(rows: set<Row>)
    | Begin(work: Work)
    | Commit(build: nat)
    | Abort(build: nat)

  /** The listing whose postings a refresh extends: what is indexed, then the table's rows past it. */
  function Joined(indexed: seq<Row>, rows: seq<Row>): seq<Row> {
    if |rows| <= |indexed| then indexed else indexed + rows[|indexed|..]
  }

  /** What a transaction that begins now will write. */
  ghost function Built(s: State, work: Work, rowKeys: Row -> set<int>): Build
    requires -1 <= s.index.hwm <= F.LAST_ROW_ID && s.index.hwm == |s.host.indexed| - 1
    requires work.Creating? ==> work.upTo <= |s.host.rows|
  {
    var keys := KeysAt(rowKeys, s.host.rows);
    var visible := Alive(s.host.rows, s.dead);
    match work
    case Creating(upTo) =>
      Build(s.index, s.host.rows[..upTo],
            F.Index(upTo - 1, T.Packed(F.PairsOf(keys, F.Keep(visible, -1, upTo - 1)), 0)))
    case Refreshing(call) =>
      var index := F.Refreshed(s.index, call, visible, keys);
      var joined := Joined(s.host.indexed, s.host.rows);
      Build(s.index, if 0 <= index.hwm + 1 <= |joined| then joined[..index.hwm + 1] else joined, index)
    case Compacting(uncertain) =>
      Build(s.index, s.host.indexed, s.index.(rows := T.Compact(s.index.rows, uncertain)))
    case Purging => Build(s.index, s.host.indexed, s.index.(rows := T.Purge(s.index.rows, visible)))
  }

  /** A truncation takes trailing deleted rows; maintenance begins only under a safe verdict, and commits only if the
      index is still the one it read. */
  predicate Enabled(s: State, step: Step) {
    match step
    case TableStep(step) =>
      !IsIndexing(step) && GuardRuns.Enabled(s.host, step)
      && (step.Truncate? ==> AllDead(s.host.rows, step.keep, s.dead))
      && (step.VacuumInMemory? ==> AllDead(s.host.rows, step.keep, s.dead))
    case Delete(_) => true
    case Begin(work) =>
      && VerdictSafe(s.host) && |s.host.rows| <= F.LAST_ROW_ID + 1
      && -1 <= s.index.hwm <= F.LAST_ROW_ID && s.index.hwm == |s.host.indexed| - 1
      && (work.Creating? ==> work.upTo <= |s.host.rows|)
    case Commit(i) => i < |s.running| && s.running[i].base == s.index
    case Abort(i) => i < |s.running|
  }

  predicate AllDead(rows: seq<Row>, from: nat, dead: set<Row>) {
    forall r :: from <= r < |rows| ==> rows[r] in dead
  }

  function Without(running: seq<Build>, i: nat): seq<Build>
    requires i < |running|
  {
    running[..i] + running[i + 1..]
  }

  ghost function Next(s: State, step: Step, rowKeys: Row -> set<int>): State
    requires Enabled(s, step)
  {
    match step
    case TableStep(step) =>
      s.(host := GuardRuns.Next(s.host, step), running := if Reopens(step) then [] else s.running)
    case Delete(rows) => s.(dead := s.dead + rows)
    case Begin(work) => s.(running := s.running + [Built(s, work, rowKeys)])
    case Commit(i) =>
      State(s.host.(indexed := s.running[i].indexed), s.dead, s.running[i].index, Without(s.running, i))
    case Abort(i) => s.(running := Without(s.running, i))
  }

  ghost function Run(start: Host, steps: seq<Step>, rowKeys: Row -> set<int>): Option<State> {
    if steps == [] then Some(State(start, {}, F.Index(-1, {}), []))
    else
      var before := Run(start, steps[..|steps| - 1], rowKeys);
      var step := steps[|steps| - 1];
      if before.Some? && Enabled(before.value, step) then Some(Next(before.value, step, rowKeys)) else None
  }

  // ---------------------------------------------------------------------------------------------------------------
  // Rows below the mark that the table no longer has

  /** Every indexed row past the table's end was deleted. */
  predicate Gone(length: nat, indexed: seq<Row>, dead: set<Row>) {
    forall r :: length <= r < |indexed| ==> indexed[r] in dead
  }

  predicate GoneLive(h: Host, dead: set<Row>) {
    !Unsafe(h.guard, Db(h)) ==> Gone(|h.rows|, h.indexed, dead)
  }

  /** The same of what recovery would put in the table. */
  predicate GoneDurable(image: Image, wal: seq<seq<Row>>, iteration: nat, indexed: seq<Row>, dead: set<Row>) {
    Recoverable(image, wal, iteration) ==> Gone(|Recovered(image, wal)|, indexed, dead)
  }

  predicate GoneInv(h: Host, dead: set<Row>) {
    && GoneLive(h, dead)
    && (!h.inMemory ==> GoneDurable(h.image, h.wal, h.iteration, h.indexed, dead))
    && (h.phase.Serialized? ==> GoneDurable(h.phase.image, h.phase.wal, h.iteration + 1, h.indexed, dead))
  }

  /** Steps that keep the rows and the images. */
  lemma GoneQuiet(h: Host, step: GuardRuns.Step, dead: set<Row>)
    requires Inv(h) && GoneInv(h, dead) && GuardRuns.Enabled(h, step)
    requires || step.BeginAppend? || step.AppendChunk? || step.FailAppend? || step.StartCheckpoint?
             || step.EndCheckpoint?
             || step.Consult? || step.ResetStorage? || step.WriteHeader?
    ensures GoneInv(GuardRuns.Next(h, step), dead)
  {
    hide Recovered, Recoverable, Gone, LiveOk, Durable;
  }

  lemma GoneTruncate(h: Host, step: GuardRuns.Step, dead: set<Row>)
    requires Inv(h) && GoneInv(h, dead) && GuardRuns.Enabled(h, step) && (step.Truncate? || step.VacuumInMemory?)
    requires AllDead(h.rows, step.keep, dead)
    ensures GoneInv(GuardRuns.Next(h, step), dead)
  {
    hide Recovered, Recoverable, Durable, LogOk, Structure;
    if !Unsafe(h.guard, Db(h)) {
      forall r | step.keep <= r < |h.indexed| ensures h.indexed[r] in dead {
        assert r < |h.rows| ==> h.rows[r] == h.indexed[r];
      }
    }
  }

  lemma GoneCommit(h: Host, dead: set<Row>)
    requires Inv(h) && GoneInv(h, dead) && GuardRuns.Enabled(h, CommitAppend)
    ensures GoneInv(GuardRuns.Next(h, CommitAppend), dead)
  {
    hide Recovered, Recoverable, LiveOk, Durable;
    var added := h.appending.value.0;
    GoneLogged(h.image, h.wal, h.iteration, h.indexed, dead, added);
    if h.phase.Serialized? {
      GoneLogged(h.phase.image, h.phase.wal, h.iteration + 1, h.indexed, dead, added);
    }
  }

  lemma GoneLogged(image: Image, wal: seq<seq<Row>>, iteration: nat, indexed: seq<Row>, dead: set<Row>, added: seq<Row>)
    requires added != []
    ensures GoneDurable(image, wal, iteration, indexed, dead) ==>
              GoneDurable(image, wal + [added], iteration, indexed, dead)
  {
    hide Recovered, Observe, Unsafe;
    var wal' := wal + [added];
    assert wal'[..|wal'| - 1] == wal && wal'[|wal'| - 1] == added;
    RecoveredSnoc(image, wal, added);
    if Recoverable(image, wal', iteration) {
      assert Recoverable(image, wal, iteration) by { LoggedMore(image, wal, iteration, added); }
    }
  }

  lemma LoggedMore(image: Image, wal: seq<seq<Row>>, iteration: nat, added: seq<Row>)
    requires Recoverable(image, wal + [added], iteration) && added != []
    ensures Recoverable(image, wal, iteration)
  {
    hide Recovered;
    var wal' := wal + [added];
    assert wal'[..|wal'| - 1] == wal;
  }

  lemma GoneSerialize(h: Host, dead: set<Row>)
    requires Inv(h) && GoneInv(h, dead) && GuardRuns.Enabled(h, SerializeIndexes)
    ensures GoneInv(GuardRuns.Next(h, SerializeIndexes), dead)
  {
    hide LiveOk, Durable, Flatten;
    var image := Image(h.rows, Stored(h.guard.maxSeen, Unsafe(h.guard, Db(h)), h.iteration + 1));
    NothingLogged(image);
    hide Recovered;
  }

  /** Recovery restores what the log covers; a checkpoint without the extension leaves a seal that no longer matches. */
  lemma GoneReopen(h: Host, step: GuardRuns.Step, dead: set<Row>)
    requires Inv(h) && GoneInv(h, dead) && GuardRuns.Enabled(h, step) && Reopens(step)
    ensures GoneInv(GuardRuns.Next(h, step), dead)
  {
    hide Recovered, Replay, Gone, LiveOk;
    if step.ForeignCheckpoint? {
      var image := Image(Recovered(h.image, h.wal)[..step.keep], h.image.stored);
      ReplayKeepsSeal(image, [], h.iteration + 1);
    }
  }

  lemma GoneStep(h: Host, step: GuardRuns.Step, dead: set<Row>)
    requires Inv(h) && GoneInv(h, dead) && GuardRuns.Enabled(h, step) && !IsIndexing(step)
    requires step.Truncate? || step.VacuumInMemory? ==> AllDead(h.rows, step.keep, dead)
    ensures GoneInv(GuardRuns.Next(h, step), dead)
  {
    match step {
      case CommitAppend => hide *; GoneCommit(h, dead);
      case Truncate(_) => hide *; GoneTruncate(h, step, dead);
      case VacuumInMemory(_) => hide *; GoneTruncate(h, step, dead);
      case SerializeIndexes => hide *; GoneSerialize(h, dead);
      case Crash => hide GoneInv, GuardRuns.Next, Inv; GoneReopen(h, step, dead);
      case ForeignCheckpoint(_) => hide GoneInv, GuardRuns.Next, Inv; GoneReopen(h, step, dead);
      case _ => hide GoneInv, GuardRuns.Next, Inv; GoneQuiet(h, step, dead);
    }
  }

  // ---------------------------------------------------------------------------------------------------------------
  // What an index promises

  /** The index posts, under each rowid of the listing, keys of its owner, and all of them unless the owner is
      deleted. */
  ghost predicate IndexOk(indexed: seq<Row>, dead: set<Row>, index: F.Index, rowKeys: Row -> set<int>) {
    && index.hwm == |indexed| - 1
    && F.ValidIndex(index, KeysAt(rowKeys, indexed))
    && F.Covers(index, KeysAt(rowKeys, indexed), Alive(indexed, dead))
  }

  /** An index the host may hold, or may come to hold when a transaction commits. */
  ghost predicate Sound(h: Host, dead: set<Row>, indexed: seq<Row>, index: F.Index, rowKeys: Row -> set<int>) {
    && Inv(h.(indexed := indexed)) && GoneInv(h.(indexed := indexed), dead)
    && IndexOk(indexed, dead, index, rowKeys)
  }

  ghost predicate AllSound(s: State, rowKeys: Row -> set<int>) {
    && Sound(s.host, s.dead, s.host.indexed, s.index, rowKeys)
    && forall i :: 0 <= i < |s.running| ==> Sound(s.host, s.dead, s.running[i].indexed, s.running[i].index, rowKeys)
  }

  lemma HostKeepsSound(h: Host, dead: set<Row>, indexed: seq<Row>, index: F.Index, rowKeys: Row -> set<int>,
                       step: GuardRuns.Step)
    requires Sound(h, dead, indexed, index, rowKeys) && GuardRuns.Enabled(h, step) && !IsIndexing(step)
    requires step.Truncate? || step.VacuumInMemory? ==> AllDead(h.rows, step.keep, dead)
    ensures Sound(GuardRuns.Next(h, step), dead, indexed, index, rowKeys)
  {
    hide Inv, GoneInv, IndexOk, GuardRuns.Next, GuardRuns.Enabled, AllDead;
    PostingsAside(h, step, indexed);
    NextInv(h.(indexed := indexed), step);
    GoneStep(h.(indexed := indexed), step, dead);
  }

  lemma DeleteKeepsSound(h: Host, dead: set<Row>, indexed: seq<Row>, index: F.Index, rowKeys: Row -> set<int>,
                         more: set<Row>)
    requires Sound(h, dead, indexed, index, rowKeys) && dead <= more
    ensures Sound(h, more, indexed, index, rowKeys)
  {
    hide Inv, F.ValidIndex, T.Postings, Recoverable, Recovered, Unsafe;
  }

  // ---------------------------------------------------------------------------------------------------------------
  // What a transaction writes

  /** Indexing no more than the table leaves no row below the mark missing. */
  lemma GonePrefix(h: Host, dead: set<Row>, indexed: seq<Row>)
    requires Inv(h) && !Unsafe(h.guard, Db(h)) && |indexed| <= |h.rows|
    ensures GoneInv(h.(indexed := indexed), dead)
  {
    hide Recovered, Agree, Durable, Recoverable;
  }

  lemma KeysAgree(rowKeys: Row -> set<int>, a: seq<Row>, b: seq<Row>, rows: set<nat>)
    requires forall r :: r in rows ==> r < |a| && r < |b| && a[r] == b[r]
    ensures F.PairsOf(KeysAt(rowKeys, a), rows) == F.PairsOf(KeysAt(rowKeys, b), rows)
  {
  }

  lemma CreatedOk(rows: seq<Row>, dead: set<Row>, upTo: nat, rowKeys: Row -> set<int>)
    requires upTo <= |rows| <= F.LAST_ROW_ID + 1
    ensures IndexOk(rows[..upTo], dead,
                    F.Index(upTo - 1, T.Packed(F.PairsOf(KeysAt(rowKeys, rows),
                                                         F.Keep(Alive(rows, dead), -1, upTo - 1)), 0)), rowKeys)
  {
    hide T.Packed, T.Postings, T.WellFormed;
    var kept := F.Keep(Alive(rows, dead), -1, upTo - 1);
    var keys := KeysAt(rowKeys, rows[..upTo]);
    KeysAgree(rowKeys, rows, rows[..upTo], kept);
    var pairs := F.PairsOf(keys, kept);
    T.PackedPosts(pairs, 0);
    T.PackedFits(pairs, 0, upTo - 1);
    assert kept == Alive(rows[..upTo], dead);
    forall r, k | r in Alive(rows[..upTo], dead) && r <= upTo - 1 && k in keys(r) ensures (k, r) in pairs {
      F.InPairs(keys, kept, r, k);
    }
  }

  lemma JoinedIs(indexed: seq<Row>, rows: seq<Row>)
    requires Agree(rows, indexed)
    ensures var j := Joined(indexed, rows);
            && |j| == Max(|indexed|, |rows|) && indexed <= j
            && (forall r :: 0 <= r < |rows| ==> j[r] == rows[r])
  {
  }

  /** A listing that extends another gives the same promises up to the mark. */
  lemma OkOfPrefix(indexed: seq<Row>, longer: seq<Row>, dead: set<Row>, index: F.Index, rowKeys: Row -> set<int>)
    requires indexed <= longer && index.hwm == |indexed| - 1
    ensures F.ValidIndex(index, KeysAt(rowKeys, indexed)) <==> F.ValidIndex(index, KeysAt(rowKeys, longer))
    ensures F.Covers(index, KeysAt(rowKeys, indexed), Alive(indexed, dead))
            <==> F.Covers(index, KeysAt(rowKeys, longer), Alive(longer, dead))
  {
    hide T.Postings, T.WellFormed;
  }

  /** What a safe verdict says of the table: what it still has up to the mark is what is indexed, and the rest is
      deleted. */
  predicate TableMatches(rows: seq<Row>, indexed: seq<Row>, dead: set<Row>) {
    Agree(rows, indexed) && Gone(|rows|, indexed, dead)
  }

  lemma SafeMatches(h: Host, dead: set<Row>)
    requires Inv(h) && GoneInv(h, dead) && VerdictSafe(h)
    ensures TableMatches(h.rows, h.indexed, dead)
  {
    hide Recovered, Agree, Gone, Durable, Structure, GoneDurable;
  }

  /** The owners not deleted are the same in the joined listing as in the table. */
  lemma JoinedAlive(rows: seq<Row>, indexed: seq<Row>, dead: set<Row>)
    requires TableMatches(rows, indexed, dead)
    ensures Alive(Joined(indexed, rows), dead) == Alive(rows, dead)
  {
    JoinedIs(indexed, rows);
  }

  lemma RefreshedOk(s: State, call: F.Call, rowKeys: Row -> set<int>)
    requires TableMatches(s.host.rows, s.host.indexed, s.dead) && |s.host.rows| <= F.LAST_ROW_ID + 1
    requires IndexOk(s.host.indexed, s.dead, s.index, rowKeys)
    ensures var b := Built(s, Refreshing(call), rowKeys); IndexOk(b.indexed, s.dead, b.index, rowKeys)
    ensures var b := Built(s, Refreshing(call), rowKeys);
            s.host.indexed <= b.indexed <= Joined(s.host.indexed, s.host.rows)
  {
    hide F.ValidIndex, F.Covers, F.Refreshed, F.RefreshedMark, F.Covered, T.Postings, Gone, Agree, Joined, Alive;
    var rows, indexed, dead, index := s.host.rows, s.host.indexed, s.dead, s.index;
    var joined, visible := Joined(indexed, rows), Alive(rows, dead);
    var keys := KeysAt(rowKeys, joined);
    JoinedIs(indexed, rows);
    JoinedAlive(rows, indexed, dead);
    assert F.ValidIndex(index, KeysAt(rowKeys, indexed));
    F.MarkOf(index, KeysAt(rowKeys, indexed));
    OkOfPrefix(indexed, joined, dead, index, rowKeys);
    SameRefresh(index, call, visible, rowKeys, joined, rows, dead);
    var after := F.Refreshed(index, call, visible, keys);
    assert forall r :: r in visible ==> r < |joined| by { AliveBelow(joined, dead); }
    F.RefreshValid(index, call, visible, keys);
    F.RefreshCovers(index, call, visible, keys, |joined|, visible);
    MarkWithin(index, call, visible, keys, |joined|);
    assert indexed <= joined[..after.hwm + 1];
    OkOfPrefix(joined[..after.hwm + 1], joined, dead, after, rowKeys);
  }

  lemma AliveBelow(rows: seq<Row>, dead: set<Row>)
    ensures forall r :: r in Alive(rows, dead) ==> r < |rows|
  {
  }

  lemma MarkWithin(index: F.Index, call: F.Call, visible: set<nat>, keysOf: nat -> set<int>, committed: nat)
    requires -1 <= index.hwm <= F.LAST_ROW_ID && index.hwm < committed <= F.LAST_ROW_ID + 1
    requires forall r :: r in visible ==> r < committed
    ensures index.hwm <= F.Refreshed(index, call, visible, keysOf).hwm < committed
  {
    hide F.RefreshedMark, F.Covered;
    F.MarkBounds(index, call, visible, committed);
  }

  /** A refresh packs only rows the table has, so it reads their keys from either listing. */
  lemma SameRefresh(index: F.Index, call: F.Call, visible: set<nat>, rowKeys: Row -> set<int>, joined: seq<Row>,
                    rows: seq<Row>, dead: set<Row>)
    requires -1 <= index.hwm <= F.LAST_ROW_ID && visible == Alive(rows, dead)
    requires |rows| <= |joined| && forall r :: 0 <= r < |rows| ==> joined[r] == rows[r]
    ensures F.Refreshed(index, call, visible, KeysAt(rowKeys, rows))
            == F.Refreshed(index, call, visible, KeysAt(rowKeys, joined))
  {
    hide T.Packed, F.PairsOf, F.RefreshedMark, F.StopsShort, F.BoundEnd;
    KeysAgree(rowKeys, rows, joined, F.Covered(index, call, visible));
  }

  /** Compaction keeps the postings; purging keeps those of rows that are not deleted. */
  lemma CompactedOk(indexed: seq<Row>, dead: set<Row>, index: F.Index, rowKeys: Row -> set<int>, uncertain: bool)
    requires IndexOk(indexed, dead, index, rowKeys)
    ensures IndexOk(indexed, dead, index.(rows := T.Compact(index.rows, uncertain)), rowKeys)
  {
    hide T.Postings, T.WellFormed, T.Compact;
    T.Compaction(index.rows, index.hwm, uncertain);
  }

  lemma PurgedOk(rows: seq<Row>, indexed: seq<Row>, dead: set<Row>, index: F.Index, rowKeys: Row -> set<int>)
    requires IndexOk(indexed, dead, index, rowKeys) && TableMatches(rows, indexed, dead)
    ensures IndexOk(indexed, dead, index.(rows := T.Purge(index.rows, Alive(rows, dead))), rowKeys)
  {
    hide T.Postings, T.WellFormed, T.Purge;
    T.PurgeKeepsLive(index.rows, index.hwm, Alive(rows, dead));
    assert forall r :: r in Alive(indexed, dead) ==> r in Alive(rows, dead);
  }

  lemma BuiltSound(s: State, work: Work, rowKeys: Row -> set<int>)
    requires Sound(s.host, s.dead, s.host.indexed, s.index, rowKeys) && Enabled(s, Begin(work))
    ensures var b := Built(s, work, rowKeys); Sound(s.host, s.dead, b.indexed, b.index, rowKeys)
  {
    hide Inv, GoneInv, IndexOk, TableMatches, T.Compact, T.Purge, T.Packed, F.Refreshed, Alive, Joined, KeysAt;
    assert s.host.(indexed := s.host.indexed) == s.host;
    SafeMatches(s.host, s.dead);
    match work {
      case Creating(upTo) =>
        CreatedOk(s.host.rows, s.dead, upTo, rowKeys);
        NextInv(s.host, CreateIndex(upTo));
        SafeUnlatched(s.host);
        GonePrefix(s.host, s.dead, s.host.rows[..upTo]);
      case Refreshing(call) =>
        RefreshedOk(s, call, rowKeys);
        RefreshedHost(s.host, s.dead, Built(s, work, rowKeys).indexed);
      case Compacting(uncertain) =>
        CompactedOk(s.host.indexed, s.dead, s.index, rowKeys, uncertain);
      case Purging =>
        PurgedOk(s.host.rows, s.host.indexed, s.dead, s.index, rowKeys);
    }
  }

  lemma SafeUnlatched(h: Host)
    requires VerdictSafe(h)
    ensures !Unsafe(h.guard, Db(h))
  {
  }

  lemma RefreshedHost(h: Host, dead: set<Row>, after: seq<Row>)
    requires Inv(h) && GoneInv(h, dead) && VerdictSafe(h) && h.indexed <= after <= Joined(h.indexed, h.rows)
    ensures Inv(h.(indexed := after)) && GoneInv(h.(indexed := after), dead)
  {
    hide Inv, GoneInv, VerdictSafe;
    if after == h.indexed {
      assert h.(indexed := after) == h;
    } else {
      assert after == h.indexed + h.rows[|h.indexed|..|after|];
      assert GuardRuns.Enabled(h, RefreshIndex(|after|));
      NextInv(h, RefreshIndex(|after|));
      SafeUnlatched(h);
      GonePrefix(h, dead, after);
    }
  }

  // ---------------------------------------------------------------------------------------------------------------
  // Every run

  lemma NextSound(s: State, step: Step, rowKeys: Row -> set<int>)
    requires AllSound(s, rowKeys) && Enabled(s, step)
    ensures AllSound(Next(s, step, rowKeys), rowKeys)
  {
    hide Sound, Built, GuardRuns.Enabled, GuardRuns.Next, VerdictSafe, AllDead;
    match step {
      case TableStep(step) =>
        HostKeepsAll(s, step, rowKeys);
      case Delete(rows) =>
        DeleteKeepsSound(s.host, s.dead, s.host.indexed, s.index, rowKeys, s.dead + rows);
        forall i | 0 <= i < |s.running|
            ensures Sound(s.host, s.dead + rows, s.running[i].indexed, s.running[i].index, rowKeys) {
          DeleteKeepsSound(s.host, s.dead, s.running[i].indexed, s.running[i].index, rowKeys, s.dead + rows);
        }
      case Begin(work) =>
        BuiltSound(s, work, rowKeys);
      case Commit(i) =>
        var host := s.host.(indexed := s.running[i].indexed);
        SameHost(s.host, host, s.dead, s.running[i].indexed, s.running[i].index, rowKeys);
        forall j | 0 <= j < |s.running| ensures Sound(host, s.dead, s.running[j].indexed, s.running[j].index, rowKeys) {
          SameHost(s.host, host, s.dead, s.running[j].indexed, s.running[j].index, rowKeys);
        }
      case Abort(i) =>
    }
  }

  lemma HostKeepsAll(s: State, step: GuardRuns.Step, rowKeys: Row -> set<int>)
    requires AllSound(s, rowKeys) && Enabled(s, TableStep(step))
    ensures AllSound(Next(s, TableStep(step), rowKeys), rowKeys)
  {
    hide Sound, GuardRuns.Enabled, GuardRuns.Next, AllDead;
    IndexedKept(s.host, step);
    HostKeepsSound(s.host, s.dead, s.host.indexed, s.index, rowKeys, step);
    forall i | 0 <= i < |s.running|
      ensures Sound(GuardRuns.Next(s.host, step), s.dead, s.running[i].indexed, s.running[i].index, rowKeys)
    {
      HostKeepsSound(s.host, s.dead, s.running[i].indexed, s.running[i].index, rowKeys, step);
    }
  }

  lemma IndexedKept(h: Host, step: GuardRuns.Step)
    requires GuardRuns.Enabled(h, step) && !IsIndexing(step)
    ensures GuardRuns.Next(h, step).indexed == h.indexed
  {
    hide VerdictSafe, Recovered, Replay;
  }

  lemma SameHost(a: Host, b: Host, dead: set<Row>, indexed: seq<Row>, index: F.Index, rowKeys: Row -> set<int>)
    requires Sound(a, dead, indexed, index, rowKeys) && b == a.(indexed := b.indexed)
    ensures Sound(b, dead, indexed, index, rowKeys)
  {
    hide Inv, GoneInv, IndexOk;
    assert b.(indexed := indexed) == a.(indexed := indexed);
  }

  lemma {:induction false} RunSound(inMemory: bool, iteration: nat, rows: seq<Row>, steps: seq<Step>,
                                    rowKeys: Row -> set<int>)
    requires Run(Initial(inMemory, iteration, rows), steps, rowKeys).Some?
    ensures AllSound(Run(Initial(inMemory, iteration, rows), steps, rowKeys).value, rowKeys)
  {
    hide Sound, Next, Enabled;
    if steps == [] {
      InitialSound(inMemory, iteration, rows, rowKeys);
    } else {
      RunSound(inMemory, iteration, rows, steps[..|steps| - 1], rowKeys);
      NextSound(Run(Initial(inMemory, iteration, rows), steps[..|steps| - 1], rowKeys).value, steps[|steps| - 1],
          rowKeys);
    }
  }

  lemma InitialSound(inMemory: bool, iteration: nat, rows: seq<Row>, rowKeys: Row -> set<int>)
    ensures Sound(Initial(inMemory, iteration, rows), {}, [], F.Index(-1, {}), rowKeys)
  {
    var h := Initial(inMemory, iteration, rows);
    InitialInv(inMemory, iteration, rows);
    assert h.(indexed := []) == h;
    hide Inv;
  }

  /** The keys a rowid has now: its owner's in the table, or for a rowid the table lost, those it was indexed under. */
  function KeysNow(h: Host, rowKeys: Row -> set<int>): nat -> set<int> {
    KeysAt(rowKeys, h.rows + if |h.indexed| <= |h.rows| then [] else h.indexed[|h.rows|..])
  }

  /** In every run, while the verdict is safe the index is valid for the rows the table has now, and posts every live
      row up to the mark under all keys of its text. */
  lemma SafeIndexCovers(inMemory: bool, iteration: nat, rows: seq<Row>, steps: seq<Step>, rowKeys: Row -> set<int>)
    requires Run(Initial(inMemory, iteration, rows), steps, rowKeys).Some?
    requires VerdictSafe(Run(Initial(inMemory, iteration, rows), steps, rowKeys).value.host)
    ensures var s := Run(Initial(inMemory, iteration, rows), steps, rowKeys).value;
            && F.ValidIndex(s.index, KeysNow(s.host, rowKeys))
            && F.Covers(s.index, KeysNow(s.host, rowKeys), Alive(s.host.rows, s.dead))
            && forall r :: 0 <= r < |s.host.rows| ==> KeysNow(s.host, rowKeys)(r) == rowKeys(s.host.rows[r])
  {
    hide Run, Initial, F.ValidIndex, F.Covers, Alive, Inv, GoneInv, VerdictSafe;
    RunSound(inMemory, iteration, rows, steps, rowKeys);
    var s := Run(Initial(inMemory, iteration, rows), steps, rowKeys).value;
    var h := s.host;
    assert h.(indexed := h.indexed) == h;
    SafeMatches(h, s.dead);
    JoinedIs(h.indexed, h.rows);
    JoinedAlive(h.rows, h.indexed, s.dead);
    var joined := Joined(h.indexed, h.rows);
    OkOfPrefix(h.indexed, joined, s.dead, s.index, rowKeys);
    assert h.rows + (if |h.indexed| <= |h.rows| then [] else h.indexed[|h.rows|..]) == joined;
  }
}

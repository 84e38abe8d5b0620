/** Runs of appends, deletes and maintenance transactions under snapshot isolation. Commit order is rowid order: a row
    committed after a snapshot has a higher rowid than every row the snapshot sees. */
module RefreshRuns {
  import opened Common
  import opened SegmentTable
  import opened Refresh

  /** What a transaction sees: the rows committed and deleted when it began, and the index then. */
  datatype Snapshot = Snapshot(committed: nat, deleted: set<nat>, index: Index)

  function Visible(s: Snapshot): set<nat> {
    set r: nat | r < s.committed && r !in s.deleted
  }

  /** A refresh's call carries whatever number of allocated rowids its script was generated with. */
  datatype Work = Refreshing(call: Call) | Compacting(uncertain: bool) | Purging

  datatype Transaction = Transaction(work: Work, snapshot: Snapshot)

  /** The committed state and the maintenance transactions in flight. */
  datatype State = State(now: Snapshot, running: seq<Transaction>)

  datatype Step =
    | Append(count: nat)
    | Delete(rows: set<nat>)
    | Begin(work: Work)
    | Commit(transaction: nat)
    | Abort(transaction: nat)

  /** The index a transaction writes, from its own snapshot. */
  ghost function Written(t: Transaction, keysOf: nat -> set<int>): Index
    requires -1 <= t.snapshot.index.hwm <= LAST_ROW_ID
  {
    var index := t.snapshot.index;
    match t.work
    case Refreshing(call) => Refreshed(index, call, Visible(t.snapshot), keysOf)
    case Compacting(uncertain) => index.(rows := Compact(index.rows, uncertain))
    case Purging => index.(rows := Purge(index.rows, Visible(t.snapshot)))
  }

  /** Two maintenance transactions of one index write its registry row and segments: only the first may commit. */
  predicate Enabled(s: State, step: Step) {
    match step
    case Append(count) => s.now.committed + count <= LAST_ROW_ID + 1
    case Delete(_) => true
    case Begin(_) => true
    case Commit(i) => i < |s.running| && s.running[i].snapshot.index == s.now.index
        && -1 <= s.now.index.hwm <= LAST_ROW_ID
    case Abort(i) => i < |s.running|
  }

  function Without(running: seq<Transaction>, i: nat): seq<Transaction>
    requires i < |running|
  {
    running[..i] + running[i + 1..]
  }

  ghost function Next(s: State, step: Step, keysOf: nat -> set<int>): State
    requires Enabled(s, step)
  {
    match step
    case Append(count) => s.(now := s.now.(committed := s.now.committed + count))
    case Delete(rows) => s.(now := s.now.(deleted := s.now.deleted + rows))
    case Begin(work) => s.(running := s.running + [Transaction(work, s.now)])
    case Commit(i) => State(s.now.(index := Written(s.running[i], keysOf)), Without(s.running, i))
    case Abort(i) => s.(running := Without(s.running, i))
  }

  ghost function Run(keysOf: nat -> set<int>, steps: seq<Step>): Option<State> {
    if steps == [] then Some(State(Snapshot(0, {}, Index(-1, {})), []))
    else
      var before := Run(keysOf, steps[..|steps| - 1]);
      var step := steps[|steps| - 1];
      if before.Some? && Enabled(before.value, step) then Some(Next(before.value, step, keysOf)) else None
  }

  // ---------------------------------------------------------------------------------------------------------------
  // The invariant

  /** A consistent view: a valid index whose mark lies below every later rowid, and which covers the visible rows. */
  predicate Sound(s: Snapshot, keysOf: nat -> set<int>) {
    && s.committed <= LAST_ROW_ID + 1
    && ValidIndex(s.index, keysOf) && s.index.hwm < s.committed
    && Covers(s.index, keysOf, Visible(s))
  }

  predicate Earlier(a: Snapshot, b: Snapshot) {
    a.committed <= b.committed && a.deleted <= b.deleted
  }

  predicate Inv(s: State, keysOf: nat -> set<int>) {
    && Sound(s.now, keysOf)
    && forall i :: 0 <= i < |s.running| ==>
         Sound(s.running[i].snapshot, keysOf) && Earlier(s.running[i].snapshot, s.now)
  }

  /** Appending and deleting rows leave a sound view sound. */
  lemma WritesKeepSound(s: Snapshot, committed: nat, deleted: set<nat>, keysOf: nat -> set<int>)
    requires Sound(s, keysOf) && s.committed <= committed <= LAST_ROW_ID + 1 && s.deleted <= deleted
    ensures Sound(Snapshot(committed, deleted, s.index), keysOf)
  {
    hide ValidIndex, Postings;
    assert forall r :: r in Visible(Snapshot(committed, deleted, s.index)) && r <= s.index.hwm ==> r in Visible(s);
  }

  /** What a transaction writes from its snapshot is sound in every later state whose index it replaces. */
  lemma WrittenSound(t: Transaction, now: Snapshot, keysOf: nat -> set<int>)
    requires Sound(t.snapshot, keysOf) && Sound(now, keysOf) && Earlier(t.snapshot, now)
             && t.snapshot.index == now.index
    ensures Sound(now.(index := Written(t, keysOf)), keysOf)
  {
    hide ValidIndex, Covers, Refreshed, Compact, Purge;
    MarkOf(now.index, keysOf);
    match t.work {
      case Refreshing(call) => RefreshSound(t.snapshot, call, now, keysOf);
      case Compacting(uncertain) => CompactSound(now, uncertain, keysOf);
      case Purging => PurgeSound(t.snapshot, now, keysOf);
    }
  }

  lemma RefreshSound(s: Snapshot, call: Call, now: Snapshot, keysOf: nat -> set<int>)
    requires Sound(s, keysOf) && Sound(now, keysOf) && Earlier(s, now) && s.index == now.index
             && -1 <= s.index.hwm <= LAST_ROW_ID
    ensures Sound(now.(index := Refreshed(s.index, call, Visible(s), keysOf)), keysOf)
  {
    hide ValidIndex, Covers, RefreshedMark;
    var visible := Visible(s);
    RefreshValid(s.index, call, visible, keysOf);
    MarkBounds(s.index, call, visible, s.committed);
    RefreshCovers(s.index, call, visible, keysOf, s.committed, Visible(now));
  }

  lemma CompactSound(now: Snapshot, uncertain: bool, keysOf: nat -> set<int>)
    requires Sound(now, keysOf)
    ensures Sound(now.(index := now.index.(rows := Compact(now.index.rows, uncertain))), keysOf)
  {
    hide Compact, Postings, WellFormed;
    Compaction(now.index.rows, now.index.hwm, uncertain);
  }

  lemma PurgeSound(s: Snapshot, now: Snapshot, keysOf: nat -> set<int>)
    requires Sound(s, keysOf) && Sound(now, keysOf) && Earlier(s, now) && s.index == now.index
    ensures Sound(now.(index := now.index.(rows := Purge(now.index.rows, Visible(s)))), keysOf)
  {
    hide Purge, Postings, WellFormed;
    PurgeKeepsLive(now.index.rows, now.index.hwm, Visible(s));
  }

  lemma NextInv(s: State, step: Step, keysOf: nat -> set<int>)
    requires Inv(s, keysOf) && Enabled(s, step)
    ensures Inv(Next(s, step, keysOf), keysOf)
  {
    hide Sound, Written;
    match step {
      case Append(count) => WritesKeepSound(s.now, s.now.committed + count, s.now.deleted, keysOf);
      case Delete(rows) =>
        assert s.now.committed <= LAST_ROW_ID + 1 by { CommittedBound(s.now, keysOf); }
        WritesKeepSound(s.now, s.now.committed, s.now.deleted + rows, keysOf);
      case Commit(i) => WrittenSound(s.running[i], s.now, keysOf);
      case _ =>
    }
  }

  lemma CommittedBound(s: Snapshot, keysOf: nat -> set<int>)
    requires Sound(s, keysOf)
    ensures s.committed <= LAST_ROW_ID + 1
  {
  }

  lemma {:induction false} RunInv(keysOf: nat -> set<int>, steps: seq<Step>)
    requires Run(keysOf, steps).Some?
    ensures Inv(Run(keysOf, steps).value, keysOf)
  {
    hide Inv, Next, Enabled;
    if steps == [] {
      EmptyInv(keysOf);
    } else {
      RunInv(keysOf, steps[..|steps| - 1]);
      NextInv(Run(keysOf, steps[..|steps| - 1]).value, steps[|steps| - 1], keysOf);
    }
  }

  lemma EmptyInv(keysOf: nat -> set<int>)
    ensures Inv(State(Snapshot(0, {}, Index(-1, {})), []), keysOf)
  {
  }

  /** In every run, whatever refreshes, compactions and purges overlap the writes, each live row up to the mark is
      posted under all its keys, nothing else is posted that is not a key of its row, and no later append falls below
      the mark. */
  lemma MarkedRowsArePosted(keysOf: nat -> set<int>, steps: seq<Step>)
    requires Run(keysOf, steps).Some?
    ensures var now := Run(keysOf, steps).value.now;
            && now.index.hwm < now.committed
            && (forall r, k :: r in Visible(now) && r <= now.index.hwm && k in keysOf(r) ==>
                 (k, r) in Postings(now.index.rows))
            && (forall p :: p in Postings(now.index.rows) ==> p.1 <= now.index.hwm && p.0 in keysOf(p.1))
            && WellFormed(now.index.rows, now.index.hwm)
  {
    hide Run, Postings, WellFormed, Visible;
    RunInv(keysOf, steps);
  }
}

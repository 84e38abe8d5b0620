/** The rowid guard: a non-posting index that records every appended rowid and latches when a range may be reused. */
module Guards {
  import opened Common

  /** The guard's fields. `seal` is the persisted iteration not yet compared; `advance` the one at which maxSeen
      rose. */
  datatype Guard = Guard(maxSeen: int, unsafe: bool, seal: Option<nat>, advance: Option<nat>)

  /** What a guard persists. */
  datatype Stored = Stored(maxSeen: int, unsafe: bool, seal: nat)

  /** A database as the guard can see it: `checkpointing` from a checkpoint's start to its end. */
  datatype Database = Database(inMemory: bool, checkpointing: bool, iteration: nat)

  function CheckpointIteration(db: Database): nat {
    if db.inMemory then 0 else db.iteration
  }

  /** The iteration an append may rely on: none in memory, none while a checkpoint may be writing its header. */
  function ObservableIteration(db: Database): Option<nat> {
    if db.inMemory || db.checkpointing then None else Some(db.iteration)
  }

  /** Whether observing a range that starts at `first` must latch. */
  predicate Latches(g: Guard, db: Database, first: int) {
    first <= g.maxSeen && (g.advance.None? || ObservableIteration(db).None? || g.advance != ObservableIteration(db))
  }

  function Observe(g: Guard, db: Database, first: int, last: int): Guard {
    var latched := g.(unsafe := g.unsafe || Latches(g, db, first));
    if last > g.maxSeen then latched.(maxSeen := last, advance := ObservableIteration(db)) else latched
  }

  function ApplySeal(g: Guard, iteration: nat): Guard {
    if g.seal.None? then g else g.(unsafe := g.unsafe || g.seal.value != iteration, seal := None)
  }

  /** A guard whose storage the host reset is latched. */
  function Reset(g: Guard): Guard {
    g.(unsafe := true)
  }

  function Bind(stored: Stored): Guard {
    Guard(stored.maxSeen, stored.unsafe, Some(stored.seal), None)
  }

  /** What a reader may conclude once the pending seal is compared. */
  predicate Unsafe(g: Guard, db: Database) {
    g.unsafe || (g.seal.Some? && g.seal.value != CheckpointIteration(db))
  }

  datatype Verdict = Safe | MarkNotObserved | ReuseNotExcluded

  class RowIdGuard {
    var maxSeen: int
    var unsafe: bool
    var seal: Option<nat>
    var advance: Option<nat>

    function View(): Guard
      reads this
    {
      Guard(maxSeen, unsafe, seal, advance)
    }

    /** A guard created over rows [0, nextRow). */
    constructor Create(nextRow: nat, db: Database)
      ensures View() == Guard(nextRow - 1, false, None, ObservableIteration(db))
    {
      maxSeen, unsafe, seal, advance := nextRow - 1, false, None, ObservableIteration(db);
    }

    constructor CreateInstance(stored: Stored)
      ensures View() == Bind(stored)
    {
      maxSeen, unsafe, seal, advance := stored.maxSeen, stored.unsafe, Some(stored.seal), None;
    }

    method ObserveRange(db: Database, first: int, last: int)
      modifies this
      ensures View() == Observe(old(View()), db, first, last)
    {
      if first <= maxSeen {
        var current := ObservableIteration(db);
        if advance.None? || current.None? || current.value != advance.value {
          unsafe := true;
        }
      }
      if last > maxSeen {
        maxSeen := last;
        advance := ObservableIteration(db);
      }
    }

    /** An append's chunk of rowids, in whatever order. */
    method Append(db: Database, ids: seq<int>)
      modifies this
      ensures ids == [] ==> View() == old(View())
      ensures ids != [] ==>
              exists first, last :: IsSpan(ids, first, last) && View() == Observe(old(View()), db, first, last)
    {
      if ids == [] {
        return;
      }
      var first, last := ids[0], ids[0];
      for i := 1 to |ids|
        invariant IsSpan(ids[..i], first, last)
      {
        assert ids[..i + 1] == ids[..i] + [ids[i]];
        first := Min(first, ids[i]);
        last := Max(last, ids[i]);
      }
      assert ids[..|ids|] == ids;
      ObserveRange(db, first, last);
    }

    method ApplyCheckpointSeal(iteration: nat)
      modifies this
      ensures View() == ApplySeal(old(View()), iteration)
    {
      if seal.None? {
        return;
      }
      unsafe := unsafe || seal.value != iteration;
      seal := None;
    }

    /** The header advances the iteration exactly once after this. */
    method SerializeToDisk(db: Database) returns (stored: Stored)
      modifies this
      ensures View() == ApplySeal(old(View()), CheckpointIteration(db))
      ensures stored == Stored(maxSeen, old(Unsafe(View(), db)), CheckpointIteration(db) + 1)
    {
      var current := CheckpointIteration(db);
      ApplyCheckpointSeal(current);
      stored := Stored(maxSeen, unsafe, current + 1);
    }

    method SerializeToWAL(db: Database) returns (stored: Stored)
      modifies this
      ensures View() == ApplySeal(old(View()), CheckpointIteration(db))
      ensures stored == Stored(maxSeen, old(Unsafe(View(), db)), CheckpointIteration(db))
    {
      var current := CheckpointIteration(db);
      ApplyCheckpointSeal(current);
      stored := Stored(maxSeen, unsafe, current);
    }

    /** The verdict a query or maintenance operation reads: safe when the guard has seen the mark, its seal matches and
        it never latched. */
    method GetVerdict(db: Database, hwm: int) returns (verdict: Verdict)
      modifies this
      ensures View() == ApplySeal(old(View()), CheckpointIteration(db))
      ensures verdict == Safe <==> hwm <= maxSeen && !old(Unsafe(View(), db))
      ensures verdict == MarkNotObserved <==> maxSeen < hwm
    {
      ApplyCheckpointSeal(CheckpointIteration(db));
      if maxSeen < hwm {
        return MarkNotObserved;
      }
      return if unsafe then ReuseNotExcluded else Safe;
    }

    /** The host emptied the index's storage: nothing seen before can be vouched for. */
    method ResetStorage()
      modifies this
      ensures View() == Reset(old(View())) && View().maxSeen == old(View().maxSeen)
      ensures forall db: Database :: Unsafe(View(), db)
    {
      unsafe := true;
    }
  }

  /** The smallest and the largest rowid of a chunk. */
  predicate IsSpan(ids: seq<int>, first: int, last: int) {
    first in ids && last in ids && forall i :: 0 <= i < |ids| ==> first <= ids[i] <= last
  }
}

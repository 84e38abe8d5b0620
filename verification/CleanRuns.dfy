/** When the guard stays usable: runs that reissue no rowid keep the verdict safe, through checkpoints, crashes and
    replays. */
module CleanRuns {
  import opened Common
  import opened Guards
  import opened GuardRuns

  /** Steps after which no rowid can come back with another row: no append fails once the guard has seen a chunk of it,
      no truncation takes rows, a checkpoint serializes no half-observed append, and the extension is always loaded. */
  predicate IsClean(h: Host, step: Step) {
    match step
    case FailAppend => Observed(h) == 0
    case Truncate(keep) => keep == |h.rows|
    case VacuumInMemory(keep) => keep == |h.rows|
    case SerializeIndexes => Observed(h) == 0
    case ResetStorage => false
    case ForeignCheckpoint(_) => false
    case _ => true
  }

  /** A run all of whose steps are clean. */
  predicate CleanRun(start: Host, steps: seq<Step>) {
    if steps == [] then true
    else
      var before := Run(start, steps[..|steps| - 1]);
      CleanRun(start, steps[..|steps| - 1]) && before.Some? && IsClean(before.value, steps[|steps| - 1])
  }

  /** A persisted guard that saw exactly the image's rows, sealed with the iteration it will be read at. */
  predicate Exact(image: Image, iteration: nat) {
    image.stored == Stored(|image.rows| - 1, false, iteration)
  }

  /** The guard saw exactly the table's rows and the append under way, and so will the one recovery binds. */
  predicate Tight(h: Host) {
    && h.guard.maxSeen == |h.rows| + Observed(h) - 1 && !Unsafe(h.guard, Db(h))
    && (!h.inMemory ==> Exact(h.image, h.iteration))
    && (h.phase.Serialized? ==> Exact(h.phase.image, h.iteration + 1))
    && (!h.inMemory && !h.phase.Serialized? ==> h.rows == Recovered(h.image, h.wal))
  }

  lemma TightReopens(h: Host)
    requires !h.inMemory && Exact(h.image, h.iteration)
    ensures Tight(Reopen(h))
  {
    hide Replay;
    ReplayIs(h.image, h.wal, h.iteration);
    RecoveredIsLonger(h.image, h.wal);
    hide Recovered;
  }

  lemma RecoveredIsLonger(image: Image, wal: seq<seq<Row>>)
    ensures |Recovered(image, wal)| >= |image.rows|
  {
  }

  lemma TightCommits(h: Host)
    requires Tight(h) && Structure(h) && Enabled(h, CommitAppend)
    ensures Tight(Next(h, CommitAppend))
  {
    RecoveredSnoc(h.image, h.wal, h.appending.value.0);
    hide Recovered;
  }

  lemma TightStep(h: Host, step: Step)
    requires Tight(h) && Structure(h) && Enabled(h, step) && IsClean(h, step)
    ensures Tight(Next(h, step))
  {
    match step {
      case CommitAppend => hide *; TightCommits(h);
      case Crash => hide Tight, Reopen, Structure; assert !h.inMemory
          && Exact(h.image, h.iteration) by { TightImage(h); }
        TightReopens(h);
      case _ => hide Recovered, Replay, VerdictSafe;
    }
  }

  lemma TightImage(h: Host)
    requires Tight(h) && !h.inMemory
    ensures Exact(h.image, h.iteration)
  {
  }

  lemma {:induction false} CleanRunIsTight(inMemory: bool, iteration: nat, rows: seq<Row>, steps: seq<Step>)
    requires Run(Initial(inMemory, iteration, rows), steps).Some? && CleanRun(Initial(inMemory, iteration, rows), steps)
    ensures Tight(Run(Initial(inMemory, iteration, rows), steps).value)
    ensures Inv(Run(Initial(inMemory, iteration, rows), steps).value)
  {
    hide Inv, Tight, Next, Enabled, Initial, IsClean;
    var start := Initial(inMemory, iteration, rows);
    if steps == [] {
      InitialInv(inMemory, iteration, rows);
      InitialTight(inMemory, iteration, rows);
    } else {
      var front := steps[..|steps| - 1];
      CleanRunIsTight(inMemory, iteration, rows, front);
      var h := Run(start, front).value;
      NextInv(h, steps[|steps| - 1]);
      assert Structure(h) by { InvStructure(h); }
      TightStep(h, steps[|steps| - 1]);
    }
  }

  lemma InvStructure(h: Host)
    requires Inv(h)
    ensures Structure(h)
  {
  }

  lemma InitialTight(inMemory: bool, iteration: nat, rows: seq<Row>)
    ensures Tight(Initial(inMemory, iteration, rows))
  {
    NothingLogged(Initial(inMemory, iteration, rows).image);
  }

  /** No false alarm, over whole histories: a run of clean steps, with any number of checkpoints, crashes and index
      builds among its appends, leaves the verdict safe. */
  lemma CleanRunsStaySafe(inMemory: bool, iteration: nat, rows: seq<Row>, steps: seq<Step>)
    requires Run(Initial(inMemory, iteration, rows), steps).Some? && CleanRun(Initial(inMemory, iteration, rows), steps)
    ensures VerdictSafe(Run(Initial(inMemory, iteration, rows), steps).value)
  {
    CleanRunIsTight(inMemory, iteration, rows, steps);
    hide Run, Initial, Structure, Durable, Recovered;
  }
}

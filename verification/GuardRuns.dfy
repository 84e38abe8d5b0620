/** Runs of a guarded table: appends that commit or fail, checkpoints in their phases, crashes, checkpoints taken
    without the extension, index builds and refreshes. A safe verdict means no indexed rowid belongs to another row. */
module GuardRuns {
  import opened Common
  import opened Guards

  /** A row's identity: what a reissued rowid would change. */
  type Row = int

  /** The durable table and guard. */
  datatype Image = Image(rows: seq<Row>, stored: Stored)

  datatype Phase =
    | Quiet
    | Started
    | Serialized(image: Image, wal: seq<seq<Row>>)
    | HeaderWritten

  /** One guarded table. `rows[r]` owns rowid r, deleted rows included; `wal` lists the transactions committed since the
      image; `appending` holds the rows a committing transaction appends, and how many of them the guard has seen;
      `indexed[r]` is the row whose postings the index holds under rowid r, so the mark is |indexed| - 1. */
  datatype Host = Host(
    inMemory: bool,
    iteration: nat,
    phase: Phase,
    guard: Guard,
    rows: seq<Row>,
    appending: Option<(seq<Row>, nat)>,
    image: Image,
    wal: seq<seq<Row>>,
    indexed: seq<Row>)

  function Db(h: Host): Database {
    Database(h.inMemory, !h.phase.Quiet?, h.iteration)
  }

  datatype Step =
    | BeginAppend(rows: seq<Row>)
    | AppendChunk(count: nat)
    | CommitAppend
    | FailAppend
    | StartCheckpoint
    | Truncate(keep: nat)
    | SerializeIndexes
    | WriteHeader
    | EndCheckpoint
    | VacuumInMemory(keep: nat)
    | Consult
    | ResetStorage
    | CreateIndex(upTo: nat)
    | RefreshIndex(upTo: nat)
    | Crash
    | ForeignCheckpoint(keep: nat)

  function Observed(h: Host): nat {
    if h.appending.None? then 0 else h.appending.value.1
  }

  /** What recovery puts in the table: the image, then every transaction logged since. */
  function Recovered(image: Image, wal: seq<seq<Row>>): seq<Row> {
    image.rows + Flatten(wal)
  }

  /** Binding a persisted guard replays the logged appends through it. */
  function Replay(image: Image, wal: seq<seq<Row>>, db: Database): Guard {
    if wal == [] then Bind(image.stored)
    else
      var front, last := wal[..|wal| - 1], wal[|wal| - 1];
      var start := |Recovered(image, front)|;
      if last == [] then Replay(image, front, db) else Observe(Replay(image, front, db), db, start, start + |last| - 1)
  }

  /** An index build or refresh runs only under a safe verdict. */
  predicate VerdictSafe(h: Host) {
    |h.indexed| - 1 <= h.guard.maxSeen && !Unsafe(h.guard, Db(h))
  }

  predicate Enabled(h: Host, step: Step) {
    match step
    case BeginAppend(rows) => h.appending.None? && rows != []
    case AppendChunk(count) => h.appending.Some? && 0 < count && Observed(h) + count <= |h.appending.value.0|
    case CommitAppend => h.appending.Some? && Observed(h) == |h.appending.value.0|
    case FailAppend => h.appending.Some?
    case StartCheckpoint => !h.inMemory && h.phase.Quiet?
    case Truncate(keep) => h.phase.Started? && h.appending.None? && keep <= |h.rows|
    case SerializeIndexes => h.phase.Started?
    case WriteHeader => h.phase.Serialized?
    case EndCheckpoint => h.phase.HeaderWritten?
    case VacuumInMemory(keep) => h.inMemory && h.appending.None? && keep <= |h.rows|
    case Consult => true
    case ResetStorage => true
    case CreateIndex(upTo) => VerdictSafe(h) && upTo <= |h.rows|
    case RefreshIndex(upTo) => VerdictSafe(h) && upTo <= |h.rows|
    case Crash => !h.inMemory
    case ForeignCheckpoint(keep) => !h.inMemory && keep <= |Recovered(h.image, h.wal)|
  }

  /** A transaction committed while a checkpoint runs past its serialization outlives it in the log. */
  function Logged(phase: Phase, rows: seq<Row>): Phase {
    if phase.Serialized? then phase.(wal := phase.wal + [rows]) else phase
  }

  function Next(h: Host, step: Step): Host
    requires Enabled(h, step)
  {
    match step
    case BeginAppend(rows) => h.(appending := Some((rows, 0)))
    case AppendChunk(count) =>
      var first := |h.rows| + Observed(h);
      h.(guard := Observe(h.guard, Db(h), first, first + count - 1),
         appending := Some((h.appending.value.0, Observed(h) + count)))
    case CommitAppend =>
      var added := h.appending.value.0;
      h.(rows := h.rows + added, wal := h.wal + [added], phase := Logged(h.phase, added), appending := None)
    case FailAppend => h.(appending := None)
    case StartCheckpoint => h.(phase := Started)
    case Truncate(keep) => h.(rows := h.rows[..keep])
    case SerializeIndexes =>
      h.(guard := ApplySeal(h.guard, h.iteration),
         phase := Serialized(Image(h.rows, Stored(h.guard.maxSeen, Unsafe(h.guard, Db(h)), h.iteration + 1)), []))
    case WriteHeader => h.(iteration := h.iteration + 1, image := h.phase.image, wal := h.phase.wal,
        phase := HeaderWritten)
    case EndCheckpoint => h.(phase := Quiet)
    case VacuumInMemory(keep) => h.(rows := h.rows[..keep])
    case Consult => h.(guard := ApplySeal(h.guard, CheckpointIteration(Db(h))))
    case ResetStorage => h.(guard := Reset(h.guard))
    case CreateIndex(upTo) => h.(indexed := h.rows[..upTo])
    case RefreshIndex(upTo) => if upTo <= |h.indexed| then h else h.(indexed := h.indexed + h.rows[|h.indexed|..upTo])
    case Crash => Reopen(h)
    case ForeignCheckpoint(keep) =>
      Reopen(h.(iteration := h.iteration + 1, image := Image(Recovered(h.image, h.wal)[..keep], h.image.stored),
          wal := []))
  }

  function Reopen(h: Host): Host {
    h.(phase := Quiet, appending := None, rows := Recovered(h.image, h.wal),
       guard := Replay(h.image, h.wal, Database(h.inMemory, false, h.iteration)))
  }

  /** A guard created over a table without an index, durable from its CREATE INDEX record on. */
  function Initial(inMemory: bool, iteration: nat, rows: seq<Row>): Host {
    var db := Database(inMemory, false, iteration);
    Host(inMemory, iteration, Quiet, Guard(|rows| - 1, false, None, ObservableIteration(db)), rows, None,
         Image(rows, Stored(|rows| - 1, false, iteration)), [], [])
  }

  function Run(start: Host, steps: seq<Step>): Option<Host> {
    if steps == [] then Some(start)
    else
      var before := Run(start, steps[..|steps| - 1]);
      var step := steps[|steps| - 1];
      if before.Some? && Enabled(before.value, step) then Some(Next(before.value, step)) else None
  }

  // ---------------------------------------------------------------------------------------------------------------
  // The invariant

  /** Every rowid that has an owner and postings has the owner the postings describe. */
  predicate Agree(rows: seq<Row>, indexed: seq<Row>) {
    forall r :: 0 <= r < |rows| && r < |indexed| ==> rows[r] == indexed[r]
  }

  /** The next append below the mark would latch. */
  predicate Armed(h: Host) {
    h.guard.advance.None? || ObservableIteration(Db(h)).None? || h.guard.advance != ObservableIteration(Db(h))
  }

  predicate LiveOk(h: Host) {
    && |h.rows| + Observed(h) <= h.guard.maxSeen + 1 && |h.indexed| <= h.guard.maxSeen + 1
    && Agree(h.rows, h.indexed)
    && (|h.indexed| <= |h.rows| || (Armed(h) && Observed(h) == 0))
    && (!h.inMemory ==> LogOk(h))
  }

  /** An unlatched guard's table is what recovery would restore, short of a truncation no append has followed. */
  predicate LogOk(h: Host) {
    var recovered := Recovered(h.image, h.wal);
    h.rows <= recovered && |recovered| <= h.guard.maxSeen + 1 && (Observed(h) > 0 ==> h.rows == recovered)
  }

  /** The guard recovery would bind is not latched once its seal is compared. */
  predicate Recoverable(image: Image, wal: seq<seq<Row>>, iteration: nat) {
    !Unsafe(Replay(image, wal, Database(false, false, iteration)), Database(false, false, iteration))
  }

  predicate DurableOk(image: Image, wal: seq<seq<Row>>, indexed: seq<Row>) {
    && |image.rows| <= image.stored.maxSeen + 1
    && |indexed| <= Max(image.stored.maxSeen + 1, |Recovered(image, wal)|)
    && Agree(Recovered(image, wal), indexed)
  }

  predicate Durable(image: Image, wal: seq<seq<Row>>, iteration: nat, indexed: seq<Row>) {
    && image.stored.seal <= iteration
    && (Recoverable(image, wal, iteration) ==> DurableOk(image, wal, indexed))
  }

  predicate Structure(h: Host) {
    && (h.inMemory ==> h.phase.Quiet? && h.guard.advance.None? && h.guard.seal.None?)
    && (h.guard.seal.Some? ==> h.guard.seal.value <= h.iteration && (h.phase.Quiet? || h.phase.Started?))
    && (h.guard.advance.Some? ==> h.guard.advance.value <= h.iteration)
    && (h.phase.HeaderWritten? ==> h.guard.advance.None? || h.guard.advance.value < h.iteration)
    && (!h.inMemory && (h.phase.Quiet? || h.phase.HeaderWritten?) ==> h.rows == Recovered(h.image, h.wal))
    && (h.phase.Serialized? ==>
         h.rows == Recovered(h.phase.image, h.phase.wal) && h.phase.image.stored.seal == h.iteration + 1)
    && (h.appending.Some? ==> Observed(h) <= |h.appending.value.0| && h.appending.value.0 != [])
  }

  predicate Inv(h: Host) {
    && Structure(h)
    && (!Unsafe(h.guard, Db(h)) ==> LiveOk(h))
    && (!h.inMemory ==> Durable(h.image, h.wal, h.iteration, h.indexed))
    && (h.phase.Serialized? ==> Durable(h.phase.image, h.phase.wal, h.iteration + 1, h.indexed))
  }

  // ---------------------------------------------------------------------------------------------------------------
  // Replay

  lemma RecoveredSnoc(image: Image, wal: seq<seq<Row>>, added: seq<Row>)
    ensures Recovered(image, wal + [added]) == Recovered(image, wal) + added
  {
    FlattenSnoc(wal, added);
    ConcatAssociates(image.rows, Flatten(wal), added);
  }

  /** What replay yields: it latches when the log starts at or below what the image's guard saw, and otherwise ends
      having seen the whole table. */
  lemma {:induction false} ReplayIs(image: Image, wal: seq<seq<Row>>, iteration: nat)
    requires |image.rows| <= image.stored.maxSeen + 1
    ensures var g := Replay(image, wal, Database(false, false, iteration));
            var n := |Recovered(image, wal)|;
            && g.seal == Some(image.stored.seal)
            && g.maxSeen == Max(image.stored.maxSeen, if n > |image.rows| then n - 1 else image.stored.maxSeen)
            && (n > image.stored.maxSeen + 1 ==> g.advance == Some(iteration))
            && (n <= image.stored.maxSeen + 1 ==> g.advance.None?)
            && (g.unsafe <==> image.stored.unsafe || (n > |image.rows| && |image.rows| <= image.stored.maxSeen))
  {
    if wal == [] {
      assert image.rows + [] == image.rows;
    } else {
      var front, last := wal[..|wal| - 1], wal[|wal| - 1];
      ReplayIs(image, front, iteration);
      RecoveredSnoc(image, front, last);
      assert wal == front + [last];
      if last == [] {
        assert Recovered(image, front) + last == Recovered(image, front);
      }
    }
  }

  lemma {:induction false} ReplayKeepsSeal(image: Image, wal: seq<seq<Row>>, iteration: nat)
    ensures var g := Replay(image, wal, Database(false, false, iteration));
            && g.seal == Some(image.stored.seal) && (image.stored.unsafe ==> g.unsafe)
            && (g.advance.Some? ==> g.advance.value == iteration)
  {
    if wal != [] {
      ReplayKeepsSeal(image, wal[..|wal| - 1], iteration);
    }
  }

  /** A recoverable image and log bind a guard that has seen every row, and is armed unless the mark is within the
      table. */
  lemma RecoveredLive(image: Image, wal: seq<seq<Row>>, iteration: nat, indexed: seq<Row>)
    requires Recoverable(image, wal, iteration) && DurableOk(image, wal, indexed)
    ensures var g := Replay(image, wal, Database(false, false, iteration));
            var n := |Recovered(image, wal)|;
            && n <= g.maxSeen + 1 && |indexed| <= g.maxSeen + 1
            && (|indexed| <= n || g.advance.None?)
  {
    ReplayIs(image, wal, iteration);
    hide Replay, Flatten;
    var n := |Recovered(image, wal)|;
    assert n >= |image.rows|;
  }

  // ---------------------------------------------------------------------------------------------------------------
  // Each step keeps it

  lemma QuietSteps(h: Host, step: Step)
    requires Inv(h) && Enabled(h, step)
    requires || step.BeginAppend? || step.FailAppend? || step.StartCheckpoint? || step.EndCheckpoint? || step.Consult?
             || step.ResetStorage?
    ensures Inv(Next(h, step))
  {
    hide Durable, Recovered, Agree;
  }

  lemma ChunkStep(h: Host, count: nat)
    requires Inv(h) && Enabled(h, AppendChunk(count))
    ensures Inv(Next(h, AppendChunk(count)))
  {
    hide Durable, Recovered, LiveOk;
    ObserveStructure(h, count);
    if !Unsafe(Next(h, AppendChunk(count)).guard, Db(h)) {
      ChunkLive(h, count);
    }
  }

  lemma ObserveStructure(h: Host, count: nat)
    requires Structure(h) && Enabled(h, AppendChunk(count))
    ensures Structure(Next(h, AppendChunk(count)))
  {
    hide Recovered;
  }

  lemma ChunkLive(h: Host, count: nat)
    requires Structure(h) && Enabled(h, AppendChunk(count)) && LiveOk(h)
    requires !Unsafe(Next(h, AppendChunk(count)).guard, Db(h))
    ensures LiveOk(Next(h, AppendChunk(count)))
  {
    hide Recovered, Agree;
    var first := |h.rows| + Observed(h);
    assert !Latches(h.guard, Db(h), first);
    if !h.inMemory && Observed(h) == 0 {
      ChunkLogged(h, first);
    }
  }

  /** A range that does not latch starts where recovery would put it. */
  lemma ChunkLogged(h: Host, first: int)
    requires Structure(h) && LogOk(h) && !h.inMemory && first == |h.rows| && !Latches(h.guard, Db(h), first)
    ensures h.rows == Recovered(h.image, h.wal)
  {
    hide Recovered;
    var recovered := Recovered(h.image, h.wal);
    if first > h.guard.maxSeen {
      assert |h.rows| == |recovered|;
      assert recovered[..|h.rows|] == recovered;
    }
  }

  lemma AgreeAppends(rows: seq<Row>, added: seq<Row>, indexed: seq<Row>)
    requires Agree(rows, indexed) && |indexed| <= |rows|
    ensures Agree(rows + added, indexed)
  {
  }

  lemma CommitStep(h: Host)
    requires Inv(h) && Enabled(h, CommitAppend)
    ensures Inv(Next(h, CommitAppend))
  {
    hide Durable, Recovered, Agree, LiveOk;
    var added := h.appending.value.0;
    RecoveredSnoc(h.image, h.wal, added);
    if h.phase.Serialized? {
      RecoveredSnoc(h.phase.image, h.phase.wal, added);
      CommitDurable(h.phase.image, h.phase.wal, h.iteration + 1, h.indexed, added);
    }
    if !h.inMemory {
      CommitDurable(h.image, h.wal, h.iteration, h.indexed, added);
    }
    if !Unsafe(h.guard, Db(h)) {
      CommitLive(h);
    }
  }

  lemma CommitLive(h: Host)
    requires LiveOk(h) && Enabled(h, CommitAppend) && Structure(h)
    ensures LiveOk(Next(h, CommitAppend))
  {
    hide Recovered, Agree;
    var added := h.appending.value.0;
    RecoveredSnoc(h.image, h.wal, added);
    AgreeAppends(h.rows, added, h.indexed);
  }

  lemma CommitDurable(image: Image, wal: seq<seq<Row>>, iteration: nat, indexed: seq<Row>, added: seq<Row>)
    requires Durable(image, wal, iteration, indexed) && added != []
    ensures Durable(image, wal + [added], iteration, indexed)
  {
    hide Recovered, Agree, Flatten;
    var wal' := wal + [added];
    assert wal'[..|wal'| - 1] == wal;
    if Recoverable(image, wal', iteration) {
      assert Recoverable(image, wal, iteration);
      ReplayIs(image, wal, iteration);
      RecoveredSnoc(image, wal, added);
      AgreeAppends(Recovered(image, wal), added, indexed);
    }
  }

  lemma TruncateStep(h: Host, step: Step)
    requires Inv(h) && Enabled(h, step) && (step.Truncate? || step.VacuumInMemory?)
    ensures Inv(Next(h, step))
  {
    hide Durable, Recovered;
  }

  lemma SerializeStep(h: Host)
    requires Inv(h) && Enabled(h, SerializeIndexes)
    ensures Inv(Next(h, SerializeIndexes))
  {
    hide Recovered, Agree, Flatten, Recoverable, DurableOk;
    var image := Image(h.rows, Stored(h.guard.maxSeen, Unsafe(h.guard, Db(h)), h.iteration + 1));
    assert Recovered(image, []) == h.rows by { NothingLogged(image); }
    SerializedDurable(image, h);
  }

  lemma NothingLogged(image: Image)
    ensures Recovered(image, []) == image.rows
  {
  }

  lemma SerializedDurable(image: Image, h: Host)
    requires image == Image(h.rows, Stored(h.guard.maxSeen, Unsafe(h.guard, Db(h)), h.iteration + 1))
    requires !Unsafe(h.guard, Db(h)) ==> LiveOk(h)
    ensures Durable(image, [], h.iteration + 1, h.indexed)
  {
    NothingLogged(image);
  }

  lemma HeaderStep(h: Host)
    requires Inv(h) && Enabled(h, WriteHeader)
    ensures Inv(Next(h, WriteHeader))
  {
    hide Recovered, Agree, Durable;
  }

  lemma IndexStep(h: Host, step: Step)
    requires Inv(h) && Enabled(h, step) && (step.CreateIndex? || step.RefreshIndex?)
    ensures Inv(Next(h, step))
  {
    hide Recovered, Durable, Recoverable, Unsafe;
    var h' := Next(h, step);
    if h'.indexed != h.indexed {
      IndexedPrefix(h, step);
      if !h.inMemory {
        IndexDurable(h.image, h.wal, h.iteration, h.indexed, h'.indexed, h.rows);
      }
      if h.phase.Serialized? {
        SerializedRows(h);
        IndexDurable(h.phase.image, h.phase.wal, h.iteration + 1, h.indexed, h'.indexed, h.rows);
      }
    }
  }

  lemma SerializedRows(h: Host)
    requires Structure(h) && h.phase.Serialized?
    ensures h.rows == Recovered(h.phase.image, h.phase.wal)
  {
  }

  /** Under a safe verdict an index build or refresh leaves postings of a prefix of the live table. */
  lemma IndexedPrefix(h: Host, step: Step)
    requires Agree(h.rows, h.indexed) && Enabled(h, step) && (step.CreateIndex? || step.RefreshIndex?)
    requires Next(h, step).indexed != h.indexed
    ensures Next(h, step).indexed <= h.rows
  {
    var after := Next(h, step).indexed;
    assert forall r :: 0 <= r < |after| ==> after[r] == h.rows[r];
  }

  lemma IndexDurable(image: Image, wal: seq<seq<Row>>, iteration: nat, before: seq<Row>, after: seq<Row>,
                     rows: seq<Row>)
    requires Durable(image, wal, iteration, before)
    requires after <= rows <= Recovered(image, wal)
    ensures Durable(image, wal, iteration, after)
  {
    hide Recovered, Recoverable;
  }

  lemma ReopenStep(h: Host)
    requires !h.inMemory && Durable(h.image, h.wal, h.iteration, h.indexed)
    ensures Inv(Reopen(h))
  {
    hide Recovered, Replay, Agree;
    ReplayKeepsSeal(h.image, h.wal, h.iteration);
    var r := Reopen(h);
    if !Unsafe(r.guard, Db(r)) {
      assert Recoverable(h.image, h.wal, h.iteration);
      RecoveredLive(h.image, h.wal, h.iteration, h.indexed);
    }
  }

  /** A checkpoint taken without the extension copies the guard's old seal, which the new iteration no longer
      matches. */
  lemma ForeignStep(h: Host, keep: nat)
    requires Inv(h) && Enabled(h, ForeignCheckpoint(keep))
    ensures Inv(Next(h, ForeignCheckpoint(keep)))
  {
    hide Recovered, Replay;
    var image := Image(Recovered(h.image, h.wal)[..keep], h.image.stored);
    ReplayKeepsSeal(image, [], h.iteration + 1);
    ReopenStep(h.(iteration := h.iteration + 1, image := image, wal := []));
  }

  lemma NextInv(h: Host, step: Step)
    requires Inv(h) && Enabled(h, step)
    ensures Inv(Next(h, step))
  {
    match step {
      case AppendChunk(count) => hide *; ChunkStep(h, count);
      case CommitAppend => hide *; CommitStep(h);
      case Truncate(_) => hide *; TruncateStep(h, step);
      case VacuumInMemory(_) => hide *; TruncateStep(h, step);
      case SerializeIndexes => hide *; SerializeStep(h);
      case WriteHeader => hide *; HeaderStep(h);
      case CreateIndex(_) => hide *; IndexStep(h, step);
      case RefreshIndex(_) => hide *; IndexStep(h, step);
      case Crash => CrashStep(h);
      case ForeignCheckpoint(keep) => hide *; ForeignStep(h, keep);
      case _ => hide *; QuietSteps(h, step);
    }
  }

  lemma CrashStep(h: Host)
    requires Inv(h) && Enabled(h, Crash)
    ensures Inv(Next(h, Crash))
  {
    hide Durable, Reopen, Structure, LiveOk;
    ReopenStep(h);
  }

  lemma InitialInv(inMemory: bool, iteration: nat, rows: seq<Row>)
    ensures Inv(Initial(inMemory, iteration, rows))
  {
    NothingLogged(Initial(inMemory, iteration, rows).image);
  }

  // ---------------------------------------------------------------------------------------------------------------
  // Index maintenance in flight

  /** A table while an index build or refresh runs: the postings its snapshot yields, recorded when it commits. */
  datatype Site = Site(host: Host, building: Option<seq<Row>>)

  datatype SiteStep = HostStep(step: Step) | BeginIndex(step: Step) | CommitIndex | AbortIndex

  predicate IsIndexing(step: Step) {
    step.CreateIndex? || step.RefreshIndex?
  }

  predicate Reopens(step: Step) {
    step.Crash? || step.ForeignCheckpoint?
  }

  /** Maintenance reads the verdict with its snapshot; one runs at a time. */
  predicate SiteEnabled(s: Site, step: SiteStep) {
    match step
    case HostStep(step) => !IsIndexing(step) && Enabled(s.host, step)
    case BeginIndex(step) => s.building.None? && IsIndexing(step) && Enabled(s.host, step)
    case CommitIndex => s.building.Some?
    case AbortIndex => s.building.Some?
  }

  function SiteNext(s: Site, step: SiteStep): Site
    requires SiteEnabled(s, step)
  {
    match step
    case HostStep(step) => Site(Next(s.host, step), if Reopens(step) then None else s.building)
    case BeginIndex(step) => s.(building := Some(Next(s.host, step).indexed))
    case CommitIndex => Site(s.host.(indexed := s.building.value), None)
    case AbortIndex => s.(building := None)
  }

  function SiteRun(start: Host, steps: seq<SiteStep>): Option<Site> {
    if steps == [] then Some(Site(start, None))
    else
      var before := SiteRun(start, steps[..|steps| - 1]);
      var step := steps[|steps| - 1];
      if before.Some? && SiteEnabled(before.value, step) then Some(SiteNext(before.value, step)) else None
  }

  /** What a build will record satisfies what the recorded postings do. */
  predicate SiteInv(s: Site) {
    Inv(s.host) && (s.building.Some? ==> Inv(s.host.(indexed := s.building.value)))
  }

  /** No other step reads or writes the postings. */
  lemma PostingsAside(h: Host, step: Step, indexed: seq<Row>)
    requires Enabled(h, step) && !IsIndexing(step)
    ensures Enabled(h.(indexed := indexed), step)
    ensures Next(h.(indexed := indexed), step) == Next(h, step).(indexed := indexed)
  {
    hide VerdictSafe, Recovered, Replay;
  }

  lemma SiteStepInv(s: Site, step: SiteStep)
    requires SiteInv(s) && SiteEnabled(s, step)
    ensures SiteInv(SiteNext(s, step))
  {
    hide Inv, Next, Enabled;
    match step {
      case HostStep(step) =>
        NextInv(s.host, step);
        if s.building.Some? {
          PostingsAside(s.host, step, s.building.value);
          NextInv(s.host.(indexed := s.building.value), step);
        }
      case BeginIndex(step) =>
        NextInv(s.host, step);
        IndexingOnly(s.host, step);
      case _ =>
    }
  }

  lemma IndexingOnly(h: Host, step: Step)
    requires Enabled(h, step) && IsIndexing(step)
    ensures Next(h, step) == h.(indexed := Next(h, step).indexed)
  {
  }

  lemma {:induction false} RunInv(inMemory: bool, iteration: nat, rows: seq<Row>, steps: seq<SiteStep>)
    requires SiteRun(Initial(inMemory, iteration, rows), steps).Some?
    ensures SiteInv(SiteRun(Initial(inMemory, iteration, rows), steps).value)
  {
    hide Inv, SiteNext, SiteEnabled, Initial;
    if steps == [] {
      InitialInv(inMemory, iteration, rows);
    } else {
      RunInv(inMemory, iteration, rows, steps[..|steps| - 1]);
      SiteStepInv(SiteRun(Initial(inMemory, iteration, rows), steps[..|steps| - 1]).value, steps[|steps| - 1]);
    }
  }

  /** Soundness: in every run, with an index build or refresh in flight or not, while the verdict is safe no rowid up to
      the mark belongs to another row than the one its postings describe. */
  lemma SafeVerdictIsSound(inMemory: bool, iteration: nat, rows: seq<Row>, steps: seq<SiteStep>)
    requires SiteRun(Initial(inMemory, iteration, rows), steps).Some?
    requires VerdictSafe(SiteRun(Initial(inMemory, iteration, rows), steps).value.host)
    ensures var h := SiteRun(Initial(inMemory, iteration, rows), steps).value.host;
            forall r :: 0 <= r < |h.rows| && r < |h.indexed| ==> h.rows[r] == h.indexed[r]
  {
    hide SiteRun, Initial, Structure, Durable;
    RunInv(inMemory, iteration, rows, steps);
  }

  // ---------------------------------------------------------------------------------------------------------------
  // No false alarm

  /** Steps between two checkpoints: appends that commit or fail, verdicts read, index builds and refreshes. */
  predicate BetweenCheckpoints(steps: seq<Step>) {
    forall i :: 0 <= i < |steps| ==>
      || steps[i].BeginAppend? || steps[i].AppendChunk? || steps[i].CommitAppend? || steps[i].FailAppend?
      || steps[i].Consult? || steps[i].CreateIndex? || steps[i].RefreshIndex?
  }

  /** The guard rose in this iteration, or has seen exactly the table's rows. */
  predicate Steady(h: Host) {
    h.guard.advance == Some(h.iteration) || (h.guard.maxSeen == |h.rows| - 1 && Observed(h) == 0)
  }

  predicate Unlatched(h: Host) {
    !h.inMemory && h.phase.Quiet? && !Unsafe(h.guard, Db(h))
  }

  /** Between two checkpoints of a file database, no run of appends, failed commits whose range is appended again,
      verdicts and index maintenance latches a steady guard. */
  lemma {:induction false} FailedCommitsDoNotLatch(start: Host, steps: seq<Step>)
    requires Unlatched(start) && Steady(start) && Run(start, steps).Some? && BetweenCheckpoints(steps)
    ensures var h := Run(start, steps).value; Unlatched(h) && Steady(h) && h.iteration == start.iteration
  {
    hide VerdictSafe;
    if steps != [] {
      FailedCommitsDoNotLatch(start, steps[..|steps| - 1]);
    }
  }

  /** And being steady is exactly what the next append needs: its first chunk latches any other guard. */
  lemma SteadyIff(h: Host, rows: seq<Row>, count: nat)
    requires Unlatched(h) && h.appending.None? && 0 < count <= |rows| && |h.rows| <= h.guard.maxSeen + 1
    ensures var after := Run(h, [BeginAppend(rows), AppendChunk(count)]);
            after.Some? && (Unlatched(after.value) <==> Steady(h))
  {
    var steps := [BeginAppend(rows), AppendChunk(count)];
    assert steps[..1] == [BeginAppend(rows)] && steps[..1][..0] == [];
    var begun := Next(h, BeginAppend(rows));
    assert Run(h, steps[..1]) == Some(begun);
    assert Run(h, steps) == Some(Next(begun, AppendChunk(count)));
  }

  // ---------------------------------------------------------------------------------------------------------------
  // The latch

  /** The guard has latched, and so has every state of it on disk that a reopen could bind. */
  predicate Latched(h: Host) {
    && h.guard.unsafe
    && (!h.inMemory ==> h.image.stored.unsafe)
    && (h.phase.Serialized? ==> h.phase.image.stored.unsafe)
  }

  lemma LatchedStep(h: Host, step: Step)
    requires Latched(h) && Enabled(h, step)
    ensures Latched(Next(h, step))
  {
    hide VerdictSafe, Recovered;
    if step.Crash? || step.ForeignCheckpoint? {
      var after := Next(h, step);
      ReplayKeepsSeal(after.image, after.wal, after.iteration);
    }
  }

  /** A latch a checkpoint has written out is permanent: no append, commit, checkpoint, crash or foreign checkpoint
      makes the verdict safe again. */
  lemma {:induction false} LatchIsPermanent(start: Host, steps: seq<Step>)
    requires Latched(start) && Run(start, steps).Some?
    ensures Latched(Run(start, steps).value) && !VerdictSafe(Run(start, steps).value)
  {
    hide Enabled, Next;
    if steps != [] {
      LatchIsPermanent(start, steps[..|steps| - 1]);
      LatchedStep(Run(start, steps[..|steps| - 1]).value, steps[|steps| - 1]);
    }
  }

  /** While the database stays open nothing clears the latch. */
  lemma {:induction false} LatchedWhileOpen(start: Host, steps: seq<Step>)
    requires start.guard.unsafe && Run(start, steps).Some?
    requires forall i :: 0 <= i < |steps| ==> !Reopens(steps[i])
    ensures Run(start, steps).value.guard.unsafe && !VerdictSafe(Run(start, steps).value)
  {
    hide Recovered, Replay;
    if steps != [] {
      LatchedWhileOpen(start, steps[..|steps| - 1]);
    }
  }

  /** A storage reset is not forgotten: whatever follows until the database is reopened, the verdict is not safe, and
      the next checkpoint writes the latch out. */
  lemma ResetIsRemembered(h: Host, steps: seq<Step>)
    requires Run(Next(h, ResetStorage), steps).Some? && forall i :: 0 <= i < |steps| ==> !Reopens(steps[i])
    ensures var after := Run(Next(h, ResetStorage), steps).value;
            && !VerdictSafe(after)
            && (Enabled(after, SerializeIndexes) ==> Next(after, SerializeIndexes).phase.image.stored.unsafe)
  {
    LatchedWhileOpen(Next(h, ResetStorage), steps);
  }
}

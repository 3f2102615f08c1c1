/**
 * One run of the job runtime: its creation, its attempts, its database row, the ordered
 * writes to that row, and a cancellation.
 *
 * A queued write names the in-memory run object of an attempt and reads it only when the write
 * starts, so a write queued as "RUNNING" can carry a later status. Writes may fail, with or
 * without having taken effect, and every step may be delayed arbitrarily. A write whose client saw
 * it fail, say by a dropped connection, may even take effect long after it has settled.
 */
module RunRows {
  import opened Outcomes

  datatype Status =
    QUEUED | RUNNING | COMPLETED | FAILED | CANCELED | SYSTEM_FAILURE | TIMED_OUT | INTERRUPTED

  predicate IsTerminal(status: Status) {
    status != QUEUED && status != RUNNING
  }

  /** The fields that an update writes; JSON columns are kept as text. */
  datatype Run = Run(
    status: Status,
    output: Option<string>,
    error: Option<string>,
    metadata: string,
    attempt: nat,
    startedAt: Option<int>,
    finishedAt: Option<int>)

  const FRESH: Run := Run(QUEUED, None, None, "{}", 0, None, None)

  /** Equal in everything but the metadata, which a body may go on setting. */
  predicate SameOutcome(a: Run, b: Run) {
    a.(metadata := b.metadata) == b
  }

  datatype Outcome = Returned(output: Option<string>) | Threw(error: string)

  /** `UpdateRun` and `SetMetadata` refer to the object of an attempt; a cancel owns its copy. */
  datatype Write = UpdateRun(attempt: nat) | SetMetadata(attempt: nat) | UpdateCopy(copy: Run)

  datatype Change = Replace(row: Run) | Metadata(metadata: string)

  datatype Flight = Idle | InFlight(change: Change, applied: bool)

  /** Where the job stands; `made` is the number of attempts that came before. */
  datatype Phase =
    | Creating
    | Inserted
    | Waiting(made: nat)
    | BeforeBody(made: nat)
    | InBody(made: nat)
    | Failing(made: nat)
    | Saving(made: nat, ticket: nat, success: bool)
    | Finished(ticket: nat, success: bool)
    | Removed
  {
    predicate Active() { BeforeBody? || InBody? || Failing? || Saving? }
  }

  datatype Cancel =
    | NoCancel
    | ReadRow(row: Option<Run>)
    | Canceling(ticket: nat)
    | Removing(written: Option<nat>)

  /**
   * `objects` holds one run object per attempt and `outcomes` how the bodies ended. `writes` lists
   * every write ever queued; the first `next` have settled, as `acks` records. `late` holds the
   * changes of settled writes that have not taken effect but still may.
   */
  datatype State = State(
    attempts: nat,
    row: Option<Run>,
    phase: Phase,
    cancel: Cancel,
    objects: seq<Run>,
    outcomes: seq<Outcome>,
    writes: seq<Write>,
    next: nat,
    acks: seq<bool>,
    flight: Flight,
    late: multiset<Change>)

  datatype Step =
    | InsertRow(effect: bool)
    | AddJob
    | StartAttempt
    | EnterBody(at: int)
    | Succeed(output: Option<string>, at: int)
    | Fail(error: string, at: int)
    | SaveFailure
    | EndAttempt
    | ChangeMetadata(attempt: nat, metadata: string)
    | StartWrite
    | CommitWrite
    | SettleWrite(ok: bool)
    | LateWrite(change: Change)
    | CancelRead
    | CancelSkip
    | CancelDecide(at: int)
    | CancelWritten
    | CancelRemove(removed: bool)
  {
    predicate OfCancel() {
      CancelRead? || CancelSkip? || CancelDecide? || CancelWritten? || CancelRemove?
    }

    predicate OfWrites() { StartWrite? || CommitWrite? || SettleWrite? || LateWrite? }

    /** A late write that puts a status which is not terminal into the row. */
    predicate Undoes() { LateWrite? && change.Replace? && !IsTerminal(change.row.status) }
  }

  predicate Init(s: State) {
    && s.attempts >= 1 && s.row == None && s.phase == Creating && s.cancel == NoCancel
    && s.objects == [] && s.outcomes == [] && s.writes == [] && s.next == 0 && s.acks == [] && s.flight == Idle && s.late == multiset{}
  }

  predicate Enabled(s: State, step: Step) {
    match step
    case InsertRow(_) => s.phase.Creating?
    case AddJob => s.phase.Inserted?
    case StartAttempt => s.phase.Waiting?
    case EnterBody(_) => s.phase.BeforeBody? && s.phase.made < |s.objects|
    case Succeed(_, _) => s.phase.InBody? && s.phase.made < |s.objects|
    case Fail(_, _) => (s.phase.BeforeBody? || s.phase.InBody?) && s.phase.made < |s.objects|
    case SaveFailure => s.phase.Failing?
    case EndAttempt => s.phase.Saving? && s.phase.ticket < s.next
    case ChangeMetadata(i, _) => i < |s.objects|
    case StartWrite =>
      s.flight.Idle? && s.next < |s.writes| && (!s.writes[s.next].UpdateCopy? ==> s.writes[s.next].attempt < |s.objects|)
    case CommitWrite => s.flight.InFlight? && !s.flight.applied
    case SettleWrite(ok) => s.flight.InFlight? && (ok ==> s.flight.applied)
    case LateWrite(change) => change in s.late
    case CancelRead => s.cancel.NoCancel?
    case CancelSkip => s.cancel.NoCancel?
    case CancelDecide(_) => s.cancel.ReadRow?
    case CancelWritten => s.cancel.Canceling? && s.cancel.ticket < s.next
    case CancelRemove(removed) => s.cancel.Removing? && (removed ==> s.phase.Waiting? || s.phase.Finished?)
  }

  function WithObject(s: State, i: nat, run: Run): State
    requires i < |s.objects|
  {
    s.(objects := s.objects[i := run])
  }

  function Enqueue(s: State, w: Write): State {
    s.(writes := s.writes + [w])
  }

  /** What a starting write will do: it reads its run object at this moment. */
  function Snapshot(s: State, w: Write): Change
    requires !w.UpdateCopy? ==> w.attempt < |s.objects|
  {
    match w
    case UpdateRun(i) => Replace(s.objects[i])
    case SetMetadata(i) => Metadata(s.objects[i].metadata)
    case UpdateCopy(copy) => Replace(copy)
  }

  /** An update of a row that does not exist changes nothing; otherwise it is unconditional. */
  function Applied(row: Option<Run>, change: Change): Option<Run> {
    if row.None? then None
    else match change
      case Replace(r) => Some(r)
      case Metadata(m) => Some(row.value.(metadata := m))
  }

  function Failed(s: State, i: nat, error: string, at: int): Run
    requires i < |s.objects|
  {
    var run := s.objects[i].(error := Some(error));
    if i + 1 >= s.attempts then run.(status := FAILED, finishedAt := Some(at)) else run
  }

  function Apply(s: State, step: Step): State
    requires Enabled(s, step)
  {
    match step
    case InsertRow(effect) => s.(phase := Inserted, row := if effect then Some(FRESH) else None)
    case AddJob => s.(phase := Waiting(0))
    case StartAttempt =>
      s.(phase := BeforeBody(s.phase.made), objects := s.objects + [FRESH.(attempt := s.phase.made + 1)])
    case EnterBody(at) =>
      var i := s.phase.made;
      Enqueue(WithObject(s, i, s.objects[i].(status := RUNNING, startedAt := Some(at))), UpdateRun(i)).(phase := InBody(i))
    case Succeed(output, at) =>
      var i := s.phase.made;
      Enqueue(WithObject(s, i, s.objects[i].(output := output, status := COMPLETED, finishedAt := Some(at))), UpdateRun(i))
        .(phase := Saving(i, |s.writes|, true), outcomes := s.outcomes + [Returned(output)])
    case Fail(error, at) =>
      var i := s.phase.made;
      WithObject(s, i, Failed(s, i, error, at)).(phase := Failing(i), outcomes := s.outcomes + [Threw(error)])
    case SaveFailure => Enqueue(s, UpdateRun(s.phase.made)).(phase := Saving(s.phase.made, |s.writes|, false))
    case EndAttempt =>
      if !s.phase.success && s.phase.made + 1 < s.attempts then s.(phase := Waiting(s.phase.made + 1))
      else s.(phase := Finished(s.phase.ticket, s.phase.success))
    case ChangeMetadata(i, m) => Enqueue(WithObject(s, i, s.objects[i].(metadata := m)), SetMetadata(i))
    case StartWrite => s.(flight := InFlight(Snapshot(s, s.writes[s.next]), false))
    case CommitWrite => s.(row := Applied(s.row, s.flight.change), flight := s.flight.(applied := true))
    case SettleWrite(ok) =>
      s.(flight := Idle, next := s.next + 1, acks := s.acks + [ok],
         late := if s.flight.applied then s.late else s.late + multiset{s.flight.change})
    case LateWrite(change) => s.(row := Applied(s.row, change), late := s.late - multiset{change})
    case CancelRead => s.(cancel := ReadRow(s.row))
    case CancelSkip => s.(cancel := Removing(None))
    case CancelDecide(at) =>
      if s.cancel.row.Some? && !IsTerminal(s.cancel.row.value.status) then
        Enqueue(s, UpdateCopy(s.cancel.row.value.(status := CANCELED, finishedAt := Some(at))))
          .(cancel := Canceling(|s.writes|))
      else s.(cancel := Removing(None))
    case CancelWritten => s.(cancel := Removing(Some(s.cancel.ticket)))
    case CancelRemove(removed) => s.(cancel := NoCancel, phase := if removed then Removed else s.phase)
  }

  predicate Legal(s: State, steps: seq<Step>)
    decreases |steps|
  {
    steps == [] || (Enabled(s, steps[0]) && Legal(Apply(s, steps[0]), steps[1..]))
  }

  function After(s: State, steps: seq<Step>): State
    requires Legal(s, steps)
    decreases |steps|
  {
    if steps == [] then s else After(Apply(s, steps[0]), steps[1..])
  }

  // ---------------------------------------------------------------- what every step keeps

  /** The number of attempts begun, as far as the phase tells. */
  predicate ObjectsFit(s: State) {
    match s.phase
    case Creating => s.objects == [] && s.writes == []
    case Inserted => s.objects == []
    case Waiting(m) => |s.objects| == m
    case BeforeBody(m) => |s.objects| == m + 1
    case InBody(m) => |s.objects| == m + 1
    case Failing(m) => |s.objects| == m + 1
    case Saving(m, t, _) => |s.objects| == m + 1 && t < |s.writes| && s.writes[t] == UpdateRun(m)
    case Finished(t, _) => t < s.next
    case Removed => true
  }

  /** A write that has not settled: a status write belongs to the running attempt or to the cancel. */
  predicate PendingFits(s: State, k: nat)
    requires s.next <= k < |s.writes|
  {
    match s.writes[k]
    case UpdateRun(i) => (s.phase.InBody? || s.phase.Failing? || (s.phase.Saving? && k <= s.phase.ticket)) && i == s.phase.made
    case SetMetadata(i) => i < |s.objects|
    case UpdateCopy(copy) => s.cancel == Canceling(k) && copy.status == CANCELED
  }

  ghost predicate Inv(s: State) {
    && s.attempts >= 1 && |s.acks| == s.next <= |s.writes|
    && ObjectsFit(s)
    && (forall k: nat | s.next <= k < |s.writes| :: PendingFits(s, k))
    && (s.flight.InFlight? ==> s.next < |s.writes| && (s.flight.change.Metadata? <==> s.writes[s.next].SetMetadata?))
    && (s.cancel.Canceling? ==> s.cancel.ticket < |s.writes| && s.writes[s.cancel.ticket].UpdateCopy?)
    && (s.cancel.Removing? && s.cancel.written.Some? ==> s.cancel.written.value < s.next)
    && (s.phase.Creating? ==> s.row.None? && (s.cancel.ReadRow? ==> s.cancel.row.None?))
  }

  lemma WriteStepKeepsInv(s: State, step: Step)
    requires Inv(s) && Enabled(s, step) && step.OfWrites()
    ensures Inv(Apply(s, step))
  {
    forall k: nat | Apply(s, step).next <= k < |s.writes| ensures PendingFits(Apply(s, step), k) {
      assert PendingFits(s, k);
    }
  }

  lemma CancelStepKeepsInv(s: State, step: Step)
    requires Inv(s) && Enabled(s, step) && step.OfCancel()
    ensures Inv(Apply(s, step))
  {
    var s' := Apply(s, step);
    forall k: nat | s'.next <= k < |s'.writes| ensures PendingFits(s', k) {
      assert k < |s.writes| ==> PendingFits(s, k);
    }
  }

  lemma JobStepKeepsPending(s: State, step: Step, k: nat)
    requires Inv(s) && Enabled(s, step) && !step.OfWrites() && !step.OfCancel()
    requires s.next <= k < |Apply(s, step).writes|
    ensures PendingFits(Apply(s, step), k)
  {
    assert k < |s.writes| ==> PendingFits(s, k);
  }

  lemma JobStepKeepsInv(s: State, step: Step)
    requires Inv(s) && Enabled(s, step) && !step.OfWrites() && !step.OfCancel()
    ensures Inv(Apply(s, step))
  {
    forall k: nat | s.next <= k < |Apply(s, step).writes| ensures PendingFits(Apply(s, step), k) {
      JobStepKeepsPending(s, step, k);
    }
  }

  lemma StepKeepsInv(s: State, step: Step)
    requires Inv(s) && Enabled(s, step)
    ensures Inv(Apply(s, step))
  {
    if step.OfWrites() {
      WriteStepKeepsInv(s, step);
    } else if step.OfCancel() {
      CancelStepKeepsInv(s, step);
    } else {
      JobStepKeepsInv(s, step);
    }
  }

  lemma {:induction false} RunKeepsInv(s: State, steps: seq<Step>)
    requires Inv(s) && Legal(s, steps)
    ensures Inv(After(s, steps))
    decreases |steps|
  {
    if steps != [] {
      StepKeepsInv(s, steps[0]);
      RunKeepsInv(Apply(s, steps[0]), steps[1..]);
    }
  }

  // ---------------------------------------------------------------- creation before use

  /**
   * The row is inserted before the job exists, so every write, of the worker or of a cancel, finds
   * its row exactly when that insert took effect.
   */
  lemma {:induction false} WritesFindTheirRow(s: State, effect: bool, steps: seq<Step>)
    requires Init(s) && Legal(s, [InsertRow(effect)] + steps)
    ensures After(s, [InsertRow(effect)] + steps).row.Some? <==> effect
  {
    assert ([InsertRow(effect)] + steps)[1..] == steps;
    RowStays(Apply(s, InsertRow(effect)), steps);
  }

  lemma {:induction false} RowStays(s: State, steps: seq<Step>)
    requires Inv(s) && !s.phase.Creating? && Legal(s, steps)
    ensures After(s, steps).row.Some? <==> s.row.Some?
    decreases |steps|
  {
    if steps != [] {
      StepKeepsInv(s, steps[0]);
      RowStays(Apply(s, steps[0]), steps[1..]);
    }
  }

  /** ... and no write is even queued before that insert has settled, nor a body started before the job exists. */
  lemma NothingBeforeTheInsert(s: State, steps: seq<Step>)
    requires Init(s) && Legal(s, steps)
    ensures After(s, steps).phase.Creating? ==> After(s, steps).writes == []
    ensures After(s, steps).phase.Creating? || After(s, steps).phase.Inserted? ==> After(s, steps).objects == []
  {
    RunKeepsInv(s, steps);
  }

  // ---------------------------------------------------------------- terminal answers are final

  predicate Decided(s: State) {
    s.outcomes != [] && (Last(s).Returned? || |s.outcomes| == s.attempts)
  }

  function Last(s: State): Outcome
    requires s.outcomes != []
  {
    s.outcomes[|s.outcomes| - 1]
  }

  /** How many bodies have ended, as far as the phase tells. */
  predicate OutcomesFit(s: State) {
    match s.phase
    case Creating => s.outcomes == []
    case Inserted => s.outcomes == []
    case Waiting(m) => |s.outcomes| == m < s.attempts && !Decided(s)
    case BeforeBody(m) => |s.outcomes| == m < s.attempts && !Decided(s)
    case InBody(m) => |s.outcomes| == m < s.attempts && !Decided(s)
    case Failing(m) => |s.outcomes| == m + 1 <= s.attempts && Last(s).Threw?
    case Saving(m, _, ok) => |s.outcomes| == m + 1 <= s.attempts && (Last(s).Returned? <==> ok)
    case Finished(_, ok) => Decided(s) && (Last(s).Returned? <==> ok) && |s.objects| == |s.outcomes| <= s.attempts
    case Removed => false
  }

  /** Only the last body can have succeeded. */
  predicate FailuresFirst(s: State) {
    forall i | 0 <= i < |s.outcomes| - 1 :: s.outcomes[i].Threw?
  }

  /** The object of the deciding attempt carries the outcome; every other one is not terminal. */
  predicate ObjectFits(s: State, i: nat)
    requires i < |s.objects|
  {
    var run := s.objects[i];
    && run.attempt == i + 1
    && if Decided(s) && i == |s.outcomes| - 1 then
         match Last(s)
         case Returned(output) => run.status == COMPLETED && run.output == output && run.error == None
         case Threw(error) => run.status == FAILED && run.output == None && run.error == Some(error)
       else !IsTerminal(run.status) && run.output == None && (i >= |s.outcomes| ==> run.error == None)
  }

  /** A row that shows a terminal status, or is about to, shows the deciding attempt. */
  predicate ShowsDecision(s: State, run: Run) {
    IsTerminal(run.status) ==> Decided(s) && |s.outcomes| <= |s.objects| && SameOutcome(run, s.objects[|s.outcomes| - 1])
  }

  /** Once a terminal status has been written, in time or late, every status write that starts carries one. */
  ghost predicate TerminalIsOut(s: State) {
    || (s.row.Some? && IsTerminal(s.row.value.status))
    || exists c | c in s.late :: c.Replace? && IsTerminal(c.row.status)
  }

  ghost predicate FlightFits(s: State) {
    s.flight.InFlight? && s.flight.change.Replace? ==>
      && s.next < |s.writes| && s.writes[s.next].UpdateRun? && ShowsDecision(s, s.flight.change.row)
      && (TerminalIsOut(s) ==> IsTerminal(s.flight.change.row.status))
  }

  ghost predicate RowFits(s: State) {
    && (s.row.Some? ==> ShowsDecision(s, s.row.value))
    && (forall c | c in s.late && c.Replace? :: ShowsDecision(s, c.row))
  }

  ghost predicate Settling(s: State) {
    && Inv(s) && s.cancel.NoCancel?
    && OutcomesFit(s) && |s.outcomes| <= |s.objects| && FailuresFirst(s)
    && (forall i: nat | i < |s.objects| :: ObjectFits(s, i))
    && RowFits(s) && FlightFits(s)
  }

  lemma WriteStepKeepsOutcomes(s: State, step: Step)
    requires Settling(s) && Enabled(s, step) && step.OfWrites()
    ensures var s' := Apply(s, step); OutcomesFit(s') && |s'.outcomes| <= |s'.objects| && FailuresFirst(s')
    ensures forall i: nat | i < |Apply(s, step).objects| :: ObjectFits(Apply(s, step), i)
  {
    forall i: nat | i < |s.objects| ensures ObjectFits(Apply(s, step), i) {
      assert ObjectFits(s, i);
    }
  }

  lemma JobStepKeepsOutcomes(s: State, step: Step)
    requires Settling(s) && Enabled(s, step) && !step.OfCancel() && !step.OfWrites()
    ensures var s' := Apply(s, step); OutcomesFit(s') && |s'.outcomes| <= |s'.objects| && FailuresFirst(s')
  {}

  lemma JobStepKeepsObject(s: State, step: Step, i: nat)
    requires Settling(s) && Enabled(s, step) && !step.OfCancel() && !step.OfWrites() && i < |Apply(s, step).objects|
    ensures ObjectFits(Apply(s, step), i)
  {
    assert i < |s.objects| ==> ObjectFits(s, i);
    if !step.EndAttempt? && !step.SaveFailure? {
      JobStepKeepsOutcomes(s, step);
    }
  }

  /** The object of the deciding attempt no longer changes, apart from its metadata. */
  lemma DecisionStays(s: State, step: Step)
    requires Settling(s) && Enabled(s, step) && !step.OfCancel() && Decided(s)
    ensures var s' := Apply(s, step);
      s'.outcomes == s.outcomes && |s'.objects| >= |s.outcomes|
      && SameOutcome(s'.objects[|s.outcomes| - 1], s.objects[|s.outcomes| - 1])
  {}

  lemma DecisionKeepsShown(s: State, step: Step, run: Run)
    requires Settling(s) && Enabled(s, step) && !step.OfCancel() && ShowsDecision(s, run)
    ensures ShowsDecision(Apply(s, step), run)
  {
    if Decided(s) {
      DecisionStays(s, step);
    }
  }

  lemma StartedWriteFits(s: State)
    requires Settling(s) && Enabled(s, StartWrite)
    ensures FlightFits(Apply(s, StartWrite))
  {
    assert PendingFits(s, s.next);
    if s.writes[s.next].UpdateRun? {
      assert ObjectFits(s, s.writes[s.next].attempt);
    }
  }

  lemma CommitKeepsRow(s: State)
    requires Settling(s) && Enabled(s, CommitWrite)
    ensures RowFits(Apply(s, CommitWrite)) && FlightFits(Apply(s, CommitWrite))
  {}

  lemma SettleKeepsRow(s: State, ok: bool)
    requires Settling(s) && Enabled(s, SettleWrite(ok))
    ensures RowFits(Apply(s, SettleWrite(ok))) && FlightFits(Apply(s, SettleWrite(ok)))
  {}

  lemma LateWriteKeepsRow(s: State, change: Change)
    requires Settling(s) && Enabled(s, LateWrite(change))
    ensures RowFits(Apply(s, LateWrite(change))) && FlightFits(Apply(s, LateWrite(change)))
  {
    assert TerminalIsOut(Apply(s, LateWrite(change))) ==> TerminalIsOut(s);
  }

  lemma WriteStepKeepsRow(s: State, step: Step)
    requires Settling(s) && Enabled(s, step) && step.OfWrites()
    ensures RowFits(Apply(s, step)) && FlightFits(Apply(s, step))
  {
    match step {
      case StartWrite => StartedWriteFits(s);
      case CommitWrite => CommitKeepsRow(s);
      case SettleWrite(ok) => SettleKeepsRow(s, ok);
      case LateWrite(change) => LateWriteKeepsRow(s, change);
    }
  }

  lemma JobStepKeepsRow(s: State, step: Step)
    requires Settling(s) && Enabled(s, step) && !step.OfCancel() && !step.OfWrites()
    ensures RowFits(Apply(s, step)) && FlightFits(Apply(s, step))
  {
    var s' := Apply(s, step);
    if s.row.Some? {
      DecisionKeepsShown(s, step, s.row.value);
    }
    forall c | c in s.late && c.Replace? ensures ShowsDecision(s', c.row) {
      DecisionKeepsShown(s, step, c.row);
    }
    if s.flight.InFlight? && s.flight.change.Replace? {
      DecisionKeepsShown(s, step, s.flight.change.row);
    }
  }

  /** The outcome in a terminal row changes only by a late write that undoes it. */
  lemma StepKeepsOutcome(s: State, step: Step)
    requires Settling(s) && Enabled(s, step) && !step.OfCancel() && !step.Undoes()
    requires s.row.Some? && IsTerminal(s.row.value.status)
    ensures var row := Apply(s, step).row; row.Some? && SameOutcome(row.value, s.row.value)
  {}

  lemma StepKeepsSettling(s: State, step: Step)
    requires Settling(s) && Enabled(s, step) && !step.OfCancel()
    ensures Settling(Apply(s, step))
  {
    StepKeepsInv(s, step);
    if step.OfWrites() {
      WriteStepKeepsOutcomes(s, step);
      WriteStepKeepsRow(s, step);
    } else {
      JobStepKeepsOutcomes(s, step);
      forall i: nat | i < |Apply(s, step).objects| ensures ObjectFits(Apply(s, step), i) {
        JobStepKeepsObject(s, step, i);
      }
      JobStepKeepsRow(s, step);
    }
  }

  predicate WithoutCancel(steps: seq<Step>) {
    forall step | step in steps :: !step.OfCancel()
  }

  predicate WithoutUndo(steps: seq<Step>) {
    forall step | step in steps :: !step.Undoes()
  }

  lemma {:induction false} RunKeepsSettling(s: State, steps: seq<Step>)
    requires Settling(s) && Legal(s, steps) && WithoutCancel(steps)
    ensures Settling(After(s, steps))
    decreases |steps|
  {
    if steps != [] {
      StepKeepsSettling(s, steps[0]);
      RunKeepsSettling(Apply(s, steps[0]), steps[1..]);
    }
  }

  lemma {:induction false} RunKeepsOutcome(s: State, steps: seq<Step>)
    requires Settling(s) && Legal(s, steps) && WithoutCancel(steps) && WithoutUndo(steps)
    requires s.row.Some? && IsTerminal(s.row.value.status)
    ensures var row := After(s, steps).row; row.Some? && SameOutcome(row.value, s.row.value)
    decreases |steps|
  {
    if steps != [] {
      StepKeepsOutcome(s, steps[0]);
      StepKeepsSettling(s, steps[0]);
      RunKeepsOutcome(Apply(s, steps[0]), steps[1..]);
    }
  }

  /**
   * A poller's terminal answer is final: without a cancel, a terminal row never changes again, in
   * whatever order and with whatever failures the writes settle, unless a write undoes it after it
   * has settled.
   */
  lemma TerminalIsFinal(s: State, steps: seq<Step>, later: seq<Step>)
    requires Init(s) && Legal(s, steps) && Legal(After(s, steps), later)
    requires WithoutCancel(steps) && WithoutCancel(later) && WithoutUndo(later)
    requires After(s, steps).row.Some? && IsTerminal(After(s, steps).row.value.status)
    ensures var row := After(After(s, steps), later).row;
      row.Some? && SameOutcome(row.value, After(s, steps).row.value)
  {
    RunKeepsSettling(s, steps);
    RunKeepsOutcome(After(s, steps), later);
  }

  /** No settled write is still able to undo a terminal row. */
  predicate NothingUndoes(s: State) {
    forall c | c in s.late && c.Replace? :: IsTerminal(c.row.status)
  }

  ghost predicate Repeats(s: State, later: seq<Step>) {
    Legal(s, later) && WithoutCancel(later) ==>
      var row := After(s, later).row;
      s.row.Some? && row.Some? && SameOutcome(row.value, s.row.value)
  }

  lemma {:induction false} NothingUndoesLater(s: State, later: seq<Step>)
    requires Settling(s) && NothingUndoes(s) && s.row.Some? && IsTerminal(s.row.value.status)
    requires Legal(s, later) && WithoutCancel(later)
    ensures WithoutUndo(later)
    decreases |later|
  {
    if later != [] {
      StepKeepsSettling(s, later[0]);
      StepKeepsOutcome(s, later[0]);
      NothingUndoesLater(Apply(s, later[0]), later[1..]);
    }
  }

  lemma Prepend(s: State, step: Step, rest: seq<Step>)
    requires Enabled(s, step) && Legal(Apply(s, step), rest)
    ensures Legal(s, [step] + rest) && After(s, [step] + rest) == After(Apply(s, step), rest)
  {
    assert ([step] + rest)[1..] == rest;
  }

  lemma LateWriteBreaks(s: State, c: Change)
    requires c in s.late && c.Replace? && s.row.Some? && c.row.status != s.row.value.status
    ensures Legal(s, [LateWrite(c)]) && After(s, [LateWrite(c)]).row == Some(c.row)
    ensures !Repeats(s, [LateWrite(c)])
  {
    Prepend(s, LateWrite(c), []);
    assert [LateWrite(c)] + [] == [LateWrite(c)];
  }

  /** The exact condition: a terminal row is final on every later run exactly when no such write is outstanding. */
  lemma FinalExactlyWhenNothingUndoes(s: State, steps: seq<Step>)
    requires Init(s) && Legal(s, steps) && WithoutCancel(steps)
    requires After(s, steps).row.Some? && IsTerminal(After(s, steps).row.value.status)
    ensures (forall later :: Repeats(After(s, steps), later)) <==> NothingUndoes(After(s, steps))
  {
    var s' := After(s, steps);
    RunKeepsSettling(s, steps);
    if NothingUndoes(s') {
      forall later ensures Repeats(s', later) {
        if Legal(s', later) && WithoutCancel(later) {
          NothingUndoesLater(s', later);
          RunKeepsOutcome(s', later);
        }
      }
    } else {
      var c :| c in s'.late && c.Replace? && !IsTerminal(c.row.status);
      LateWriteBreaks(s', c);
    }
  }

  /**
   * What a terminal row means, without a cancel: COMPLETED comes with the value that the last body
   * returned, after failures only; FAILED comes with the error of the last allowed attempt, after
   * every attempt has failed. No other terminal status ever appears.
   */
  lemma TerminalMeansDecided(s: State, steps: seq<Step>)
    requires Init(s) && Legal(s, steps) && WithoutCancel(steps)
    requires After(s, steps).row.Some? && IsTerminal(After(s, steps).row.value.status)
    ensures var s' := After(s, steps);
      && s'.outcomes != [] && s'.row.value.attempt == |s'.outcomes|
      && (forall i | 0 <= i < |s'.outcomes| - 1 :: s'.outcomes[i].Threw?)
      && match s'.row.value.status
         case COMPLETED => Last(s') == Returned(s'.row.value.output)
         case FAILED => |s'.outcomes| == s'.attempts && Last(s').Threw? && s'.row.value.error == Some(Last(s').error)
         case _ => false
  {
    RunKeepsSettling(s, steps);
    var s' := After(s, steps);
    assert ObjectFits(s', |s'.outcomes| - 1);
  }

  /** The deciding write, once it is known to have taken effect, has put the decision into the row. */
  predicate DecisionWritten(s: State) {
    var t := if s.phase.Saving? || s.phase.Finished? then Some(s.phase.ticket) else None;
    t.Some? && Decided(s) && s.row.Some? ==>
      && (t.value == s.next && s.flight.InFlight? ==>
            && s.flight.change.Replace? && IsTerminal(s.flight.change.row.status)
            && (s.flight.applied ==> IsTerminal(s.row.value.status)))
      && (t.value < s.next <= |s.acks| && s.acks[t.value] ==> IsTerminal(s.row.value.status))
  }

  lemma StepKeepsDecisionWritten(s: State, step: Step)
    requires Settling(s) && DecisionWritten(s) && Enabled(s, step) && !step.OfCancel() && !step.Undoes()
    ensures DecisionWritten(Apply(s, step))
  {
    StepKeepsInv(s, step);
    if s.row.Some? && IsTerminal(s.row.value.status) {
      StepKeepsOutcome(s, step);
    }
    if step.StartWrite? {
      assert PendingFits(s, s.next);
      assert s.writes[s.next].UpdateRun? ==> ObjectFits(s, s.writes[s.next].attempt);
    }
  }

  lemma {:induction false} RunKeepsDecisionWritten(s: State, steps: seq<Step>)
    requires Settling(s) && DecisionWritten(s) && Legal(s, steps) && WithoutCancel(steps) && WithoutUndo(steps)
    ensures DecisionWritten(After(s, steps))
    decreases |steps|
  {
    if steps != [] {
      StepKeepsDecisionWritten(s, steps[0]);
      StepKeepsSettling(s, steps[0]);
      RunKeepsDecisionWritten(Apply(s, steps[0]), steps[1..]);
    }
  }

  /** Conversely, once the job has ended and its last write was acknowledged, the row says so. */
  lemma EndedRunIsTerminal(s: State, steps: seq<Step>)
    requires Init(s) && Legal(s, steps) && WithoutCancel(steps) && WithoutUndo(steps)
    requires var s' := After(s, steps);
      s'.phase.Finished? && s'.phase.ticket < |s'.acks| && s'.acks[s'.phase.ticket] && s'.row.Some?
    ensures var s' := After(s, steps);
      s'.row.value.status == (if s'.phase.success then COMPLETED else FAILED)
  {
    RunKeepsSettling(s, steps);
    RunKeepsDecisionWritten(s, steps);
    var s' := After(s, steps);
    assert ObjectFits(s', |s'.outcomes| - 1);
  }

  /** One poll: what it read (nothing, if the read failed), and the clock after it. */
  datatype Poll = Poll(row: Option<Run>, at: int)

  predicate Answers(poll: Poll) {
    poll.row.Some? && IsTerminal(poll.row.value.status)
  }

  datatype Waited = Resolved(run: Run) | TimedOut | StillPolling

  /**
   * A waiting caller gets the first terminal row it reads, even after its deadline, and times out at the
   * first poll after the deadline that reads none. `last` is the deciding poll, or the number of polls.
   */
  method WaitForRun(polls: seq<Poll>, started: int, timeoutMs: int) returns (r: Waited, last: nat)
    ensures r.StillPolling? <==> last == |polls|
    ensures last < |polls| ==>
      if Answers(polls[last]) then r == Resolved(polls[last].row.value)
      else r == TimedOut && polls[last].at - started > timeoutMs
    ensures last <= |polls| && forall i | 0 <= i < last :: !Answers(polls[i]) && polls[i].at - started <= timeoutMs
  {
    for i := 0 to |polls|
      invariant forall j | 0 <= j < i :: !Answers(polls[j]) && polls[j].at - started <= timeoutMs
    {
      var row := polls[i].row;
      if row.Some? && IsTerminal(row.value.status) {
        return Resolved(row.value), i;
      }
      if polls[i].at - started > timeoutMs {
        return TimedOut, i;
      }
    }
    return StillPolling, |polls|;
  }

  // ---------------------------------------------------------------- concrete runs

  lemma {:induction false} Extend(s: State, steps: seq<Step>, step: Step)
    requires Legal(s, steps) && Enabled(After(s, steps), step)
    ensures Legal(s, steps + [step]) && After(s, steps + [step]) == Apply(After(s, steps), step)
    ensures WithoutCancel(steps) && !step.OfCancel() ==> WithoutCancel(steps + [step])
    decreases |steps|
  {
    if steps != [] {
      Extend(Apply(s, steps[0]), steps[1..], step);
      assert (steps + [step])[1..] == steps[1..] + [step];
    } else {
      assert [] + [step] == [step] && [step][1..] == [];
    }
  }

  const NEW_RUN: State := State(1, None, Creating, NoCancel, [], [], [], 0, [], Idle, multiset{})

  /** One write goes through without a failure. */
  lemma Flush(s: State, steps: seq<Step>) returns (more: seq<Step>)
    requires Legal(s, steps) && After(s, steps).flight.Idle? && Enabled(After(s, steps), StartWrite)
    ensures Legal(s, more) && |more| == |steps| + 3 && more[..|steps|] == steps
    ensures WithoutCancel(steps) ==> WithoutCancel(more)
    ensures var s1 := After(s, steps);
      After(s, more) == s1.(row := Applied(s1.row, Snapshot(s1, s1.writes[s1.next])), next := s1.next + 1, acks := s1.acks + [true])
  {
    Extend(s, steps, StartWrite);
    Extend(s, steps + [StartWrite], CommitWrite);
    Extend(s, steps + [StartWrite] + [CommitWrite], SettleWrite(true));
    more := steps + [StartWrite] + [CommitWrite] + [SettleWrite(true)];
  }

  const RUNNING_ONCE: Run := Run(RUNNING, None, None, "{}", 1, Some(1), None)

  /** A status write goes through, and the row is what it carries. */
  lemma FlushRow(s: State, steps: seq<Step>, row: Run) returns (more: seq<Step>)
    requires Legal(s, steps) && After(s, steps).flight.Idle? && Enabled(After(s, steps), StartWrite)
    requires After(s, steps).row.Some? && Snapshot(After(s, steps), After(s, steps).writes[After(s, steps).next]) == Replace(row)
    ensures Legal(s, more) && |more| == |steps| + 3 && more[..|steps|] == steps
    ensures After(s, more).row == Some(row)
  {
    more := Flush(s, steps);
  }

  lemma JobAdded() returns (steps: seq<Step>)
    ensures Init(NEW_RUN) && Legal(NEW_RUN, steps) && WithoutCancel(steps)
    ensures After(NEW_RUN, steps) == State(1, Some(FRESH), Waiting(0), NoCancel, [], [], [], 0, [], Idle, multiset{})
  {
    Extend(NEW_RUN, [], InsertRow(true));
    Extend(NEW_RUN, [] + [InsertRow(true)], AddJob);
    steps := [] + [InsertRow(true)] + [AddJob];
  }

  /** The run's only body has begun and its RUNNING write is queued. */
  lemma BodyBegun() returns (steps: seq<Step>)
    ensures Init(NEW_RUN) && Legal(NEW_RUN, steps) && WithoutCancel(steps)
    ensures After(NEW_RUN, steps) ==
      State(1, Some(FRESH), InBody(0), NoCancel, [RUNNING_ONCE], [], [UpdateRun(0)], 0, [], Idle, multiset{})
  {
    var added := JobAdded();
    Extend(NEW_RUN, added, StartAttempt);
    Extend(NEW_RUN, added + [StartAttempt], EnterBody(1));
    steps := added + [StartAttempt] + [EnterBody(1)];
  }

  /** ... and has been put into the row. */
  lemma RunningRun() returns (steps: seq<Step>)
    ensures Init(NEW_RUN) && Legal(NEW_RUN, steps)
    ensures After(NEW_RUN, steps) ==
      State(1, Some(RUNNING_ONCE), InBody(0), NoCancel, [RUNNING_ONCE], [], [UpdateRun(0)], 1, [true], Idle, multiset{})
  {
    var begun := BodyBegun();
    steps := Flush(NEW_RUN, begun);
  }

  /** ... or has settled with an error and is still under way. */
  lemma RunningWriteIsLate() returns (steps: seq<Step>)
    ensures Init(NEW_RUN) && Legal(NEW_RUN, steps) && WithoutCancel(steps)
    ensures After(NEW_RUN, steps) ==
      State(1, Some(FRESH), InBody(0), NoCancel, [RUNNING_ONCE], [], [UpdateRun(0)], 1, [false], Idle,
            multiset{Replace(RUNNING_ONCE)})
  {
    var begun := BodyBegun();
    Extend(NEW_RUN, begun, StartWrite);
    Extend(NEW_RUN, begun + [StartWrite], SettleWrite(false));
    steps := begun + [StartWrite] + [SettleWrite(false)];
  }

  lemma CompletedWhileLate() returns (steps: seq<Step>)
    ensures Init(NEW_RUN) && Legal(NEW_RUN, steps) && WithoutCancel(steps)
    ensures var s := After(NEW_RUN, steps);
      && s.row.Some? && s.row.value.status == COMPLETED && s.phase.Finished?
      && s.late == multiset{Replace(RUNNING_ONCE)}
  {
    var missed := RunningWriteIsLate();
    Extend(NEW_RUN, missed, Succeed(None, 2));
    var saved := Flush(NEW_RUN, missed + [Succeed(None, 2)]);
    Extend(NEW_RUN, saved, EndAttempt);
    steps := saved + [EndAttempt];
  }

  /** Such a late write does turn a COMPLETED row back to RUNNING, after the job has ended. */
  lemma LateRunningUndoesTerminal() returns (steps: seq<Step>, late: Step)
    ensures Init(NEW_RUN) && Legal(NEW_RUN, steps) && WithoutCancel(steps) && Enabled(After(NEW_RUN, steps), late)
    ensures var s := After(NEW_RUN, steps);
      && s.phase.Finished? && s.row.Some? && s.row.value.status == COMPLETED
      && Apply(s, late).row.Some? && Apply(s, late).row.value.status == RUNNING
  {
    steps := CompletedWhileLate();
    late := LateWrite(Replace(RUNNING_ONCE));
  }
}

/**
 * Cancelling a run: when a CANCELED row is final, and how cancels get lost or overwritten.
 *
 * An update of the row is unconditional, so what a cancel has written lasts only if nothing writes
 * a status after it.
 */
module RunCancels {
  import opened Outcomes
  import opened RunRows

  predicate IsCanceled(row: Option<Run>) {
    row.Some? && row.value.status == CANCELED
  }

  // ---------------------------------------------------------------- when a canceled row is final

  /** No attempt writes CANCELED: neither an object nor a write of an attempt that is under way carries it. */
  ghost predicate OnlyCancelsCancel(s: State) {
    && (forall i | 0 <= i < |s.objects| :: s.objects[i].status != CANCELED)
    && (s.flight.InFlight? && s.flight.change.Replace? && s.next < |s.writes| && s.writes[s.next].UpdateRun? ==>
          s.flight.change.row.status != CANCELED)
  }

  lemma StepKeepsOnlyCancels(s: State, step: Step)
    requires Inv(s) && OnlyCancelsCancel(s) && Enabled(s, step)
    ensures OnlyCancelsCancel(Apply(s, step))
  {
    var s' := Apply(s, step);
    if step.OfWrites() || step.OfCancel() {
      assert s'.objects == s.objects;
    } else {
      assert s'.flight == s.flight && s'.next == s.next;
    }
  }

  lemma {:induction false} RunKeepsOnlyCancels(s: State, steps: seq<Step>)
    requires Inv(s) && OnlyCancelsCancel(s) && Legal(s, steps)
    ensures Inv(After(s, steps)) && OnlyCancelsCancel(After(s, steps))
    decreases |steps|
  {
    if steps != [] {
      StepKeepsInv(s, steps[0]);
      StepKeepsOnlyCancels(s, steps[0]);
      RunKeepsOnlyCancels(Apply(s, steps[0]), steps[1..]);
    }
  }

  /** The write that ends the current attempt has been made: it has settled, or taken effect. */
  predicate IsSaved(s: State) {
    s.phase.Saving? &&
    (s.phase.ticket < s.next || (s.phase.ticket == s.next && s.flight.InFlight? && s.flight.applied))
  }

  /** Nothing of the job is left that writes a status. */
  predicate IsOver(s: State) {
    || s.phase.Removed? || s.phase.Finished?
    || (IsSaved(s) && (s.phase.success || s.phase.made + 1 >= s.attempts))
  }

  /** No settled write is still able to put another status into the row. */
  predicate NothingReplaces(s: State) {
    forall c | c in s.late && c.Replace? :: c.row.status == CANCELED
  }

  /** A canceled row that nothing overwrites, further cancels included. */
  ghost predicate CanceledForGood(s: State) {
    && Inv(s) && IsCanceled(s.row) && IsOver(s) && NothingReplaces(s)
    && !s.cancel.Canceling?
    && (s.cancel.ReadRow? ==> s.cancel.row.Some? && IsTerminal(s.cancel.row.value.status))
  }

  /** What is left to be written is metadata, and a status that is in the row already. */
  lemma OnlyMetadataIsLeft(s: State, k: nat)
    requires Inv(s) && IsOver(s) && !s.cancel.Canceling? && s.next <= k < |s.writes|
    ensures s.writes[k].SetMetadata? || (IsSaved(s) && k == s.next && s.flight.InFlight? && s.flight.applied)
  {
    assert PendingFits(s, k);
  }

  lemma StepKeepsCanceled(s: State, step: Step)
    requires CanceledForGood(s) && Enabled(s, step)
    ensures CanceledForGood(Apply(s, step))
    ensures !step.StartAttempt? && !step.EnterBody?
  {
    StepKeepsInv(s, step);
    if s.next < |s.writes| {
      OnlyMetadataIsLeft(s, s.next);
    }
  }

  lemma {:induction false} CanceledStaysCanceled(s: State, steps: seq<Step>)
    requires CanceledForGood(s) && Legal(s, steps)
    ensures CanceledForGood(After(s, steps))
    ensures forall step | step in steps :: !step.StartAttempt? && !step.EnterBody?
    decreases |steps|
  {
    if steps != [] {
      StepKeepsCanceled(s, steps[0]);
      CanceledStaysCanceled(Apply(s, steps[0]), steps[1..]);
    }
  }

  /** The next of the steps that lead an unfinished job to the write of its next outcome. */
  function NextStep(s: State): Step {
    match s.phase
    case Inserted => AddJob
    case Waiting(_) => StartAttempt
    case BeforeBody(_) => EnterBody(0)
    case InBody(_) => Succeed(None, 0)
    case Failing(_) => SaveFailure
    case Saving(_, ticket, _) =>
      if ticket < s.next then EndAttempt
      else if s.flight.Idle? then StartWrite
      else if s.flight.applied then SettleWrite(true)
      else CommitWrite
    case _ => CancelSkip
  }

  predicate CanOverwrite(s: State) {
    s.row.Some? && s.cancel.NoCancel? && (IsCanceled(s.row) ==> !IsOver(s))
  }

  function AttemptsLeft(s: State): nat {
    match s.phase
    case Creating => s.attempts + 1
    case Inserted => s.attempts + 1
    case Finished(_, _) => 0
    case Removed => 0
    case _ => if s.phase.made < s.attempts then s.attempts - s.phase.made else 0
  }

  function PhaseRank(phase: Phase): nat {
    match phase
    case Waiting(_) => 5
    case BeforeBody(_) => 4
    case InBody(_) => 3
    case Failing(_) => 2
    case Saving(_, _, _) => 1
    case _ => 6
  }

  function WritesLeft(s: State): nat {
    if s.phase.Saving? && s.next <= s.phase.ticket then
      3 * (s.phase.ticket - s.next) + (if s.flight.Idle? then 3 else if s.flight.applied then 1 else 2)
    else 0
  }

  lemma NextStepIsEnabled(s: State)
    requires Inv(s) && IsCanceled(s.row) && CanOverwrite(s)
    ensures Enabled(s, NextStep(s)) && !NextStep(s).OfCancel()
  {
    if s.next < |s.writes| {
      assert PendingFits(s, s.next);
    }
  }

  lemma NextStepGetsOn(s: State)
    requires Inv(s) && OnlyCancelsCancel(s) && IsCanceled(s.row) && CanOverwrite(s) && Enabled(s, NextStep(s))
    ensures CanOverwrite(Apply(s, NextStep(s)))
  {
    if s.next < |s.writes| {
      assert PendingFits(s, s.next);
    }
  }

  /** While the job is not over, it can go on to overwrite the cancel. */
  lemma {:induction false} JobOverwrites(s: State) returns (later: seq<Step>)
    requires Inv(s) && OnlyCancelsCancel(s) && CanOverwrite(s)
    ensures Legal(s, later) && WithoutCancel(later) && !IsCanceled(After(s, later).row)
    decreases AttemptsLeft(s), PhaseRank(s.phase), WritesLeft(s)
  {
    if !IsCanceled(s.row) {
      later := [];
    } else {
      var step := NextStep(s);
      NextStepIsEnabled(s);
      NextStepGetsOn(s);
      StepKeepsInv(s, step);
      StepKeepsOnlyCancels(s, step);
      var rest := JobOverwrites(Apply(s, step));
      Prepend(s, step, rest);
      later := [step] + rest;
    }
  }

  ghost predicate StaysCanceled(s: State, later: seq<Step>) {
    Legal(s, later) ==> IsCanceled(After(s, later).row)
  }

  lemma CanceledIsFinalAt(s: State)
    requires Inv(s) && OnlyCancelsCancel(s) && s.cancel.NoCancel? && IsCanceled(s.row)
    ensures (forall later :: StaysCanceled(s, later)) <==> IsOver(s) && NothingReplaces(s)
  {
    if !IsOver(s) {
      var later := JobOverwrites(s);
      assert !StaysCanceled(s, later);
    } else if !NothingReplaces(s) {
      var c :| c in s.late && c.Replace? && c.row.status != CANCELED;
      LateWriteBreaks(s, c);
      assert !StaysCanceled(s, [LateWrite(c)]);
    } else {
      forall later ensures StaysCanceled(s, later) {
        if Legal(s, later) {
          CanceledStaysCanceled(s, later);
        }
      }
    }
  }

  /**
   * The exact condition: between cancels, a CANCELED row is final on every later run exactly when the
   * job is over and no settled write can still replace the row. Whether an attempt was active while
   * the cancel was under way does not matter.
   */
  lemma CanceledIsFinal(s: State, steps: seq<Step>)
    requires Init(s) && Legal(s, steps)
    requires After(s, steps).cancel.NoCancel? && IsCanceled(After(s, steps).row)
    ensures (forall later :: StaysCanceled(After(s, steps), later)) <==>
      IsOver(After(s, steps)) && NothingReplaces(After(s, steps))
  {
    RunKeepsOnlyCancels(s, steps);
    CanceledIsFinalAt(After(s, steps));
  }

  // ---------------------------------------------------------------- a cancel that meets no attempt

  /** How far the cancel has come, while no attempt is active: its write is on the way or in the row. */
  predicate CancelFits(s: State) {
    NothingReplaces(s) &&
    match s.cancel
    case Canceling(t) =>
      && (t == s.next && s.flight.InFlight? ==> s.flight.change.Replace? && s.flight.change.row.status == CANCELED)
      && (t == s.next && s.flight.InFlight? && s.flight.applied && s.row.Some? ==> s.row.value.status == CANCELED)
      && (t < s.next <= |s.acks| && s.acks[t] && s.row.Some? ==> s.row.value.status == CANCELED)
    case Removing(Some(t)) => t < |s.acks| && s.acks[t] && s.row.Some? ==> s.row.value.status == CANCELED
    case _ => true
  }

  /** No attempt is active in any state of this stretch. */
  predicate Quiet(s: State, steps: seq<Step>)
    requires Legal(s, steps)
    decreases |steps|
  {
    !s.phase.Active() && (steps == [] || Quiet(Apply(s, steps[0]), steps[1..]))
  }

  predicate OnlyCancelInFlight(s: State) {
    s.flight.InFlight? && s.flight.change.Replace? ==> s.flight.change.row.status == CANCELED
  }

  lemma QuietWriteFits(s: State, step: Step)
    requires Inv(s) && CancelFits(s) && OnlyCancelInFlight(s) && !s.phase.Active()
    requires Enabled(s, step) && step.OfWrites()
    ensures CancelFits(Apply(s, step)) && OnlyCancelInFlight(Apply(s, step))
  {
    if s.next < |s.writes| {
      assert PendingFits(s, s.next);
    }
  }

  lemma QuietStepFits(s: State, step: Step)
    requires Inv(s) && CancelFits(s) && OnlyCancelInFlight(s) && !s.phase.Active()
    requires Enabled(s, step) && !step.OfWrites()
    ensures CancelFits(Apply(s, step)) && OnlyCancelInFlight(Apply(s, step))
  {}

  lemma {:induction false} QuietCancel(s: State, steps: seq<Step>)
    requires Inv(s) && CancelFits(s) && OnlyCancelInFlight(s) && Legal(s, steps) && Quiet(s, steps)
    ensures CancelFits(After(s, steps)) && Inv(After(s, steps))
    decreases |steps|
  {
    if steps != [] {
      StepKeepsInv(s, steps[0]);
      if steps[0].OfWrites() {
        QuietWriteFits(s, steps[0]);
      } else {
        QuietStepFits(s, steps[0]);
      }
      QuietCancel(Apply(s, steps[0]), steps[1..]);
    }
  }

  ghost predicate StartsNothing(s: State, later: seq<Step>) {
    Legal(s, later) ==> forall step | step in later :: !step.StartAttempt? && !step.EnterBody?
  }

  /** The state in which a cancel has read the row, and the one in which it is about to remove the job. */
  ghost predicate IsQuietCancel(s: State, before: seq<Step>, window: seq<Step>) {
    && Legal(s, before) && Enabled(After(s, before), CancelRead)
    && var read := Apply(After(s, before), CancelRead);
      && NothingReplaces(read) && Legal(read, window) && Quiet(read, window)
      && var written := After(read, window);
        && written.cancel.Removing? && written.cancel.written.Some? && written.row.Some?
        && written.cancel.written.value < |written.acks| && written.acks[written.cancel.written.value]
  }

  /**
   * If no attempt is active from the cancel's row read on, no earlier status write is outstanding, and
   * the cancel's write succeeds, then the row is CANCELED when the cancel returns. It stays so, and the
   * body never runs again, exactly when the job has been removed or had finished.
   */
  lemma CancelSticks(s: State, before: seq<Step>, window: seq<Step>, removed: bool)
    requires Init(s) && IsQuietCancel(s, before, window)
    requires Enabled(After(Apply(After(s, before), CancelRead), window), CancelRemove(removed))
    ensures var s' := Apply(After(Apply(After(s, before), CancelRead), window), CancelRemove(removed));
      && IsCanceled(s'.row)
      && ((forall later :: StaysCanceled(s', later)) <==> s'.phase.Removed? || s'.phase.Finished?)
      && (s'.phase.Removed? || s'.phase.Finished? ==> forall later :: StartsNothing(s', later))
      && (removed ==> s'.phase.Removed?)
  {
    RunKeepsOnlyCancels(s, before);
    var read := Apply(After(s, before), CancelRead);
    ReadIsQuiet(After(s, before));
    QuietCancel(read, window);
    RunKeepsOnlyCancels(read, window);
    var written := After(read, window);
    var s' := Apply(written, CancelRemove(removed));
    QuietAtTheEnd(read, window);
    StepKeepsInv(written, CancelRemove(removed));
    CanceledIsFinalAt(s');
    if s'.phase.Removed? || s'.phase.Finished? {
      forall later ensures StartsNothing(s', later) {
        if Legal(s', later) {
          CanceledStaysCanceled(s', later);
        }
      }
    }
  }

  lemma ReadIsQuiet(s: State)
    requires Inv(s) && OnlyCancelsCancel(s) && Enabled(s, CancelRead) && !s.phase.Active()
    ensures var read := Apply(s, CancelRead);
      && Inv(read) && OnlyCancelsCancel(read) && (NothingReplaces(s) ==> CancelFits(read))
      && (read.flight.InFlight? ==> !read.flight.change.Replace?)
  {
    StepKeepsInv(s, CancelRead);
    if s.flight.InFlight? {
      assert PendingFits(s, s.next);
    }
  }

  lemma {:induction false} QuietAtTheEnd(s: State, steps: seq<Step>)
    requires Legal(s, steps) && Quiet(s, steps)
    ensures !After(s, steps).phase.Active()
    decreases |steps|
  {
    if steps != [] {
      QuietAtTheEnd(Apply(s, steps[0]), steps[1..]);
    }
  }

  // ---------------------------------------------------------------- what a cancel writes

  /** With nothing else under way, a cancel turns an unfinished row to CANCELED, stamps it, and leaves the rest. */
  lemma CancelStampsTheRow(s: State, steps: seq<Step>, at: int)
    requires Init(s) && Legal(s, steps)
    requires var s' := After(s, steps);
      s'.cancel.NoCancel? && s'.flight.Idle? && s'.next == |s'.writes| && s'.row.Some? && !IsTerminal(s'.row.value.status)
    ensures var s', cancel := After(s, steps), [CancelRead] + [CancelDecide(at)] + [StartWrite] + [CommitWrite] + [SettleWrite(true)];
      && Legal(s', cancel)
      && var before, after := s'.row.value, After(s', cancel).row;
        && after.Some? && after.value.status == CANCELED && after.value.finishedAt == Some(at)
        && after.value.output == before.output && after.value.error == before.error
        && after.value.metadata == before.metadata && after.value.attempt == before.attempt
        && after.value.startedAt == before.startedAt
  {
    var s' := After(s, steps);
    var decided := [CancelRead] + [CancelDecide(at)];
    Extend(s', [], CancelRead);
    assert [] + [CancelRead] == [CancelRead];
    Extend(s', [CancelRead], CancelDecide(at));
    Extend(s', decided, StartWrite);
    Extend(s', decided + [StartWrite], CommitWrite);
    Extend(s', decided + [StartWrite] + [CommitWrite], SettleWrite(true));
  }

  /** A cancel of a finished or missing run queues nothing, and only asks for the removal of the job. */
  lemma FinishedRunIsLeftAlone(s: State, at: int)
    requires s.cancel.NoCancel? && (s.row.Some? ==> IsTerminal(s.row.value.status))
    ensures Legal(s, [CancelRead] + [CancelDecide(at)])
    ensures var s' := After(s, [CancelRead] + [CancelDecide(at)]);
      s'.row == s.row && s'.writes == s.writes && s'.cancel == Removing(None) && s'.phase == s.phase
  {
    Extend(s, [], CancelRead);
    assert [] + [CancelRead] == [CancelRead];
    Extend(s, [CancelRead], CancelDecide(at));
  }

  // ---------------------------------------------------------------- cancels that do not stick

  lemma CancelDecided() returns (steps: seq<Step>)
    ensures Init(NEW_RUN) && Legal(NEW_RUN, steps)
    ensures var canceled := FRESH.(status := CANCELED, finishedAt := Some(1));
      After(NEW_RUN, steps) ==
        State(1, Some(FRESH), Inserted, Canceling(0), [], [], [UpdateCopy(canceled)], 0, [], Idle, multiset{})
  {
    Extend(NEW_RUN, [], InsertRow(true));
    Extend(NEW_RUN, [] + [InsertRow(true)], CancelRead);
    Extend(NEW_RUN, [] + [InsertRow(true)] + [CancelRead], CancelDecide(1));
    steps := [] + [InsertRow(true)] + [CancelRead] + [CancelDecide(1)];
  }

  /** A cancel has written CANCELED into the row of a run whose job does not exist yet. */
  lemma CanceledBeforeEnqueue() returns (steps: seq<Step>)
    ensures Init(NEW_RUN) && Legal(NEW_RUN, steps)
    ensures var canceled := FRESH.(status := CANCELED, finishedAt := Some(1));
      After(NEW_RUN, steps) ==
        State(1, Some(canceled), Inserted, Canceling(0), [], [], [UpdateCopy(canceled)], 1, [true], Idle, multiset{})
  {
    var decided := CancelDecided();
    steps := Flush(NEW_RUN, decided);
  }

  /** A cancel that comes between the insert and the enqueue is lost: the body of a CANCELED run starts. */
  lemma CancelBeforeEnqueueIsLost() returns (steps: seq<Step>)
    ensures Init(NEW_RUN) && Legal(NEW_RUN, steps)
    ensures var s := After(NEW_RUN, steps);
      s.phase == InBody(0) && s.row.Some? && s.row.value.status == CANCELED && s.cancel == NoCancel
  {
    var wrote := CanceledBeforeEnqueue();
    Extend(NEW_RUN, wrote, CancelWritten);
    Extend(NEW_RUN, wrote + [CancelWritten], CancelRemove(false));
    var gone := wrote + [CancelWritten] + [CancelRemove(false)];
    Extend(NEW_RUN, gone, AddJob);
    Extend(NEW_RUN, gone + [AddJob], StartAttempt);
    Extend(NEW_RUN, gone + [AddJob] + [StartAttempt], EnterBody(2));
    steps := gone + [AddJob] + [StartAttempt] + [EnterBody(2)];
  }

  /** A cancel has read the row of a running body, and written CANCELED into it. */
  lemma CanceledWhileRunning() returns (steps: seq<Step>)
    ensures Init(NEW_RUN) && Legal(NEW_RUN, steps)
    ensures var s := After(NEW_RUN, steps);
      && IsCanceled(s.row) && s.phase == InBody(0) && s.objects == [RUNNING_ONCE] && s.flight == Idle
      && s.next == |s.writes| == 2
  {
    var running := RunningRun();
    Extend(NEW_RUN, running, CancelRead);
    Extend(NEW_RUN, running + [CancelRead], CancelDecide(2));
    steps := Flush(NEW_RUN, running + [CancelRead] + [CancelDecide(2)]);
  }

  /** A cancel that overlaps an attempt is overwritten: the row goes from CANCELED to COMPLETED. */
  lemma OverlappingCancelIsOverwritten() returns (steps: seq<Step>, later: seq<Step>)
    ensures Init(NEW_RUN) && Legal(NEW_RUN, steps) && Legal(NEW_RUN, later)
    ensures |steps| < |later| && later[..|steps|] == steps
    ensures IsCanceled(After(NEW_RUN, steps).row)
    ensures After(NEW_RUN, later).row.Some? && After(NEW_RUN, later).row.value.status == COMPLETED
  {
    steps := CanceledWhileRunning();
    Extend(NEW_RUN, steps, Succeed(None, 3));
    later := FlushRow(NEW_RUN, steps + [Succeed(None, 3)], RUNNING_ONCE.(status := COMPLETED, finishedAt := Some(3)));
  }

  /** A body has completed after a cancel read its RUNNING row. */
  lemma CompletedWhileCanceling() returns (steps: seq<Step>)
    ensures Init(NEW_RUN) && Legal(NEW_RUN, steps)
    ensures var s := After(NEW_RUN, steps);
      && s.row.Some? && s.row.value.status == COMPLETED && s.cancel == ReadRow(Some(RUNNING_ONCE))
      && s.flight == Idle && s.next == |s.writes|
  {
    var running := RunningRun();
    Extend(NEW_RUN, running, CancelRead);
    Extend(NEW_RUN, running + [CancelRead], Succeed(None, 2));
    steps := Flush(NEW_RUN, running + [CancelRead] + [Succeed(None, 2)]);
  }

  /** ... and a cancel that read the row before the attempt ended overwrites the terminal answer. */
  lemma StaleCancelOverwritesTerminal() returns (steps: seq<Step>, later: seq<Step>)
    ensures Init(NEW_RUN) && Legal(NEW_RUN, steps) && Legal(NEW_RUN, later)
    ensures |steps| < |later| && later[..|steps|] == steps
    ensures After(NEW_RUN, steps).row.Some? && After(NEW_RUN, steps).row.value.status == COMPLETED
    ensures IsCanceled(After(NEW_RUN, later).row)
  {
    steps := CompletedWhileCanceling();
    Extend(NEW_RUN, steps, CancelDecide(3));
    later := FlushRow(NEW_RUN, steps + [CancelDecide(3)], RUNNING_ONCE.(status := CANCELED, finishedAt := Some(3)));
  }
}

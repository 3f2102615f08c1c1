/**
 * What a run's row shows, field by field, once its writes have gone through: the metadata last set, and
 * the attempt that is running, has failed, or has decided the run.
 */
module RowContents {
  import opened Outcomes
  import opened RunRows

  // ---------------------------------------------------------------- one metadata write

  /** Whenever a metadata write is next, carrying it out puts the object's metadata into the row, and nothing else. */
  lemma MetadataReachesRow(s: State, steps: seq<Step>, i: nat)
    requires Init(s) && Legal(s, steps)
    requires var s' := After(s, steps);
      s'.row.Some? && s'.flight.Idle? && s'.next < |s'.writes| && s'.writes[s'.next] == SetMetadata(i)
    ensures var s', write := After(s, steps), [StartWrite, CommitWrite, SettleWrite(true)];
      && i < |s'.objects| && Legal(s', write)
      && var before, after := s'.row.value, After(s', write).row;
        && after.Some? && after.value.metadata == s'.objects[i].metadata
        && after.value.status == before.status && after.value.output == before.output && after.value.error == before.error
        && after.value.attempt == before.attempt && after.value.startedAt == before.startedAt
        && after.value.finishedAt == before.finishedAt
  {
    RunKeepsInv(s, steps);
    var s' := After(s, steps);
    assert PendingFits(s', s'.next);
    WriteThrough(s');
  }

  lemma WriteThrough(s: State)
    requires s.flight.Idle? && Enabled(s, StartWrite)
    ensures var write := [StartWrite, CommitWrite, SettleWrite(true)];
      && Legal(s, write)
      && After(s, write) == Apply(Apply(Apply(s, StartWrite), CommitWrite), SettleWrite(true))
  {
    var s1, s2 := Apply(s, StartWrite), Apply(Apply(s, StartWrite), CommitWrite);
    Prepend(s2, SettleWrite(true), []);
    assert [SettleWrite(true)] + [] == [SettleWrite(true)];
    Prepend(s1, CommitWrite, [SettleWrite(true)]);
    assert [CommitWrite] + [SettleWrite(true)] == [CommitWrite, SettleWrite(true)];
    Prepend(s, StartWrite, [CommitWrite, SettleWrite(true)]);
    assert [StartWrite] + [CommitWrite, SettleWrite(true)] == [StartWrite, CommitWrite, SettleWrite(true)];
  }

  // ---------------------------------------------------------------- the objects of the attempts

  /** An object's fields, read off how its attempt went. */
  predicate AttemptFits(s: State, i: nat)
    requires i < |s.objects|
  {
    var run := s.objects[i];
    && run.attempt == i + 1
    && (run.finishedAt.Some? <==> IsTerminal(run.status))
    && (i < |s.outcomes| ==>
          match s.outcomes[i]
          case Returned(output) => run.status == COMPLETED && run.output == output && run.error == None && run.startedAt.Some?
          case Threw(error) =>
            && run.output == None && run.error == Some(error)
            && (if i + 1 == s.attempts then run.status == FAILED else !IsTerminal(run.status)))
    && (i >= |s.outcomes| ==> !IsTerminal(run.status) && run.output == None && run.error == None)
    && (s.phase == InBody(i) ==> run.status == RUNNING && run.startedAt.Some?)
  }

  ghost predicate AttemptsFit(s: State) {
    && |s.outcomes| <= s.attempts
    && (s.phase.InBody? || s.phase.BeforeBody? || s.phase.Waiting? ==> |s.outcomes| == s.phase.made < s.attempts)
    && (s.phase.Failing? || s.phase.Saving? ==> |s.outcomes| == s.phase.made + 1)
    && (s.phase.Creating? || s.phase.Inserted? ==> s.outcomes == [])
    && |s.outcomes| <= |s.objects|
    && forall i: nat | i < |s.objects| :: AttemptFits(s, i)
  }

  lemma StepKeepsAttempt(s: State, step: Step, i: nat)
    requires Inv(s) && AttemptsFit(s) && Enabled(s, step) && i < |Apply(s, step).objects|
    ensures AttemptFits(Apply(s, step), i)
  {
    assert i < |s.objects| ==> AttemptFits(s, i);
  }

  lemma StepKeepsAttempts(s: State, step: Step)
    requires Inv(s) && AttemptsFit(s) && Enabled(s, step)
    ensures AttemptsFit(Apply(s, step))
  {
    forall i: nat | i < |Apply(s, step).objects| ensures AttemptFits(Apply(s, step), i) {
      StepKeepsAttempt(s, step, i);
    }
  }

  // ---------------------------------------------------------------- rows whose writes went through

  predicate AllAcknowledged(s: State) {
    forall ok | ok in s.acks :: ok
  }

  /** Every write names an attempt's object; a cancel's copy does not. */
  ghost predicate WritesName(s: State) {
    forall k | 0 <= k < |s.writes| :: !s.writes[k].UpdateCopy? && s.writes[k].attempt < |s.objects|
  }

  function MetadataOf(change: Change): string {
    if change.Replace? then change.row.metadata else change.metadata
  }

  /** The last write carries the current metadata of its object. */
  predicate MetadataFits(s: State) {
    s.row.Some? && |s.writes| > 0 && !s.writes[|s.writes| - 1].UpdateCopy? && s.writes[|s.writes| - 1].attempt < |s.objects| ==>
      var metadata := s.objects[s.writes[|s.writes| - 1].attempt].metadata;
      && (s.next == |s.writes| ==> s.row.value.metadata == metadata)
      && (s.next + 1 == |s.writes| && s.flight.InFlight? ==>
            MetadataOf(s.flight.change) == metadata && (s.flight.applied ==> s.row.value.metadata == metadata))
  }

  /** The attempt whose object was last queued as a status write. */
  function Current(s: State): Option<nat> {
    match s.phase
    case Waiting(m) => if m > 0 then Some(m - 1) else None
    case BeforeBody(m) => if m > 0 then Some(m - 1) else None
    case InBody(m) => Some(m)
    case Saving(m, _, _) => Some(m)
    case Finished(_, _) => if |s.objects| > 0 then Some(|s.objects| - 1) else None
    case _ => None
  }

  ghost predicate QueuedFrom(s: State, i: nat, from: nat) {
    exists k :: from <= k < |s.writes| && s.writes[k] == UpdateRun(i)
  }

  ghost predicate CurrentFits(s: State) {
    s.row.Some? && Current(s).Some? && Current(s).value < |s.objects| ==>
      var i := Current(s).value;
      && (QueuedFrom(s, i, s.next) || SameOutcome(s.row.value, s.objects[i]))
      && (s.flight.InFlight? && s.next < |s.writes| && s.writes[s.next] == UpdateRun(i) ==>
            && s.flight.change.Replace?
            && (QueuedFrom(s, i, s.next + 1) || SameOutcome(s.flight.change.row, s.objects[i]))
            && (s.flight.applied ==> QueuedFrom(s, i, s.next + 1) || SameOutcome(s.row.value, s.objects[i])))
  }

  ghost predicate Showing(s: State) {
    && Inv(s) && AttemptsFit(s) && WritesName(s) && s.cancel.NoCancel? && !s.phase.Removed?
    && (s.phase.Finished? ==> |s.objects| > 0)
    && (AllAcknowledged(s) ==> s.late == multiset{} && MetadataFits(s) && CurrentFits(s))
  }

  lemma AcknowledgedBefore(s: State, step: Step)
    requires Enabled(s, step) && AllAcknowledged(Apply(s, step))
    ensures AllAcknowledged(s)
    ensures step.SettleWrite? ==> step.ok
  {
    var s' := Apply(s, step);
    if step.SettleWrite? {
      assert s'.acks[|s.acks|] == step.ok && step.ok in s'.acks;
    }
    assert forall ok | ok in s.acks :: ok in s'.acks;
  }

  lemma JobStepKeepsMetadata(s: State, step: Step)
    requires Showing(s) && AllAcknowledged(s) && Enabled(s, step) && !step.OfCancel() && !step.OfWrites()
    ensures MetadataFits(Apply(s, step))
  {}

  lemma WriteStepKeepsMetadata(s: State, step: Step)
    requires Showing(s) && AllAcknowledged(s) && Enabled(s, step) && step.OfWrites() && (step.SettleWrite? ==> step.ok)
    ensures MetadataFits(Apply(s, step))
  {}

  lemma StillQueued(s: State, s': State, i: nat, from: nat)
    requires |s.writes| <= |s'.writes| && s'.writes[..|s.writes|] == s.writes && QueuedFrom(s, i, from)
    ensures QueuedFrom(s', i, from)
  {
    var k :| from <= k < |s.writes| && s.writes[k] == UpdateRun(i);
    assert s'.writes[..|s.writes|][k] == UpdateRun(i);
  }

  /** A step that queues the current attempt's object. */
  lemma QueueingKeepsCurrent(s: State, step: Step)
    requires Showing(s) && AllAcknowledged(s) && Enabled(s, step) && (step.EnterBody? || step.Succeed? || step.SaveFailure?)
    ensures CurrentFits(Apply(s, step))
  {
    var s', i := Apply(s, step), s.phase.made;
    assert s'.writes[|s.writes|] == UpdateRun(i) && Current(s') == Some(i);
    assert QueuedFrom(s', i, s.next) && (s.next < |s.writes| ==> QueuedFrom(s', i, s.next + 1));
    assert s'.next == s.next && s'.flight == s.flight;
    assert s.next < |s.writes| ==> s'.writes[s.next] == s.writes[s.next];
    if s.flight.InFlight? {
      assert PendingFits(s, s.next);
    }
  }

  lemma PlainStepKeepsCurrent(s: State, step: Step)
    requires Showing(s) && AllAcknowledged(s) && Enabled(s, step) && !step.OfCancel() && !step.OfWrites()
    requires !step.EnterBody? && !step.Succeed? && !step.SaveFailure?
    ensures CurrentFits(Apply(s, step))
  {
    var s' := Apply(s, step);
    if Current(s').Some? && Current(s').value < |s'.objects| && s.row.Some? && Current(s) == Current(s') {
      var i := Current(s).value;
      assert s'.writes[..|s.writes|] == s.writes;
      if QueuedFrom(s, i, s.next) {
        StillQueued(s, s', i, s.next);
      }
      if QueuedFrom(s, i, s.next + 1) {
        StillQueued(s, s', i, s.next + 1);
      }
      assert s.next < |s.writes| ==> s'.writes[s.next] == s.writes[s.next];
    }
  }

  lemma JobStepKeepsCurrent(s: State, step: Step)
    requires Showing(s) && AllAcknowledged(s) && Enabled(s, step) && !step.OfCancel() && !step.OfWrites()
    ensures CurrentFits(Apply(s, step))
  {
    if step.EnterBody? || step.Succeed? || step.SaveFailure? {
      QueueingKeepsCurrent(s, step);
    } else {
      PlainStepKeepsCurrent(s, step);
    }
  }

  lemma NextOrLater(s: State, i: nat)
    ensures QueuedFrom(s, i, s.next) <==> (s.next < |s.writes| && s.writes[s.next] == UpdateRun(i)) || QueuedFrom(s, i, s.next + 1)
  {
    if QueuedFrom(s, i, s.next) {
      var k :| s.next <= k < |s.writes| && s.writes[k] == UpdateRun(i);
      assert k == s.next || QueuedFrom(s, i, s.next + 1);
    }
    if QueuedFrom(s, i, s.next + 1) {
      var k :| s.next + 1 <= k < |s.writes| && s.writes[k] == UpdateRun(i);
    }
  }

  lemma WriteStepKeepsCurrent(s: State, step: Step)
    requires Showing(s) && AllAcknowledged(s) && Enabled(s, step) && step.OfWrites() && (step.SettleWrite? ==> step.ok)
    ensures CurrentFits(Apply(s, step))
  {
    var s' := Apply(s, step);
    if Current(s).Some? && Current(s).value < |s.objects| && s.row.Some? && s.next < |s.writes| {
      var i := Current(s).value;
      assert PendingFits(s, s.next);
      NextOrLater(s, i);
      assert forall from: nat :: QueuedFrom(s', i, from) <==> QueuedFrom(s, i, from);
    }
  }

  lemma StepKeepsShowing(s: State, step: Step)
    requires Showing(s) && Enabled(s, step) && !step.OfCancel()
    ensures Showing(Apply(s, step))
  {
    var s' := Apply(s, step);
    StepKeepsInv(s, step);
    StepKeepsAttempts(s, step);
    if AllAcknowledged(s') {
      AcknowledgedBefore(s, step);
      if step.OfWrites() {
        WriteStepKeepsMetadata(s, step);
        WriteStepKeepsCurrent(s, step);
      } else {
        JobStepKeepsMetadata(s, step);
        JobStepKeepsCurrent(s, step);
      }
    }
  }

  lemma {:induction false} RunKeepsShowing(s: State, steps: seq<Step>)
    requires Showing(s) && Legal(s, steps) && WithoutCancel(steps)
    ensures Showing(After(s, steps))
    decreases |steps|
  {
    if steps != [] {
      StepKeepsShowing(s, steps[0]);
      RunKeepsShowing(Apply(s, steps[0]), steps[1..]);
    }
  }

  /** Nothing is left queued, and every write was acknowledged. */
  predicate WentThrough(s: State) {
    s.next == |s.writes| && AllAcknowledged(s) && s.row.Some?
  }

  /** Then, without a cancel, the row's metadata is that of the object that the last write names. */
  lemma RowShowsLastMetadata(s: State, steps: seq<Step>)
    requires Init(s) && Legal(s, steps) && WithoutCancel(steps)
    requires WentThrough(After(s, steps)) && After(s, steps).writes != []
    ensures var s' := After(s, steps);
      var last := s'.writes[|s'.writes| - 1];
      !last.UpdateCopy? && last.attempt < |s'.objects| && s'.row.value.metadata == s'.objects[last.attempt].metadata
  {
    RunKeepsShowing(s, steps);
  }

  /** While a body runs, the row shows its attempt as RUNNING, begun and not finished. */
  lemma RowShowsRunningAttempt(s: State, steps: seq<Step>)
    requires Init(s) && Legal(s, steps) && WithoutCancel(steps)
    requires WentThrough(After(s, steps)) && After(s, steps).phase.InBody?
    ensures var s', row := After(s, steps), After(s, steps).row.value;
      && row.status == RUNNING && row.attempt == s'.phase.made + 1
      && row.startedAt.Some? && row.finishedAt.None? && row.output.None? && row.error.None?
  {
    RunKeepsShowing(s, steps);
    assert AttemptFits(After(s, steps), After(s, steps).phase.made);
  }

  /** Between two attempts it shows the failed one with its error, but no terminal status. */
  lemma RowShowsFailedAttempt(s: State, steps: seq<Step>)
    requires Init(s) && Legal(s, steps) && WithoutCancel(steps)
    requires WentThrough(After(s, steps)) && After(s, steps).phase.Waiting? && After(s, steps).phase.made > 0
    ensures var s', row := After(s, steps), After(s, steps).row.value;
      && !IsTerminal(row.status) && row.attempt == s'.phase.made == |s'.outcomes|
      && Last(s').Threw? && row.error == Some(Last(s').error) && row.output.None? && row.finishedAt.None?
  {
    RunKeepsShowing(s, steps);
    RunKeepsSettling(s, steps);
    var s' := After(s, steps);
    assert AttemptFits(s', s'.phase.made - 1);
  }

  /** After the job has ended it shows the deciding attempt, with the time at which it ended. */
  lemma RowShowsDecision(s: State, steps: seq<Step>)
    requires Init(s) && Legal(s, steps) && WithoutCancel(steps)
    requires WentThrough(After(s, steps)) && After(s, steps).phase.Finished?
    ensures var s', row := After(s, steps), After(s, steps).row.value;
      && s'.outcomes != [] && row.attempt == |s'.outcomes| && row.finishedAt.Some?
      && match Last(s')
         case Returned(output) => row.status == COMPLETED && row.output == output && row.error.None?
         case Threw(error) => row.status == FAILED && row.error == Some(error) && row.output.None?
  {
    RunKeepsShowing(s, steps);
    RunKeepsSettling(s, steps);
    var s' := After(s, steps);
    assert AttemptFits(s', |s'.objects| - 1);
  }
}

/**
 * What the lock of a concurrency key keeps out, and what it does not: a job sleeps exactly while another
 * job of the same task and key is in its critical section, as long as every release takes effect.
 */
module LockLaws {
  import opened Outcomes
  import opened JobFlow

  // ---------------------------------------------------------------- lock names

  /** A task id that goes on from another one with a colon. */
  predicate Nests(task: string, inner: string) {
    task + ":" <= inner
  }

  lemma SameNameNests(a: Spec, b: Spec)
    requires a.concurrencyKey != "" && b.concurrencyKey != "" && a.LockName() == b.LockName() && |a.task| < |b.task|
    ensures Nests(a.task, b.task)
  {
    var rest := |"local-trigger:concurrency:"|;
    var name := a.LockName().value;
    assert name[rest..] == a.task + ":" + a.concurrencyKey == b.task + ":" + b.concurrencyKey;
    assert (a.task + ":" + a.concurrencyKey)[..|a.task| + 1] == a.task + ":";
    assert (b.task + ":" + b.concurrencyKey)[..|a.task| + 1] == b.task[..|a.task| + 1];
  }

  /** Unless one task id nests in the other, two jobs share a lock exactly if they share task and key. */
  lemma LocksAreShared(a: Spec, b: Spec)
    requires a.concurrencyKey != "" && b.concurrencyKey != "" && !Nests(a.task, b.task) && !Nests(b.task, a.task)
    ensures a.LockName().Some? && b.LockName().Some?
    ensures a.LockName() == b.LockName() <==> a.task == b.task && a.concurrencyKey == b.concurrencyKey
  {
    if a.LockName() == b.LockName() {
      if |a.task| < |b.task| {
        SameNameNests(a, b);
      } else if |b.task| < |a.task| {
        SameNameNests(b, a);
      } else {
        var rest, n := |"local-trigger:concurrency:"|, |a.task|;
        var name := a.LockName().value;
        assert name[rest..] == a.task + ":" + a.concurrencyKey == b.task + ":" + b.concurrencyKey;
        assert (a.task + ":" + a.concurrencyKey)[..n] == a.task && (b.task + ":" + b.concurrencyKey)[..n] == b.task;
        assert (a.task + ":" + a.concurrencyKey)[n + 1..] == a.concurrencyKey;
        assert (b.task + ":" + b.concurrencyKey)[n + 1..] == b.concurrencyKey;
      }
    }
  }

  /** If one nests in the other, two different tasks do share a lock for some keys. */
  lemma NestedTasksCollide(task: string, inner: string, key: string)
    requires Nests(task, inner) && key != ""
    ensures var a, b := Spec(task, None, inner[|task| + 1..] + ":" + key), Spec(inner, None, key);
      a.task != b.task && a.LockName() == b.LockName() && a.LockName().Some?
  {
    var outer := inner[|task| + 1..];
    assert inner == task + ":" + outer;
    var start := "local-trigger:concurrency:";
    assert start + task + ":" + (outer + ":" + key) == start + inner + ":" + key;
    assert |task| < |inner|;
  }

  // ---------------------------------------------------------------- no key without a holder

  /** Every key in Redis belongs to a job that is inside its critical section. */
  ghost predicate KeysHaveHolders(s: State) {
    forall lock | lock in s.locks :: HasHolder(s, lock)
  }

  predicate HasHolder(s: State, lock: string)
    requires lock in s.locks
  {
    match s.locks[lock].owner
    case None => false
    case Some(j) => j < |s.jobs| && s.jobs[j].Locked() && s.jobs[j].spec.LockName() == Some(lock)
  }

  predicate DeletesWork(steps: seq<Step>) {
    forall step | step in steps && step.DeleteLock? :: step.effect
  }

  lemma LeaveKeepsHolder(s: State, j: nat, lock: string)
    requires Inv(s) && Enabled(s, Leave(j)) && lock in s.locks && HasHolder(s, lock)
    ensures lock in Apply(s, Leave(j)).locks && HasHolder(Apply(s, Leave(j)), lock)
  {
    assert LaneMatches(s, s.jobs[j].spec.LaneName());
    var waiters := s.LaneOf(s.jobs[j].spec.LaneName()).lane.waiters;
    assert waiters != [] ==> waiters[0] in waiters;
  }

  lemma LockStepKeepsHolder(s: State, step: Step, lock: string)
    requires Timely(s) && Enabled(s, step) && TakesItsLock(s, step) && (step.DeleteLock? ==> step.effect)
    requires step.TryLock? || step.TryLockError? || step.DeleteLock?
    requires lock in Apply(s, step).locks && (lock in s.locks ==> HasHolder(s, lock))
    ensures HasHolder(Apply(s, step), lock)
  {}

  lemma StepKeepsHolder(s: State, step: Step, lock: string)
    requires Inv(s) && Timely(s) && Enabled(s, step) && TakesItsLock(s, step) && (step.DeleteLock? ==> step.effect)
    requires lock in Apply(s, step).locks && (lock in s.locks ==> HasHolder(s, lock))
    ensures HasHolder(Apply(s, step), lock)
  {
    if step.Leave? {
      LeaveKeepsHolder(s, step.job, lock);
    } else if step.TryLock? || step.TryLockError? || step.DeleteLock? {
      LockStepKeepsHolder(s, step, lock);
    }
  }

  lemma {:induction false} RunKeepsHolders(s: State, steps: seq<Step>)
    requires Inv(s) && KeysHaveHolders(s) && Legal(s, steps)
    requires AlwaysTimely(s, steps) && AlwaysTakesItsLock(s, steps) && DeletesWork(steps)
    ensures KeysHaveHolders(After(s, steps)) && Timely(After(s, steps))
    decreases |steps|
  {
    if steps != [] {
      StepKeepsInv(s, steps[0]);
      forall lock | lock in Apply(s, steps[0]).locks ensures HasHolder(Apply(s, steps[0]), lock) {
        StepKeepsHolder(s, steps[0], lock);
      }
      RunKeepsHolders(Apply(s, steps[0]), steps[1..]);
    }
  }

  /** In its body, or on its way out of it. */
  predicate InSection(job: Job, task: string, key: string) {
    (job.phase.Body? || job.phase.Deleting?) && job.spec.task == task && job.spec.concurrencyKey == key
  }

  /**
   * With timely and effective releases, no error that skips the lock, and no key left behind by a crash,
   * a job that asks for its lock is put to sleep exactly if another job of the same task and key is
   * inside; otherwise it enters its body at once.
   */
  lemma SleepsExactlyBehindAnother(s: State, steps: seq<Step>, j: nat)
    requires Init(s) && s.locks == map[] && Legal(s, steps)
    requires AlwaysTimely(s, steps) && AlwaysTakesItsLock(s, steps) && DeletesWork(steps)
    requires Enabled(After(s, steps), TryLock(j))
    requires forall i, k | 0 <= i < |After(s, steps).jobs| && 0 <= k < |After(s, steps).jobs| ::
               !Nests(After(s, steps).jobs[i].spec.task, After(s, steps).jobs[k].spec.task)
    ensures var s', mine := After(s, steps), After(s, steps).jobs[j].spec;
      var phase := Apply(s', TryLock(j)).jobs[j].phase;
      && (phase.Sleeping? <==>
            (mine.concurrencyKey != "" &&
             exists k :: 0 <= k < |s'.jobs| && k != j && InSection(s'.jobs[k], mine.task, mine.concurrencyKey)))
      && (!phase.Sleeping? ==> phase.Body?)
  {
    InitInv(s);
    RunKeepsInv(s, steps);
    RunKeepsHolders(s, steps);
    RunKeepsOwnership(s, steps);
    BodiesAreLocked(s, steps);
    var s' := After(s, steps);
    var mine := s'.jobs[j].spec;
    if mine.concurrencyKey != "" {
      forall k: nat | k < |s'.jobs| && s'.jobs[k].spec.concurrencyKey != ""
        ensures s'.jobs[k].spec.LockName() == mine.LockName() <==>
          s'.jobs[k].spec.task == mine.task && s'.jobs[k].spec.concurrencyKey == mine.concurrencyKey
      {
        LocksAreShared(s'.jobs[k].spec, mine);
      }
      SectionHoldsKey(s', j);
    }
  }

  lemma SectionHoldsKey(s: State, j: nat)
    requires Inv(s) && KeysHaveHolders(s) && Timely(s) && j < |s.jobs| && s.jobs[j].phase.Acquiring?
    requires s.jobs[j].spec.LockName().Some?
    requires forall k: nat | k < |s.jobs| :: OwnsItsLock(s, k) && EntersLocked(s.jobs[k])
    ensures !s.Free(s.jobs[j].spec.LockName().value) <==>
      exists k :: 0 <= k < |s.jobs| && k != j && (s.jobs[k].phase.Body? || s.jobs[k].phase.Deleting?)
               && s.jobs[k].spec.LockName() == s.jobs[j].spec.LockName()
  {
    var lock := s.jobs[j].spec.LockName().value;
    if !s.Free(lock) {
      var k := s.locks[lock].owner.value;
      assert s.jobs[k].Locked();
    }
    forall k: nat | k < |s.jobs| && (s.jobs[k].phase.Body? || s.jobs[k].phase.Deleting?) && s.jobs[k].spec.LockName() == Some(lock)
      ensures !s.Free(lock)
    {
      assert OwnsItsLock(s, k) && EntersLocked(s.jobs[k]) && JobMatches(s, k);
    }
  }

  /** A key that is not deleted keeps everyone out for four hours after it was set, and for no longer. */
  lemma KeyKeepsOutForFourHours(s: State, j: nat)
    requires Enabled(s, TryLock(j)) && s.jobs[j].spec.LockName().Some? && s.jobs[j].spec.LockName().value in s.locks
    ensures Apply(s, TryLock(j)).jobs[j].phase.Sleeping? <==>
      s.now < s.locks[s.jobs[j].spec.LockName().value].since + 4 * 60 * 60 * 1000
  {}
}

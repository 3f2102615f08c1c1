/**
 * What the lanes and the worker promise to jobs: which jobs share a lane, when one starts at once, how
 * many run together, and how often a job's body runs.
 */
module LaneLaws {
  import opened Outcomes
  import Lanes
  import opened JobFlow

  /** Tasks without a queue share the lane of a queue that is named "default". */
  predicate ShareLane(a: Option<Lanes.Queue>, b: Option<Lanes.Queue>) {
    match (a, b)
    case (None, None) => true
    case (None, Some(q)) => q.name == "default"
    case (Some(q), None) => q.name == "default"
    case (Some(q), Some(r)) => q.name == r.name
  }

  /** Without a queue, without a limit, and with a limit of 0, one body runs at a time. */
  function DeclaredLimit(queue: Option<Lanes.Queue>): int {
    match queue
    case None => 1
    case Some(Queue(_, None)) => 1
    case Some(Queue(_, Some(limit))) => if limit == 0 then 1 else limit
  }

  /** The jobs between their grant and their release on the lane of this queue. */
  function Holders(s: State, queue: Option<Lanes.Queue>): set<nat> {
    set k: nat | k < |s.jobs| && s.jobs[k].HoldsLane() && ShareLane(s.jobs[k].spec.queue, queue)
  }

  lemma HoldersAreRunning(s: State, queue: Option<Lanes.Queue>)
    requires Inv(s)
    ensures Holders(s, queue) == s.LaneOf(Lanes.LaneName(queue)).running
    ensures |Holders(s, queue)| == s.LaneOf(Lanes.LaneName(queue)).lane.active
  {
    var name := Lanes.LaneName(queue);
    assert LaneMatches(s, name);
    forall k: nat ensures k in Holders(s, queue) <==> k in s.LaneOf(name).running {
      assert k < |s.jobs| ==> JobMatches(s, k);
    }
    assert Holders(s, queue) == s.LaneOf(name).running;
  }

  /** A job starts at once exactly if fewer jobs than its own limit hold its lane; otherwise it waits. */
  lemma StartsAtOnce(s: State, steps: seq<Step>, j: nat)
    requires Init(s) && Legal(s, steps) && Enabled(After(s, steps), Begin(j))
    ensures var s' := After(s, steps);
      var queue := s'.jobs[j].spec.queue;
      Apply(s', Begin(j)).jobs[j].phase == if |Holders(s', queue)| < DeclaredLimit(queue) then Acquiring else LaneWait
  {
    InitInv(s);
    RunKeepsInv(s, steps);
    HoldersAreRunning(After(s, steps), After(s, steps).jobs[j].spec.queue);
  }

  // ---------------------------------------------------------------- how many run together

  ghost predicate Within(s: State, name: string, most: nat) {
    && s.LaneOf(name).lane.active <= most
    && forall j | 0 <= j < |s.jobs| && s.jobs[j].spec.LaneName() == name :: Lanes.Limit(s.jobs[j].spec.queue) <= most
  }

  lemma SpecsStay(s: State, step: Step)
    requires Enabled(s, step)
    ensures |Apply(s, step).jobs| == |s.jobs| && forall j | 0 <= j < |s.jobs| :: Apply(s, step).jobs[j].spec == s.jobs[j].spec
  {}

  lemma BeginKeepsActive(s: State, j: nat, name: string, most: nat)
    requires Within(s, name, most) && Enabled(s, Begin(j))
    ensures Apply(s, Begin(j)).LaneOf(name).lane.active <= most
  {}

  lemma LeaveKeepsActive(s: State, j: nat, name: string, most: nat)
    requires Inv(s) && Within(s, name, most) && Enabled(s, Leave(j))
    ensures Apply(s, Leave(j)).LaneOf(name).lane.active <= most
  {
    assert LaneMatches(s, name) && JobMatches(s, j);
    if s.jobs[j].spec.LaneName() == name {
      assert j in s.LaneOf(name).running;
    }
  }

  lemma StepKeepsWithin(s: State, step: Step, name: string, most: nat)
    requires Inv(s) && Within(s, name, most) && Enabled(s, step)
    ensures Within(Apply(s, step), name, most)
  {
    SpecsStay(s, step);
    if step.Begin? {
      BeginKeepsActive(s, step.job, name, most);
    } else if step.Leave? {
      LeaveKeepsActive(s, step.job, name, most);
    } else {
      assert Apply(s, step).lanes == s.lanes;
    }
  }

  lemma {:induction false} RunKeepsWithin(s: State, steps: seq<Step>, name: string, most: nat)
    requires Inv(s) && Within(s, name, most) && Legal(s, steps)
    ensures Within(After(s, steps), name, most)
    decreases |steps|
  {
    if steps != [] {
      StepKeepsWithin(s, steps[0], name, most);
      StepKeepsInv(s, steps[0]);
      RunKeepsWithin(Apply(s, steps[0]), steps[1..], name, most);
    }
  }

  /** Over all interleavings, no lane ever holds more jobs than the largest limit declared on it. */
  lemma LaneStaysWithinLimits(s: State, steps: seq<Step>, queue: Option<Lanes.Queue>, most: nat)
    requires Init(s) && Legal(s, steps)
    requires forall j | 0 <= j < |s.jobs| && ShareLane(s.jobs[j].spec.queue, queue) :: DeclaredLimit(s.jobs[j].spec.queue) <= most
    ensures |Holders(After(s, steps), queue)| <= most
  {
    InitInv(s);
    RunKeepsInv(s, steps);
    RunKeepsWithin(s, steps, Lanes.LaneName(queue), most);
    HoldersAreRunning(After(s, steps), queue);
  }

  lemma OneElement(a: set<nat>, i: nat, j: nat)
    requires |a| <= 1 && i in a && j in a
    ensures i == j
  {
    assert |a - {i}| == 0;
    assert j !in a - {i};
  }

  /** So bodies of tasks without a queue run one at a time, if nobody gives "default" a larger limit. */
  lemma WithoutQueueOneAtATime(s: State, steps: seq<Step>, i: nat, j: nat)
    requires Init(s) && Legal(s, steps)
    requires forall k | 0 <= k < |s.jobs| && ShareLane(s.jobs[k].spec.queue, None) :: DeclaredLimit(s.jobs[k].spec.queue) <= 1
    requires var jobs := After(s, steps).jobs;
      && i < |jobs| && jobs[i].phase.Body? && jobs[i].spec.queue == None
      && j < |jobs| && jobs[j].phase.Body? && jobs[j].spec.queue == None
    ensures i == j
  {
    LaneStaysWithinLimits(s, steps, None, 1);
    OneElement(Holders(After(s, steps), None), i, j);
  }

  // ---------------------------------------------------------------- the worker's own limit

  lemma StaysInFlight(s: State, step: Step, k: nat)
    requires Inv(s) && Enabled(s, step) && k in InFlightJobs(Apply(s, step))
    ensures k in InFlightJobs(s) || step == Begin(k)
  {
    if step.Leave? {
      assert LaneMatches(s, s.jobs[step.job].spec.LaneName());
      var waiters := s.LaneOf(s.jobs[step.job].spec.LaneName()).lane.waiters;
      assert waiters != [] ==> waiters[0] in waiters;
    }
  }

  lemma Fewer(a: set<nat>, b: set<nat>)
    requires a <= b
    ensures |a| <= |b|
  {
    assert b == a + (b - a);
  }

  lemma StepKeepsSlots(s: State, step: Step)
    requires Inv(s) && Enabled(s, step) && |InFlightJobs(s)| <= 100
    ensures |InFlightJobs(Apply(s, step))| <= 100
  {
    var before, after := InFlightJobs(s), InFlightJobs(Apply(s, step));
    forall k | k in after ensures k in before || step == Begin(k) {
      StaysInFlight(s, step, k);
    }
    if step.Begin? {
      Fewer(after, before + {step.job});
    } else {
      Fewer(after, before);
    }
  }

  /** The worker never has more than a hundred jobs in flight. */
  lemma {:induction false} AtMostAHundredInFlight(s: State, steps: seq<Step>)
    requires Inv(s) && Legal(s, steps) && |InFlightJobs(s)| <= 100
    ensures |InFlightJobs(After(s, steps))| <= 100
    decreases |steps|
  {
    if steps != [] {
      StepKeepsSlots(s, steps[0]);
      StepKeepsInv(s, steps[0]);
      AtMostAHundredInFlight(Apply(s, steps[0]), steps[1..]);
    }
  }

  // ---------------------------------------------------------------- how often a body runs

  /** How many bodies of this job have ended. */
  function Ended(steps: seq<Step>, j: nat): nat {
    if steps == [] then 0
    else (if steps[0].EndBody? && steps[0].job == j then 1 else 0) + Ended(steps[1..], j)
  }

  /** How its last body ended. */
  function LastEnd(steps: seq<Step>, j: nat): Option<bool> {
    if steps == [] then None
    else if LastEnd(steps[1..], j).Some? then LastEnd(steps[1..], j)
    else if steps[0].EndBody? && steps[0].job == j then Some(steps[0].ok)
    else None
  }

  /** The bodies that a job may still end. */
  function BodiesLeft(job: Job): int {
    if job.phase.Deleting? || job.phase.Leaving? || job.phase.Done? then job.left - 1 else job.left
  }

  lemma StepUsesBodies(s: State, step: Step, j: nat)
    requires Inv(s) && Enabled(s, step) && j < |s.jobs|
    ensures j < |Apply(s, step).jobs|
    ensures var job := Apply(s, step).jobs[j];
      if step.EndBody? && step.job == j then BodiesLeft(job) == BodiesLeft(s.jobs[j]) - 1
      else job.phase.Done? || BodiesLeft(job) == BodiesLeft(s.jobs[j])
    ensures s.jobs[j].phase.Done? ==> Apply(s, step).jobs[j] == s.jobs[j]
  {
    if step.Leave? {
      assert LaneMatches(s, s.jobs[step.job].spec.LaneName());
      var waiters := s.LaneOf(s.jobs[step.job].spec.LaneName()).lane.waiters;
      assert waiters != [] ==> waiters[0] in waiters;
    }
  }

  /** What a job's phase tells about how its last body ended. */
  predicate EndFits(job: Job, last: Option<bool>) {
    match job.phase
    case Deleting(_, ok) => last == Some(ok)
    case Leaving(ok) => last == Some(ok)
    case Done => last.Some? && (last.value || job.left == 1)
    case _ => last != Some(true)
  }

  lemma StepKeepsEnd(s: State, step: Step, j: nat, last: Option<bool>)
    requires Inv(s) && Enabled(s, step) && j < |s.jobs| && EndFits(s.jobs[j], last)
    ensures j < |Apply(s, step).jobs|
    ensures EndFits(Apply(s, step).jobs[j], if step.EndBody? && step.job == j then Some(step.ok) else last)
  {
    assert JobMatches(s, j);
    if step.Leave? {
      assert LaneMatches(s, s.jobs[step.job].spec.LaneName());
      var waiters := s.LaneOf(s.jobs[step.job].spec.LaneName()).lane.waiters;
      assert waiters != [] ==> waiters[0] in waiters;
    }
  }

  lemma {:induction false} RunUsesBodies(s: State, steps: seq<Step>, j: nat, last: Option<bool>)
    requires Inv(s) && Legal(s, steps) && j < |s.jobs| && EndFits(s.jobs[j], last)
    ensures j < |After(s, steps).jobs|
    ensures BodiesLeft(After(s, steps).jobs[j]) == BodiesLeft(s.jobs[j]) - Ended(steps, j)
    ensures EndFits(After(s, steps).jobs[j], if LastEnd(steps, j).Some? then LastEnd(steps, j) else last)
    decreases |steps|
  {
    if steps != [] {
      StepKeepsInv(s, steps[0]);
      StepUsesBodies(s, steps[0], j);
      StepKeepsEnd(s, steps[0], j, last);
      var next := if steps[0].EndBody? && steps[0].job == j then Some(steps[0].ok) else last;
      RunUsesBodies(Apply(s, steps[0]), steps[1..], j, next);
    }
  }

  /**
   * A job's body runs at most as often as it has attempts. Once one has succeeded, or all have been used,
   * the job only leaves its lock and lane; and it is done only then.
   */
  lemma AttemptsAreUsed(s: State, steps: seq<Step>, j: nat)
    requires Init(s) && Legal(s, steps) && j < |s.jobs|
    ensures j < |After(s, steps).jobs|
    ensures var job, ended, last := After(s, steps).jobs[j], Ended(steps, j), LastEnd(steps, j);
      && ended <= s.jobs[j].left
      && (job.phase.Done? ==> last == Some(true) || (last == Some(false) && ended == s.jobs[j].left))
      && (last == Some(true) || ended == s.jobs[j].left ==> job.phase.Deleting? || job.phase.Leaving? || job.phase.Done?)
  {
    InitInv(s);
    RunUsesBodies(s, steps, j, None);
    RunKeepsInv(s, steps);
    assert JobMatches(After(s, steps), j);
  }
}

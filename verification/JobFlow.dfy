/**
 * How a job's attempts pass through the worker: a worker slot, then a queue lane, then the
 * Redis lock of its concurrency key, then the task body, and back out in the opposite order.
 *
 * Each uninterrupted stretch of the runtime and each command that Redis executes is one step.
 * Steps of different jobs interleave freely, and time passes only in `Tick` steps.
 */
module JobFlow {
  import opened Outcomes
  import Lanes

  /** Life of a concurrency lock in milliseconds: four hours. */
  const TTL: int := 1000 * 60 * 60 * 4

  /** How many jobs the single worker has in flight at once. */
  const WORKER_CONCURRENCY: nat := 100

  datatype Spec = Spec(task: string, queue: Option<Lanes.Queue>, concurrencyKey: string) {
    function LaneName(): string { Lanes.LaneName(queue) }

    function Ticket(job: nat): Lanes.Ticket { Lanes.Ticket(job, Lanes.Limit(queue)) }

    /** An empty concurrency key asks for no lock. */
    function LockName(): Option<string> {
      if concurrencyKey == "" then None
      else Some("local-trigger:concurrency:" + task + ":" + concurrencyKey)
    }
  }

  /** Where one job stands. A lock phase carries the time at which the lock was granted. */
  datatype Phase =
    | Queued
    | LaneWait
    | Acquiring
    | Sleeping
    | Body(lockedAt: Option<int>)
    | Deleting(since: int, ok: bool)
    | Leaving(success: bool)
    | Done

  /** `left` counts the attempts a job may still make, the current one included. */
  datatype Job = Job(spec: Spec, left: nat, phase: Phase) {
    predicate HoldsLane() {
      phase.Acquiring? || phase.Sleeping? || phase.Body? || phase.Deleting? || phase.Leaving?
    }

    predicate InFlight() { HoldsLane() || phase.LaneWait? }

    /** Inside the critical section of its lock: from the grant until the delete has been made. */
    predicate Locked() {
      spec.LockName().Some? && ((phase.Body? && phase.lockedAt.Some?) || phase.Deleting?)
    }

    function Since(): int
      requires Locked()
    {
      if phase.Body? then phase.lockedAt.value else phase.since
    }
  }

  /** A lock key in Redis: the job that set it (none if left behind by a crash), and when. */
  datatype Lock = Lock(owner: Option<nat>, since: int)

  datatype State = State(
    now: int,
    lastTaken: int,
    jobs: seq<Job>,
    lanes: map<string, Lanes.History>,
    locks: map<string, Lock>)
  {
    function LaneOf(name: string): Lanes.History {
      if name in lanes then lanes[name] else Lanes.START
    }

    /** A key whose time has come counts as gone. */
    predicate Free(lock: string) {
      lock !in locks || locks[lock].since + TTL <= now
    }

    predicate AllDone() {
      forall j | 0 <= j < |jobs| :: jobs[j].phase.Done?
    }
  }

  datatype Step =
    | Begin(job: nat)
    | TryLock(job: nat)
    | TryLockError(job: nat, applied: bool)
    | Wake(job: nat)
    | EndBody(job: nat, ok: bool)
    | DeleteLock(job: nat, effect: bool)
    | Leave(job: nat)
    | Tick(ms: nat)

  function InFlightJobs(s: State): set<nat> {
    set j: nat | j < |s.jobs| && s.jobs[j].InFlight()
  }

  predicate Enabled(s: State, step: Step) {
    if step.Tick? then step.ms >= 1 else
    step.job < |s.jobs| && var job := s.jobs[step.job];
    match step
    case Begin(_) => job.phase.Queued? && |InFlightJobs(s)| < WORKER_CONCURRENCY
    case TryLock(_) => job.phase.Acquiring?
    case TryLockError(_, _) => job.phase.Acquiring? && job.spec.LockName().Some?
    case Wake(_) => job.phase.Sleeping?
    case EndBody(_, _) => job.phase.Body?
    case DeleteLock(_, _) => job.phase.Deleting? && job.spec.LockName().Some?
    case Leave(_) => job.phase.Leaving?
  }

  function Moved(s: State, j: nat, phase: Phase): State
    requires j < |s.jobs|
  {
    s.(jobs := s.jobs[j := s.jobs[j].(phase := phase)])
  }

  function Take(s: State, j: nat, lock: string): State {
    s.(locks := s.locks[lock := Lock(Some(j), s.now)], lastTaken := s.now)
  }

  function LaneMoved(s: State, name: string, e: Lanes.Event): State {
    s.(lanes := s.lanes[name := Lanes.Next(s.LaneOf(name), e)])
  }

  /** A failed attempt is queued again while attempts are left. */
  function AfterAttempt(job: Job): Job
    requires job.phase.Leaving?
  {
    if job.phase.success || job.left <= 1 then job.(phase := Done)
    else job.(phase := Queued, left := job.left - 1)
  }

  /** The jobs after `j` has left its lane and the first of that lane's waiters, if any, has started. */
  function JobsAfterLeave(jobs: seq<Job>, j: nat, waiters: seq<Lanes.Ticket>): seq<Job>
    requires j < |jobs| && jobs[j].phase.Leaving?
  {
    var left := jobs[j := AfterAttempt(jobs[j])];
    if waiters != [] && waiters[0].job < |jobs|
    then left[waiters[0].job := left[waiters[0].job].(phase := Acquiring)] else left
  }

  function LeaveLane(s: State, j: nat): State
    requires j < |s.jobs| && s.jobs[j].phase.Leaving?
  {
    var name := s.jobs[j].spec.LaneName();
    LaneMoved(s.(jobs := JobsAfterLeave(s.jobs, j, s.LaneOf(name).lane.waiters)), name, Lanes.Finish(j))
  }

  function Apply(s: State, step: Step): State
    requires Enabled(s, step)
  {
    if step.Tick? then s.(now := s.now + step.ms) else
    var j, job := step.job, s.jobs[step.job];
    match step
    case Begin(_) =>
      var t := job.spec.Ticket(j);
      var lane := s.LaneOf(job.spec.LaneName()).lane;
      LaneMoved(Moved(s, j, if Lanes.Admits(lane, t) then Acquiring else LaneWait), job.spec.LaneName(), Lanes.Arrive(t))
    case TryLock(_) =>
      var lock := job.spec.LockName();
      if lock.None? then Moved(s, j, Body(None))
      else if s.Free(lock.value) then Moved(Take(s, j, lock.value), j, Body(Some(s.now)))
      else Moved(s, j, Sleeping)
    case TryLockError(_, applied) =>
      // The lock fails open: an error counts as a grant, whether or not Redis set the key.
      var lock := job.spec.LockName().value;
      Moved(if applied && s.Free(lock) then Take(s, j, lock) else s, j, Body(Some(s.now)))
    case Wake(_) => Moved(s, j, Acquiring)
    case EndBody(_, ok) =>
      if job.phase.lockedAt.Some? then Moved(s, j, Deleting(job.phase.lockedAt.value, ok))
      else Moved(s, j, Leaving(ok))
    case DeleteLock(_, effect) =>
      // The delete names the key only, not the owner; its failure is ignored.
      Moved(if effect then s.(locks := s.locks - {job.spec.LockName().value}) else s, j, Leaving(job.phase.ok))
    case Leave(_) => LeaveLane(s, j)
  }

  /** A fresh process: every job queued, idle lanes, and any keys an earlier crash left in Redis. */
  ghost predicate Init(s: State) {
    && s.lanes == map[] && s.lastTaken <= s.now
    && (forall j | 0 <= j < |s.jobs| :: s.jobs[j].phase.Queued? && s.jobs[j].left >= 1)
    && (forall k | k in s.locks :: s.locks[k].owner.None? && s.locks[k].since <= s.lastTaken)
  }

  predicate Legal(s: State, steps: seq<Step>)
    decreases |steps|
  {
    steps == [] || (Enabled(s, steps[0]) && Legal(Apply(s, steps[0]), steps[1..]))
  }

  function After(s: State, steps: seq<Step>): State
    requires Legal(s, steps)
    decreases |steps|
  {
    if steps == [] then s else After(Apply(s, steps[0]), steps[1..])
  }

  // ---------------------------------------------------------------- what every step keeps

  /** A lane's running and waiting entries are exactly the jobs that are in those phases. */
  ghost predicate LaneMatches(s: State, name: string) {
    Lanes.Inv(s.LaneOf(name)) && LaneListsJobs(s.jobs, s.LaneOf(name), name)
  }

  ghost predicate LaneListsJobs(jobs: seq<Job>, h: Lanes.History, name: string) {
    && (forall j | j in h.running :: j < |jobs| && jobs[j].HoldsLane() && jobs[j].spec.LaneName() == name)
    && (forall t | t in h.lane.waiters ::
          t.job < |jobs| && jobs[t.job].phase.LaneWait? && jobs[t.job].spec.LaneName() == name
          && t == jobs[t.job].spec.Ticket(t.job))
  }

  ghost predicate JobMatches(s: State, j: nat)
    requires j < |s.jobs|
  {
    var job := s.jobs[j];
    && job.left >= 1
    && (job.HoldsLane() ==> j in s.LaneOf(job.spec.LaneName()).running)
    && (job.phase.LaneWait? ==> job.spec.Ticket(j) in s.LaneOf(job.spec.LaneName()).lane.waiters)
    && (job.Locked() ==> job.Since() <= s.now)
    && (job.phase.Body? && job.phase.lockedAt.Some? ==> job.spec.LockName().Some?)
    && (job.phase.Deleting? ==> job.spec.LockName().Some?)
  }

  ghost predicate Inv(s: State) {
    && (forall name :: LaneMatches(s, name))
    && (forall j: nat | j < |s.jobs| :: JobMatches(s, j))
    && s.lastTaken <= s.now
    && (forall k | k in s.locks :: s.locks[k].since <= s.lastTaken)
  }

  lemma InitInv(s: State)
    requires Init(s)
    ensures Inv(s)
  {}

  /** Steps that keep a job inside (or outside) its lane leave every lane as it is. */
  lemma PhaseStepKeepsLane(s: State, step: Step, name: string)
    requires Inv(s) && Enabled(s, step) && !step.Begin? && !step.Leave?
    ensures LaneMatches(Apply(s, step), name)
  {
    assert LaneMatches(s, name);
    assert Apply(s, step).LaneOf(name) == s.LaneOf(name);
  }

  lemma PhaseStepKeepsJob(s: State, step: Step, j: nat)
    requires Inv(s) && Enabled(s, step) && !step.Begin? && !step.Leave? && j < |s.jobs|
    ensures JobMatches(Apply(s, step), j)
  {
    assert JobMatches(s, j);
    assert Apply(s, step).lanes == s.lanes;
  }

  lemma BeginIsLegalInLane(s: State, j: nat)
    requires Inv(s) && Enabled(s, Begin(j))
    ensures var h := s.LaneOf(s.jobs[j].spec.LaneName());
      Lanes.Inv(h) && Lanes.Enabled(h, Lanes.Arrive(s.jobs[j].spec.Ticket(j)))
  {
    var mine := s.jobs[j].spec.LaneName();
    var h := s.LaneOf(mine);
    assert LaneMatches(s, mine);
    forall i | 0 <= i < |h.lane.waiters| ensures h.lane.waiters[i].job != j {
      assert h.lane.waiters[i] in h.lane.waiters;
    }
  }

  lemma BeginKeepsLists(jobs: seq<Job>, j: nat, h: Lanes.History, name: string)
    requires j < |jobs| && jobs[j].phase.Queued? && LaneListsJobs(jobs, h, name)
    ensures var t := jobs[j].spec.Ticket(j);
      var mine := name == jobs[j].spec.LaneName();
      var phase := if Lanes.Admits(h.lane, t) then Acquiring else LaneWait;
      && (mine ==> LaneListsJobs(jobs[j := jobs[j].(phase := phase)], Lanes.Next(h, Lanes.Arrive(t)), name))
      && (!mine ==> forall p :: LaneListsJobs(jobs[j := jobs[j].(phase := p)], h, name))
  {}

  lemma BeginKeepsLane(s: State, j: nat, name: string)
    requires Inv(s) && Enabled(s, Begin(j))
    ensures LaneMatches(Apply(s, Begin(j)), name)
  {
    assert LaneMatches(s, name);
    BeginKeepsLists(s.jobs, j, s.LaneOf(name), name);
    if name == s.jobs[j].spec.LaneName() {
      BeginIsLegalInLane(s, j);
      Lanes.NextKeepsInv(s.LaneOf(name), Lanes.Arrive(s.jobs[j].spec.Ticket(j)));
    }
  }

  lemma BeginKeepsJob(s: State, j: nat, k: nat)
    requires Inv(s) && Enabled(s, Begin(j)) && k < |s.jobs|
    ensures JobMatches(Apply(s, Begin(j)), k)
  {
    assert JobMatches(s, k);
    var h, h' := s.LaneOf(s.jobs[j].spec.LaneName()).lane, Apply(s, Begin(j)).LaneOf(s.jobs[j].spec.LaneName()).lane;
    if h'.waiters != h.waiters {
      assert h'.waiters[|h.waiters|] == s.jobs[j].spec.Ticket(j);
    }
    forall t | t in h.waiters ensures t in h'.waiters {}
  }

  /** The waiters left behind, and the one that was first. */
  lemma TailOfWaiters(waiters: seq<Lanes.Ticket>)
    requires waiters != []
    requires forall i, j | 0 <= i < j < |waiters| :: waiters[i].job != waiters[j].job
    ensures waiters[0] in waiters
    ensures forall t :: t in waiters[1..] <==> t in waiters && t.job != waiters[0].job
  {
    forall t | t in waiters && t.job != waiters[0].job ensures t in waiters[1..] {
      var i :| 0 <= i < |waiters| && waiters[i] == t;
      assert waiters[1..][i - 1] == t;
    }
    forall t | t in waiters[1..] ensures t.job != waiters[0].job {
      var i :| 0 <= i < |waiters[1..]| && waiters[1..][i] == t;
      assert waiters[i + 1] == t;
    }
  }

  lemma LeaveKeepsLists(jobs: seq<Job>, j: nat, mine: Lanes.History, h: Lanes.History, name: string)
    requires j < |jobs| && jobs[j].phase.Leaving?
    requires Lanes.Inv(mine) && LaneListsJobs(jobs, mine, jobs[j].spec.LaneName()) && j in mine.running
    requires LaneListsJobs(jobs, h, name)
    requires name == jobs[j].spec.LaneName() ==> h == mine
    ensures LaneListsJobs(JobsAfterLeave(jobs, j, mine.lane.waiters),
                          if name == jobs[j].spec.LaneName() then Lanes.Next(h, Lanes.Finish(j)) else h, name)
  {
    if mine.lane.waiters != [] {
      TailOfWaiters(mine.lane.waiters);
    }
  }

  lemma LeaveKeepsLane(s: State, j: nat, name: string)
    requires Inv(s) && Enabled(s, Leave(j))
    ensures LaneMatches(Apply(s, Leave(j)), name)
  {
    var mine := s.jobs[j].spec.LaneName();
    assert LaneMatches(s, name) && LaneMatches(s, mine) && JobMatches(s, j);
    LeaveKeepsLists(s.jobs, j, s.LaneOf(mine), s.LaneOf(name), name);
    if name == mine {
      Lanes.NextKeepsInv(s.LaneOf(name), Lanes.Finish(j));
    }
  }

  lemma LeaveKeepsJob(s: State, j: nat, k: nat)
    requires Inv(s) && Enabled(s, Leave(j)) && k < |s.jobs|
    ensures JobMatches(Apply(s, Leave(j)), k)
  {
    var mine := s.jobs[j].spec.LaneName();
    assert LaneMatches(s, mine) && JobMatches(s, j) && JobMatches(s, k);
    if s.LaneOf(mine).lane.waiters != [] {
      TailOfWaiters(s.LaneOf(mine).lane.waiters);
    }
  }

  lemma StepKeepsInv(s: State, step: Step)
    requires Inv(s) && Enabled(s, step)
    ensures Inv(Apply(s, step))
  {
    match step {
      case Begin(j) =>
        forall name ensures LaneMatches(Apply(s, step), name) { BeginKeepsLane(s, j, name); }
        forall k: nat | k < |s.jobs| ensures JobMatches(Apply(s, step), k) { BeginKeepsJob(s, j, k); }
      case Leave(j) =>
        forall name ensures LaneMatches(Apply(s, step), name) { LeaveKeepsLane(s, j, name); }
        forall k: nat | k < |s.jobs| ensures JobMatches(Apply(s, step), k) { LeaveKeepsJob(s, j, k); }
      case _ =>
        forall name ensures LaneMatches(Apply(s, step), name) { PhaseStepKeepsLane(s, step, name); }
        forall k: nat | k < |s.jobs| ensures JobMatches(Apply(s, step), k) { PhaseStepKeepsJob(s, step, k); }
    }
  }

  lemma {:induction false} RunKeepsInv(s: State, steps: seq<Step>)
    requires Inv(s) && Legal(s, steps)
    ensures Inv(After(s, steps))
    decreases |steps|
  {
    if steps != [] {
      StepKeepsInv(s, steps[0]);
      RunKeepsInv(Apply(s, steps[0]), steps[1..]);
    }
  }

  /** Over every run, each lane's counter is the number of jobs that hold the lane. */
  lemma CounterCountsHolders(s: State, steps: seq<Step>, name: string)
    requires Init(s) && Legal(s, steps)
    ensures var s' := After(s, steps);
      s'.LaneOf(name).lane.active == |set j: nat | j < |s'.jobs| && s'.jobs[j].HoldsLane() && s'.jobs[j].spec.LaneName() == name|
  {
    InitInv(s);
    RunKeepsInv(s, steps);
    var s' := After(s, steps);
    assert LaneMatches(s', name);
    assert forall j: nat | j < |s'.jobs| :: JobMatches(s', j);
    var holders := set j: nat | j < |s'.jobs| && s'.jobs[j].HoldsLane() && s'.jobs[j].spec.LaneName() == name;
    forall j: nat ensures j in s'.LaneOf(name).running <==> j in holders {
      assert j < |s'.jobs| ==> JobMatches(s', j);
    }
    assert s'.LaneOf(name).running == holders;
  }

  // ---------------------------------------------------------------- no deadlock

  function Rank(phase: Phase): nat {
    match phase
    case Queued => 8
    case LaneWait => 7
    case Sleeping => 6
    case Acquiring => 5
    case Body(_) => 4
    case Deleting(_, _) => 3
    case Leaving(_) => 1
    case Done => 0
  }

  function Cost(job: Job): nat {
    if job.phase.Done? then 0 else 10 * job.left + Rank(job.phase)
  }

  function Work(jobs: seq<Job>): nat {
    if jobs == [] then 0 else Work(jobs[..|jobs| - 1]) + Cost(jobs[|jobs| - 1])
  }

  /** Time until the most recent lock has expired. */
  function Wait(s: State): nat {
    if s.lastTaken + TTL <= s.now then 0 else s.lastTaken + TTL - s.now
  }

  predicate Decreases(s: State, s': State) {
    Work(s'.jobs) < Work(s.jobs) || (Work(s'.jobs) == Work(s.jobs) && Wait(s') < Wait(s))
  }

  lemma {:induction false} WorkUpdate(jobs: seq<Job>, j: nat, job: Job)
    requires j < |jobs|
    ensures Work(jobs[j := job]) == Work(jobs) - Cost(jobs[j]) + Cost(job)
  {
    var n, jobs' := |jobs| - 1, jobs[j := job];
    if j == n {
      assert jobs'[..n] == jobs[..n];
    } else {
      WorkUpdate(jobs[..n], j, job);
      assert jobs'[..n] == jobs[..n][j := job];
    }
  }

  ghost predicate UsefulLimits(s: State) {
    forall j | 0 <= j < |s.jobs| :: Lanes.Limit(s.jobs[j].spec.queue) >= 1
  }

  /** The step that a job which is neither queued, waiting for its lane nor done can make. */
  function OwnStep(s: State, j: nat): Step
    requires j < |s.jobs| && s.jobs[j].HoldsLane()
  {
    match s.jobs[j].phase
    case Acquiring => TryLock(j)
    case Sleeping => Wake(j)
    case Body(_) => EndBody(j, true)
    case Deleting(_, _) => DeleteLock(j, true)
    case _ => Leave(j)
  }

  lemma LeaveDecreases(s: State, j: nat)
    requires Inv(s) && j < |s.jobs| && s.jobs[j].phase.Leaving?
    ensures Enabled(s, Leave(j)) && Decreases(s, Apply(s, Leave(j)))
  {
    var after, name := AfterAttempt(s.jobs[j]), s.jobs[j].spec.LaneName();
    assert JobMatches(s, j) && LaneMatches(s, name);
    WorkUpdate(s.jobs, j, after);
    var waiters := s.LaneOf(name).lane.waiters;
    if waiters != [] {
      assert waiters[0] in waiters;
      var w := waiters[0].job;
      WorkUpdate(s.jobs[j := after], w, s.jobs[w].(phase := Acquiring));
    }
  }

  lemma OwnStepDecreases(s: State, j: nat)
    requires Inv(s) && j < |s.jobs| && s.jobs[j].HoldsLane()
    requires s.jobs[j].phase.Acquiring? ==>
      s.jobs[j].spec.LockName().None? || s.Free(s.jobs[j].spec.LockName().value)
    ensures Enabled(s, OwnStep(s, j)) && Decreases(s, Apply(s, OwnStep(s, j)))
  {
    if s.jobs[j].phase.Leaving? {
      LeaveDecreases(s, j);
    } else {
      assert JobMatches(s, j);
      WorkUpdate(s.jobs, j, Apply(s, OwnStep(s, j)).jobs[j]);
    }
  }

  /** A held lane has a job in it that can move on: itself, or, by time, the lock it waits for. */
  lemma HolderProgress(s: State, j: nat) returns (step: Step)
    requires Inv(s) && j < |s.jobs| && s.jobs[j].HoldsLane()
    ensures step == OwnStep(s, j) || step == Tick(1)
    ensures Enabled(s, step) && !step.TryLockError? && Decreases(s, Apply(s, step))
  {
    var job := s.jobs[j];
    if job.phase.Acquiring? && job.spec.LockName().Some? && !s.Free(job.spec.LockName().value) {
      step := Tick(1);
    } else {
      OwnStepDecreases(s, j);
      step := OwnStep(s, j);
    }
  }

  /** A job waits for its lane only while another one holds it, since nobody waits below its own limit. */
  lemma WaiterHasHolder(s: State, k: nat) returns (r: nat)
    requires Inv(s) && UsefulLimits(s) && k < |s.jobs| && s.jobs[k].phase.LaneWait?
    ensures r < |s.jobs| && s.jobs[r].HoldsLane() && s.jobs[r].spec.LaneName() == s.jobs[k].spec.LaneName()
  {
    assert JobMatches(s, k) && LaneMatches(s, s.jobs[k].spec.LaneName());
    var running := s.LaneOf(s.jobs[k].spec.LaneName()).running;
    assert |running| >= 1;
    r :| r in running;
  }

  /**
   * The lane and the lock compose without deadlock: while a job is unfinished, some step that is
   * not an error is enabled and brings the end nearer.
   */
  lemma Progress(s: State) returns (step: Step)
    requires Inv(s) && UsefulLimits(s) && !s.AllDone()
    ensures Enabled(s, step) && !step.TryLockError? && Decreases(s, Apply(s, step))
  {
    if k: nat :| k < |s.jobs| && s.jobs[k].phase.LaneWait? {
      var r := WaiterHasHolder(s, k);
      step := HolderProgress(s, r);
    } else if k: nat :| k < |s.jobs| && s.jobs[k].HoldsLane() {
      step := HolderProgress(s, k);
    } else {
      var j :| 0 <= j < |s.jobs| && !s.jobs[j].phase.Done?;
      assert JobMatches(s, j);
      assert InFlightJobs(s) == {};
      step := Begin(j);
      WorkUpdate(s.jobs, j, Apply(s, step).jobs[j]);
    }
  }

  lemma SameJobs(s: State, step: Step)
    requires Inv(s) && Enabled(s, step) && UsefulLimits(s)
    ensures UsefulLimits(Apply(s, step))
  {
    var s' := Apply(s, step);
    assert |s'.jobs| == |s.jobs|;
    assert forall j | 0 <= j < |s.jobs| :: s'.jobs[j].spec == s.jobs[j].spec;
  }

  /** From every reachable state all jobs can still be finished, without any Redis error. */
  lemma {:induction false} CanAlwaysFinish(s: State) returns (rest: seq<Step>)
    requires Inv(s) && UsefulLimits(s)
    ensures Legal(s, rest) && After(s, rest).AllDone()
    ensures forall step | step in rest :: !step.TryLockError?
    decreases Work(s.jobs), Wait(s)
  {
    if s.AllDone() {
      rest := [];
    } else {
      var step := Progress(s);
      StepKeepsInv(s, step);
      SameJobs(s, step);
      var more := CanAlwaysFinish(Apply(s, step));
      rest := [step] + more;
      assert rest[1..] == more;
    }
  }

  lemma EmptyOrMember(waiters: seq<Lanes.Ticket>)
    ensures waiters == [] || exists t :: t in waiters
  {
    if waiters != [] {
      assert waiters[0] in waiters;
    }
  }

  /** When all jobs are done every granted slot has been given back and nobody is left waiting. */
  lemma FinishedLanesAreIdle(s: State, steps: seq<Step>, name: string)
    requires Init(s) && Legal(s, steps) && After(s, steps).AllDone()
    ensures After(s, steps).LaneOf(name).lane == Lanes.IDLE
  {
    InitInv(s);
    RunKeepsInv(s, steps);
    var s' := After(s, steps);
    var h := s'.LaneOf(name);
    assert LaneMatches(s', name);
    assert h.running == {};
    EmptyOrMember(h.lane.waiters);
  }

  // ---------------------------------------------------------------- mutual exclusion

  /** No job keeps its lock (body and delete included) until the lock has expired. */
  ghost predicate Timely(s: State) {
    forall j | 0 <= j < |s.jobs| && s.jobs[j].Locked() :: s.now < s.jobs[j].Since() + TTL
  }

  ghost predicate AlwaysTimely(s: State, steps: seq<Step>)
    requires Legal(s, steps)
    decreases |steps|
  {
    Timely(s) && (steps == [] || AlwaysTimely(Apply(s, steps[0]), steps[1..]))
  }

  ghost predicate OwnsItsLock(s: State, j: nat)
    requires j < |s.jobs|
  {
    var job := s.jobs[j];
    job.Locked() ==>
      job.spec.LockName().value in s.locks && s.locks[job.spec.LockName().value] == Lock(Some(j), job.Since())
  }

  /** An acquire that ends in an error lets its body in; this one has set the key all the same. */
  predicate TakesItsLock(s: State, step: Step)
    requires Enabled(s, step)
  {
    step.TryLockError? ==> step.applied && s.Free(s.jobs[step.job].spec.LockName().value)
  }

  predicate AlwaysTakesItsLock(s: State, steps: seq<Step>)
    requires Legal(s, steps)
    decreases |steps|
  {
    steps == [] || (TakesItsLock(s, steps[0]) && AlwaysTakesItsLock(Apply(s, steps[0]), steps[1..]))
  }

  lemma StepKeepsOwnership(s: State, step: Step, j: nat)
    requires Inv(s) && Timely(s) && Enabled(s, step) && TakesItsLock(s, step) && j < |s.jobs|
    requires OwnsItsLock(s, j) && (!step.Tick? ==> OwnsItsLock(s, step.job))
    ensures OwnsItsLock(Apply(s, step), j)
  {
    assert JobMatches(s, j);
    if !step.Tick? {
      assert JobMatches(s, step.job);
      if step.Leave? {
        assert LaneMatches(s, s.jobs[step.job].spec.LaneName());
        var waiters := s.LaneOf(s.jobs[step.job].spec.LaneName()).lane.waiters;
        assert waiters != [] ==> waiters[0] in waiters;
      }
    }
  }

  lemma {:induction false} RunKeepsOwnership(s: State, steps: seq<Step>)
    requires Inv(s) && Legal(s, steps) && AlwaysTimely(s, steps) && AlwaysTakesItsLock(s, steps)
    requires forall j: nat | j < |s.jobs| :: OwnsItsLock(s, j)
    ensures forall j: nat | j < |After(s, steps).jobs| :: OwnsItsLock(After(s, steps), j)
    decreases |steps|
  {
    if steps != [] {
      forall j: nat | j < |s.jobs| ensures OwnsItsLock(Apply(s, steps[0]), j) {
        StepKeepsOwnership(s, steps[0], j);
      }
      StepKeepsInv(s, steps[0]);
      RunKeepsOwnership(Apply(s, steps[0]), steps[1..]);
    }
  }

  predicate InBodyOf(job: Job, task: string, key: string) {
    job.phase.Body? && job.spec.task == task && job.spec.concurrencyKey == key
  }

  /** A job with a concurrency key enters its body only through the lock. */
  ghost predicate EntersLocked(job: Job) {
    job.phase.Body? && job.spec.LockName().Some? ==> job.phase.lockedAt.Some?
  }

  lemma {:induction false} BodiesAreLocked(s: State, steps: seq<Step>)
    requires Legal(s, steps)
    requires forall j | 0 <= j < |s.jobs| :: EntersLocked(s.jobs[j])
    ensures forall j | 0 <= j < |After(s, steps).jobs| :: EntersLocked(After(s, steps).jobs[j])
    decreases |steps|
  {
    if steps != [] {
      BodiesAreLocked(Apply(s, steps[0]), steps[1..]);
    }
  }

  /**
   * With no Redis error that lets a body in without its key, and every lock released before its TTL,
   * at most one body per task and concurrency key runs at any time.
   */
  lemma MutualExclusion(s: State, steps: seq<Step>, task: string, key: string, i: nat, j: nat)
    requires Init(s) && Legal(s, steps) && AlwaysTimely(s, steps) && AlwaysTakesItsLock(s, steps)
    requires key != "" && i < |After(s, steps).jobs| && j < |After(s, steps).jobs|
    requires InBodyOf(After(s, steps).jobs[i], task, key) && InBodyOf(After(s, steps).jobs[j], task, key)
    ensures i == j
  {
    InitInv(s);
    RunKeepsOwnership(s, steps);
    BodiesAreLocked(s, steps);
    var s' := After(s, steps);
    assert OwnsItsLock(s', i) && OwnsItsLock(s', j);
  }

  /** Two queued jobs of one task and key on a lane with room for both. */
  function TwoRivals(): State {
    var spec := Spec("sync", Some(Lanes.Queue("sync", Some(2))), "tenant");
    State(0, 0, [Job(spec, 1, Queued), Job(spec, 1, Queued)], map[], map[])
  }

  ghost predicate Overlap(s: State) {
    && |s.jobs| == 2
    && InBodyOf(s.jobs[0], "sync", "tenant") && InBodyOf(s.jobs[1], "sync", "tenant")
  }

  lemma {:induction false} Extend(s: State, steps: seq<Step>, step: Step)
    requires Legal(s, steps) && Enabled(After(s, steps), step)
    ensures Legal(s, steps + [step]) && After(s, steps + [step]) == Apply(After(s, steps), step)
    decreases |steps|
  {
    if steps != [] {
      Extend(Apply(s, steps[0]), steps[1..], step);
      assert (steps + [step])[1..] == steps[1..] + [step];
    } else {
      assert [] + [step] == [step] && [step][1..] == [];
    }
  }

  lemma FirstLocks() returns (steps: seq<Step>)
    ensures Legal(TwoRivals(), steps) && (forall step | step in steps :: !step.TryLockError?)
    ensures var s := After(TwoRivals(), steps);
      && s == Apply(Apply(TwoRivals(), Begin(0)), TryLock(0))
      && s.jobs == [TwoRivals().jobs[0].(phase := Body(Some(0))), TwoRivals().jobs[1]]
  {
    var s := TwoRivals();
    assert InFlightJobs(s) == {};
    Extend(s, [], Begin(0));
    Extend(s, [] + [Begin(0)], TryLock(0));
    steps := [] + [Begin(0)] + [TryLock(0)];
  }

  /** The first rival is in its body and the second is about to ask for the lock. */
  lemma BothBegin() returns (steps: seq<Step>)
    ensures Init(TwoRivals()) && Legal(TwoRivals(), steps)
    ensures forall step | step in steps :: !step.TryLockError?
    ensures var s := After(TwoRivals(), steps);
      && s.now == 0 && s.locks == map[TwoRivals().jobs[0].spec.LockName().value := Lock(Some(0), 0)]
      && s.jobs == [TwoRivals().jobs[0].(phase := Body(Some(0))), TwoRivals().jobs[1].(phase := Acquiring)]
  {
    var first := FirstLocks();
    assert InFlightJobs(After(TwoRivals(), first)) == {0};
    Extend(TwoRivals(), first, Begin(1));
    steps := first + [Begin(1)];
  }

  /** Both conditions are needed. A body that outlives its lock lets the next one in ... */
  lemma OverrunBreaksExclusion() returns (steps: seq<Step>)
    ensures Init(TwoRivals()) && Legal(TwoRivals(), steps) && Overlap(After(TwoRivals(), steps))
    ensures forall step | step in steps :: !step.TryLockError?
  {
    var both := BothBegin();
    Extend(TwoRivals(), both, Tick(TTL));
    Extend(TwoRivals(), both + [Tick(TTL)], TryLock(1));
    steps := both + [Tick(TTL)] + [TryLock(1)];
  }

  /** ... and so does one Redis error while acquiring, since the lock fails open. */
  lemma ErrorBreaksExclusion() returns (steps: seq<Step>)
    ensures Init(TwoRivals()) && Legal(TwoRivals(), steps) && Overlap(After(TwoRivals(), steps))
    ensures After(TwoRivals(), steps).now == 0
  {
    var both := BothBegin();
    Extend(TwoRivals(), both, TryLockError(1, false));
    steps := both + [TryLockError(1, false)];
  }

  lemma {:induction false} PrefixIsLegal(s: State, steps: seq<Step>, k: nat)
    requires Legal(s, steps) && k <= |steps|
    ensures Legal(s, steps[..k])
    decreases k
  {
    if k > 0 {
      PrefixIsLegal(Apply(s, steps[0]), steps[1..], k - 1);
      assert steps[..k][1..] == steps[1..][..k - 1];
    }
  }

  /** The k-th step of a run is an acquire by this job, made at this time. */
  ghost predicate AcquiresAt(s: State, steps: seq<Step>, k: nat, job: nat, time: int) {
    && Legal(s, steps) && k < |steps|
    && (steps[k].TryLock? || steps[k].TryLockError?) && steps[k].job == job
    && Legal(s, steps[..k]) && After(s, steps[..k]).now == time
  }

  lemma AcquiresLater(s: State, steps: seq<Step>, k: nat, job: nat, time: int)
    requires steps != [] && Legal(s, steps) && AcquiresAt(Apply(s, steps[0]), steps[1..], k, job, time)
    ensures AcquiresAt(s, steps, k + 1, job, time)
  {
    PrefixIsLegal(s, steps, k + 1);
    assert steps[..k + 1][1..] == steps[1..][..k];
  }

  /** A lock key that is set after a run was set before it, or by an acquire of its owner at that very time. */
  lemma {:induction false} LocksComeFromAcquires(s: State, steps: seq<Step>, lock: string)
    requires Legal(s, steps) && lock in After(s, steps).locks
    ensures var held := After(s, steps).locks[lock];
      || (lock in s.locks && s.locks[lock] == held)
      || (held.owner.Some? && exists k: nat :: AcquiresAt(s, steps, k, held.owner.value, held.since))
    decreases |steps|
  {
    if steps != [] {
      var next, held := Apply(s, steps[0]), After(s, steps).locks[lock];
      LocksComeFromAcquires(next, steps[1..], lock);
      if lock in next.locks && next.locks[lock] == held {
        if !(lock in s.locks && s.locks[lock] == held) {
          PrefixIsLegal(s, steps, 0);
          assert AcquiresAt(s, steps, 0, held.owner.value, held.since);
        }
      } else {
        var k: nat :| AcquiresAt(next, steps[1..], k, held.owner.value, held.since);
        AcquiresLater(s, steps, k, held.owner.value, held.since);
      }
    }
  }

  /**
   * A key that is not free was taken less than four hours ago: by an acquire of this run, at the time the key
   * carries, or by a process that crashed before it. So neither a crash nor a failed delete locks anyone
   * out for longer.
   */
  lemma NoLockOutlivesTTL(s: State, steps: seq<Step>, lock: string)
    requires Init(s) && Legal(s, steps) && !After(s, steps).Free(lock)
    ensures var s' := After(s, steps);
      && s'.now - 14_400_000 < s'.locks[lock].since <= s'.now
      && match s'.locks[lock].owner
         case None => lock in s.locks && s.locks[lock] == s'.locks[lock]
         case Some(j) => exists k: nat :: AcquiresAt(s, steps, k, j, s'.locks[lock].since)
  {
    InitInv(s);
    RunKeepsInv(s, steps);
    LocksComeFromAcquires(s, steps, lock);
  }
}

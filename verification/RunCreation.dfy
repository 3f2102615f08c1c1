/**
 * Creating runs under one idempotency key: several callers, one Redis key with a lifetime, the
 * table of run rows and the job queue.
 *
 * Every awaited effect of a call is one step, so calls may overlap anywhere. Each caller's fresh
 * run id is its own index, which makes ids distinct as the random ids of the runtime are.
 */
module RunCreation {
  import opened Outcomes

  datatype Call =
    | Start
    | LostClaim
    | Found(winner: Option<nat>)
    | TakingOver
    | Inserting
    | Enqueuing
    | Returned(run: nat)
    | Threw
  {
    predicate Ended() { Start? || Returned? || Threw? }
  }

  datatype Entry = Entry(run: nat, expires: int)

  datatype State = State(
    now: int, ttl: int, key: Option<Entry>, rows: set<nat>, jobs: seq<nat>, calls: seq<Call>)
  {
    predicate Free() { key.None? || key.value.expires <= now }
  }

  datatype Step =
    | Claim(call: nat)
    | ClaimFails(call: nat, effect: bool)
    | ReadKey(call: nat)
    | ReadKeyFails(call: nat)
    | ReadRow(call: nat)
    | ReadRowFails(call: nat)
    | TakeOver(call: nat)
    | TakeOverFails(call: nat)
    | Insert(call: nat)
    | InsertFails(call: nat, effect: bool)
    | Enqueue(call: nat)
    | EnqueueFails(call: nat)
    | Tick(ms: nat)
  {
    predicate IsFailure() {
      ClaimFails? || ReadKeyFails? || ReadRowFails? || TakeOverFails? || InsertFails? || EnqueueFails?
    }
  }

  predicate Init(s: State) {
    && s.now == 0 && s.ttl > 0 && s.key == None && s.rows == {} && s.jobs == []
    && forall c | 0 <= c < |s.calls| :: s.calls[c] == Start
  }

  predicate Enabled(s: State, step: Step) {
    if step.Tick? then true else
    step.call < |s.calls| && var call := s.calls[step.call];
    match step
    case Claim(_) => call.Start?
    case ClaimFails(_, _) => call.Start?
    case ReadKey(_) => call.LostClaim?
    case ReadKeyFails(_) => call.LostClaim?
    case ReadRow(_) => call.Found? && call.winner.Some?
    case ReadRowFails(_) => call.Found?
    case TakeOver(_) => call.TakingOver? || (call.Found? && call.winner.None?)
    case TakeOverFails(_) => call.TakingOver? || (call.Found? && call.winner.None?)
    case Insert(_) => call.Inserting?
    case InsertFails(_, _) => call.Inserting?
    case Enqueue(_) => call.Enqueuing?
    case EnqueueFails(_) => call.Enqueuing?
  }

  function At(s: State, c: nat, call: Call): State
    requires c < |s.calls|
  {
    s.(calls := s.calls[c := call])
  }

  function Owned(s: State, c: nat): State {
    s.(key := Some(Entry(c, s.now + s.ttl)))
  }

  function Apply(s: State, step: Step): State
    requires Enabled(s, step)
  {
    if step.Tick? then s.(now := s.now + step.ms) else
    var c, call := step.call, s.calls[step.call];
    match step
    case Claim(_) => if s.Free() then At(Owned(s, c), c, Inserting) else At(s, c, LostClaim)
    case ClaimFails(_, effect) => At(if effect && s.Free() then Owned(s, c) else s, c, LostClaim)
    case ReadKey(_) => At(s, c, Found(if s.Free() then None else Some(s.key.value.run)))
    case ReadKeyFails(_) => At(s, c, Found(None))
    case ReadRow(_) => At(s, c, if call.winner.value in s.rows then Returned(call.winner.value) else TakingOver)
    case ReadRowFails(_) => At(s, c, TakingOver)
    case TakeOver(_) => At(Owned(s, c), c, Inserting)
    case TakeOverFails(_) => At(s, c, Inserting)
    case Insert(_) => At(s.(rows := s.rows + {c}), c, Enqueuing)
    case InsertFails(_, effect) => At(if effect then s.(rows := s.rows + {c}) else s, c, Enqueuing)
    case Enqueue(_) => At(s.(jobs := s.jobs + [c]), c, Returned(c))
    case EnqueueFails(_) => At(s, c, Threw)
  }

  predicate Legal(s: State, steps: seq<Step>)
    decreases |steps|
  {
    steps == [] || (Enabled(s, steps[0]) && Legal(Apply(s, steps[0]), steps[1..]))
  }

  function After(s: State, steps: seq<Step>): State
    requires Legal(s, steps)
    decreases |steps|
  {
    if steps == [] then s else After(Apply(s, steps[0]), steps[1..])
  }

  // ---------------------------------------------------------------- one run per key, exactly when

  predicate MakesRun(call: Call, c: nat) {
    call.Inserting? || call.Enqueuing? || call == Returned(c)
  }

  predicate NoFailure(steps: seq<Step>) {
    forall step | step in steps :: !step.IsFailure()
  }

  predicate NoTakeOver(steps: seq<Step>) {
    forall step | step in steps :: !step.TakeOver?
  }

  /** A run id that some call holds: the call with that id makes a run. */
  predicate KnownMaker(s: State, run: nat) {
    run < |s.calls| && MakesRun(s.calls[run], run)
  }

  /** Without a failure, a call is in the queue exactly when it has returned its own run. */
  ghost predicate JobsFit(s: State) {
    && s.now >= 0 && s.ttl > 0
    && (s.key.Some? ==> KnownMaker(s, s.key.value.run))
    && (forall c: nat | c < |s.calls| && s.calls[c].Found? && s.calls[c].winner.Some? ::
          c != s.calls[c].winner.value && KnownMaker(s, s.calls[c].winner.value))
    && (forall c: nat | c < |s.calls| :: c in s.jobs <==> s.calls[c] == Returned(c))
    && (forall c: nat | c < |s.calls| && (s.calls[c].Enqueuing? || s.calls[c] == Returned(c)) :: c in s.rows)
    && (forall c | c in s.jobs :: c < |s.calls|)
    && (forall i, j | 0 <= i < j < |s.jobs| :: s.jobs[i] != s.jobs[j])
    && (forall c: nat | c < |s.calls| :: !s.calls[c].Threw?)
  }

  /** Before any take-over: the key belongs to the one caller that makes a run. */
  ghost predicate OneMaker(s: State) {
    && JobsFit(s)
    && match s.key
       case None => s.rows == {} && forall c | 0 <= c < |s.calls| :: s.calls[c].Start?
       case Some(e) =>
         && e.expires >= s.ttl
         && forall c: nat | c < |s.calls| && c != e.run ::
              match s.calls[c]
              case Start => true
              case LostClaim => true
              case Found(w) => w == Some(e.run)
              case TakingOver => true
              case Returned(r) => r == e.run
              case _ => false
  }

  lemma StepKeepsJobs(s: State, step: Step)
    requires JobsFit(s) && Enabled(s, step) && !step.IsFailure()
    ensures JobsFit(Apply(s, step))
    ensures forall c | KnownMaker(s, c) :: KnownMaker(Apply(s, step), c)
  {
    var s' := Apply(s, step);
    if step.Enqueue? {
      assert s'.jobs[|s.jobs|] == step.call;
      assert forall j | j in s.jobs :: j in s'.jobs;
    }
  }

  lemma StepKeepsOneMaker(s: State, step: Step)
    requires OneMaker(s) && Enabled(s, step) && !step.IsFailure() && !step.TakeOver? && s.now < s.ttl
    ensures OneMaker(Apply(s, step))
  {
    StepKeepsJobs(s, step);
  }

  /** The clock only moves forward. */
  lemma {:induction false} ClockMonotone(s: State, steps: seq<Step>)
    requires Legal(s, steps)
    ensures After(s, steps).now >= s.now && After(s, steps).ttl == s.ttl
    decreases |steps|
  {
    if steps != [] {
      ClockMonotone(Apply(s, steps[0]), steps[1..]);
    }
  }

  lemma {:induction false} RunKeepsOneMaker(s: State, steps: seq<Step>)
    requires OneMaker(s) && Legal(s, steps) && NoFailure(steps) && NoTakeOver(steps)
    requires After(s, steps).now < s.ttl
    ensures OneMaker(After(s, steps))
    decreases |steps|
  {
    if steps != [] {
      ClockMonotone(s, steps);
      ClockMonotone(Apply(s, steps[0]), steps[1..]);
      StepKeepsOneMaker(s, steps[0]);
      RunKeepsOneMaker(Apply(s, steps[0]), steps[1..]);
    }
  }

  /** Every caller that has taken the key over goes on to make a run of its own. */
  ghost predicate MakersFit(s: State, makers: set<nat>) {
    JobsFit(s) && forall c | c in makers :: KnownMaker(s, c)
  }

  lemma {:induction false} MakersStay(s: State, makers: set<nat>, steps: seq<Step>)
    requires MakersFit(s, makers) && Legal(s, steps) && NoFailure(steps)
    ensures MakersFit(After(s, steps), makers)
    decreases |steps|
  {
    if steps != [] {
      assert steps[0] in steps;
      StepKeepsJobs(s, steps[0]);
      MakersStay(Apply(s, steps[0]), makers, steps[1..]);
    }
  }

  /**
   * Without failures and within the key's lifetime, all ended calls of an overlapping run return one
   * and the same run, with one job behind it, exactly when no call took the key over.
   */
  lemma OneRunIffNoTakeOver(s: State, steps: seq<Step>)
    requires Init(s) && Legal(s, steps) && NoFailure(steps) && After(s, steps).now < s.ttl
    requires forall c | 0 <= c < |After(s, steps).calls| :: After(s, steps).calls[c].Ended()
    requires exists c :: 0 <= c < |After(s, steps).calls| && After(s, steps).calls[c].Returned?
    ensures |After(s, steps).jobs| == 1 <==> NoTakeOver(steps)
    ensures NoTakeOver(steps) ==>
      forall c | 0 <= c < |After(s, steps).calls| && After(s, steps).calls[c].Returned? ::
        After(s, steps).calls[c].run == After(s, steps).jobs[0]
  {
    var s' := After(s, steps);
    if NoTakeOver(steps) {
      RunKeepsOneMaker(s, steps);
      var e := s'.key.value;
      assert e.run in s'.jobs;
      OnlyMember(s'.jobs, e.run);
    } else {
      var a, b := TwoMakers(s, steps);
      MakersAreJobs(s', {a, b}, a);
      MakersAreJobs(s', {a, b}, b);
    }
  }

  lemma MakersAreJobs(s: State, makers: set<nat>, c: nat)
    requires MakersFit(s, makers) && c in makers && s.calls[c].Ended()
    ensures c in s.jobs
  {}

  lemma OnlyMember(jobs: seq<nat>, x: nat)
    requires x in jobs && (forall j | j in jobs :: j == x)
    requires forall i, j | 0 <= i < j < |jobs| :: jobs[i] != jobs[j]
    ensures jobs == [x]
  {
    assert jobs[0] in jobs && jobs[|jobs| - 1] in jobs;
  }

  /** The first take-over leaves two callers that both make a run. */
  lemma {:induction false} TwoMakers(s: State, steps: seq<Step>) returns (a: nat, b: nat)
    requires OneMaker(s) && Legal(s, steps) && NoFailure(steps) && !NoTakeOver(steps)
    requires After(s, steps).now < s.ttl
    ensures a != b && MakersFit(After(s, steps), {a, b})
    decreases |steps|
  {
    ClockMonotone(s, steps);
    ClockMonotone(Apply(s, steps[0]), steps[1..]);
    if steps[0].TakeOver? {
      a, b := s.key.value.run, steps[0].call;
      MakersStay(Apply(s, steps[0]), {a, b}, steps[1..]);
    } else {
      StepKeepsOneMaker(s, steps[0]);
      a, b := TwoMakers(Apply(s, steps[0]), steps[1..]);
    }
  }

  // ---------------------------------------------------------------- calls that do not overlap

  /** At most one call is under way in any state. */
  predicate Sequential(s: State, steps: seq<Step>)
    requires Legal(s, steps)
    decreases |steps|
  {
    && (forall c, d | 0 <= c < d < |s.calls| :: s.calls[c].Ended() || s.calls[d].Ended())
    && (steps == [] || Sequential(Apply(s, steps[0]), steps[1..]))
  }

  lemma {:induction false} SequentialNeverTakesOver(s: State, steps: seq<Step>)
    requires OneMaker(s) && Legal(s, steps) && NoFailure(steps) && Sequential(s, steps)
    requires forall c | 0 <= c < |s.calls| :: !s.calls[c].TakingOver?
    requires After(s, steps).now < s.ttl
    ensures NoTakeOver(steps)
    decreases |steps|
  {
    if steps != [] {
      ClockMonotone(s, steps);
      ClockMonotone(Apply(s, steps[0]), steps[1..]);
      StepKeepsOneMaker(s, steps[0]);
      SequentialNeverTakesOver(Apply(s, steps[0]), steps[1..]);
    }
  }

  /** Calls that do not overlap all return the same run and enqueue one job, within the key's lifetime. */
  lemma SequentialCallsShareOneRun(s: State, steps: seq<Step>)
    requires Init(s) && Legal(s, steps) && NoFailure(steps) && Sequential(s, steps)
    requires After(s, steps).now < s.ttl
    requires forall c | 0 <= c < |After(s, steps).calls| :: After(s, steps).calls[c].Ended()
    requires exists c :: 0 <= c < |After(s, steps).calls| && After(s, steps).calls[c].Returned?
    ensures |After(s, steps).jobs| == 1
    ensures forall c | 0 <= c < |After(s, steps).calls| && After(s, steps).calls[c].Returned? ::
      After(s, steps).calls[c].run == After(s, steps).jobs[0]
  {
    SequentialNeverTakesOver(s, steps);
    OneRunIffNoTakeOver(s, steps);
  }

  const TWO_CALLS: State := State(0, 1000, None, {}, [], [Start, Start])

  /** The second call loses the claim and finds the first one's key, but not yet its row. */
  lemma LoserLooksTooEarly() returns (steps: seq<Step>)
    ensures Legal(TWO_CALLS, steps) && NoFailure(steps)
    ensures After(TWO_CALLS, steps) == State(0, 1000, Some(Entry(0, 1000)), {}, [], [Inserting, TakingOver])
  {
    Extend(TWO_CALLS, [], Claim(0));
    Extend(TWO_CALLS, [] + [Claim(0)], Claim(1));
    var lost := [] + [Claim(0)] + [Claim(1)];
    Extend(TWO_CALLS, lost, ReadKey(1));
    Extend(TWO_CALLS, lost + [ReadKey(1)], ReadRow(1));
    steps := lost + [ReadKey(1)] + [ReadRow(1)];
  }

  /** Two overlapping calls do create two runs when the loser looks before the winner has inserted. */
  lemma OverlapCreatesTwoRuns() returns (steps: seq<Step>)
    ensures Init(TWO_CALLS) && Legal(TWO_CALLS, steps) && NoFailure(steps)
    ensures var s := After(TWO_CALLS, steps);
      s.now == 0 && s.calls == [Returned(0), Returned(1)] && s.jobs == [0, 1]
  {
    var early := LoserLooksTooEarly();
    Extend(TWO_CALLS, early, TakeOver(1));
    var first := Finish(TWO_CALLS, early + [TakeOver(1)], 0);
    steps := Finish(TWO_CALLS, first, 1);
  }

  lemma {:induction false} Extend(s: State, steps: seq<Step>, step: Step)
    requires Legal(s, steps) && Enabled(After(s, steps), step)
    ensures Legal(s, steps + [step]) && After(s, steps + [step]) == Apply(After(s, steps), step)
    decreases |steps|
  {
    if steps != [] {
      Extend(Apply(s, steps[0]), steps[1..], step);
      assert (steps + [step])[1..] == steps[1..] + [step];
    } else {
      assert [] + [step] == [step] && [step][1..] == [];
    }
  }

  /** A call that is about to insert goes on to insert and to enqueue. */
  lemma Finish(s: State, steps: seq<Step>, c: nat) returns (more: seq<Step>)
    requires Legal(s, steps) && Enabled(After(s, steps), Insert(c)) && NoFailure(steps)
    ensures Legal(s, more) && NoFailure(more)
    ensures var before := After(s, steps);
      After(s, more) == before.(rows := before.rows + {c}, jobs := before.jobs + [c], calls := before.calls[c := Returned(c)])
  {
    Extend(s, steps, Insert(c));
    Extend(s, steps + [Insert(c)], Enqueue(c));
    more := steps + [Insert(c)] + [Enqueue(c)];
    assert After(s, steps).calls[c := Enqueuing][c := Returned(c)] == After(s, steps).calls[c := Returned(c)];
  }

  // ---------------------------------------------------------------- when a call makes a new run

  lemma {:induction false} PrefixIsLegal(s: State, steps: seq<Step>, k: nat)
    requires Legal(s, steps) && k <= |steps|
    ensures Legal(s, steps[..k])
    decreases k
  {
    if k > 0 {
      PrefixIsLegal(Apply(s, steps[0]), steps[1..], k - 1);
      assert steps[..k][1..] == steps[1..][..k - 1];
    }
  }

  /**
   * The k-th step puts a call's run id under the key, at this time: a take-over, or a claim that wins,
   * even if the caller sees it fail.
   */
  ghost predicate SetsKeyAt(s: State, steps: seq<Step>, k: nat, time: int) {
    && k < |steps| && Legal(s, steps[..k]) && After(s, steps[..k]).now == time
    && Enabled(After(s, steps[..k]), steps[k])
    && (steps[k].TakeOver? ||
        ((steps[k].Claim? || (steps[k].ClaimFails? && steps[k].effect)) &&
         Apply(After(s, steps[..k]), Claim(steps[k].call)).calls[steps[k].call].Inserting?))
  }

  lemma SetsKeyLater(s: State, steps: seq<Step>, k: nat, time: int)
    requires steps != [] && Legal(s, steps) && k + 1 < |steps|
    ensures SetsKeyAt(Apply(s, steps[0]), steps[1..], k, time) <==> SetsKeyAt(s, steps, k + 1, time)
  {
    PrefixIsLegal(s, steps, k + 1);
    PrefixIsLegal(Apply(s, steps[0]), steps[1..], k);
    assert steps[..k + 1][1..] == steps[1..][..k];
  }

  ghost predicate WasSetAt(s: State, steps: seq<Step>, time: int) {
    exists k: nat :: SetsKeyAt(s, steps, k, time)
  }

  lemma FirstStepSets(s: State, steps: seq<Step>)
    requires steps != [] && Legal(s, steps)
    ensures SetsKeyAt(s, steps, 0, s.now) ==> Apply(s, steps[0]).key == Some(Entry(steps[0].call, s.now + s.ttl))
    ensures !SetsKeyAt(s, steps, 0, s.now) ==> Apply(s, steps[0]).key == s.key
  {
    assert steps[..0] == [];
  }

  /** A key that has changed expires one lifetime after it was set. */
  lemma {:induction false} KeyWasSet(s: State, steps: seq<Step>)
    requires Legal(s, steps) && After(s, steps).key != s.key
    ensures After(s, steps).key.Some? && WasSetAt(s, steps, After(s, steps).key.value.expires - s.ttl)
    decreases |steps|
  {
    var next, s' := Apply(s, steps[0]), After(s, steps);
    assert steps[0] in steps;
    FirstStepSets(s, steps);
    if s'.key != next.key {
      KeyWasSet(next, steps[1..]);
      var k: nat :| SetsKeyAt(next, steps[1..], k, s'.key.value.expires - s.ttl);
      SetsKeyLater(s, steps, k, s'.key.value.expires - s.ttl);
    } else {
      assert SetsKeyAt(s, steps, 0, s.now);
    }
  }

  /** And every time it is set it lives for one lifetime from then on. */
  lemma {:induction false} SetKeyLives(s: State, steps: seq<Step>)
    requires Legal(s, steps) && (s.key.Some? ==> s.key.value.expires <= s.now + s.ttl)
    ensures s.key.Some? ==> After(s, steps).key.Some? && After(s, steps).key.value.expires >= s.key.value.expires
    ensures forall k: nat, time | SetsKeyAt(s, steps, k, time) ::
              After(s, steps).key.Some? && After(s, steps).key.value.expires >= time + s.ttl
    decreases |steps|
  {
    if steps != [] {
      assert steps[0] in steps;
      FirstStepSets(s, steps);
      SetKeyLives(Apply(s, steps[0]), steps[1..]);
      forall k: nat, time | SetsKeyAt(s, steps, k, time)
        ensures After(s, steps).key.Some? && After(s, steps).key.value.expires >= time + s.ttl
      {
        if k > 0 {
          SetsKeyLater(s, steps, k - 1, time);
        } else {
          assert steps[..0] == [];
        }
      }
    }
  }

  /** A call makes a run of its own, without any wait, exactly if the key was last set a lifetime ago or more. */
  lemma ClaimWinsExactlyAfterTtl(s: State, steps: seq<Step>, c: nat)
    requires Init(s) && Legal(s, steps) && Enabled(After(s, steps), Claim(c))
    ensures Apply(After(s, steps), Claim(c)).calls[c].Inserting? <==>
      forall k: nat, time | SetsKeyAt(s, steps, k, time) :: time + s.ttl <= After(s, steps).now
  {
    SetKeyLives(s, steps);
    ClockMonotone(s, steps);
    if After(s, steps).key != s.key {
      KeyWasSet(s, steps);
      var k: nat :| SetsKeyAt(s, steps, k, After(s, steps).key.value.expires - s.ttl);
    }
  }

  function Ticks(steps: seq<Step>): nat {
    if steps == [] then 0 else (if steps[0].Tick? then steps[0].ms else 0) + Ticks(steps[1..])
  }

  /** Time passes in ticks only. */
  lemma {:induction false} TicksAddUp(s: State, steps: seq<Step>)
    requires Legal(s, steps)
    ensures After(s, steps).now == s.now + Ticks(steps)
    decreases |steps|
  {
    if steps != [] {
      TicksAddUp(Apply(s, steps[0]), steps[1..]);
    }
  }

  // ---------------------------------------------------------------- what failures do to a call

  /** What the calls, the rows and the queue say about each other, whatever fails. */
  ghost predicate AnswersFit(s: State) {
    && (forall c: nat | c < |s.calls| :: c in s.jobs <==> s.calls[c] == Returned(c))
    && (forall c | c in s.jobs :: c < |s.calls|)
    && (forall i, j | 0 <= i < j < |s.jobs| :: s.jobs[i] != s.jobs[j])
    && (forall c: nat | c < |s.calls| && s.calls[c].Returned? && s.calls[c].run != c :: s.calls[c].run in s.rows)
    && (forall c: nat | c < |s.calls| && c in s.rows :: s.calls[c].Enqueuing? || s.calls[c] == Returned(c) || s.calls[c].Threw?)
  }

  lemma StepKeepsAnswers(s: State, step: Step)
    requires AnswersFit(s) && Enabled(s, step)
    ensures AnswersFit(Apply(s, step))
  {
    var s' := Apply(s, step);
    if step.Enqueue? {
      assert s'.jobs[|s.jobs|] == step.call;
      assert forall j | j in s.jobs :: j in s'.jobs;
    }
  }

  /**
   * Whatever fails, each call that returns a run of its own has enqueued one job for it, a call that
   * returns another's run has seen its row, and only a failing enqueue makes a call throw.
   */
  lemma {:induction false} CallsKeepTheirWord(s: State, steps: seq<Step>)
    requires AnswersFit(s) && Legal(s, steps)
    ensures AnswersFit(After(s, steps)) && |After(s, steps).calls| == |s.calls|
    ensures forall c: nat | c < |s.calls| && After(s, steps).calls[c].Threw? && !s.calls[c].Threw? :: EnqueueFails(c) in steps
    decreases |steps|
  {
    if steps != [] {
      StepKeepsAnswers(s, steps[0]);
      CallsKeepTheirWord(Apply(s, steps[0]), steps[1..]);
      assert steps[0] in steps;
    }
  }

  /** A run's row exists exactly if its insert succeeded, or took effect although it failed. */
  lemma {:induction false} RowsFollowInserts(s: State, steps: seq<Step>, c: nat)
    requires Legal(s, steps)
    ensures c in After(s, steps).rows <==> c in s.rows || Insert(c) in steps || InsertFails(c, true) in steps
    decreases |steps|
  {
    if steps != [] {
      RowsFollowInserts(Apply(s, steps[0]), steps[1..], c);
      assert steps == [steps[0]] + steps[1..];
    }
  }

  /** What a call does next unless something fails. */
  function NextStep(s: State, c: nat): Step
    requires c < |s.calls|
  {
    match s.calls[c]
    case Start => Claim(c)
    case LostClaim => ReadKey(c)
    case Found(winner) => if winner.Some? then ReadRow(c) else TakeOver(c)
    case TakingOver => TakeOver(c)
    case Inserting => Insert(c)
    case _ => Enqueue(c)
  }

  /** A call that has not answered can always go on, and each of its effects can also fail. */
  lemma CallsGoOn(s: State, c: nat)
    requires c < |s.calls| && !s.calls[c].Returned? && !s.calls[c].Threw?
    ensures Enabled(s, NextStep(s, c)) && !NextStep(s, c).IsFailure()
    ensures match NextStep(s, c)
      case Claim(_) => forall effect :: Enabled(s, ClaimFails(c, effect))
      case ReadKey(_) => Enabled(s, ReadKeyFails(c))
      case ReadRow(_) => Enabled(s, ReadRowFails(c))
      case TakeOver(_) => Enabled(s, TakeOverFails(c))
      case Insert(_) => forall effect :: Enabled(s, InsertFails(c, effect))
      case _ => Enabled(s, EnqueueFails(c))
  {}

  /** From its start every call answers within six steps of its own, if none of them fails. */
  lemma {:induction false} CallsAnswer(s: State, c: nat) returns (steps: seq<Step>)
    requires c < |s.calls|
    ensures Legal(s, steps) && NoFailure(steps) && |steps| <= 6
    ensures c < |After(s, steps).calls| && (After(s, steps).calls[c].Returned? || After(s, steps).calls[c].Threw?)
    ensures |steps| <= StepsLeft(s.calls[c])
    decreases StepsLeft(s.calls[c])
  {
    if s.calls[c].Returned? || s.calls[c].Threw? {
      steps := [];
    } else {
      CallsGoOn(s, c);
      var rest := CallsAnswer(Apply(s, NextStep(s, c)), c);
      steps := [NextStep(s, c)] + rest;
      assert steps[1..] == rest;
    }
  }

  function StepsLeft(call: Call): nat {
    match call
    case Start => 6
    case LostClaim => 5
    case Found(_) => 4
    case TakingOver => 3
    case Inserting => 2
    case Enqueuing => 1
    case _ => 0
  }
}

/**
 * The promise chain of all runs, seen by one run, is the one-at-a-time queue of writes that the
 * model of a run's row works with.
 */
module RowQueue {
  import opened Outcomes
  import Chain = WriteChain
  import Rows = RunRows

  /** The number of promises that belong to this run. */
  function Count(promises: seq<Chain.Promise>, run: string): nat {
    if promises == [] then 0
    else Count(promises[..|promises| - 1], run) + (if promises[|promises| - 1].run == run then 1 else 0)
  }

  /** The place of a promise among those of its run. */
  function PlaceOf(c: Chain.Chain, run: string, p: nat): nat
    requires p <= |c.promises|
  {
    Count(c.promises[..p], run)
  }

  lemma {:induction false} PlacesAscend(c: Chain.Chain, run: string, q: nat, p: nat)
    requires q < p <= |c.promises|
    ensures PlaceOf(c, run, q) + (if c.promises[q].run == run then 1 else 0) <= PlaceOf(c, run, p)
    decreases p
  {
    var front := c.promises[..p];
    assert front[..p - 1] == c.promises[..p - 1];
    if q < p - 1 {
      PlacesAscend(c, run, q, p - 1);
    }
  }

  /** Every place up to the count is taken. */
  lemma {:induction false} PlaceIsTaken(c: Chain.Chain, run: string, end: nat, k: nat) returns (p: nat)
    requires end <= |c.promises| && k < PlaceOf(c, run, end)
    ensures p < end && c.promises[p].run == run && PlaceOf(c, run, p) == k
    decreases end
  {
    var front := c.promises[..end];
    assert front[..end - 1] == c.promises[..end - 1];
    if k < PlaceOf(c, run, end - 1) {
      p := PlaceIsTaken(c, run, end - 1, k);
    } else {
      p := end - 1;
    }
  }

  lemma {:induction false} PhasesDoNotMatter(a: seq<Chain.Promise>, b: seq<Chain.Promise>, run: string)
    requires |a| == |b| && forall p | 0 <= p < |a| :: a[p].run == b[p].run
    ensures Count(a, run) == Count(b, run)
  {
    if a != [] {
      PhasesDoNotMatter(a[..|a| - 1], b[..|b| - 1], run);
    }
  }

  /** In the queue the first `next` writes have settled, and only the one after them can be under way. */
  function PhaseOf(s: Rows.State, k: nat): Chain.Phase {
    if k < s.next then Chain.Settled else if k == s.next && s.flight.InFlight? then Chain.Started else Chain.Pending
  }

  predicate IsMine(c: Chain.Chain, run: string, p: nat) {
    p < |c.promises| && c.promises[p].run == run
  }

  ghost predicate Related(c: Chain.Chain, run: string, s: Rows.State) {
    && PlaceOf(c, run, |c.promises|) == |s.writes|
    && s.next <= |s.writes| && (s.flight.InFlight? ==> s.next < |s.writes|)
    && forall p: nat | IsMine(c, run, p) :: c.promises[p].phase == PhaseOf(s, PlaceOf(c, run, p))
  }

  // ---------------------------------------------------------------- the chain does what the queue allows

  lemma NextCanStart(c: Chain.Chain, run: string, s: Rows.State, p: nat)
    requires Chain.Inv(c) && Related(c, run, s) && IsMine(c, run, p)
    requires s.flight.Idle? && PlaceOf(c, run, p) == s.next
    ensures Chain.Enabled(c, Chain.Start(p))
  {
    if c.promises[p].prev.Some? {
      var prev := c.promises[p].prev.value;
      assert Chain.Earlier(c, prev, p);
      PlacesAscend(c, run, prev, p);
      assert IsMine(c, run, prev);
    }
  }

  lemma OnlyNextCanStart(c: Chain.Chain, run: string, s: Rows.State, p: nat)
    requires Chain.Inv(c) && Related(c, run, s) && IsMine(c, run, p)
    requires Chain.Enabled(c, Chain.Start(p))
    ensures s.flight.Idle? && PlaceOf(c, run, p) == s.next
  {
    if PlaceOf(c, run, p) > s.next {
      var first := PlaceIsTaken(c, run, p, s.next);
      Chain.NextKeepsInv(c, Chain.Start(p));
      assert IsMine(c, run, first) && Chain.Earlier(Chain.Next(c, Chain.Start(p)), first, p);
      assert false;
    }
  }

  /** The chain lets a write of the run start exactly when the queue does, and then it is the next one. */
  lemma StartsInTurn(c: Chain.Chain, run: string, s: Rows.State, p: nat)
    requires Chain.Inv(c) && Related(c, run, s) && IsMine(c, run, p)
    ensures Chain.Enabled(c, Chain.Start(p)) <==> s.flight.Idle? && PlaceOf(c, run, p) == s.next
  {
    if Chain.Enabled(c, Chain.Start(p)) {
      OnlyNextCanStart(c, run, s, p);
    } else if s.flight.Idle? && PlaceOf(c, run, p) == s.next {
      NextCanStart(c, run, s, p);
    }
  }

  /** Likewise, the write that can settle is the one under way. */
  lemma SettlesInTurn(c: Chain.Chain, run: string, s: Rows.State, p: nat)
    requires Related(c, run, s) && IsMine(c, run, p)
    ensures Chain.Enabled(c, Chain.Settle(p)) <==> s.flight.InFlight? && PlaceOf(c, run, p) == s.next
  {}

  lemma ActionKeepsPlaces(c: Chain.Chain, run: string, a: Chain.Action, p: nat)
    requires Chain.Enabled(c, a) && p <= |c.promises|
    ensures p <= |Chain.Next(c, a).promises| && PlaceOf(Chain.Next(c, a), run, p) == PlaceOf(c, run, p)
  {
    PhasesDoNotMatter(c.promises[..p], Chain.Next(c, a).promises[..p], run);
  }

  lemma SamePlaceSamePromise(c: Chain.Chain, run: string, q: nat, p: nat)
    requires IsMine(c, run, q) && IsMine(c, run, p) && PlaceOf(c, run, q) == PlaceOf(c, run, p)
    ensures q == p
  {
    if q < p {
      PlacesAscend(c, run, q, p);
    } else if p < q {
      PlacesAscend(c, run, p, q);
    }
  }

  /** The promise p moves on, and with it the head of the queue from s to s'. */
  lemma MoveOnKeepsRelated(c: Chain.Chain, run: string, s: Rows.State, s': Rows.State, a: Chain.Action, p: nat)
    requires Related(c, run, s) && IsMine(c, run, p) && Chain.Enabled(c, a) && (a == Chain.Start(p) || a == Chain.Settle(p))
    requires PlaceOf(c, run, p) == s.next && |s'.writes| == |s.writes|
    requires if a.Start? then s'.next == s.next && s'.flight.InFlight? else s'.next == s.next + 1 && s'.flight.Idle? && s.flight.InFlight?
    ensures Related(Chain.Next(c, a), run, s')
  {
    var c' := Chain.Next(c, a);
    ActionKeepsPlaces(c, run, a, |c.promises|);
    PlacesAscend(c, run, p, |c.promises|);
    forall q: nat | IsMine(c', run, q) ensures c'.promises[q].phase == PhaseOf(s', PlaceOf(c', run, q)) {
      ActionKeepsPlaces(c, run, a, q);
      assert IsMine(c, run, q);
      if PlaceOf(c, run, q) == s.next {
        SamePlaceSamePromise(c, run, q, p);
      }
    }
  }

  lemma StartKeepsRelated(c: Chain.Chain, run: string, s: Rows.State, p: nat)
    requires Chain.Inv(c) && Rows.Inv(s) && Related(c, run, s)
    requires Chain.Enabled(c, Chain.Start(p)) && IsMine(c, run, p)
    ensures Rows.Enabled(s, Rows.StartWrite)
    ensures Related(Chain.Next(c, Chain.Start(p)), run, Rows.Apply(s, Rows.StartWrite))
  {
    StartsInTurn(c, run, s, p);
    PlacesAscend(c, run, p, |c.promises|);
    assert Rows.PendingFits(s, s.next);
    MoveOnKeepsRelated(c, run, s, Rows.Apply(s, Rows.StartWrite), Chain.Start(p), p);
  }

  lemma SettleKeepsRelated(c: Chain.Chain, run: string, s: Rows.State, p: nat, ok: bool)
    requires Related(c, run, s) && Chain.Enabled(c, Chain.Settle(p)) && IsMine(c, run, p)
    requires s.flight.InFlight? && ok ==> s.flight.applied
    ensures Rows.Enabled(s, Rows.SettleWrite(ok))
    ensures Related(Chain.Next(c, Chain.Settle(p)), run, Rows.Apply(s, Rows.SettleWrite(ok)))
  {
    SettlesInTurn(c, run, s, p);
    MoveOnKeepsRelated(c, run, s, Rows.Apply(s, Rows.SettleWrite(ok)), Chain.Settle(p), p);
  }

  lemma EnqueueKeepsRelated(c: Chain.Chain, run: string, s: Rows.State, s': Rows.State)
    requires Related(c, run, s)
    requires |s'.writes| == |s.writes| + 1 && s'.next == s.next && s'.flight.InFlight? == s.flight.InFlight?
    ensures Related(Chain.Next(c, Chain.Enqueue(run)), run, s')
  {
    var c' := Chain.Next(c, Chain.Enqueue(run));
    var n := |c.promises|;
    assert c'.promises[..n] == c.promises == c.promises[..n] && c'.promises[..n + 1] == c'.promises;
    forall q: nat | IsMine(c', run, q) ensures c'.promises[q].phase == PhaseOf(s', PlaceOf(c', run, q)) {
      ActionKeepsPlaces(c, run, Chain.Enqueue(run), q);
      if q < n {
        assert IsMine(c, run, q);
        PlacesAscend(c, run, q, n);
      }
    }
  }

  /** The actions of other runs do not show. */
  lemma OthersKeepRelated(c: Chain.Chain, run: string, s: Rows.State, a: Chain.Action)
    requires Related(c, run, s) && Chain.Enabled(c, a) && RunOf(c, a) != run
    ensures Related(Chain.Next(c, a), run, s)
  {
    var c', n := Chain.Next(c, a), |c.promises|;
    ActionKeepsPlaces(c, run, a, n);
    if a.Enqueue? {
      assert c'.promises[..n + 1][..n] == c'.promises[..n];
    }
    forall q: nat | IsMine(c', run, q) ensures c'.promises[q].phase == PhaseOf(s, PlaceOf(c', run, q)) {
      ActionKeepsPlaces(c, run, a, q);
      assert IsMine(c, run, q);
    }
  }

  // ---------------------------------------------------------------- whole runs

  function RunOf(c: Chain.Chain, a: Chain.Action): string
    requires Chain.Enabled(c, a)
  {
    if a.Enqueue? then a.run else c.promises[a.write].run
  }

  /** One move of the chain, of the run's row, or of both at once. */
  datatype Move = Move(action: Option<Chain.Action>, step: Option<Rows.Step>)

  predicate Queues(s: Rows.State, step: Rows.Step) {
    Rows.Enabled(s, step) && |Rows.Apply(s, step).writes| > |s.writes|
  }

  /**
   * A write is queued, starts and settles together with its promise. When it does so is up to the
   * chain alone: the row's own rule of one write at a time is not asked.
   */
  predicate Joint(c: Chain.Chain, run: string, s: Rows.State, m: Move) {
    && (m.action.Some? ==> Chain.Enabled(c, m.action.value))
    && (m.step.Some? && !m.step.value.StartWrite? && !m.step.value.SettleWrite? ==> Rows.Enabled(s, m.step.value))
    && if m.action.Some? && RunOf(c, m.action.value) == run then
         m.step.Some? &&
         match m.action.value
         case Enqueue(_) => Queues(s, m.step.value)
         case Start(_) => m.step.value.StartWrite?
         case Settle(_) => m.step.value.SettleWrite? && (s.flight.InFlight? && m.step.value.ok ==> s.flight.applied)
       else
         m.step.Some? ==> !m.step.value.StartWrite? && !m.step.value.SettleWrite? && !Queues(s, m.step.value)
  }

  function ChainAfter(c: Chain.Chain, m: Move): Chain.Chain {
    if m.action.Some? && Chain.Enabled(c, m.action.value) then Chain.Next(c, m.action.value) else c
  }

  function RowAfter(s: Rows.State, m: Move): Rows.State {
    if m.step.Some? && Rows.Enabled(s, m.step.value) then Rows.Apply(s, m.step.value) else s
  }

  predicate JointRun(c: Chain.Chain, run: string, s: Rows.State, moves: seq<Move>)
    decreases |moves|
  {
    moves == [] || (Joint(c, run, s, moves[0]) && JointRun(ChainAfter(c, moves[0]), run, RowAfter(s, moves[0]), moves[1..]))
  }

  /** What the run's row does in a joint run. */
  function RowSteps(moves: seq<Move>): seq<Rows.Step> {
    if moves == [] then []
    else if moves[0].step.Some? then [moves[0].step.value] + RowSteps(moves[1..])
    else RowSteps(moves[1..])
  }

  /** Apart from the writes' own steps, a step queues at most one write and leaves the queue's head alone. */
  lemma OtherStepsOnlyQueue(s: Rows.State, step: Rows.Step)
    requires Rows.Enabled(s, step) && !step.StartWrite? && !step.SettleWrite?
    ensures var s' := Rows.Apply(s, step);
      && |s.writes| <= |s'.writes| <= |s.writes| + 1
      && s'.next == s.next && s'.flight.InFlight? == s.flight.InFlight?
  {}

  lemma MoveKeepsRelated(c: Chain.Chain, run: string, s: Rows.State, m: Move)
    requires Chain.Inv(c) && Rows.Inv(s) && Related(c, run, s) && Joint(c, run, s, m)
    ensures m.step.Some? ==> Rows.Enabled(s, m.step.value)
    ensures Related(ChainAfter(c, m), run, RowAfter(s, m))
  {
    if m.action.Some? && RunOf(c, m.action.value) == run {
      match m.action.value {
        case Enqueue(_) =>
          OtherStepsQueue(s, m.step.value);
          EnqueueKeepsRelated(c, run, s, RowAfter(s, m));
        case Start(p) => StartKeepsRelated(c, run, s, p);
        case Settle(p) => SettleKeepsRelated(c, run, s, p, m.step.value.ok);
      }
    } else {
      if m.step.Some? {
        OtherStepsOnlyQueue(s, m.step.value);
        assert Related(c, run, RowAfter(s, m));
      }
      if m.action.Some? {
        OthersKeepRelated(c, run, RowAfter(s, m), m.action.value);
      }
    }
  }

  lemma OtherStepsQueue(s: Rows.State, step: Rows.Step)
    requires Queues(s, step)
    ensures var s' := Rows.Apply(s, step);
      |s'.writes| == |s.writes| + 1 && s'.next == s.next && s'.flight.InFlight? == s.flight.InFlight?
  {
    assert !step.StartWrite? && !step.SettleWrite?;
    OtherStepsOnlyQueue(s, step);
  }

  lemma {:induction false} JointRunIsARowRun(c: Chain.Chain, run: string, s: Rows.State, moves: seq<Move>)
    requires Chain.Inv(c) && Rows.Inv(s) && Related(c, run, s) && JointRun(c, run, s, moves)
    ensures Rows.Legal(s, RowSteps(moves))
    decreases |moves|
  {
    if moves != [] {
      var m := moves[0];
      MoveKeepsRelated(c, run, s, m);
      if m.action.Some? {
        Chain.NextKeepsInv(c, m.action.value);
      }
      if m.step.Some? {
        Rows.StepKeepsInv(s, m.step.value);
      }
      JointRunIsARowRun(ChainAfter(c, m), run, RowAfter(s, m), moves[1..]);
      if m.step.Some? {
        Rows.Prepend(s, m.step.value, RowSteps(moves[1..]));
      }
    }
  }

  /**
   * In every run of the chain, with any number of other runs beside it, what happens to one run's row
   * is a legal run of the row's model: the chain gives each run the queue that the model assumes.
   */
  lemma ChainGivesAQueue(run: string, s: Rows.State, moves: seq<Move>)
    requires Rows.Init(s) && JointRun(Chain.EMPTY, run, s, moves)
    ensures Rows.Legal(s, RowSteps(moves))
  {
    JointRunIsARowRun(Chain.EMPTY, run, s, moves);
  }
}

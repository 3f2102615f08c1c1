/**
 * The promise chain that keeps the database writes of one run in order.
 *
 * Every queued write is a promise that waits for the promise found in `runWriteTail` under its
 * run id, and removes itself from that map when it settles as the last one. Nothing else relates
 * two writes, so their order has to be proved from these links.
 */
module WriteChain {
  import opened Outcomes

  datatype Phase = Pending | Started | Settled

  /** A queued write, with the promise it was chained to. */
  datatype Promise = Promise(run: string, prev: Option<nat>, phase: Phase)

  datatype Chain = Chain(promises: seq<Promise>, tail: map<string, nat>)

  datatype Action = Enqueue(run: string) | Start(write: nat) | Settle(write: nat)

  const EMPTY: Chain := Chain([], map[])

  predicate Enabled(c: Chain, a: Action) {
    match a
    case Enqueue(_) => true
    case Start(p) =>
      && p < |c.promises| && c.promises[p].phase.Pending?
      && var prev := c.promises[p].prev;
         prev.None? || (prev.value < |c.promises| && c.promises[prev.value].phase.Settled?)
    case Settle(p) => p < |c.promises| && c.promises[p].phase.Started?
  }

  function Next(c: Chain, a: Action): Chain
    requires Enabled(c, a)
  {
    match a
    case Enqueue(run) =>
      Chain(c.promises + [Promise(run, if run in c.tail then Some(c.tail[run]) else None, Pending)],
            c.tail[run := |c.promises|])
    case Start(p) => c.(promises := c.promises[p := c.promises[p].(phase := Started)])
    case Settle(p) =>
      var run := c.promises[p].run;
      Chain(c.promises[p := c.promises[p].(phase := Settled)],
            if run in c.tail && c.tail[run] == p then c.tail - {run} else c.tail)
  }

  /** The chain as the runtime holds it. A write's outcome does not matter to the chain. */
  class RunWrites {
    var promises: seq<Promise>
    var runWriteTail: map<string, nat>

    function State(): Chain
      reads this
    {
      Chain(promises, runWriteTail)
    }

    constructor ()
      ensures State() == EMPTY
    {
      promises, runWriteTail := [], map[];
    }

    method EnqueueRunWrite(run: string) returns (write: nat)
      modifies this
      ensures write == |old(promises)| && State() == Next(old(State()), Enqueue(run))
    {
      var prev := if run in runWriteTail then Some(runWriteTail[run]) else None;
      write := |promises|;
      promises := promises + [Promise(run, prev, Pending)];
      runWriteTail := runWriteTail[run := write];
    }

    method OnSettled(write: nat)
      requires Enabled(State(), Settle(write))
      modifies this
      ensures State() == Next(old(State()), Settle(write))
    {
      var run := promises[write].run;
      promises := promises[write := promises[write].(phase := Settled)];
      if run in runWriteTail && runWriteTail[run] == write {
        runWriteTail := runWriteTail - {run};
      }
    }
  }

  predicate Legal(actions: seq<Action>)
    decreases |actions|, 0
  {
    actions == [] ||
    (Legal(actions[..|actions| - 1]) && Enabled(Replay(actions[..|actions| - 1]), actions[|actions| - 1]))
  }

  function Replay(actions: seq<Action>): Chain
    requires Legal(actions)
    decreases |actions|, 1
  {
    if actions == [] then EMPTY else Next(Replay(actions[..|actions| - 1]), actions[|actions| - 1])
  }

  predicate Earlier(c: Chain, q: nat, p: nat) {
    q < p < |c.promises| && c.promises[q].run == c.promises[p].run
  }

  /** A write begins only after every earlier write of its run has settled. */
  ghost predicate InOrder(c: Chain) {
    forall q: nat, p: nat | Earlier(c, q, p) && !c.promises[p].phase.Pending? :: c.promises[q].phase.Settled?
  }

  /** The link of a write: all earlier writes of its run are settled, or no later than its link. */
  ghost predicate Linked(c: Chain) {
    forall q: nat, p: nat | Earlier(c, q, p) ::
      c.promises[q].phase.Settled? || (c.promises[p].prev.Some? && q <= c.promises[p].prev.value < p)
  }

  ghost predicate LinksStayInRun(c: Chain) {
    forall p | 0 <= p < |c.promises| && c.promises[p].prev.Some? ::
      Earlier(c, c.promises[p].prev.value, p)
  }

  /** The map names the last write of a run, and only while that write has not settled. */
  ghost predicate TailIsLast(c: Chain) {
    && (forall run | run in c.tail ::
          && c.tail[run] < |c.promises| && c.promises[c.tail[run]].run == run
          && !c.promises[c.tail[run]].phase.Settled?)
    && (forall p | 0 <= p < |c.promises| && c.promises[p].run in c.tail :: p <= c.tail[c.promises[p].run])
    && (forall p | 0 <= p < |c.promises| && c.promises[p].run !in c.tail :: c.promises[p].phase.Settled?)
  }

  ghost predicate Inv(c: Chain) {
    InOrder(c) && Linked(c) && LinksStayInRun(c) && TailIsLast(c)
  }

  lemma NextKeepsPair(c: Chain, a: Action, q: nat, p: nat)
    requires Inv(c) && Enabled(c, a) && Earlier(Next(c, a), q, p)
    ensures var w := Next(c, a).promises;
      && (!w[p].phase.Pending? ==> w[q].phase.Settled?)
      && (w[q].phase.Settled? || (w[p].prev.Some? && q <= w[p].prev.value < p))
  {
    if p < |c.promises| {
      assert Earlier(c, q, p);
      var prev := c.promises[p].prev;
      if a == Start(p) && prev.Some? && q < prev.value {
        assert Earlier(c, prev.value, p) && Earlier(c, q, prev.value);
      }
    }
  }

  lemma NextKeepsLinks(c: Chain, a: Action)
    requires Inv(c) && Enabled(c, a)
    ensures LinksStayInRun(Next(c, a))
  {
    var c' := Next(c, a);
    forall p: nat | p < |c'.promises| && c'.promises[p].prev.Some?
      ensures Earlier(c', c'.promises[p].prev.value, p)
    {
      assert p < |c.promises| ==> Earlier(c, c.promises[p].prev.value, p);
    }
  }

  lemma NextKeepsTail(c: Chain, a: Action)
    requires Inv(c) && Enabled(c, a)
    ensures TailIsLast(Next(c, a))
  {
    if a.Settle? {
      var run := c.promises[a.write].run;
      forall p: nat | p < |c.promises| && c.promises[p].run == run && p != a.write && c.tail[run] == a.write
        ensures c.promises[p].phase.Settled?
      {
        assert Earlier(c, p, a.write);
      }
    }
  }

  lemma NextKeepsInv(c: Chain, a: Action)
    requires Inv(c) && Enabled(c, a)
    ensures Inv(Next(c, a))
  {
    NextKeepsLinks(c, a);
    NextKeepsTail(c, a);
    forall q: nat, p: nat | Earlier(Next(c, a), q, p)
      ensures var w := Next(c, a).promises;
        && (!w[p].phase.Pending? ==> w[q].phase.Settled?)
        && (w[q].phase.Settled? || (w[p].prev.Some? && q <= w[p].prev.value < p))
    {
      NextKeepsPair(c, a, q, p);
    }
  }

  /** Over every run of the chain, the writes of one run never overlap and never change order. */
  lemma {:induction false} WritesKeepOrder(actions: seq<Action>, q: nat, p: nat)
    requires Legal(actions) && Earlier(Replay(actions), q, p)
    requires !Replay(actions).promises[p].phase.Pending?
    ensures Replay(actions).promises[q].phase.Settled?
  {
    ChainInvariant(actions);
  }

  lemma {:induction false} ChainInvariant(actions: seq<Action>)
    requires Legal(actions)
    ensures Inv(Replay(actions))
  {
    if actions != [] {
      ChainInvariant(actions[..|actions| - 1]);
      NextKeepsInv(Replay(actions[..|actions| - 1]), actions[|actions| - 1]);
    }
  }

  /** And no write is stuck: the first unsettled write of a run can start, or has started. */
  lemma FirstUnsettledCanMove(actions: seq<Action>, p: nat)
    requires Legal(actions) && p < |Replay(actions).promises| && !Replay(actions).promises[p].phase.Settled?
    requires forall q: nat | Earlier(Replay(actions), q, p) :: Replay(actions).promises[q].phase.Settled?
    ensures Enabled(Replay(actions), Start(p)) || Enabled(Replay(actions), Settle(p))
  {
    ChainInvariant(actions);
    var c := Replay(actions);
    if c.promises[p].prev.Some? {
      assert Earlier(c, c.promises[p].prev.value, p);
    }
  }
}

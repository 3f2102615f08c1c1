/**
 * The in-process queue lanes of the job runtime: one counter of running bodies and one
 * first-in-first-out list of waiters per queue name.
 *
 * `Admit` and `Release` say what one arrival and one settled body do to a lane. `QueueTable`
 * is the pair of maps that the runtime updates in place, and a `Replay` is a whole run of
 * arrivals and completions on one lane, with its history.
 */
module Lanes {
  import opened Outcomes

  /** A body asking for a slot: its job and the limit its own task declares. */
  datatype Ticket = Ticket(job: nat, limit: int)

  datatype Lane = Lane(active: int, waiters: seq<Ticket>)

  datatype Queue = Queue(name: string, concurrencyLimit: Option<int>)

  const IDLE: Lane := Lane(0, [])

  function LaneName(queue: Option<Queue>): string {
    if queue.Some? then queue.value.name else "default"
  }

  /** A missing limit and a limit of 0 both read as 1; a negative limit is taken as it is. */
  function Limit(queue: Option<Queue>): int {
    if queue.None? || queue.value.concurrencyLimit.None? || queue.value.concurrencyLimit.value == 0
    then 1
    else queue.value.concurrencyLimit.value
  }

  predicate Admits(lane: Lane, ticket: Ticket) {
    lane.active < ticket.limit
  }

  function Admit(lane: Lane, ticket: Ticket): Lane {
    if Admits(lane, ticket) then lane.(active := lane.active + 1)
    else lane.(waiters := lane.waiters + [ticket])
  }

  /** A counter that reads 0 is treated as 1, and the decrement never goes below 0. */
  function Freed(active: int): int {
    var now := if active == 0 then 1 else active;
    if now - 1 < 0 then 0 else now - 1
  }

  function Release(lane: Lane): Lane {
    if lane.waiters == [] then Lane(Freed(lane.active), [])
    else Lane(Freed(lane.active) + 1, lane.waiters[1..])
  }

  /** The two maps of the runtime. A missing entry reads as 0 and as the empty list. */
  class QueueTable {
    var queueActive: map<string, int>
    var queueWaiters: map<string, seq<Ticket>>

    function LaneOf(key: string): Lane
      reads this
    {
      Lane(if key in queueActive then queueActive[key] else 0,
           if key in queueWaiters then queueWaiters[key] else [])
    }

    constructor ()
      ensures forall key :: LaneOf(key) == IDLE
    {
      queueActive, queueWaiters := map[], map[];
    }

    /** Grants a slot at once, or leaves a waiter at the end of the lane's list. */
    method WithQueueLock(queue: Option<Queue>, job: nat) returns (granted: bool)
      modifies this
      ensures granted == Admits(old(LaneOf(LaneName(queue))), Ticket(job, Limit(queue)))
      ensures LaneOf(LaneName(queue)) == Admit(old(LaneOf(LaneName(queue))), Ticket(job, Limit(queue)))
      ensures forall key | key != LaneName(queue) :: LaneOf(key) == old(LaneOf(key))
    {
      var key := LaneName(queue);
      var ticket := Ticket(job, Limit(queue));
      var active := if key in queueActive then queueActive[key] else 0;
      granted := active < ticket.limit;
      if granted {
        queueActive := queueActive[key := active + 1];
      } else {
        var waiters := if key in queueWaiters then queueWaiters[key] else [];
        queueWaiters := queueWaiters[key := waiters + [ticket]];
      }
    }

    /** Runs when a body settles, whether it succeeded or failed, and names the body that starts next. */
    method OnSettled(key: string) returns (next: Option<Ticket>)
      modifies this
      ensures next == if old(LaneOf(key)).waiters == [] then None else Some(old(LaneOf(key)).waiters[0])
      ensures LaneOf(key) == Release(old(LaneOf(key)))
      ensures forall k | k != key :: LaneOf(k) == old(LaneOf(k))
    {
      var now := if key in queueActive && queueActive[key] != 0 then queueActive[key] else 1;
      queueActive := queueActive[key := if now - 1 < 0 then 0 else now - 1];
      next := None;
      if key in queueWaiters && queueWaiters[key] != [] {
        next := Some(queueWaiters[key][0]);
        queueWaiters := queueWaiters[key := queueWaiters[key][1..]];
        queueActive := queueActive[key := queueActive[key] + 1];
      }
    }
  }

  // ---------------------------------------------------------------- whole runs of one lane

  datatype Event = Arrive(ticket: Ticket) | Finish(job: nat)

  /** A lane together with what has happened on it so far. */
  datatype History = History(
    lane: Lane,
    running: set<nat>,
    finished: nat,
    arrived: seq<Ticket>,
    granted: seq<Ticket>)

  const START: History := History(IDLE, {}, 0, [], [])

  predicate IsWaiting(h: History, job: nat) {
    exists i | 0 <= i < |h.lane.waiters| :: h.lane.waiters[i].job == job
  }

  predicate Enabled(h: History, e: Event) {
    match e
    case Arrive(t) => t.job !in h.running && !IsWaiting(h, t.job)
    case Finish(job) => job in h.running
  }

  function Next(h: History, e: Event): History {
    match e
    case Arrive(t) =>
      var after := h.(lane := Admit(h.lane, t), arrived := h.arrived + [t]);
      if Admits(h.lane, t) then after.(running := h.running + {t.job}, granted := h.granted + [t])
      else after
    case Finish(job) =>
      var after := h.(lane := Release(h.lane), running := h.running - {job}, finished := h.finished + 1);
      if h.lane.waiters == [] then after
      else after.(running := after.running + {h.lane.waiters[0].job},
                  granted := h.granted + [h.lane.waiters[0]])
  }

  predicate Legal(events: seq<Event>) {
    events == [] ||
    (Legal(events[..|events| - 1]) && Enabled(Replay(events[..|events| - 1]), events[|events| - 1]))
  }

  function Replay(events: seq<Event>): History {
    if events == [] then START else Next(Replay(events[..|events| - 1]), events[|events| - 1])
  }

  lemma Extend(events: seq<Event>, e: Event)
    requires Legal(events) && Enabled(Replay(events), e)
    ensures Legal(events + [e]) && Replay(events + [e]) == Next(Replay(events), e)
  {
    assert (events + [e])[..|events + [e]| - 1] == events;
  }

  /**
   * What holds between any two events: the counter is the number of running bodies, nobody waits
   * below its own limit, and every arrival is accounted for once.
   */
  ghost predicate Inv(h: History) {
    && h.lane.active == |h.running|
    && (forall w | w in h.lane.waiters :: w.limit <= h.lane.active && w.job !in h.running && w in h.arrived)
    && (forall i, j | 0 <= i < j < |h.lane.waiters| :: h.lane.waiters[i].job != h.lane.waiters[j].job)
    && |h.arrived| == h.finished + |h.running| + |h.lane.waiters|
    && |h.granted| == h.finished + |h.running|
  }

  lemma ArrivalKeepsInv(h: History, t: Ticket)
    requires Inv(h) && Enabled(h, Arrive(t))
    ensures Inv(Next(h, Arrive(t)))
  {
    if Admits(h.lane, t) {
      assert |Next(h, Arrive(t)).running| == |h.running| + 1;
      assert forall w | w in h.lane.waiters :: exists i :: 0 <= i < |h.lane.waiters| && h.lane.waiters[i] == w;
    }
  }

  lemma CompletionKeepsInv(h: History, job: nat)
    requires Inv(h) && Enabled(h, Finish(job))
    ensures Inv(Next(h, Finish(job)))
  {
    var rest, h' := h.running - {job}, Next(h, Finish(job));
    assert |rest| == |h.running| - 1;
    if h.lane.waiters != [] {
      assert h.lane.waiters[0] in h.lane.waiters;
      assert |h'.running| == |rest| + 1;
      forall w | w in h'.lane.waiters ensures w in h.lane.waiters && w.job != h.lane.waiters[0].job {
        var i :| 0 <= i < |h'.lane.waiters| && h'.lane.waiters[i] == w;
        assert h.lane.waiters[i + 1] == w;
      }
    }
  }

  lemma NextKeepsInv(h: History, e: Event)
    requires Inv(h) && Enabled(h, e)
    ensures Inv(Next(h, e))
  {
    match e {
      case Arrive(t) => ArrivalKeepsInv(h, t);
      case Finish(job) => CompletionKeepsInv(h, job);
    }
  }

  lemma {:induction false} LaneInvariant(events: seq<Event>)
    requires Legal(events)
    ensures Inv(Replay(events))
  {
    if events != [] {
      LaneInvariant(events[..|events| - 1]);
      NextKeepsInv(Replay(events[..|events| - 1]), events[|events| - 1]);
    }
  }

  /** The number of running bodies never exceeds the largest limit used on the lane. */
  lemma {:induction false} PeakWithinLargestLimit(events: seq<Event>, largest: nat)
    requires Legal(events)
    requires forall t | t in Replay(events).arrived :: t.limit <= largest
    ensures |Replay(events).running| <= largest
  {
    if events != [] {
      var before := Replay(events[..|events| - 1]);
      var e := events[|events| - 1];
      forall t | t in before.arrived ensures t in Replay(events).arrived {}
      PeakWithinLargestLimit(events[..|events| - 1], largest);
      LaneInvariant(events[..|events| - 1]);
      LaneInvariant(events);
      if e.Arrive? {
        assert e.ticket in Replay(events).arrived;
      }
    }
  }

  /** A lane with nobody running can only strand bodies whose limit is 0 or negative. */
  lemma IdleLaneStrandsOnlyUselessLimits(events: seq<Event>, w: Ticket)
    requires Legal(events)
    requires Replay(events).running == {} && w in Replay(events).lane.waiters
    ensures w.limit <= 0
  {
    LaneInvariant(events);
  }

  /** ... and a negative declared limit does strand its body, on a lane nobody else uses. */
  lemma NegativeLimitStrands(name: string, limit: int)
    requires limit < 0
    ensures var t := Ticket(0, Limit(Some(Queue(name, Some(limit)))));
      Legal([Arrive(t)]) && Replay([Arrive(t)]).running == {} && Replay([Arrive(t)]).lane.waiters == [t]
  {
    var t := Ticket(0, Limit(Some(Queue(name, Some(limit)))));
    Extend([], Arrive(t));
    assert [] + [Arrive(t)] == [Arrive(t)];
  }

  // ---------------------------------------------------------------- order of the grants

  /** Two limits a lane can serve out of order: a smaller one, and a larger one that is positive. */
  predicate CanOvertake(slow: int, fast: int) {
    slow < fast && 1 <= fast
  }

  predicate InArrivalOrder(h: History) {
    h.arrived == h.granted + h.lane.waiters
  }

  ghost predicate NoOvertaking(h: History) {
    forall a, b | a in h.arrived && b in h.arrived :: !CanOvertake(a.limit, b.limit)
  }

  lemma NextKeepsOrder(h: History, e: Event)
    requires Inv(h) && Enabled(h, e) && InArrivalOrder(h) && NoOvertaking(Next(h, e))
    ensures InArrivalOrder(Next(h, e))
  {
    match e {
      case Arrive(t) =>
        if Admits(h.lane, t) && h.lane.waiters != [] {
          var w := h.lane.waiters[0];
          assert w in h.lane.waiters && w in Next(h, e).arrived && t in Next(h, e).arrived;
          assert CanOvertake(w.limit, t.limit);
          assert false;
        }
      case Finish(_) =>
        if h.lane.waiters != [] {
          assert h.lane.waiters == [h.lane.waiters[0]] + h.lane.waiters[1..];
        }
    }
  }

  /** When no two limits can overtake each other, bodies start in the order they arrived. */
  lemma {:induction false} GrantsFollowArrivals(events: seq<Event>)
    requires Legal(events) && NoOvertaking(Replay(events))
    ensures InArrivalOrder(Replay(events))
  {
    if events != [] {
      var before := Replay(events[..|events| - 1]);
      assert forall t | t in before.arrived :: t in Replay(events).arrived;
      GrantsFollowArrivals(events[..|events| - 1]);
      LaneInvariant(events[..|events| - 1]);
      NextKeepsOrder(before, events[|events| - 1]);
    }
  }

  /** `n` bodies of one limit that all start at once. */
  function Fill(n: nat, limit: int): seq<Event> {
    if n == 0 then [] else Fill(n - 1, limit) + [Arrive(Ticket(n - 1, limit))]
  }

  lemma {:induction false} FillStartsAll(n: nat, limit: int)
    requires n == 0 || n <= limit
    ensures Legal(Fill(n, limit))
    ensures var h := Replay(Fill(n, limit));
      && h.lane == Lane(n, []) && h.granted == h.arrived
      && (forall job | job in h.running :: job < n)
      && (forall t | t in h.arrived :: t.limit == limit)
  {
    if n > 0 {
      FillStartsAll(n - 1, limit);
      Extend(Fill(n - 1, limit), Arrive(Ticket(n - 1, limit)));
    }
  }

  /** On a lane whose slots are all taken, a slow body waits and a fast one then starts before it. */
  lemma OvertakingStep(h: History, n: nat, late: Ticket, quick: Ticket)
    requires h.lane == Lane(n, []) && h.granted == h.arrived && (forall job | job in h.running :: job < n)
    requires late.job == n && quick.job == n + 1 && late.limit <= n < quick.limit
    ensures Enabled(h, Arrive(late)) && Enabled(Next(h, Arrive(late)), Arrive(quick))
    ensures var after := Next(Next(h, Arrive(late)), Arrive(quick));
      after.arrived == h.arrived + [late] + [quick] && !InArrivalOrder(after)
  {
    var waiting := Next(h, Arrive(late));
    assert waiting.lane == Lane(n, [late]) && n !in h.running && n + 1 !in h.running;
    var after := Next(waiting, Arrive(quick));
    assert (after.granted + after.lane.waiters)[|h.arrived|] == quick && after.arrived[|h.arrived|] == late;
  }

  /** Conversely, two limits that can overtake do so on some run that uses no other limit. */
  lemma MixedLimitsOvertake(slow: int, fast: int) returns (events: seq<Event>)
    requires CanOvertake(slow, fast)
    ensures Legal(events)
    ensures forall t | t in Replay(events).arrived :: t.limit == slow || t.limit == fast
    ensures !InArrivalOrder(Replay(events))
  {
    var n := if slow < 0 then 0 else slow;
    var full, late, quick := Fill(n, slow), Ticket(n, slow), Ticket(n + 1, fast);
    FillStartsAll(n, slow);
    OvertakingStep(Replay(full), n, late, quick);
    Extend(full, Arrive(late));
    Extend(full + [Arrive(late)], Arrive(quick));
    events := full + [Arrive(late)] + [Arrive(quick)];
  }
}

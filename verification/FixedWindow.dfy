/**
 * The fixed-window script, run by Redis against one counter key.
 *
 * Times are milliseconds of one clock that never goes back, shared by the caller and Redis. A key
 * whose expiry is not after `now` counts as gone.
 */
module FixedWindow {
  import Arithmetic
  import opened Outcomes
  import opened RateLimit

  function Min(a: int, b: int): int {
    if a <= b then a else b
  }

  predicate Monotone(times: seq<int>) {
    forall i, j | 0 <= i < j < |times| :: times[i] <= times[j]
  }

  /** A counter key. Without an expiry it would live forever. */
  datatype Counter = Counter(count: nat, expiresAt: Option<int>)

  function LiveCounter(key: Option<Counter>, now: int): Option<Counter> {
    if key.Some? && key.value.expiresAt.Some? && key.value.expiresAt.value <= now then None else key
  }

  /** The end of the aligned window that holds `now`. */
  function WindowEnd(windowMs: int, now: int): int
    requires windowMs > 0
  {
    now / windowMs * windowMs + windowMs
  }

  function FixedKey(key: Option<Counter>, windowMs: int, now: int): Counter
    requires windowMs > 0
  {
    match LiveCounter(key, now)
    case None => Counter(1, Some(WindowEnd(windowMs, now)))
    case Some(c) => c.(count := c.count + 1)
  }

  function FixedReply(key: Option<Counter>, limit: nat, windowMs: int, now: int): Reply
    requires windowMs > 0
  {
    var count := FixedKey(key, windowMs, now).count;
    Reply(count <= limit, count, limit, WindowEnd(windowMs, now) / 1000)
  }

  /** One counter key as Redis holds it. */
  class CounterKey {
    var key: Option<Counter>

    /** A counter that is stored has been incremented at least once. */
    ghost predicate Valid()
      reads this
    {
      key.Some? ==> key.value.count >= 1
    }

    constructor ()
      ensures Valid() && key == None
    {
      key := None;
    }

    method Incr(now: int) returns (count: nat)
      modifies this
      ensures LiveCounter(old(key), now).None? ==> count == 1 && key == Some(Counter(1, None))
      ensures LiveCounter(old(key), now).Some? ==>
        count == old(key).value.count + 1 && key == Some(old(key).value.(count := count))
    {
      if key.Some? && (key.value.expiresAt.None? || key.value.expiresAt.value > now) {
        key := Some(key.value.(count := key.value.count + 1));
      } else {
        key := Some(Counter(1, None));
      }
      count := key.value.count;
    }

    method PExpireAt(at: int, now: int)
      requires at > now
      modifies this
      ensures key == if old(key).Some? then Some(old(key).value.(expiresAt := Some(at))) else None
    {
      if key.Some? {
        key := Some(key.value.(expiresAt := Some(at)));
      }
    }

    method FixedWindowScript(limit: nat, windowMs: int, now: int) returns (reply: Reply)
      requires windowMs > 0
      requires Valid()
      modifies this
      ensures Valid()
      ensures key == Some(FixedKey(old(key), windowMs, now))
      ensures reply == FixedReply(old(key), limit, windowMs, now)
    {
      WindowEndAfterNow(windowMs, now);
      var reset := now / windowMs * windowMs + windowMs;
      var count := Incr(now);
      if count == 1 {
        PExpireAt(reset, now);
      }
      if count > limit {
        return Reply(false, count, limit, reset / 1000);
      }
      return Reply(true, count, limit, reset / 1000);
    }
  }

  lemma WindowEndAfterNow(windowMs: int, now: int)
    requires windowMs > 0
    ensures now < WindowEnd(windowMs, now) <= now + windowMs
  {}

  /** The key after a history of requests. */
  function FixedAfter(windowMs: int, times: seq<int>): Option<Counter>
    requires windowMs > 0
  {
    if times == [] then None
    else Some(FixedKey(FixedAfter(windowMs, times[..|times| - 1]), windowMs, times[|times| - 1]))
  }

  /** The reply to the last request of a history. */
  function FixedLast(limit: nat, windowMs: int, times: seq<int>): Reply
    requires windowMs > 0 && times != []
  {
    FixedReply(FixedAfter(windowMs, times[..|times| - 1]), limit, windowMs, times[|times| - 1])
  }

  function Requests(windowMs: int, times: seq<int>, window: int): nat
    requires windowMs > 0
  {
    if times == [] then 0
    else Requests(windowMs, times[..|times| - 1], window) + (if times[|times| - 1] / windowMs == window then 1 else 0)
  }

  /** How many requests in [from, to) the script has let through. */
  function Successes(limit: nat, windowMs: int, times: seq<int>, from: int, to: int): nat
    requires windowMs > 0
  {
    if times == [] then 0
    else Successes(limit, windowMs, times[..|times| - 1], from, to) +
         (if from <= times[|times| - 1] < to && FixedLast(limit, windowMs, times).allowed then 1 else 0)
  }

  /** The key counts the requests of its own window, and always carries that window's end as expiry. */
  lemma {:induction false} FixedKeyCountsItsWindow(windowMs: int, times: seq<int>)
    requires windowMs > 0 && Monotone(times) && times != []
    ensures var now := times[|times| - 1];
      FixedAfter(windowMs, times) ==
        Some(Counter(Requests(windowMs, times, now / windowMs), Some(WindowEnd(windowMs, now))))
  {
    var before, now := times[..|times| - 1], times[|times| - 1];
    if before != [] {
      FixedKeyCountsItsWindow(windowMs, before);
      var last := before[|before| - 1];
      WindowsInOrder(windowMs, last, now);
      if last / windowMs < now / windowMs {
        NoRequestsAhead(windowMs, before, now / windowMs);
      }
    }
  }

  lemma WindowsInOrder(windowMs: int, earlier: int, later: int)
    requires windowMs > 0 && earlier <= later
    ensures earlier / windowMs <= later / windowMs
    ensures earlier / windowMs == later / windowMs <==> later < WindowEnd(windowMs, earlier)
    ensures earlier / windowMs == later / windowMs ==> WindowEnd(windowMs, earlier) == WindowEnd(windowMs, later)
  {
    Arithmetic.MultiplesInOrder(earlier / windowMs, later / windowMs, windowMs);
    Arithmetic.MultiplesInOrder(later / windowMs, earlier / windowMs, windowMs);
  }

  lemma {:induction false} NoRequestsAhead(windowMs: int, times: seq<int>, window: int)
    requires windowMs > 0 && Monotone(times) && (times != [] ==> times[|times| - 1] / windowMs < window)
    ensures Requests(windowMs, times, window) == 0
  {
    if times != [] {
      var before := times[..|times| - 1];
      if before != [] {
        WindowsInOrder(windowMs, before[|before| - 1], times[|times| - 1]);
      }
      NoRequestsAhead(windowMs, before, window);
    }
  }

  /** In every aligned window the script lets through exactly the first `limit` requests. */
  lemma {:induction false} FixedWindowIsExact(limit: nat, windowMs: int, times: seq<int>, window: int)
    requires windowMs > 0 && Monotone(times)
    ensures Successes(limit, windowMs, times, window * windowMs, window * windowMs + windowMs)
         == Min(limit, Requests(windowMs, times, window))
  {
    if times != [] {
      FixedWindowIsExact(limit, windowMs, times[..|times| - 1], window);
      Arithmetic.QuotientIs(times[|times| - 1], windowMs, window);
      FixedKeyCountsItsWindow(windowMs, times);
    }
  }

  lemma {:induction false} SuccessesSplit(limit: nat, windowMs: int, times: seq<int>, from: int, mid: int, to: int)
    requires windowMs > 0 && from <= mid <= to
    ensures Successes(limit, windowMs, times, from, to)
         == Successes(limit, windowMs, times, from, mid) + Successes(limit, windowMs, times, mid, to)
  {
    if times != [] {
      SuccessesSplit(limit, windowMs, times[..|times| - 1], from, mid, to);
    }
  }

  /** No interval as long as the window holds more than twice the limit. */
  lemma AtMostTwiceTheLimit(limit: nat, windowMs: int, times: seq<int>, from: int)
    requires windowMs > 0 && Monotone(times)
    ensures Successes(limit, windowMs, times, from, from + windowMs) <= 2 * limit
  {
    var window := from / windowMs;
    var start, mid, end := window * windowMs, WindowEnd(windowMs, from), WindowEnd(windowMs, from) + windowMs;
    assert mid == (window + 1) * windowMs;
    FixedWindowIsExact(limit, windowMs, times, window);
    FixedWindowIsExact(limit, windowMs, times, window + 1);
    SuccessesSplit(limit, windowMs, times, start, from, mid);
    SuccessesSplit(limit, windowMs, times, mid, from + windowMs, end);
    SuccessesSplit(limit, windowMs, times, from, mid, from + windowMs);
  }

  function Repeat(n: nat, time: int): seq<int> {
    seq(n, _ => time)
  }

  lemma {:induction false} RepeatedRequests(windowMs: int, times: seq<int>, n: nat, time: int, window: int)
    requires windowMs > 0
    ensures Requests(windowMs, times + Repeat(n, time), window)
         == Requests(windowMs, times, window) + (if time / windowMs == window then n else 0)
  {
    var all := times + Repeat(n, time);
    if n == 0 {
      assert all == times;
    } else {
      RepeatedRequests(windowMs, times, n - 1, time, window);
      assert all[..|all| - 1] == times + Repeat(n - 1, time);
    }
  }

  /** A burst at the end of one window and another at the start of the next. */
  function TwoBursts(limit: nat, windowMs: int): seq<int> {
    Repeat(limit, windowMs - 1) + Repeat(limit, windowMs)
  }

  lemma BurstsPerWindow(limit: nat, windowMs: int)
    requires windowMs > 1
    ensures Requests(windowMs, TwoBursts(limit, windowMs), 0) == limit
    ensures Requests(windowMs, TwoBursts(limit, windowMs), 1) == limit
  {
    Arithmetic.QuotientIs(windowMs - 1, windowMs, 0);
    Arithmetic.QuotientIs(windowMs, windowMs, 1);
    forall window: int | 0 <= window <= 1 ensures Requests(windowMs, TwoBursts(limit, windowMs), window) == limit {
      RepeatedRequests(windowMs, [], limit, windowMs - 1, window);
      assert [] + Repeat(limit, windowMs - 1) == Repeat(limit, windowMs - 1);
      RepeatedRequests(windowMs, Repeat(limit, windowMs - 1), limit, windowMs, window);
    }
  }

  lemma BurstTimes(limit: nat, windowMs: int)
    requires windowMs > 1
    ensures Monotone(TwoBursts(limit, windowMs))
    ensures forall i | 0 <= i < |TwoBursts(limit, windowMs)| :: windowMs - 1 <= TwoBursts(limit, windowMs)[i] <= windowMs
  {}

  lemma {:induction false} NoneOutside(limit: nat, windowMs: int, times: seq<int>, from: int, to: int)
    requires windowMs > 0 && forall i | 0 <= i < |times| :: !(from <= times[i] < to)
    ensures Successes(limit, windowMs, times, from, to) == 0
  {
    if times != [] {
      NoneOutside(limit, windowMs, times[..|times| - 1], from, to);
    }
  }

  /** The factor of two is reached, within less than one window's length. */
  lemma TwiceTheLimitIsReached(limit: nat, windowMs: int)
    requires windowMs > 1
    ensures Monotone(TwoBursts(limit, windowMs))
    ensures Successes(limit, windowMs, TwoBursts(limit, windowMs), windowMs - 1, windowMs + 1) == 2 * limit
  {
    BurstsPerWindow(limit, windowMs);
    BurstTimes(limit, windowMs);
    BothBurstsPass(limit, windowMs, TwoBursts(limit, windowMs));
  }

  lemma BothBurstsPass(limit: nat, windowMs: int, times: seq<int>)
    requires windowMs > 1 && Monotone(times)
    requires Requests(windowMs, times, 0) == limit && Requests(windowMs, times, 1) == limit
    requires forall i | 0 <= i < |times| :: windowMs - 1 <= times[i] <= windowMs
    ensures Successes(limit, windowMs, times, windowMs - 1, windowMs + 1) == 2 * limit
  {
    FixedWindowIsExact(limit, windowMs, times, 0);
    FixedWindowIsExact(limit, windowMs, times, 1);
    SuccessesSplit(limit, windowMs, times, 0, windowMs - 1, windowMs);
    SuccessesSplit(limit, windowMs, times, windowMs, windowMs + 1, 2 * windowMs);
    SuccessesSplit(limit, windowMs, times, windowMs - 1, windowMs, windowMs + 1);
    NoneOutside(limit, windowMs, times, 0, windowMs - 1);
    NoneOutside(limit, windowMs, times, windowMs + 1, 2 * windowMs);
  }

  lemma WindowEndsOnSeconds(windowSeconds: int, now: int)
    requires windowSeconds >= 1
    ensures WindowEnd(windowSeconds * 1000, now) % 1000 == 0
  {
    var q := now / (windowSeconds * 1000);
    assert WindowEnd(windowSeconds * 1000, now) == (q * windowSeconds + windowSeconds) * 1000;
  }

  /**
   * What a fixed-window caller is told: success exactly for the first `limit` requests of the window,
   * `remaining` is what is left of the limit in it, and the reset lies after now and at most one window ahead.
   */
  lemma FixedWindowReport(limit: nat, windowSeconds: nat, times: seq<int>)
    requires limit >= 1 && windowSeconds >= 1 && times != [] && Monotone(times) && times[0] >= 0
    ensures var w := windowSeconds * 1000;
      var now := times[|times| - 1];
      var told := ReadReply(FixedLast(limit, w, times), limit, windowSeconds, now);
      && (told.success <==> Requests(w, times, now / w) <= limit)
      && told.limit == limit
      && told.remaining == limit - Successes(limit, w, times, now / w * w, now / w * w + w)
      && now < told.reset * 1000 <= now + w
  {
    var w, now := windowSeconds * 1000, times[|times| - 1];
    FixedKeyCountsItsWindow(w, times);
    FixedWindowIsExact(limit, w, times, now / w);
    WindowEndAfterNow(w, now);
    WindowEndsOnSeconds(windowSeconds, now);
    assert 0 <= now;
  }
}

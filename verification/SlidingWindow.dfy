/**
 * The sliding-window script, run by Redis against one sorted-set key.
 *
 * Times are milliseconds of one clock that never goes back, shared by the caller and Redis. A key
 * whose expiry is not after `now` counts as gone.
 */
module SlidingWindow {
  import opened Outcomes
  import opened RateLimit

  /** A member of the sorted set with its score. */
  datatype Admission = Admission(time: int, member: string)

  /** A sorted-set key: at most one entry per member, and never empty. */
  datatype ZSet = ZSet(entries: set<Admission>, expiresAt: Option<int>)

  function LiveEntries(key: Option<ZSet>, now: int): set<Admission> {
    if key.None? || (key.value.expiresAt.Some? && key.value.expiresAt.value <= now) then {} else key.value.entries
  }

  /** The entries that are left once those scored up to `now - windowMs` are removed. */
  function InWindowEntries(key: Option<ZSet>, windowMs: int, now: int): set<Admission> {
    set e | e in LiveEntries(key, now) && now - windowMs < e.time
  }

  ghost predicate IsOldest(entries: set<Admission>, time: int) {
    (exists e :: e in entries && e.time == time) && forall e | e in entries :: time <= e.time
  }

  lemma {:induction false} OldestExists(entries: set<Admission>)
    requires entries != {}
    ensures exists time :: IsOldest(entries, time)
  {
    var e :| e in entries;
    if entries == {e} {
      assert IsOldest(entries, e.time);
    } else {
      var rest := entries - {e};
      OldestExists(rest);
      var time :| IsOldest(rest, time);
      assert IsOldest(entries, if e.time <= time then e.time else time);
    }
  }

  function SlidingKey(key: Option<ZSet>, limit: nat, windowMs: int, now: int, member: string): Option<ZSet> {
    var kept := InWindowEntries(key, windowMs, now);
    if |kept| >= limit then (if kept == {} then None else Some(ZSet(kept, key.value.expiresAt)))
    else Some(ZSet((set e | e in kept && e.member != member) + {Admission(now, member)}, Some(now + windowMs)))
  }

  predicate SlidingAllows(key: Option<ZSet>, limit: nat, windowMs: int, now: int) {
    |InWindowEntries(key, windowMs, now)| < limit
  }

  ghost predicate SlidingReplies(key: Option<ZSet>, limit: nat, windowMs: int, now: int, reply: Reply) {
    var kept := InWindowEntries(key, windowMs, now);
    && reply.limit == limit && reply.allowed == SlidingAllows(key, limit, windowMs, now)
    && (reply.allowed ==> reply.count == |kept| + 1 && reply.reset == now / 1000 + windowMs / 1000)
    && (!reply.allowed ==> reply.count == |kept|)
    && (!reply.allowed ==> exists oldest :: IsOldest(kept, oldest) && reply.reset == oldest / 1000 + windowMs / 1000)
  }

  /** One sorted-set key as Redis holds it; Redis removes a key whose last entry goes. */
  class SortedSetKey {
    var key: Option<ZSet>

    constructor ()
      ensures key == None
    {
      key := None;
    }

    method ZRemRangeByScore(max: int, now: int)
      modifies this
      ensures key ==
        var kept := set e | e in LiveEntries(old(key), now) && max < e.time;
        if kept == {} then None else Some(old(key).value.(entries := kept))
    {
      var live := if key.None? || (key.value.expiresAt.Some? && key.value.expiresAt.value <= now) then {} else key.value.entries;
      var kept := set e | e in live && max < e.time;
      key := if kept == {} then None else Some(key.value.(entries := kept));
    }

    method ZAdd(score: int, member: string)
      modifies this
      ensures key ==
        var others := set e | e in (if old(key).Some? then old(key).value.entries else {}) && e.member != member;
        Some(ZSet(others + {Admission(score, member)}, if old(key).Some? then old(key).value.expiresAt else None))
    {
      var entries := if key.Some? then key.value.entries else {};
      var others := set e | e in entries && e.member != member;
      key := Some(ZSet(others + {Admission(score, member)}, if key.Some? then key.value.expiresAt else None));
    }

    method SlidingWindowScript(limit: nat, windowMs: int, now: int, member: string) returns (reply: Reply)
      requires windowMs > 0 && limit >= 1
      modifies this
      ensures key == SlidingKey(old(key), limit, windowMs, now, member)
      ensures SlidingReplies(old(key), limit, windowMs, now, reply)
    {
      ZRemRangeByScore(now - windowMs, now);
      var entries := if key.Some? then key.value.entries else {};
      assert entries == InWindowEntries(old(key), windowMs, now);
      var count := |entries|;
      if count >= limit {
        OldestExists(entries);
        var first :| first in entries && forall e | e in entries :: first.time <= e.time;
        assert IsOldest(entries, first.time);
        return Reply(false, count, limit, first.time / 1000 + windowMs / 1000);
      }
      ZAdd(now, member);
      key := Some(key.value.(expiresAt := Some(now + windowMs)));
      return Reply(true, count + 1, limit, now / 1000 + windowMs / 1000);
    }
  }

  /** A request, with the random member that its caller drew for it. */
  ghost predicate History(requests: seq<Admission>) {
    forall i, j | 0 <= i < j < |requests| ::
      requests[i].time <= requests[j].time && requests[i].member != requests[j].member
  }

  function SlidingAfter(limit: nat, windowMs: int, requests: seq<Admission>): Option<ZSet> {
    if requests == [] then None
    else
      var last := requests[|requests| - 1];
      SlidingKey(SlidingAfter(limit, windowMs, requests[..|requests| - 1]), limit, windowMs, last.time, last.member)
  }

  /** The requests that the script has let through. */
  function Admitted(limit: nat, windowMs: int, requests: seq<Admission>): set<Admission> {
    if requests == [] then {}
    else
      var before, last := requests[..|requests| - 1], requests[|requests| - 1];
      Admitted(limit, windowMs, before) +
        (if SlidingAllows(SlidingAfter(limit, windowMs, before), limit, windowMs, last.time) then {last} else {})
  }

  /** Admissions in (end - windowMs, end]. */
  function Within(admitted: set<Admission>, windowMs: int, end: int): set<Admission> {
    set e | e in admitted && end - windowMs < e.time <= end
  }

  /** The key holds every admission that a window ending at `upTo` can see, and nothing but admissions. */
  ghost predicate KeySees(key: Option<ZSet>, admitted: set<Admission>, windowMs: int, upTo: int) {
    && (key.Some? ==> key.value.expiresAt.Some? && key.value.entries <= admitted)
    && (key.Some? ==> forall e | e in key.value.entries :: e.time + windowMs <= key.value.expiresAt.value)
    && (forall e | e in admitted :: e.time <= upTo)
    && (forall e | e in admitted && upTo - windowMs < e.time :: key.Some? && e in key.value.entries)
  }

  /** So whatever the expiry of the key has dropped, the removal leaves exactly the window's admissions. */
  lemma SeesTheWindow(key: Option<ZSet>, admitted: set<Admission>, windowMs: int, upTo: int, now: int)
    requires windowMs > 0 && KeySees(key, admitted, windowMs, upTo) && upTo <= now
    ensures InWindowEntries(key, windowMs, now) == Within(admitted, windowMs, now)
  {}

  lemma StepKeepsSeeing(key: Option<ZSet>, admitted: set<Admission>, limit: nat, windowMs: int, upTo: int, last: Admission)
    requires windowMs > 0 && limit >= 1 && KeySees(key, admitted, windowMs, upTo) && upTo <= last.time
    requires forall e | e in admitted :: e.member != last.member
    ensures var allowed := SlidingAllows(key, limit, windowMs, last.time);
      KeySees(SlidingKey(key, limit, windowMs, last.time, last.member),
              if allowed then admitted + {last} else admitted, windowMs, last.time)
  {
    SeesTheWindow(key, admitted, windowMs, upTo, last.time);
  }

  ghost predicate KeyFits(limit: nat, windowMs: int, requests: seq<Admission>) {
    && (forall e | e in Admitted(limit, windowMs, requests) :: e in requests)
    && forall now: int {:trigger AllUpTo(requests, now)} | AllUpTo(requests, now) ::
         KeySees(SlidingAfter(limit, windowMs, requests), Admitted(limit, windowMs, requests), windowMs, now)
  }

  ghost predicate AllUpTo(requests: seq<Admission>, now: int) {
    requests == [] || requests[|requests| - 1].time <= now
  }

  lemma SeesLater(key: Option<ZSet>, admitted: set<Admission>, windowMs: int, upTo: int, now: int)
    requires KeySees(key, admitted, windowMs, upTo) && upTo <= now
    ensures KeySees(key, admitted, windowMs, now)
  {}

  /** What one more request adds to the admissions. */
  lemma AdmittedStep(limit: nat, windowMs: int, requests: seq<Admission>)
    requires requests != []
    ensures var before, last := requests[..|requests| - 1], requests[|requests| - 1];
      var admitted := Admitted(limit, windowMs, before);
      Admitted(limit, windowMs, requests) ==
        if SlidingAllows(SlidingAfter(limit, windowMs, before), limit, windowMs, last.time) then admitted + {last} else admitted
  {}

  lemma {:induction false} KeyHoldsTheWindow(limit: nat, windowMs: int, requests: seq<Admission>)
    requires windowMs > 0 && limit >= 1 && History(requests)
    ensures KeyFits(limit, windowMs, requests)
  {
    if requests != [] {
      var before, last := requests[..|requests| - 1], requests[|requests| - 1];
      var key, admitted := SlidingAfter(limit, windowMs, before), Admitted(limit, windowMs, before);
      KeyHoldsTheWindow(limit, windowMs, before);
      assert AllUpTo(before, last.time);
      MembersDiffer(requests);
      AdmittedStep(limit, windowMs, requests);
      StepKeepsSeeing(key, admitted, limit, windowMs, last.time, last);
      forall now | AllUpTo(requests, now)
        ensures KeySees(SlidingAfter(limit, windowMs, requests), Admitted(limit, windowMs, requests), windowMs, now)
      {
        SeesLater(SlidingAfter(limit, windowMs, requests), Admitted(limit, windowMs, requests), windowMs, last.time, now);
      }
    }
  }

  lemma MembersDiffer(requests: seq<Admission>)
    requires History(requests) && requests != []
    ensures requests[|requests| - 1] in requests
    ensures forall e | e in requests[..|requests| - 1] :: e in requests && e.member != requests[|requests| - 1].member
  {}

  /** The refinement: the admissions are those of the naive rule that looks at the whole history. */
  function NaiveAdmitted(limit: nat, windowMs: int, requests: seq<Admission>): set<Admission> {
    if requests == [] then {}
    else
      var before, last := NaiveAdmitted(limit, windowMs, requests[..|requests| - 1]), requests[|requests| - 1];
      before + (if |Within(before, windowMs, last.time)| < limit then {last} else {})
  }

  /** A request is let through exactly when fewer than `limit` admissions lie in the window that ends with it. */
  lemma {:induction false} SlidingWindowIsExact(limit: nat, windowMs: int, requests: seq<Admission>)
    requires windowMs > 0 && limit >= 1 && History(requests)
    ensures Admitted(limit, windowMs, requests) == NaiveAdmitted(limit, windowMs, requests)
  {
    if requests != [] {
      var before, last := requests[..|requests| - 1], requests[|requests| - 1];
      SlidingWindowIsExact(limit, windowMs, before);
      KeyHoldsTheWindow(limit, windowMs, before);
      assert AllUpTo(before, last.time);
      SeesTheWindow(SlidingAfter(limit, windowMs, before), Admitted(limit, windowMs, before), windowMs, last.time, last.time);
      AdmittedStep(limit, windowMs, requests);
      NaiveStep(limit, windowMs, requests);
    }
  }

  lemma NaiveStep(limit: nat, windowMs: int, requests: seq<Admission>)
    requires requests != []
    ensures var before, last := NaiveAdmitted(limit, windowMs, requests[..|requests| - 1]), requests[|requests| - 1];
      NaiveAdmitted(limit, windowMs, requests) ==
        if |Within(before, windowMs, last.time)| < limit then before + {last} else before
  {}

  lemma {:induction false} NaiveFromHistory(limit: nat, windowMs: int, requests: seq<Admission>)
    ensures forall e | e in NaiveAdmitted(limit, windowMs, requests) :: e in requests
  {
    if requests != [] {
      NaiveFromHistory(limit, windowMs, requests[..|requests| - 1]);
    }
  }

  lemma {:induction false} NaiveNeverMore(limit: nat, windowMs: int, requests: seq<Admission>, end: int)
    requires windowMs > 0 && limit >= 1 && History(requests)
    ensures |Within(NaiveAdmitted(limit, windowMs, requests), windowMs, end)| <= limit
  {
    if requests != [] {
      var admitted, last := NaiveAdmitted(limit, windowMs, requests[..|requests| - 1]), requests[|requests| - 1];
      NaiveNeverMore(limit, windowMs, requests[..|requests| - 1], end);
      NaiveFromHistory(limit, windowMs, requests[..|requests| - 1]);
      AdmissionFits(admitted, limit, windowMs, last, end);
      NaiveStep(limit, windowMs, requests);
    }
  }

  /** Hence no interval of the window's length, wherever it ends, holds more than `limit` admissions. */
  lemma NeverMoreThanTheLimit(limit: nat, windowMs: int, requests: seq<Admission>, end: int)
    requires windowMs > 0 && limit >= 1 && History(requests)
    ensures |Within(Admitted(limit, windowMs, requests), windowMs, end)| <= limit
  {
    SlidingWindowIsExact(limit, windowMs, requests);
    NaiveNeverMore(limit, windowMs, requests, end);
  }

  /** One more admission, made while its own window had room, overfills no window. */
  lemma AdmissionFits(admitted: set<Admission>, limit: nat, windowMs: int, last: Admission, end: int)
    requires forall e | e in admitted :: e.time <= last.time
    requires |Within(admitted, windowMs, end)| <= limit
    ensures |Within(admitted, windowMs, last.time)| < limit ==> |Within(admitted + {last}, windowMs, end)| <= limit
  {
    var all := Within(admitted + {last}, windowMs, end);
    if last.time <= end {
      Subset(all, Within(admitted, windowMs, last.time) + {last});
    } else {
      assert all == Within(admitted, windowMs, end);
    }
  }

  lemma Subset(a: set<Admission>, b: set<Admission>)
    requires a <= b
    ensures |a| <= |b|
  {
    assert b == a + (b - a);
  }

  /** The last request of this history was refused while `oldest` was the oldest admission in sight. */
  ghost predicate Refused(limit: nat, windowMs: int, requests: seq<Admission>, oldest: int) {
    requests != [] &&
    var key, now := SlidingAfter(limit, windowMs, requests[..|requests| - 1]), requests[|requests| - 1].time;
    !SlidingAllows(key, limit, windowMs, now) && IsOldest(InWindowEntries(key, windowMs, now), oldest)
  }

  lemma RefusedWindowIsFull(limit: nat, windowMs: int, requests: seq<Admission>, oldest: int)
    requires windowMs > 0 && limit >= 1 && History(requests) && Refused(limit, windowMs, requests, oldest)
    ensures var key := SlidingAfter(limit, windowMs, requests[..|requests| - 1]);
      |InWindowEntries(key, windowMs, requests[|requests| - 1].time)| == limit
  {
    var before, last := requests[..|requests| - 1], requests[|requests| - 1];
    KeyHoldsTheWindow(limit, windowMs, before);
    assert AllUpTo(before, last.time);
    SeesTheWindow(SlidingAfter(limit, windowMs, before), Admitted(limit, windowMs, before), windowMs, last.time, last.time);
    NeverMoreThanTheLimit(limit, windowMs, before, last.time);
  }

  /** What is left of a refused request's window at a later moment. */
  lemma LaterEntries(limit: nat, windowMs: int, requests: seq<Admission>, oldest: int, retry: int)
    requires windowMs > 0 && limit >= 1 && History(requests) && Refused(limit, windowMs, requests, oldest)
    requires retry >= requests[|requests| - 1].time
    ensures InWindowEntries(SlidingAfter(limit, windowMs, requests), windowMs, retry) ==
      var kept := InWindowEntries(SlidingAfter(limit, windowMs, requests[..|requests| - 1]), windowMs, requests[|requests| - 1].time);
      set e | e in kept && retry - windowMs < e.time
  {
    KeyHoldsTheWindow(limit, windowMs, requests[..|requests| - 1]);
    assert AllUpTo(requests[..|requests| - 1], requests[|requests| - 1].time);
  }

  /**
   * After a refusal, with no request in between, the next one gets through exactly from the moment
   * the oldest admission leaves the window.
   */
  lemma RefusedUntilOldestLeaves(limit: nat, windowMs: int, requests: seq<Admission>, oldest: int, retry: int)
    requires windowMs > 0 && limit >= 1 && History(requests) && Refused(limit, windowMs, requests, oldest)
    requires retry >= requests[|requests| - 1].time
    ensures SlidingAllows(SlidingAfter(limit, windowMs, requests), limit, windowMs, retry) <==> retry >= oldest + windowMs
  {
    var kept := InWindowEntries(SlidingAfter(limit, windowMs, requests[..|requests| - 1]), windowMs, requests[|requests| - 1].time);
    RefusedWindowIsFull(limit, windowMs, requests, oldest);
    LaterEntries(limit, windowMs, requests, oldest, retry);
    OldestLeaves(kept, oldest, windowMs, retry);
  }

  lemma OldestLeaves(kept: set<Admission>, oldest: int, windowMs: int, retry: int)
    requires IsOldest(kept, oldest)
    ensures |set e | e in kept && retry - windowMs < e.time| < |kept| <==> retry >= oldest + windowMs
  {
    var later := set e | e in kept && retry - windowMs < e.time;
    var first :| first in kept && first.time == oldest;
    if retry >= oldest + windowMs {
      Subset(later, kept - {first});
    } else {
      assert later == kept;
    }
  }


  lemma AdmittedJustNow(admitted: set<Admission>, windowMs: int, last: Admission)
    requires windowMs > 0 && forall e | e in admitted :: e.member != last.member
    ensures Within(admitted + {last}, windowMs, last.time) == Within(admitted, windowMs, last.time) + {last}
    ensures |Within(admitted + {last}, windowMs, last.time)| == |Within(admitted, windowMs, last.time)| + 1
  {
    assert last !in Within(admitted, windowMs, last.time);
  }

  /** The reply to the last request, in terms of the admissions of the naive rule. */
  lemma ReplyIsNaive(limit: nat, windowMs: int, requests: seq<Admission>, reply: Reply)
    requires windowMs > 0 && limit >= 1 && History(requests) && requests != []
    requires SlidingReplies(SlidingAfter(limit, windowMs, requests[..|requests| - 1]), limit, windowMs, requests[|requests| - 1].time, reply)
    ensures var last := requests[|requests| - 1];
      var seen := Within(NaiveAdmitted(limit, windowMs, requests), windowMs, last.time);
      && (reply.allowed <==> last in NaiveAdmitted(limit, windowMs, requests))
      && reply.limit == limit && reply.count == |seen|
      && (reply.allowed ==> reply.reset == last.time / 1000 + windowMs / 1000)
      && (!reply.allowed ==> exists oldest :: IsOldest(seen, oldest) && reply.reset == oldest / 1000 + windowMs / 1000)
  {
    var before, last := requests[..|requests| - 1], requests[|requests| - 1];
    var key, admitted := SlidingAfter(limit, windowMs, before), NaiveAdmitted(limit, windowMs, before);
    SlidingWindowIsExact(limit, windowMs, before);
    KeyHoldsTheWindow(limit, windowMs, before);
    assert AllUpTo(before, last.time);
    SeesTheWindow(key, admitted, windowMs, last.time, last.time);
    NaiveStep(limit, windowMs, requests);
    NaiveFromHistory(limit, windowMs, before);
    MembersDiffer(requests);
    AdmittedJustNow(admitted, windowMs, last);
  }

  /**
   * What a sliding-window caller is told: success exactly if the naive rule admits the request,
   * `remaining` is what the limit leaves beside the admissions in sight, and the reset is one window
   * after now, or after the oldest admission in sight if the request is refused.
   */
  lemma SlidingWindowReport(limit: nat, windowSeconds: nat, requests: seq<Admission>, reply: Reply)
    requires limit >= 1 && windowSeconds >= 1 && History(requests) && requests != [] && requests[0].time >= 0
    requires SlidingReplies(SlidingAfter(limit, windowSeconds * 1000, requests[..|requests| - 1]), limit, windowSeconds * 1000,
                            requests[|requests| - 1].time, reply)
    ensures var w, last := windowSeconds * 1000, requests[|requests| - 1];
      var admitted := NaiveAdmitted(limit, w, requests);
      var told := ReadReply(reply, limit, windowSeconds, last.time);
      && (told.success <==> last in admitted)
      && told.limit == limit && told.remaining == limit - |Within(admitted, w, last.time)|
      && (told.success ==> told.reset == last.time / 1000 + windowSeconds)
      && (!told.success ==> exists oldest :: IsOldest(Within(admitted, w, last.time), oldest) && told.reset == oldest / 1000 + windowSeconds)
  {
    var w, last := windowSeconds * 1000, requests[|requests| - 1];
    ReplyIsNaive(limit, w, requests, reply);
    var seen := Within(NaiveAdmitted(limit, w, requests), w, last.time);
    NaiveNeverMore(limit, w, requests, last.time);
    SeenIsNotNegative(limit, w, requests);
    assert w / 1000 == windowSeconds;
    ToldAsReplied(reply, limit, windowSeconds, last.time);
  }

  lemma SeenIsNotNegative(limit: nat, windowMs: int, requests: seq<Admission>)
    requires History(requests) && requests != [] && requests[0].time >= 0
    ensures requests[|requests| - 1].time >= 0
    ensures forall e | e in NaiveAdmitted(limit, windowMs, requests) :: e.time >= 0
  {
    NaiveFromHistory(limit, windowMs, requests);
  }

  lemma ToldAsReplied(reply: Reply, limit: nat, windowSeconds: nat, now: int)
    requires limit >= 1 && reply.limit == limit && 0 <= reply.count <= limit && reply.reset >= 1
    ensures ReadReply(reply, limit, windowSeconds, now) ==
      LimitResult(reply.allowed, limit, limit - reply.count, reply.reset)
  {}

  /** The moment that a refused caller takes from the reported reset: that second, or now if it is past. */
  function RetryTime(oldest: int, windowSeconds: nat, now: int): int {
    var reset := (oldest / 1000 + windowSeconds) * 1000;
    if reset < now then now else reset
  }

  /**
   * The reset time reported with a refusal is rounded down to a second. So a caller that retries then,
   * or at once if that time is already past, gets through exactly if the oldest admission fell on a
   * whole second.
   */
  lemma ReportedResetMayBeEarly(limit: nat, windowSeconds: nat, requests: seq<Admission>, oldest: int)
    requires windowSeconds >= 1 && limit >= 1 && History(requests)
    requires Refused(limit, windowSeconds * 1000, requests, oldest)
    ensures var w, now := windowSeconds * 1000, requests[|requests| - 1].time;
      SlidingAllows(SlidingAfter(limit, w, requests), limit, w, RetryTime(oldest, windowSeconds, now)) <==> oldest % 1000 == 0
  {
    var w, now := windowSeconds * 1000, requests[|requests| - 1].time;
    assert now < oldest + w;
    RefusedUntilOldestLeaves(limit, w, requests, oldest, RetryTime(oldest, windowSeconds, now));
  }

  /** Two requests, the first at the end of a second. */
  const TWO_REQUESTS: seq<Admission> := [Admission(1999, "a"), Admission(2500, "b")]

  /** With one request per second, the second of these is told to retry at 2000, and is still refused at 2998. */
  lemma EarlyResetIsReported()
    ensures History(TWO_REQUESTS) && Refused(1, 1000, TWO_REQUESTS, 1999)
    ensures !SlidingAllows(SlidingAfter(1, 1000, TWO_REQUESTS), 1, 1000, 2998)
  {
    var first := [TWO_REQUESTS[0]];
    assert TWO_REQUESTS[..1] == first && first[..0] == [];
    var none: Option<ZSet> := None;
    var key := SlidingKey(none, 1, 1000, 1999, "a");
    var kept := InWindowEntries(none, 1000, 1999);
    assert kept == {} && (set e | e in kept && e.member != "a") == {};
    assert key == Some(ZSet({} + {TWO_REQUESTS[0]}, Some(2999)));
    assert {} + {TWO_REQUESTS[0]} == {TWO_REQUESTS[0]};
    assert SlidingAfter(1, 1000, first) == key;
    assert InWindowEntries(key, 1000, 2500) == {TWO_REQUESTS[0]};
    RefusedUntilOldestLeaves(1, 1000, TWO_REQUESTS, 1999, 2998);
  }
}

/**
 * The in-memory key-value store, which removes an expired key only when it is asked for it, and
 * the store that removes every key the moment it expires.
 *
 * Values are kept as the text that `set` serializes; reading them back as JSON is not modelled.
 */
module MemoryKv {
  import opened Outcomes

  datatype Record = Record(value: string, expiresAt: Option<int>)

  type Storage = map<string, Record>

  /** A deadline of 0 is read as no deadline. */
  predicate IsExpired(r: Record, now: int) {
    r.expiresAt.Some? && r.expiresAt.value != 0 && r.expiresAt.value <= now
  }

  /** A missing lifetime and a lifetime of 0 both mean no deadline. */
  function Deadline(ex: Option<int>, now: int): Option<int> {
    if ex.Some? && ex.value != 0 then Some(now + ex.value * 1000) else None
  }

  function Live(s: Storage, now: int): Storage {
    map k | k in s && !IsExpired(s[k], now) :: s[k]
  }

  function Purged(s: Storage, key: string, now: int): Storage {
    if key in s && IsExpired(s[key], now) then s - {key} else s
  }

  datatype Op =
    | Get(key: string)
    | Set(key: string, value: string, ex: Option<int>)
    | Exists(key: string)
    | GetDel(key: string)
    | Del(keys: seq<string>)

  datatype Answer = Value(value: Option<string>) | Count(count: nat) | Done

  function ValueOf(s: Storage, key: string): Answer {
    Value(if key in s then Some(s[key].value) else None)
  }

  function Present(s: Storage, keys: seq<string>): set<string> {
    set k | k in keys && k in s
  }

  /** One operation on a store whose expired keys are already gone. */
  function Plain(s: Storage, op: Op, now: int): (Storage, Answer) {
    match op
    case Get(key) => (s, ValueOf(s, key))
    case Set(key, value, ex) => (s[key := Record(value, Deadline(ex, now))], Done)
    case Exists(key) => (s, Count(if key in s then 1 else 0))
    case GetDel(key) => (s - {key}, ValueOf(s, key))
    case Del(keys) => (s - Present(s, keys), Count(|Present(s, keys)|))
  }

  /** The lazy store: `get`, `exists` and `getdel` first purge the one key they are asked for. */
  function Lazy(s: Storage, op: Op, now: int): (Storage, Answer) {
    match op
    case Get(key) => Plain(Purged(s, key, now), op, now)
    case Exists(key) => Plain(Purged(s, key, now), op, now)
    case GetDel(key) => Plain(Purged(s, key, now), op, now)
    case _ => Plain(s, op, now)
  }

  /** The eager store: every expired key goes first. */
  function Eager(s: Storage, op: Op, now: int): (Storage, Answer) {
    Plain(Live(s, now), op, now)
  }

  /** The store itself; `now` is the clock's reading at the time of the call. */
  class InMemoryRedis {
    var storage: map<string, Record>

    constructor ()
      ensures storage == map[]
    {
      storage := map[];
    }

    method Purge(key: string, now: int)
      modifies this
      ensures storage == Purged(old(storage), key, now)
    {
      if key in storage && storage[key].expiresAt.Some? && storage[key].expiresAt.value != 0
         && storage[key].expiresAt.value <= now {
        storage := storage - {key};
      }
    }

    method Get(key: string, now: int) returns (value: Option<string>)
      modifies this
      ensures (storage, Value(value)) == Lazy(old(storage), Op.Get(key), now)
    {
      Purge(key, now);
      value := if key in storage then Some(storage[key].value) else None;
    }

    method Set(key: string, value: string, ex: Option<int>, now: int)
      modifies this
      ensures (storage, Done) == Lazy(old(storage), Op.Set(key, value, ex), now)
    {
      var expiresAt := if ex.Some? && ex.value != 0 then Some(now + ex.value * 1000) else None;
      storage := storage[key := Record(value, expiresAt)];
    }

    method Exists(key: string, now: int) returns (count: nat)
      modifies this
      ensures (storage, Count(count)) == Lazy(old(storage), Op.Exists(key), now)
    {
      Purge(key, now);
      count := if key in storage then 1 else 0;
    }

    method GetDel(key: string, now: int) returns (value: Option<string>)
      modifies this
      ensures (storage, Value(value)) == Lazy(old(storage), Op.GetDel(key), now)
    {
      Purge(key, now);
      if key !in storage {
        assert storage - {key} == storage;
        return None;
      }
      value := Some(storage[key].value);
      storage := storage - {key};
    }

    method Del(keys: seq<string>, now: int) returns (removed: nat)
      modifies this
      ensures (storage, Count(removed)) == Lazy(old(storage), Op.Del(keys), now)
    {
      removed := 0;
      for i := 0 to |keys|
        invariant storage == old(storage) - Present(old(storage), keys[..i])
        invariant removed == |Present(old(storage), keys[..i])|
      {
        var key := keys[i];
        assert keys[..i + 1] == keys[..i] + [key];
        if key in storage {
          storage := storage - {key};
          removed := removed + 1;
          assert Present(old(storage), keys[..i + 1]) == Present(old(storage), keys[..i]) + {key};
        } else {
          assert Present(old(storage), keys[..i + 1]) == Present(old(storage), keys[..i]);
        }
      }
      assert keys[..|keys|] == keys;
    }

    /** Does not purge first, so it also extends a key that has already expired. */
    method Expire(key: string, seconds: int, now: int) returns (count: nat)
      modifies this
      ensures (storage, count) == Extended(old(storage), key, seconds, now)
    {
      if key !in storage {
        return 0;
      }
      storage := storage[key := storage[key].(expiresAt := Some(now + seconds * 1000))];
      count := 1;
    }
  }

  function Extended(s: Storage, key: string, seconds: int, now: int): (Storage, nat) {
    if key !in s then (s, 0) else (s[key := s[key].(expiresAt := Some(now + seconds * 1000))], 1)
  }

  // ---------------------------------------------------------------- the lazy store refines the eager one

  datatype Call = Call(op: Op, at: int)

  predicate ClockMonotone(calls: seq<Call>) {
    forall i, j | 0 <= i < j < |calls| :: calls[i].at <= calls[j].at
  }

  function RunLazy(calls: seq<Call>): Storage {
    if calls == [] then map[]
    else Lazy(RunLazy(calls[..|calls| - 1]), calls[|calls| - 1].op, calls[|calls| - 1].at).0
  }

  function RunEager(calls: seq<Call>): Storage {
    if calls == [] then map[]
    else Eager(RunEager(calls[..|calls| - 1]), calls[|calls| - 1].op, calls[|calls| - 1].at).0
  }

  lemma LiveLater(s: Storage, t: Storage, now: int, later: int)
    requires Live(s, now) == Live(t, now) && now <= later
    ensures Live(s, later) == Live(t, later)
  {
    assert Live(s, later) == Live(Live(s, now), later);
    assert Live(t, later) == Live(Live(t, now), later);
  }

  /** Expired keys that are asked to be deleted while they are still stored. */
  function ExpiredAmong(s: Storage, keys: seq<string>, now: int): set<string> {
    Present(s, keys) - Present(Live(s, now), keys)
  }

  lemma SetRefines(lazy: Storage, key: string, r: Record, now: int)
    ensures Live(lazy[key := r], now) == Live(Live(lazy, now)[key := r], now)
  {}

  lemma PurgeKeepsLive(lazy: Storage, key: string, now: int)
    ensures Live(Purged(lazy, key, now), now) == Live(lazy, now) == Live(Live(lazy, now), now)
    ensures Live(Purged(lazy, key, now) - {key}, now) == Live(Live(lazy, now) - {key}, now)
    ensures ValueOf(Purged(lazy, key, now), key) == ValueOf(Live(lazy, now), key)
    ensures key in Purged(lazy, key, now) <==> key in Live(lazy, now)
  {}

  lemma DelRefines(lazy: Storage, keys: seq<string>, now: int)
    ensures Live(lazy - Present(lazy, keys), now) == Live(Live(lazy, now) - Present(Live(lazy, now), keys), now)
    ensures |Present(lazy, keys)| == |Present(Live(lazy, now), keys)| + |ExpiredAmong(lazy, keys, now)|
  {
    assert Present(lazy, keys) == Present(Live(lazy, now), keys) + ExpiredAmong(lazy, keys, now);
  }

  /** One call: stores that agree on their live part still do, and the answers relate as promised. */
  lemma CallRefines(lazy: Storage, eager: Storage, op: Op, now: int)
    requires Live(lazy, now) == Live(eager, now)
    ensures Live(Lazy(lazy, op, now).0, now) == Live(Eager(eager, op, now).0, now)
    ensures AnswersAgree(lazy, eager, op, now)
  {
    match op {
      case Set(key, value, ex) => SetRefines(lazy, key, Record(value, Deadline(ex, now)), now);
      case Del(keys) => DelRefines(lazy, keys, now);
      case Get(key) => PurgeKeepsLive(lazy, key, now);
      case Exists(key) => PurgeKeepsLive(lazy, key, now);
      case GetDel(key) => PurgeKeepsLive(lazy, key, now);
    }
  }

  /** Equal answers, except that the lazy `del` also counts keys that have expired unnoticed. */
  predicate AnswersAgree(lazy: Storage, eager: Storage, op: Op, now: int) {
    if op.Del? then
      && Lazy(lazy, op, now).1.Count? && Eager(eager, op, now).1.Count?
      && Lazy(lazy, op, now).1.count == Eager(eager, op, now).1.count + |ExpiredAmong(lazy, op.keys, now)|
    else Lazy(lazy, op, now).1 == Eager(eager, op, now).1
  }

  lemma {:induction false} RunsAgree(calls: seq<Call>, now: int)
    requires ClockMonotone(calls) && (calls != [] ==> calls[|calls| - 1].at <= now)
    ensures Live(RunLazy(calls), now) == Live(RunEager(calls), now)
  {
    if calls != [] {
      var before, last := calls[..|calls| - 1], calls[|calls| - 1];
      RunsAgree(before, last.at);
      CallRefines(RunLazy(before), RunEager(before), last.op, last.at);
      LiveLater(RunLazy(calls), RunEager(calls), last.at, now);
    }
  }

  /**
   * Over every run with a clock that never goes back, the live parts of the two stores are equal and
   * the next call is answered alike.
   */
  lemma LazyRefinesEager(calls: seq<Call>, next: Call)
    requires ClockMonotone(calls + [next])
    ensures Live(RunLazy(calls), next.at) == Live(RunEager(calls), next.at)
    ensures AnswersAgree(RunLazy(calls), RunEager(calls), next.op, next.at)
  {
    assert calls == (calls + [next])[..|calls|];
    assert calls != [] ==> calls[|calls| - 1] == (calls + [next])[|calls| - 1] && next == (calls + [next])[|calls|];
    forall i, j | 0 <= i < j < |calls| ensures calls[i].at <= calls[j].at {
      assert (calls + [next])[i] == calls[i] && (calls + [next])[j] == calls[j];
    }
    RunsAgree(calls, next.at);
    CallRefines(RunLazy(calls), RunEager(calls), next.op, next.at);
  }

  /** The clock must not go back: a key that had expired can then be read again. */
  lemma BackwardClockRevives()
    ensures var calls := [Call(Op.Set("k", "v", Some(1)), 1), Call(Op.Exists("other"), 2000)];
      && Lazy(RunLazy(calls), Op.Get("k"), 500).1 == Value(Some("v"))
      && Eager(RunEager(calls), Op.Get("k"), 500).1 == Value(None)
  {
    var calls := [Call(Op.Set("k", "v", Some(1)), 1), Call(Op.Exists("other"), 2000)];
    assert calls[..1] == [calls[0]] && [calls[0]][..0] == [];
    var stored: Storage := map["k" := Record("v", Some(1001))];
    assert RunLazy(calls[..1]) == stored;
    assert RunEager(calls[..1]) == stored;
    assert Live(stored, 2000) == map[];
  }

  predicate IsStale(s: Storage, key: string, now: int) {
    key in s && IsExpired(s[key], now)
  }

  /**
   * `expire` answers as on the eager store exactly when its key has not expired unnoticed, and leaves the
   * same live keys exactly when that holds or the new deadline has passed already.
   */
  lemma ExpireAgreesUnlessStale(s: Storage, key: string, seconds: int, now: int)
    ensures Extended(s, key, seconds, now).1 == Extended(Live(s, now), key, seconds, now).1 <==> !IsStale(s, key, now)
    ensures Live(Extended(s, key, seconds, now).0, now) == Live(Extended(Live(s, now), key, seconds, now).0, now) <==>
      !IsStale(s, key, now) || (seconds <= 0 && now + seconds * 1000 != 0)
  {
    var lazy, eager := Extended(s, key, seconds, now).0, Extended(Live(s, now), key, seconds, now).0;
    if IsStale(s, key, now) {
      assert key in Live(lazy, now) <==> !(seconds <= 0 && now + seconds * 1000 != 0);
      assert key !in Live(eager, now);
    }
    assert forall k | k != key :: (k in Live(lazy, now) <==> k in Live(eager, now));
  }

  /** So a key that had expired unnoticed can be read again after an `expire`. */
  lemma ExpireRevives(s: Storage, key: string, seconds: int, now: int)
    requires IsStale(s, key, now) && seconds > 0
    ensures Lazy(s, Op.Get(key), now).1 == Value(None)
    ensures Lazy(Extended(s, key, seconds, now).0, Op.Get(key), now).1 == Value(Some(s[key].value))
  {}

  // ---------------------------------------------------------------- answers, read off the calls

  /** What the last call about this key has put there, if it has put anything. */
  datatype LastPut = LastPut(value: string, ex: Option<int>, at: int)

  function PutAfter(put: Option<LastPut>, key: string, call: Call): Option<LastPut> {
    if call.op.Set? && call.op.key == key then Some(LastPut(call.op.value, call.op.ex, call.at))
    else if call.op.GetDel? && call.op.key == key then None
    else if call.op.Del? && key in call.op.keys then None
    else put
  }

  function LastPutOf(calls: seq<Call>, key: string): Option<LastPut> {
    if calls == [] then None else PutAfter(LastPutOf(calls[..|calls| - 1], key), key, calls[|calls| - 1])
  }

  /** It can be read until its lifetime of `ex` seconds is over; no lifetime, or one of 0, means for good. */
  predicate CanRead(put: Option<LastPut>, now: int) {
    put.Some? &&
    (put.value.ex.None? || put.value.ex.value == 0 || now < put.value.at + put.value.ex.value * 1000
     || put.value.at + put.value.ex.value * 1000 == 0)
  }

  /** The store holds a put, or nothing once the put can no longer be read. */
  ghost predicate Holds(s: Storage, key: string, put: Option<LastPut>, now: int) {
    if key in s then
      && put.Some? && s[key].value == put.value.value
      && forall later | now <= later :: IsExpired(s[key], later) <==> !CanRead(put, later)
    else forall later | now <= later :: !CanRead(put, later)
  }

  lemma CallHolds(s: Storage, key: string, put: Option<LastPut>, op: Op, before: int, now: int)
    requires before <= now && Holds(s, key, put, before)
    ensures Holds(Lazy(s, op, now).0, key, PutAfter(put, key, Call(op, now)), now)
  {}

  lemma {:induction false} StoreHoldsLastPut(calls: seq<Call>, key: string, now: int)
    requires ClockMonotone(calls) && (calls != [] ==> calls[|calls| - 1].at <= now)
    ensures Holds(RunLazy(calls), key, LastPutOf(calls, key), now)
  {
    if calls != [] {
      var before, last := calls[..|calls| - 1], calls[|calls| - 1];
      StoreHoldsLastPut(before, key, last.at);
      CallHolds(RunLazy(before), key, LastPutOf(before, key), last.op, last.at, last.at);
    }
  }

  function Readable(calls: seq<Call>, key: string, now: int): Option<string> {
    if CanRead(LastPutOf(calls, key), now) then Some(LastPutOf(calls, key).value.value) else None
  }

  function ReadableAmong(calls: seq<Call>, keys: seq<string>, now: int): set<string> {
    set k | k in keys && CanRead(LastPutOf(calls, k), now)
  }

  lemma {:induction false} AtMostThatMany(some: set<string>, keys: seq<string>)
    requires forall k | k in some :: k in keys
    ensures |some| <= |keys|
  {
    if keys == [] {
      assert some == {};
    } else {
      var n := |keys| - 1;
      assert keys == keys[..n] + [keys[n]];
      AtMostThatMany(some - {keys[n]}, keys[..n]);
      assert |some - {keys[n]}| >= |some| - 1;
    }
  }

  /**
   * Every read answers with the last put that no delete has followed, for as long as its lifetime lasts;
   * a delete counts at least the keys that could still be read.
   */
  lemma AnswersFollowTheCalls(calls: seq<Call>, next: Call)
    requires ClockMonotone(calls) && (calls != [] ==> calls[|calls| - 1].at <= next.at)
    ensures var answer := Lazy(RunLazy(calls), next.op, next.at).1;
      && (next.op.Get? || next.op.GetDel? ==> answer == Value(Readable(calls, next.op.key, next.at)))
      && (next.op.Exists? ==> answer == Count(if Readable(calls, next.op.key, next.at).Some? then 1 else 0))
      && (next.op.Del? ==> answer.Count? && |ReadableAmong(calls, next.op.keys, next.at)| <= answer.count <= |next.op.keys|)
      && (next.op.Set? ==> answer == Done)
  {
    forall key: string ensures Holds(RunLazy(calls), key, LastPutOf(calls, key), next.at) {
      StoreHoldsLastPut(calls, key, next.at);
    }
    if next.op.Del? {
      var readable := ReadableAmong(calls, next.op.keys, next.at);
      var present := Present(RunLazy(calls), next.op.keys);
      forall k | k in readable ensures k in present {
        assert Holds(RunLazy(calls), k, LastPutOf(calls, k), next.at);
      }
      assert present == readable + (present - readable);
      AtMostThatMany(present, next.op.keys);
    }
  }
}

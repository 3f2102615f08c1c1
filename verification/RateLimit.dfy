/** What the two rate limiter scripts reply, and how the limiter reads a reply. */
module RateLimit {
  datatype Reply = Reply(allowed: bool, count: int, limit: int, reset: int)

  datatype LimitResult = LimitResult(success: bool, limit: int, remaining: int, reset: int)

  function ReadReply(reply: Reply, limit: nat, windowSeconds: nat, now: int): LimitResult {
    var limitValue := if reply.limit > 0 then reply.limit else limit;
    var current := if reply.count > 0 then reply.count else 0;
    LimitResult(
      reply.allowed,
      limitValue,
      if limitValue - current < 0 then 0 else limitValue - current,
      if reply.reset > 0 then reply.reset else now / 1000 + windowSeconds)
  }

  /** A reply without a limit or a reset is completed from the limiter's own settings and clock. */
  lemma IncompleteReply(reply: Reply, limit: nat, windowSeconds: nat, now: int)
    ensures reply.limit <= 0 ==> ReadReply(reply, limit, windowSeconds, now).limit == limit
    ensures reply.reset <= 0 ==> ReadReply(reply, limit, windowSeconds, now).reset == now / 1000 + windowSeconds
    ensures ReadReply(reply, limit, windowSeconds, now).remaining >= 0
  {}
}

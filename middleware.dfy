/** The rate-limiting middleware in front of the write handler: it records
    the client, asks the client's limiter for a token, and either answers
    429 at once or hands the request on. */
module Middleware {
  import opened RateLimit
  import opened Handlers
  import opened Visitors

  /** What the middleware answers, and how many times it called the wrapped
      handler. */
  datatype Gated = Gated(response: Response, nextCalls: nat)

  /** The allow/deny branch: `next` is the response the wrapped handler
      would write if it were called. */
  function RateLimitGate(allowed: bool, next: Response): (g: Gated)
    ensures g.nextCalls == (if allowed then 1 else 0)
    ensures allowed ==> g.response == next
    ensures !allowed ==> g.response == Response(StatusTooManyRequests, NoBody)
  {
    if allowed then Gated(next, 1) else Gated(Response(StatusTooManyRequests, NoBody), 0)
  }

  /** A denial writes only the status: whatever the handler would have
      answered, the response is the same bodiless 429. */
  lemma DenialIgnoresHandler(next1: Response, next2: Response)
    ensures RateLimitGate(false, next1) == RateLimitGate(false, next2)
    ensures RateLimitGate(false, next1).response.body == NoBody
  {
  }

  /** POST /write from `ip` at `now`, `earned` being the tokens the client's
      bucket has accrued since its last request. The visitor is recorded or refreshed
      even when the request is refused; a refused request never reaches the
      write handler, so it never reaches the database; an admitted one is
      answered exactly as the handler answers it. */
  method ServeWrite(reg: Registry, ip: Key, now: Time, earned: nat, req: Decoded, store: InsertOutcome)
    returns (r: SaveResult)
    requires reg.Valid()
    modifies reg, reg.Repr
    ensures reg.Valid() && fresh(reg.Repr - old(reg.Repr))
    ensures ip in reg.visitors
    ensures reg.visitors == Touch(old(reg.visitors), ip, now, reg.visitors[ip].limiter)
    ensures var before := Refill(if ip in old(reg.visitors) then old(reg.visitors[ip].limiter.tokens) else Burst, earned);
      && (before == 0 ==>
            r == SaveResult(Response(StatusTooManyRequests, NoBody), None) &&
            reg.visitors[ip].limiter.tokens == 0)
      && (before > 0 ==>
            r == SaveJoke(req, store) &&
            reg.visitors[ip].limiter.tokens == before - 1)
    ensures forall k :: k in old(reg.visitors) && k != ip ==>
      reg.visitors[k].limiter.tokens == old(reg.visitors[k].limiter.tokens)
  {
    var allowed := reg.Admit(ip, now, earned);
    var handled := SaveJoke(req, store);
    var g := RateLimitGate(allowed, handled.response);
    r := SaveResult(g.response, if g.nextCalls == 1 then handled.insert else None);
  }

  /** `n` requests from one new client, all at the same instant, through the
      middleware in front of a handler that answers 200: the first three are
      passed on and every later one is refused with 429. */
  method ImmediateRequests(ip: Key, now: Time, n: nat) returns (statuses: seq<int>)
    ensures |statuses| == n
    ensures forall i :: 0 <= i < n ==>
      statuses[i] == if i < Burst then StatusOK else StatusTooManyRequests
  {
    var reg := new Registry();
    var next := Response(StatusOK, NoBody);
    ghost var admitted: seq<bool> := [];
    ghost var t: nat := Burst;
    statuses := [];
    var i := 0;
    while i < n
      invariant 0 <= i <= n
      invariant reg.Valid() && fresh(reg.Repr)
      invariant |admitted| == |statuses| == i
      invariant forall j :: 0 <= j < i ==>
        statuses[j] == if admitted[j] then StatusOK else StatusTooManyRequests
      invariant t == if ip in reg.visitors then reg.visitors[ip].limiter.tokens else Burst
      invariant admitted + Run(t, n - i) == Run(Burst, n)
    {
      var allowed := reg.Admit(ip, now, 0);
      var g := RateLimitGate(allowed, next);
      RunStep(admitted, t, n - i, allowed, reg.visitors[ip].limiter.tokens);
      admitted, t := admitted + [allowed], reg.visitors[ip].limiter.tokens;
      statuses := statuses + [g.response.status];
      i := i + 1;
    }
    forall j | 0 <= j < n
      ensures statuses[j] == if j < Burst then StatusOK else StatusTooManyRequests
    {
      RunAdmitsWhileTokensLast(Burst, n, j);
    }
  }
}

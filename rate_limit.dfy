/** An abstract, integer stand-in for the token-bucket limiter that every
    visitor owns. Only what the write path relies on is kept: a fresh bucket
    starts full with Burst tokens, and every Allow credits the tokens earned
    since the last call, capped at Burst, then takes one token if there is
    one. How elapsed time turns into tokens is not modelled; the whole tokens
    earned are an input to Allow. */
module RateLimit {

  /** The burst size given to every new limiter (rate 1 per second, burst 3). */
  const Burst: nat := 3

  /** The answers of `n` Allow calls made back to back, with no time passing
      between them, on a bucket that holds `tokens` tokens. */
  function Run(tokens: nat, n: nat): (r: seq<bool>)
    ensures |r| == n
    ensures n > 0 ==> r[0] == (tokens > 0)
  {
    if n == 0 then []
    else if tokens > 0 then [true] + Run(tokens - 1, n - 1)
    else [false] + Run(0, n - 1)
  }

  /** A bucket holding `tokens` admits exactly the first `tokens` requests of
      an immediate burst and denies every later one. */
  lemma {:induction false} RunAdmitsWhileTokensLast(tokens: nat, n: nat, i: nat)
    requires i < n
    ensures Run(tokens, n)[i] == (i < tokens)
  {
    if i > 0 {
      RunAdmitsWhileTokensLast(if tokens > 0 then tokens - 1 else 0, n - 1, i - 1);
    }
  }

  /** One more answer of a burst, split off its front: an Allow with nothing
      earned that answered `ok` and left `rest` tokens. */
  lemma RunStep(done: seq<bool>, tokens: nat, n: nat, ok: bool, rest: nat)
    requires n > 0 && tokens <= Burst
    requires var avail := Refill(tokens, 0);
      ok == (avail > 0) && rest == if ok then avail - 1 else avail
    ensures done + Run(tokens, n) == (done + [ok]) + Run(rest, n - 1)
  {
  }

  /** The burst the write path promises a fresh client: three admissions,
      then a denial. */
  lemma FreshBucketBurst()
    ensures Run(Burst, 4) == [true, true, true, false]
  {
  }

  /** The bucket after `earned` whole tokens have accrued since it was last
      asked: it gains them, but never holds more than Burst. How many tokens
      the elapsed time is worth is left to the caller. */
  function Refill(tokens: nat, earned: nat): (r: nat)
    ensures r <= Burst
    ensures r == Burst || r == tokens + earned
    ensures r <= tokens + earned
    ensures tokens <= Burst ==> tokens <= r
    ensures earned >= Burst ==> r == Burst
  {
    if tokens + earned < Burst then tokens + earned else Burst
  }

  /** One limiter object; visitors share it by reference, as the source
      shares a pointer to it. */
  class Limiter {
    var tokens: nat

    ghost predicate Valid()
      reads this
    {
      tokens <= Burst
    }

    /** A new limiter starts with a full bucket. */
    constructor ()
      ensures Valid() && tokens == Burst
    {
      tokens := Burst;
    }

    /** First credits the `earned` tokens accrued since the last call, then
        takes one token if one is there; otherwise denies and takes nothing. */
    method Allow(earned: nat) returns (ok: bool)
      requires Valid()
      modifies this
      ensures Valid()
      ensures var avail := Refill(old(tokens), earned);
        ok == (avail > 0) && tokens == if ok then avail - 1 else avail
      ensures earned == 0 ==> Run(old(tokens), 1) == [ok]
    {
      tokens := Refill(tokens, earned);
      ok := tokens > 0;
      if ok {
        tokens := tokens - 1;
      }
    }
  }
}

/** The registry of visitors of the write path: one entry per client key,
    holding that client's limiter and the time it was last seen. Each method
    is one critical section of the source's mutex, taken as a single atomic
    step; the clock is the parameter `now`. */
module Visitors {
  import opened RateLimit

  /** The raw remote address of the connection, port included. */
  type Key = string

  /** Nanoseconds on the process clock. */
  type Time = int

  const Minute: int := 60_000_000_000

  /** An entry not seen for strictly longer than this is evicted. */
  const StaleAfter: int := 3 * Minute

  datatype Visitor = Visitor(limiter: Limiter, lastSeen: Time)

  predicate IsStale(v: Visitor, now: Time)
  {
    now - v.lastSeen > StaleAfter
  }

  /** The registry after a request from `ip` at `now`, where `newLimiter` is the
      limiter a new entry would receive. */
  function Touch(m: map<Key, Visitor>, ip: Key, now: Time, newLimiter: Limiter): (r: map<Key, Visitor>)
    ensures r.Keys == m.Keys + {ip}
    ensures r[ip].lastSeen == now
    ensures r[ip].limiter == if ip in m then m[ip].limiter else newLimiter
    ensures forall k :: k in m && k != ip ==> k in r && r[k] == m[k]
  {
    if ip in m then m[ip := m[ip].(lastSeen := now)] else m[ip := Visitor(newLimiter, now)]
  }

  /** The registry after one eviction pass at `now`. */
  function Sweep(m: map<Key, Visitor>, now: Time): (r: map<Key, Visitor>)
    ensures forall k :: k in r <==> k in m && !IsStale(m[k], now)
    ensures forall k :: k in r ==> r[k] == m[k]
  {
    map k | k in m && !IsStale(m[k], now) :: m[k]
  }

  /** A later pass removes at least what an earlier one did, so a pass at
      `t1` followed by one at `t2 >= t1` is the same as the pass at `t2`. */
  lemma SweepLater(m: map<Key, Visitor>, t1: Time, t2: Time)
    requires t1 <= t2
    ensures Sweep(Sweep(m, t1), t2) == Sweep(m, t2)
  {
  }

  /** Running the pass twice at the same time is running it once. */
  lemma SweepIdempotent(m: map<Key, Visitor>, now: Time)
    ensures Sweep(Sweep(m, now), now) == Sweep(m, now)
  {
  }

  /** A request keeps its client's entry through every pass within three
      minutes of it (an entry exactly three minutes old included), and no
      pass after that. */
  lemma TouchedSurvivesSweep(m: map<Key, Visitor>, ip: Key, t: Time, l: Limiter, now: Time)
    ensures ip in Sweep(Touch(m, ip, t, l), now) <==> now - t <= StaleAfter
  {
  }

  /** A request never evicts anyone: every entry that the pass keeps without
      it, it also keeps with it, unchanged, for every other client. */
  lemma TouchKeepsOthersThroughSweep(m: map<Key, Visitor>, ip: Key, t: Time, l: Limiter, now: Time, k: Key)
    requires k != ip
    ensures k in Sweep(Touch(m, ip, t, l), now) <==> k in Sweep(m, now)
    ensures k in Sweep(m, now) ==> Sweep(Touch(m, ip, t, l), now)[k] == m[k]
  {
  }

  class Registry {
    var visitors: map<Key, Visitor>
    /** The limiters the registry has handed out. */
    ghost var Repr: set<Limiter>

    /** Every entry's limiter is a valid bucket owned by the registry, and
        no two clients share a limiter. */
    ghost predicate Valid()
      reads this, Repr
    {
      && (forall k :: k in visitors ==> visitors[k].limiter in Repr && visitors[k].limiter.Valid())
      && (forall k1, k2 :: k1 in visitors && k2 in visitors && k1 != k2 ==>
            visitors[k1].limiter != visitors[k2].limiter)
    }

    constructor ()
      ensures Valid() && visitors == map[] && Repr == {}
    {
      visitors := map[];
      Repr := {};
    }

    /** Get-or-insert: a new client receives a fresh, full limiter; a known
        one keeps its limiter and only has its last-seen time moved to `now`.
        No limiter is touched, so no bucket's tokens change. */
    method GetVisitor(ip: Key, now: Time) returns (lim: Limiter)
      requires Valid()
      modifies this
      ensures Valid()
      ensures visitors == Touch(old(visitors), ip, now, lim)
      ensures lim == visitors[ip].limiter
      ensures ip !in old(visitors) ==> fresh(lim) && lim.tokens == Burst
      ensures Repr == old(Repr) + {lim}
    {
      if ip !in visitors {
        lim := new Limiter();
        assert lim !in Repr;
        visitors := visitors[ip := Visitor(lim, now)];
      } else {
        lim := visitors[ip].limiter;
        visitors := visitors[ip := visitors[ip].(lastSeen := now)];
      }
      Repr := Repr + {lim};
    }

    /** A request from `ip` at `now` that asks its limiter for one token,
        after the `earned` tokens accrued since the client's last request.
        The entry is recorded or refreshed whether or not the request is
        admitted, and no other client's entry or bucket changes. */
    method Admit(ip: Key, now: Time, earned: nat) returns (allowed: bool)
      requires Valid()
      modifies this, Repr
      ensures Valid() && fresh(Repr - old(Repr))
      ensures ip in visitors
      ensures visitors == Touch(old(visitors), ip, now, visitors[ip].limiter)
      ensures var before := Refill(if ip in old(visitors) then old(visitors[ip].limiter.tokens) else Burst, earned);
        && allowed == (before > 0)
        && visitors[ip].limiter.tokens == if allowed then before - 1 else before
      ensures forall k :: k in old(visitors) && k != ip ==>
        visitors[k].limiter.tokens == old(visitors[k].limiter.tokens)
    {
      var lim := GetVisitor(ip, now);
      ghost var mid := visitors;
      allowed := lim.Allow(earned);
      assert visitors == mid;
      forall k | k in visitors && k != ip
        ensures visitors[k].limiter != lim
      {
      }
    }

    /** One eviction pass: visits every entry once and deletes those not seen
        for more than three minutes. */
    method CleanupVisitors(now: Time)
      requires Valid()
      modifies this
      ensures Valid() && Repr == old(Repr)
      ensures visitors == Sweep(old(visitors), now)
    {
      ghost var start := visitors;
      var pending := visitors.Keys;
      while pending != {}
        invariant Repr == old(Repr)
        invariant pending <= start.Keys
        invariant forall k :: k in visitors <==> k in start && (k in pending || !IsStale(start[k], now))
        invariant forall k :: k in visitors ==> visitors[k] == start[k]
        decreases pending
      {
        var ip :| ip in pending;
        if IsStale(visitors[ip], now) {
          visitors := visitors - {ip};
        }
        pending := pending - {ip};
      }
    }
  }
}

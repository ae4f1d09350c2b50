/** The lazy token bucket behind rate.Limiter, in exact arithmetic. Time is in seconds. */
module TokenBucket {
  datatype Config = Config(rate: real, burst: nat, ttl: real) {
    predicate Valid() {
      rate >= 0.0 && ttl >= 0.0
    }
  }

  datatype Bucket = Bucket(tokens: real, last: real)

  predicate WellFormed(cfg: Config, b: Bucket, now: real) {
    0.0 <= b.tokens <= cfg.burst as real && b.last <= now
  }

  function Fresh(cfg: Config, now: real): Bucket {
    Bucket(cfg.burst as real, now)
  }

  /** Tokens earned in d seconds. */
  function Refill(cfg: Config, d: real): real {
    cfg.rate * d
  }

  /** Tokens available at time now; a clock that runs backwards earns nothing. */
  function TokensAt(cfg: Config, b: Bucket, now: real): real {
    var elapsed := if now < b.last then 0.0 else now - b.last;
    var tokens := b.tokens + Refill(cfg, elapsed);
    if tokens > cfg.burst as real then cfg.burst as real else tokens
  }

  /** One Allow call: spend a whole token if there is one, otherwise leave the bucket alone. */
  function Take(cfg: Config, b: Bucket, now: real): (Bucket, bool) {
    var tokens := TokensAt(cfg, b, now);
    if tokens >= 1.0 then (Bucket(tokens - 1.0, now), true) else (b, false)
  }

  lemma RefillMonotone(cfg: Config, d1: real, d2: real)
    requires cfg.Valid() && d1 <= d2
    ensures Refill(cfg, d1) <= Refill(cfg, d2)
    ensures Refill(cfg, 0.0) == 0.0
  {
    assert cfg.rate * (d2 - d1) >= 0.0;
  }

  lemma RefillAdds(cfg: Config, t1: real, t2: real, t3: real)
    ensures Refill(cfg, t2 - t1) + Refill(cfg, t3 - t2) == Refill(cfg, t3 - t1)
    ensures Refill(cfg, 0.0) == 0.0
  {
  }

  /** Reading the bucket on the way changes nothing: refilling is additive in time. */
  lemma TokensLater(cfg: Config, b: Bucket, t1: real, t2: real)
    requires cfg.Valid() && WellFormed(cfg, b, t1) && t1 <= t2
    ensures var later := TokensAt(cfg, b, t1) + Refill(cfg, t2 - t1);
            TokensAt(cfg, b, t2) == if later > cfg.burst as real then cfg.burst as real else later
    ensures 0.0 <= TokensAt(cfg, b, t1) <= TokensAt(cfg, b, t2) <= cfg.burst as real
  {
    assert Refill(cfg, t2 - b.last) == Refill(cfg, t1 - b.last) + Refill(cfg, t2 - t1);
    RefillMonotone(cfg, 0.0, t1 - b.last);
    RefillMonotone(cfg, 0.0, t2 - t1);
  }

  /** After an idle time long enough to refill, any bucket is as good as new. */
  lemma IdleRefills(cfg: Config, b: Bucket, used: real, now: real)
    requires cfg.Valid() && Refill(cfg, cfg.ttl) >= cfg.burst as real
    requires WellFormed(cfg, b, used) && now - used >= cfg.ttl
    ensures TokensAt(cfg, b, now) == cfg.burst as real
  {
    RefillMonotone(cfg, cfg.ttl, now - b.last);
  }

  lemma TakeKeepsWellFormed(cfg: Config, b: Bucket, now: real)
    requires cfg.Valid() && WellFormed(cfg, b, now)
    ensures WellFormed(cfg, Take(cfg, b, now).0, now)
    ensures TokensAt(cfg, Take(cfg, b, now).0, now)
         == TokensAt(cfg, b, now) - (if Take(cfg, b, now).1 then 1.0 else 0.0)
    ensures WellFormed(cfg, Fresh(cfg, now), now) && TokensAt(cfg, Fresh(cfg, now), now) == cfg.burst as real
  {
    TokensLater(cfg, b, now, now);
  }

  // ---- When a bucket can be forgotten ----

  /** Allow at each of the given times. */
  function Answers(cfg: Config, b: Bucket, times: seq<real>): seq<bool>
    decreases |times|
  {
    if times == [] then [] else
      var (b', ok) := Take(cfg, b, times[0]);
      [ok] + Answers(cfg, b', times[1..])
  }

  ghost predicate From(now: real, times: seq<real>)
    decreases |times|
  {
    times == [] || (now <= times[0] && From(times[0], times[1..]))
  }

  /** Only the tokens matter for the answers to come. */
  lemma {:induction false} SameTokensSameAnswers(cfg: Config, a: Bucket, b: Bucket, now: real, times: seq<real>)
    requires cfg.Valid() && WellFormed(cfg, a, now) && WellFormed(cfg, b, now)
    requires TokensAt(cfg, a, now) == TokensAt(cfg, b, now)
    requires From(now, times)
    ensures Answers(cfg, a, times) == Answers(cfg, b, times)
    decreases |times|
  {
    if times != [] {
      var t := times[0];
      TokensLater(cfg, a, now, t);
      TokensLater(cfg, b, now, t);
      TakeKeepsWellFormed(cfg, a, t);
      TakeKeepsWellFormed(cfg, b, t);
      SameTokensSameAnswers(cfg, Take(cfg, a, t).0, Take(cfg, b, t).0, t, times[1..]);
    }
  }

  function AtOnce(now: real, n: nat): seq<real> {
    if n == 0 then [] else [now] + AtOnce(now, n - 1)
  }

  /** n calls at once are all allowed exactly when there are n tokens. */
  lemma {:induction false} AllAtOnceIff(cfg: Config, b: Bucket, now: real, n: nat)
    requires cfg.Valid() && WellFormed(cfg, b, now)
    ensures From(now, AtOnce(now, n))
    ensures false !in Answers(cfg, b, AtOnce(now, n)) <==> TokensAt(cfg, b, now) >= n as real
    decreases n
  {
    if n > 0 {
      var times := AtOnce(now, n);
      assert times[1..] == AtOnce(now, n - 1);
      TakeKeepsWellFormed(cfg, b, now);
      AllAtOnceIff(cfg, Take(cfg, b, now).0, now, n - 1);
      var rest := Answers(cfg, Take(cfg, b, now).0, times[1..]);
      assert Answers(cfg, b, times) == [Take(cfg, b, now).1] + rest;
    } else {
      TokensLater(cfg, b, now, now);
    }
  }

  /**
   * Replacing a bucket by a fresh one is invisible to every later sequence of calls if and only if it has refilled by
   * then: the condition under which a limiter can be dropped with its last user.
   */
  lemma ForgetInvisibleIff(cfg: Config, b: Bucket, now: real)
    requires cfg.Valid() && WellFormed(cfg, b, now)
    ensures (forall times :: From(now, times) ==> Answers(cfg, b, times) == Answers(cfg, Fresh(cfg, now), times))
       <==> TokensAt(cfg, b, now) == cfg.burst as real
  {
    TakeKeepsWellFormed(cfg, b, now);
    TokensLater(cfg, b, now, now);
    if TokensAt(cfg, b, now) == cfg.burst as real {
      forall times | From(now, times) ensures Answers(cfg, b, times) == Answers(cfg, Fresh(cfg, now), times) {
        SameTokensSameAnswers(cfg, b, Fresh(cfg, now), now, times);
      }
    } else {
      AllAtOnceIff(cfg, b, now, cfg.burst);
      AllAtOnceIff(cfg, Fresh(cfg, now), now, cfg.burst);
      assert Answers(cfg, b, AtOnce(now, cfg.burst)) != Answers(cfg, Fresh(cfg, now), AtOnce(now, cfg.burst));
    }
  }
}

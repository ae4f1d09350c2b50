/** The keyed limiter that sweeps idle keys, and the ideal limiter that never forgets. */
module KeyedLimiters {
  import opened TokenBucket

  datatype Entry = Entry(bucket: Bucket, last: real)
  datatype Call = Call(key: string, at: real)

  ghost predicate Ordered(calls: seq<Call>) {
    forall i, j :: 0 <= i <= j < |calls| ==> calls[i].at <= calls[j].at
  }

  function Swept(cfg: Config, m: map<string, Entry>, now: real): map<string, Entry> {
    map k | k in m && !(now - m[k].last > cfg.ttl) :: m[k]
  }

  /** Effect of one Allow on the evicting map. */
  function AllowStep(cfg: Config, m: map<string, Entry>, key: string, now: real): (map<string, Entry>, bool) {
    var swept := Swept(cfg, m, now);
    var bucket := if key in swept then swept[key].bucket else Fresh(cfg, now);
    var (bucket', ok) := Take(cfg, bucket, now);
    (swept[key := Entry(bucket', now)], ok)
  }

  /** Effect of one Allow on a map that keeps every key for ever. */
  function KeepStep(cfg: Config, m: map<string, Bucket>, key: string, now: real): (map<string, Bucket>, bool) {
    var bucket := if key in m then m[key] else Fresh(cfg, now);
    var (bucket', ok) := Take(cfg, bucket, now);
    (m[key := bucket'], ok)
  }

  function Evicting(cfg: Config, calls: seq<Call>): (r: (map<string, Entry>, seq<bool>))
    ensures |r.1| == |calls|
  {
    if calls == [] then (map[], []) else
      var n := |calls| - 1;
      var (m, answers) := Evicting(cfg, calls[..n]);
      var (m', ok) := AllowStep(cfg, m, calls[n].key, calls[n].at);
      (m', answers + [ok])
  }

  function Keeping(cfg: Config, calls: seq<Call>): (r: (map<string, Bucket>, seq<bool>))
    ensures |r.1| == |calls|
  {
    if calls == [] then (map[], []) else
      var n := |calls| - 1;
      var (m, answers) := Keeping(cfg, calls[..n]);
      var (m', ok) := KeepStep(cfg, m, calls[n].key, calls[n].at);
      (m', answers + [ok])
  }

  // ---- Eviction is unobservable ----

  /** Held buckets are worth the same as the kept ones; forgotten ones were full. */
  ghost predicate Simulates(cfg: Config, held: map<string, Entry>, kept: map<string, Bucket>, now: real) {
    && held.Keys <= kept.Keys
    && (forall k :: k in kept ==> WellFormed(cfg, kept[k], now))
    && (forall k :: k in held ==>
          && held[k].last <= now
          && WellFormed(cfg, held[k].bucket, held[k].last)
          && TokensAt(cfg, held[k].bucket, now) == TokensAt(cfg, kept[k], now))
    && (forall k :: k in kept && k !in held ==> TokensAt(cfg, kept[k], now) == cfg.burst as real)
  }

  lemma SimulatesLater(cfg: Config, held: map<string, Entry>, kept: map<string, Bucket>, t1: real, t2: real)
    requires cfg.Valid() && t1 <= t2 && Simulates(cfg, held, kept, t1)
    ensures Simulates(cfg, held, kept, t2)
  {
    forall k | k in kept
      ensures k in held ==> TokensAt(cfg, held[k].bucket, t2) == TokensAt(cfg, kept[k], t2)
      ensures k !in held ==> TokensAt(cfg, kept[k], t2) == cfg.burst as real
    {
      TokensLater(cfg, kept[k], t1, t2);
      if k in held {
        TokensLater(cfg, held[k].bucket, t1, t2);
      } else {
        RefillMonotone(cfg, 0.0, t2 - t1);
      }
    }
  }

  lemma SimulatesSwept(cfg: Config, held: map<string, Entry>, kept: map<string, Bucket>, now: real)
    requires cfg.Valid() && Refill(cfg, cfg.ttl) >= cfg.burst as real
    requires Simulates(cfg, held, kept, now)
    ensures Simulates(cfg, Swept(cfg, held, now), kept, now)
  {
    forall k | k in held && now - held[k].last > cfg.ttl
      ensures TokensAt(cfg, kept[k], now) == cfg.burst as real
    {
      IdleRefills(cfg, held[k].bucket, held[k].last, now);
    }
  }

  lemma SimulatesStep(cfg: Config, held: map<string, Entry>, kept: map<string, Bucket>, key: string, now: real)
    requires cfg.Valid() && Refill(cfg, cfg.ttl) >= cfg.burst as real
    requires Simulates(cfg, held, kept, now)
    ensures var (held', ok) := AllowStep(cfg, held, key, now);
            var (kept', ok') := KeepStep(cfg, kept, key, now);
            ok == ok' && Simulates(cfg, held', kept', now)
  {
    SimulatesSwept(cfg, held, kept, now);
    var swept := Swept(cfg, held, now);
    var a := if key in swept then swept[key].bucket else Fresh(cfg, now);
    var b := if key in kept then kept[key] else Fresh(cfg, now);
    assert WellFormed(cfg, a, now) && WellFormed(cfg, b, now);
    TakeKeepsWellFormed(cfg, a, now);
    TakeKeepsWellFormed(cfg, b, now);
  }

  lemma {:induction false} SimulatesRun(cfg: Config, calls: seq<Call>, now: real)
    requires cfg.Valid() && Refill(cfg, cfg.ttl) >= cfg.burst as real
    requires Ordered(calls) && (calls != [] ==> calls[|calls| - 1].at <= now)
    ensures Simulates(cfg, Evicting(cfg, calls).0, Keeping(cfg, calls).0, now)
    ensures Evicting(cfg, calls).1 == Keeping(cfg, calls).1
  {
    if calls != [] {
      var n := |calls| - 1;
      var at := calls[n].at;
      SimulatesRun(cfg, calls[..n], at);
      SimulatesStep(cfg, Evicting(cfg, calls[..n]).0, Keeping(cfg, calls[..n]).0, calls[n].key, at);
      SimulatesLater(cfg, Evicting(cfg, calls).0, Keeping(cfg, calls).0, at, now);
    }
  }

  /** With rate * ttl >= burst, no caller can tell the sweeping map from one that never forgets. */
  lemma EvictionUnobservable(cfg: Config, calls: seq<Call>)
    requires cfg.Valid() && Refill(cfg, cfg.ttl) >= cfg.burst as real && Ordered(calls)
    ensures Evicting(cfg, calls).1 == Keeping(cfg, calls).1
  {
    SimulatesRun(cfg, calls, if calls == [] then 0.0 else calls[|calls| - 1].at);
  }

  // ---- The window bound ----

  /** Calls of key answered true among calls[from..]. */
  function Allowed(calls: seq<Call>, answers: seq<bool>, key: string, from: nat): nat
    requires |calls| == |answers|
    decreases |calls|
  {
    if |calls| <= from then 0 else
      var n := |calls| - 1;
      Allowed(calls[..n], answers[..n], key, from) + (if calls[n].key == key && answers[n] then 1 else 0)
  }

  function Balance(cfg: Config, kept: map<string, Bucket>, key: string, now: real): real {
    if key in kept then TokensAt(cfg, kept[key], now) else cfg.burst as real
  }

  ghost predicate AllWellFormed(cfg: Config, kept: map<string, Bucket>, now: real) {
    forall k :: k in kept ==> WellFormed(cfg, kept[k], now)
  }

  lemma {:induction false} KeptWellFormed(cfg: Config, calls: seq<Call>, now: real)
    requires cfg.Valid() && Ordered(calls) && (calls != [] ==> calls[|calls| - 1].at <= now)
    ensures AllWellFormed(cfg, Keeping(cfg, calls).0, now)
  {
    if calls != [] {
      var n := |calls| - 1;
      var at := calls[n].at;
      KeptWellFormed(cfg, calls[..n], at);
      var kept := Keeping(cfg, calls[..n]).0;
      var key := calls[n].key;
      TakeKeepsWellFormed(cfg, if key in kept then kept[key] else Fresh(cfg, at), at);
    }
  }

  lemma BalanceStep(cfg: Config, kept: map<string, Bucket>, call: Call, key: string)
    requires cfg.Valid() && AllWellFormed(cfg, kept, call.at)
    ensures Balance(cfg, KeepStep(cfg, kept, call.key, call.at).0, key, call.at)
         == Balance(cfg, kept, key, call.at)
            - (if call.key == key && KeepStep(cfg, kept, call.key, call.at).1 then 1.0 else 0.0)
  {
    TakeKeepsWellFormed(cfg, if call.key in kept then kept[call.key] else Fresh(cfg, call.at), call.at);
  }

  lemma BalanceLater(cfg: Config, kept: map<string, Bucket>, key: string, t1: real, t2: real)
    requires cfg.Valid() && AllWellFormed(cfg, kept, t1) && t1 <= t2
    ensures Balance(cfg, kept, key, t2) <= Balance(cfg, kept, key, t1) + Refill(cfg, t2 - t1)
    ensures 0.0 <= Balance(cfg, kept, key, t1) <= cfg.burst as real
  {
    RefillMonotone(cfg, 0.0, t2 - t1);
    if key in kept {
      TokensLater(cfg, kept[key], t1, t2);
    }
  }

  /** What key has spent since calls[from] plus what it could still spend now. */
  function Potential(cfg: Config, calls: seq<Call>, key: string, from: nat, now: real): real {
    var (kept, answers) := Keeping(cfg, calls);
    Allowed(calls, answers, key, from) as real + Balance(cfg, kept, key, now)
  }

  lemma PotentialStep(cfg: Config, calls: seq<Call>, key: string, from: nat)
    requires cfg.Valid() && Ordered(calls) && from < |calls|
    ensures var n := |calls| - 1;
            Potential(cfg, calls, key, from, calls[n].at) == Potential(cfg, calls[..n], key, from, calls[n].at)
  {
    var n := |calls| - 1;
    var (kept, answers) := Keeping(cfg, calls[..n]);
    assert Keeping(cfg, calls).1[..n] == answers;
    KeptWellFormed(cfg, calls[..n], calls[n].at);
    BalanceStep(cfg, kept, calls[n], key);
  }

  lemma PotentialLater(cfg: Config, calls: seq<Call>, key: string, from: nat, t1: real, t2: real)
    requires cfg.Valid() && Ordered(calls) && t1 <= t2
    requires calls != [] ==> calls[|calls| - 1].at <= t1
    ensures Potential(cfg, calls, key, from, t2) <= Potential(cfg, calls, key, from, t1) + Refill(cfg, t2 - t1)
    ensures |calls| <= from ==> Potential(cfg, calls, key, from, t1) <= cfg.burst as real
    ensures 0.0 <= Balance(cfg, Keeping(cfg, calls).0, key, t1)
  {
    KeptWellFormed(cfg, calls, t1);
    BalanceLater(cfg, Keeping(cfg, calls).0, key, t1, t2);
  }

  lemma {:induction false} WindowPotential(cfg: Config, calls: seq<Call>, key: string, from: nat)
    requires cfg.Valid() && Ordered(calls) && from < |calls|
    ensures Potential(cfg, calls, key, from, calls[|calls| - 1].at)
         <= cfg.burst as real + Refill(cfg, calls[|calls| - 1].at - calls[from].at)
    decreases |calls|
  {
    hide Potential, Refill;
    var n := |calls| - 1;
    var now := calls[n].at;
    PotentialStep(cfg, calls, key, from);
    if from < n {
      WindowPotential(cfg, calls[..n], key, from);
      PotentialLater(cfg, calls[..n], key, from, calls[n - 1].at, now);
      RefillAdds(cfg, calls[from].at, calls[n - 1].at, now);
    } else {
      PotentialLater(cfg, calls[..n], key, from, now, now);
      RefillAdds(cfg, now, now, now);
    }
  }

  /** In every window of a run, one key is allowed at most burst + rate * length calls, evictions included. */
  lemma WindowBound(cfg: Config, calls: seq<Call>, key: string, from: nat)
    requires cfg.Valid() && Refill(cfg, cfg.ttl) >= cfg.burst as real
    requires Ordered(calls) && from < |calls|
    ensures Allowed(calls, Evicting(cfg, calls).1, key, from) as real
         <= cfg.burst as real + Refill(cfg, calls[|calls| - 1].at - calls[from].at)
  {
    EvictionUnobservable(cfg, calls);
    KeepingBound(cfg, calls, key, from);
  }

  lemma KeepingBound(cfg: Config, calls: seq<Call>, key: string, from: nat)
    requires cfg.Valid() && Ordered(calls) && from < |calls|
    ensures Allowed(calls, Keeping(cfg, calls).1, key, from) as real
         <= cfg.burst as real + Refill(cfg, calls[|calls| - 1].at - calls[from].at)
  {
    var now := calls[|calls| - 1].at;
    WindowPotential(cfg, calls, key, from);
    PotentialLater(cfg, calls, key, from, now, now);
  }

  /** Start of the window calls[from..], or now for the empty window. */
  function StartOf(calls: seq<Call>, from: nat, now: real): real {
    if from < |calls| then calls[from].at else now
  }

  /** Some window is tight: the balance is exactly what that window leaves over. */
  lemma {:induction false} TightWindow(cfg: Config, calls: seq<Call>, key: string, now: real) returns (from: nat)
    requires cfg.Valid() && Ordered(calls) && (calls != [] ==> calls[|calls| - 1].at <= now)
    ensures from <= |calls|
    ensures Potential(cfg, calls, key, from, now) == cfg.burst as real + Refill(cfg, now - StartOf(calls, from, now))
    decreases |calls|
  {
    hide Potential, Refill;
    RefillAdds(cfg, now, now, now);
    if calls == [] {
      from := 0;
      EmptyPotential(cfg, key, now);
      return;
    }
    var n := |calls| - 1;
    var at := calls[n].at;
    from := TightWindow(cfg, calls[..n], key, at);
    PotentialStep(cfg, calls, key, from);
    assert StartOf(calls[..n], from, at) == calls[from].at;
    RefillAdds(cfg, calls[from].at, at, now);
    var full := Capped(cfg, calls, key, from, at, now);
    if full {
      from := |calls|;
    }
  }

  lemma EmptyPotential(cfg: Config, key: string, now: real)
    ensures Potential(cfg, [], key, 0, now) == cfg.burst as real
  {
  }

  /** Time either refills the bucket at the full rate or fills it up. */
  lemma Capped(cfg: Config, calls: seq<Call>, key: string, from: nat, t1: real, t2: real) returns (full: bool)
    requires cfg.Valid() && Ordered(calls) && t1 <= t2
    requires calls != [] ==> calls[|calls| - 1].at <= t1
    ensures full ==> Potential(cfg, calls, key, |calls|, t2) == cfg.burst as real
    ensures !full ==>
              Potential(cfg, calls, key, from, t2) == Potential(cfg, calls, key, from, t1) + Refill(cfg, t2 - t1)
  {
    KeptWellFormed(cfg, calls, t1);
    var kept := Keeping(cfg, calls).0;
    full := key !in kept || TokensAt(cfg, kept[key], t2) == cfg.burst as real;
    if !full {
      TokensLater(cfg, kept[key], t1, t2);
    }
  }

  /** Counting the last call too, the window calls[from..] stays within burst + rate * length. */
  ghost predicate WindowPermits(cfg: Config, calls: seq<Call>, answers: seq<bool>, from: nat)
    requires from < |calls| == |answers|
  {
    var n := |calls| - 1;
    Allowed(calls[..n], answers[..n], calls[n].key, from) as real + 1.0
      <= cfg.burst as real + Refill(cfg, calls[n].at - calls[from].at)
  }

  lemma AllowedCallFits(cfg: Config, calls: seq<Call>, from: nat)
    requires cfg.Valid() && Ordered(calls) && from < |calls| && Keeping(cfg, calls).1[|calls| - 1]
    ensures WindowPermits(cfg, calls, Keeping(cfg, calls).1, from)
  {
    hide Keeping, Allowed, Refill;
    KeepingBound(cfg, calls, calls[|calls| - 1].key, from);
    AllowedLast(calls, Keeping(cfg, calls).1, calls[|calls| - 1].key, from);
  }

  lemma RefusedCallOverdraws(cfg: Config, calls: seq<Call>) returns (from: nat)
    requires cfg.Valid() && Ordered(calls) && calls != [] && !Keeping(cfg, calls).1[|calls| - 1]
    ensures from < |calls| && !WindowPermits(cfg, calls, Keeping(cfg, calls).1, from)
  {
    hide Keeping, Balance, Potential, Allowed, Refill;
    var n := |calls| - 1;
    LastAnswer(cfg, calls);
    from := TightWindow(cfg, calls[..n], calls[n].key, calls[n].at);
    Overdrawn(cfg, calls[..n], calls[n].key, from, calls[n].at);
    assert StartOf(calls[..n], from, calls[n].at) == calls[from].at;
  }

  /**
   * The limiter is exactly as generous as the window bound permits: a call is answered true if and only if counting it
   * too leaves every window that ends with it within bounds.
   */
  lemma AllowedIffEveryWindowPermits(cfg: Config, calls: seq<Call>)
    requires cfg.Valid() && Refill(cfg, cfg.ttl) >= cfg.burst as real
    requires Ordered(calls) && calls != []
    ensures Evicting(cfg, calls).1[|calls| - 1]
       <==> forall from: nat :: from < |calls| ==> WindowPermits(cfg, calls, Evicting(cfg, calls).1, from)
  {
    hide Keeping, Evicting, WindowPermits;
    EvictionUnobservable(cfg, calls);
    var answers := Keeping(cfg, calls).1;
    if answers[|calls| - 1] {
      forall from: nat | from < |calls| ensures WindowPermits(cfg, calls, answers, from) {
        AllowedCallFits(cfg, calls, from);
      }
    } else {
      var from := RefusedCallOverdraws(cfg, calls);
    }
  }

  lemma LastAnswer(cfg: Config, calls: seq<Call>)
    requires calls != []
    ensures Keeping(cfg, calls).1[..|calls| - 1] == Keeping(cfg, calls[..|calls| - 1]).1
    ensures Keeping(cfg, calls).1[|calls| - 1]
       <==> Balance(cfg, Keeping(cfg, calls[..|calls| - 1]).0, calls[|calls| - 1].key, calls[|calls| - 1].at) >= 1.0
  {
    var n := |calls| - 1;
    assert Refill(cfg, calls[n].at - calls[n].at) == 0.0;
  }

  lemma AllowedLast(calls: seq<Call>, answers: seq<bool>, key: string, from: nat)
    requires |calls| == |answers| > from && calls[|calls| - 1].key == key && answers[|calls| - 1]
    ensures Allowed(calls, answers, key, from) == Allowed(calls[..|calls| - 1], answers[..|calls| - 1], key, from) + 1
  {
  }

  lemma Overdrawn(cfg: Config, calls: seq<Call>, key: string, from: nat, now: real)
    requires Balance(cfg, Keeping(cfg, calls).0, key, now) < 1.0
    requires Potential(cfg, calls, key, from, now) == cfg.burst as real + Refill(cfg, now - StartOf(calls, from, now))
    ensures Allowed(calls, Keeping(cfg, calls).1, key, from) as real + 1.0
          > cfg.burst as real + Refill(cfg, now - StartOf(calls, from, now))
  {
  }

  // ---- The condition is exact ----

  function Repeat(key: string, at: real, n: nat): (r: seq<Call>)
    ensures |r| == n && forall i :: 0 <= i < n ==> r[i] == Call(key, at)
  {
    seq(n, _ => Call(key, at))
  }

  function Yes(n: nat): (r: seq<bool>)
    ensures |r| == n && forall i :: 0 <= i < n ==> r[i]
  {
    seq(n, _ => true)
  }

  /** A drained-to-left bucket of the only key held. */
  function Drained(key: string, left: int, at: real): map<string, Entry> {
    map[key := Entry(Bucket(left as real, at), at)]
  }

  lemma AllowAgain(cfg: Config, key: string, left: int, at: real)
    requires cfg.Valid() && 1 <= left <= cfg.burst
    ensures AllowStep(cfg, Drained(key, left, at), key, at) == (Drained(key, left - 1, at), true)
  {
    var m := Drained(key, left, at);
    var b := m[key].bucket;
    assert Refill(cfg, at - at) == 0.0;
    assert at - at <= cfg.ttl;
    assert Swept(cfg, m, at) == m;
    assert Take(cfg, b, at) == (Bucket((left - 1) as real, at), true);
    assert m[key := Entry(Bucket((left - 1) as real, at), at)] == Drained(key, left - 1, at);
  }

  lemma AllowFirst(cfg: Config, m: map<string, Entry>, key: string, at: real)
    requires cfg.Valid() && 1 <= cfg.burst && Swept(cfg, m, at) == map[]
    ensures AllowStep(cfg, m, key, at) == (Drained(key, cfg.burst - 1, at), true)
  {
    assert Refill(cfg, at - at) == 0.0;
    assert Take(cfg, Fresh(cfg, at), at) == (Bucket((cfg.burst - 1) as real, at), true);
  }

  lemma EvictingLast(cfg: Config, calls: seq<Call>)
    requires calls != []
    ensures var (m, answers) := Evicting(cfg, calls[..|calls| - 1]);
            var (m', ok) := AllowStep(cfg, m, calls[|calls| - 1].key, calls[|calls| - 1].at);
            Evicting(cfg, calls) == (m', answers + [ok])
  {
  }

  lemma KeepingLast(cfg: Config, calls: seq<Call>)
    requires calls != []
    ensures var (m, answers) := Keeping(cfg, calls[..|calls| - 1]);
            var (m', ok) := KeepStep(cfg, m, calls[|calls| - 1].key, calls[|calls| - 1].at);
            Keeping(cfg, calls) == (m', answers + [ok])
  {
  }

  /** A burst of calls against a map that holds no live key is allowed in full. */
  lemma {:induction false} BurstAllowed(cfg: Config, before: seq<Call>, key: string, at: real, n: nat)
    requires cfg.Valid() && 1 <= n <= cfg.burst
    requires Swept(cfg, Evicting(cfg, before).0, at) == map[]
    ensures Evicting(cfg, before + Repeat(key, at, n))
         == (Drained(key, cfg.burst - n, at), Evicting(cfg, before).1 + Yes(n))
  {
    hide AllowStep, Evicting, Refill;
    var calls := before + Repeat(key, at, n);
    assert calls[|calls| - 1] == Call(key, at);
    EvictingLast(cfg, calls);
    if n == 1 {
      assert calls[..|calls| - 1] == before;
      AllowFirst(cfg, Evicting(cfg, before).0, key, at);
      assert Yes(1) == [true];
    } else {
      assert calls[..|calls| - 1] == before + Repeat(key, at, n - 1);
      BurstAllowed(cfg, before, key, at, n - 1);
      AllowAgain(cfg, key, cfg.burst - (n - 1), at);
      var answers := Evicting(cfg, before).1;
      assert answers + Yes(n - 1) + [true] == answers + Yes(n);
    }
  }

  lemma {:induction false} AllAllowed(calls: seq<Call>, key: string)
    requires forall i :: 0 <= i < |calls| ==> calls[i].key == key
    ensures Allowed(calls, Yes(|calls|), key, 0) == |calls|
    decreases |calls|
  {
    if calls != [] {
      var n := |calls| - 1;
      AllAllowed(calls[..n], key);
      assert Yes(|calls|)[..n] == Yes(n);
    }
  }

  lemma NothingHeld(cfg: Config, at: real)
    ensures Evicting(cfg, []) == (map[], []) && Swept(cfg, map[], at) == map[]
  {
  }

  /** Two bursts of calls a little more than a ttl apart. */
  function TwoBursts(cfg: Config, t: real): (calls: seq<Call>)
    ensures |calls| == 2 * cfg.burst
  {
    Repeat("k", 0.0, cfg.burst) + Repeat("k", t, cfg.burst)
  }

  /** The evicting map allows both bursts in full. */
  lemma BothBurstsAllowed(cfg: Config, t: real)
    requires cfg.Valid() && cfg.burst >= 1 && t > cfg.ttl
    ensures Evicting(cfg, TwoBursts(cfg, t)).1 == Yes(2 * cfg.burst)
  {
    hide Evicting, Take;
    var first := Repeat("k", 0.0, cfg.burst);
    NothingHeld(cfg, 0.0);
    BurstAllowed(cfg, [], "k", 0.0, cfg.burst);
    assert [] + first == first && [] + Yes(cfg.burst) == Yes(cfg.burst);
    assert Swept(cfg, Evicting(cfg, first).0, t) == map[];
    BurstAllowed(cfg, first, "k", t, cfg.burst);
    assert Yes(cfg.burst) + Yes(cfg.burst) == Yes(2 * cfg.burst);
  }

  /** Draining the bucket, idling just past the ttl and draining it again shows the eviction. */
  lemma EvictionObservable(cfg: Config) returns (calls: seq<Call>)
    requires cfg.Valid() && Refill(cfg, cfg.ttl) < cfg.burst as real
    ensures Ordered(calls) && Evicting(cfg, calls).1 != Keeping(cfg, calls).1
  {
    hide Evicting, Keeping, Refill, Allowed;
    RefillMonotone(cfg, 0.0, cfg.ttl);
    var t := JustIdle(cfg);
    calls := TwoBursts(cfg, t);
    BothBurstsAllowed(cfg, t);
    AllAllowed(calls, "k");
    KeepingBound(cfg, calls, "k", 0);
  }

  /** A time past the ttl by which the bucket has still not refilled. */
  lemma JustIdle(cfg: Config) returns (t: real)
    requires cfg.Valid() && Refill(cfg, cfg.ttl) < cfg.burst as real
    ensures t > cfg.ttl && Refill(cfg, t) < cfg.burst as real
  {
    if cfg.rate == 0.0 {
      t := cfg.ttl + 1.0;
    } else {
      var gap := cfg.burst as real - Refill(cfg, cfg.ttl);
      var slack := gap / (2.0 * cfg.rate);
      t := cfg.ttl + slack;
      assert Refill(cfg, slack) == gap / 2.0;
      assert Refill(cfg, t) == Refill(cfg, cfg.ttl) + Refill(cfg, slack);
    }
  }

  /** Forgetting idle keys is invisible to every caller exactly when an idle ttl refills a whole burst. */
  lemma EvictionUnobservableIff(cfg: Config)
    requires cfg.Valid()
    ensures (forall calls :: Ordered(calls) ==> Evicting(cfg, calls).1 == Keeping(cfg, calls).1)
       <==> Refill(cfg, cfg.ttl) >= cfg.burst as real
  {
    if Refill(cfg, cfg.ttl) >= cfg.burst as real {
      forall calls | Ordered(calls) ensures Evicting(cfg, calls).1 == Keeping(cfg, calls).1 {
        EvictionUnobservable(cfg, calls);
      }
    } else {
      var calls := EvictionObservable(cfg);
    }
  }

  // ---- Memory ----

  /** After each call the map holds exactly the keys used within the last ttl. */
  lemma {:induction false} HeldKeysExact(cfg: Config, calls: seq<Call>, key: string)
    requires cfg.Valid() && calls != [] && Ordered(calls)
    ensures var m := Evicting(cfg, calls).0;
            var now := calls[|calls| - 1].at;
            && (key in m ==>
                  && m[key].last <= now
                  && (exists i :: 0 <= i < |calls| && calls[i] == Call(key, m[key].last))
                  && (forall i :: 0 <= i < |calls| && calls[i].key == key ==> calls[i].at <= m[key].last))
            && (key in m <==> exists i :: 0 <= i < |calls| && calls[i].key == key && now - calls[i].at <= cfg.ttl)
    decreases |calls|
  {
    hide Take, TokensAt;
    var n := |calls| - 1;
    var now := calls[n].at;
    if calls[n].key == key {
      assert calls[n] == Call(key, now);
    } else if n > 0 {
      var prefix := calls[..n];
      HeldKeysExact(cfg, prefix, key);
      var m := Evicting(cfg, prefix).0;
      if key in m {
        var i :| 0 <= i < n && prefix[i] == Call(key, m[key].last);
        assert calls[i] == prefix[i];
        forall j | 0 <= j < |calls| && calls[j].key == key ensures calls[j].at <= m[key].last {
          assert calls[j] == prefix[j];
        }
      } else {
        forall j | 0 <= j < |calls| && calls[j].key == key ensures now - calls[j].at > cfg.ttl {
          assert calls[j] == prefix[j];
        }
      }
    }
  }

  // ---- The object ----

  /** KeyedLimiter, whose mutex makes each Allow one atomic call. */
  class KeyedLimiter {
    const cfg: Config
    var byKey: map<string, Entry>
    ghost var history: seq<Call>

    ghost predicate Valid()
      reads this
    {
      byKey == Evicting(cfg, history).0
    }

    constructor (cfg: Config)
      ensures Valid() && this.cfg == cfg && history == []
    {
      this.cfg := cfg;
      byKey := map[];
      history := [];
    }

    /** The sweep at the head of Allow: drop every key idle for longer than the ttl. */
    method Sweep(now: real)
      modifies this`byKey
      ensures byKey == Swept(cfg, old(byKey), now)
    {
      var unseen := byKey.Keys;
      while unseen != {}
        invariant unseen <= byKey.Keys
        invariant byKey == map k | k in old(byKey) &&
                  (k in unseen || !(now - old(byKey)[k].last > cfg.ttl)) :: old(byKey)[k]
        decreases unseen
      {
        var k :| k in unseen;
        if now - byKey[k].last > cfg.ttl {
          byKey := byKey - {k};
        }
        unseen := unseen - {k};
      }
    }

    method Allow(key: string, now: real) returns (ok: bool)
      requires Valid()
      modifies this
      ensures Valid() && history == old(history) + [Call(key, now)]
      ensures ok == Evicting(cfg, history).1[|history| - 1]
    {
      hide Take, TokensAt, Swept, Evicting, Fresh;
      Sweep(now);
      if key !in byKey {
        byKey := byKey[key := Entry(Fresh(cfg, now), now)];
      }
      var (bucket, allowed) := Take(cfg, byKey[key].bucket, now);
      byKey := byKey[key := Entry(bucket, now)];
      ok := allowed;

      history := history + [Call(key, now)];
      assert history[..|history| - 1] == old(history);
      EvictingLast(cfg, history);
    }
  }
}

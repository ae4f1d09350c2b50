/**
 * What the shared limiters do for a user over whole runs of the hub: a user's limiter is dropped with the user's last
 * connection and made anew with the next, and every reader's call is answered by the limiter it fetched.
 */
module HubLimits {
  import opened Common
  import opened TokenBucket
  import R = HubRegistry

  /** wsMsgsPerSecond and wsBurst; the hub's limiters have no ttl. */
  const WS_LIMIT: Config := Config(20.0, 40, 0.0)

  /** A user's limiter allows 40 reads at once and no more, and earns 20 a second back, up to 40. */
  lemma WsLimits(made: real, seconds: real, n: nat)
    requires seconds >= 0.0
    ensures false !in Answers(WS_LIMIT, Fresh(WS_LIMIT, made), AtOnce(made, n)) <==> n <= 40
    ensures false !in Answers(WS_LIMIT, Bucket(0.0, made), AtOnce(made + seconds, n))
       <==> n as real <= 20.0 * seconds && n <= 40
  {
    assert Refill(WS_LIMIT, seconds) == 20.0 * seconds;
    AllAtOnceIff(WS_LIMIT, Fresh(WS_LIMIT, made), made, n);
    assert Refill(WS_LIMIT, made - made) == 0.0;
    AllAtOnceIff(WS_LIMIT, Bucket(0.0, made), made + seconds, n);
  }

  // ---- One user's limiters ----

  datatype Event =
    | Renew(at: real) // a limiter is made for the user
    | Call(at: real)  // some reader of the user asks for leave to read

  ghost predicate Ordered(log: seq<Event>) {
    forall i, j :: 0 <= i <= j < |log| ==> log[i].at <= log[j].at
  }

  /** The user's bucket and the answers, false for a Renew; if drops is false the first limiter is kept for ever. */
  function Answered(cfg: Config, log: seq<Event>, drops: bool): (r: (Option<Bucket>, seq<bool>))
    ensures |r.1| == |log|
  {
    if log == [] then (None, []) else
      var n := |log| - 1;
      var (bucket, answers) := Answered(cfg, log[..n], drops);
      match log[n]
      case Renew(at) => (if drops || bucket.None? then Some(Fresh(cfg, at)) else bucket, answers + [false])
      case Call(at) =>
        if bucket.None? then (None, answers + [false]) else
        var (b, ok) := Take(cfg, bucket.value, at);
        (Some(b), answers + [ok])
  }

  function Held(cfg: Config, log: seq<Event>): Option<Bucket> {
    Answered(cfg, log, true).0
  }

  function Kept(cfg: Config, log: seq<Event>): Option<Bucket> {
    Answered(cfg, log, false).0
  }

  function Worth(cfg: Config, b: Option<Bucket>, now: real): real {
    if b.None? then cfg.burst as real else TokensAt(cfg, b.value, now)
  }

  ghost predicate Sound(cfg: Config, b: Option<Bucket>, now: real) {
    b.Some? ==> WellFormed(cfg, b.value, now)
  }

  lemma WorthLater(cfg: Config, b: Option<Bucket>, t1: real, t2: real)
    requires cfg.Valid() && Sound(cfg, b, t1) && t1 <= t2
    ensures Sound(cfg, b, t2) && 0.0 <= Worth(cfg, b, t1) <= Worth(cfg, b, t2) <= cfg.burst as real
    ensures var later := Worth(cfg, b, t1) + Refill(cfg, t2 - t1);
            Worth(cfg, b, t2) == if later > cfg.burst as real then cfg.burst as real else later
  {
    RefillMonotone(cfg, 0.0, t2 - t1);
    if b.Some? {
      TokensLater(cfg, b.value, t1, t2);
    }
  }

  lemma {:induction false} SoundAlways(cfg: Config, log: seq<Event>, drops: bool, now: real)
    requires cfg.Valid() && Ordered(log) && (log != [] ==> log[|log| - 1].at <= now)
    ensures Sound(cfg, Answered(cfg, log, drops).0, now)
  {
    if log != [] {
      var n := |log| - 1;
      var at := log[n].at;
      SoundAlways(cfg, log[..n], drops, at);
      var b := Answered(cfg, log[..n], drops).0;
      TakeKeepsWellFormed(cfg, if b.Some? then b.value else Fresh(cfg, at), at);
      WorthLater(cfg, Answered(cfg, log, drops).0, at, now);
    }
  }

  // ---- When dropping a limiter cannot be seen ----

  /** The held bucket was worth as much as the never-dropped one at every moment of the log. */
  ghost predicate SameThroughout(cfg: Config, log: seq<Event>) {
    log == [] ||
    (var n := |log| - 1;
     SameThroughout(cfg, log[..n]) && Worth(cfg, Held(cfg, log), log[n].at) == Worth(cfg, Kept(cfg, log), log[n].at))
  }

  /** The last event replaces a bucket the user already had. */
  predicate Replaces(cfg: Config, log: seq<Event>) {
    log != [] && log[|log| - 1].Renew? && Held(cfg, log[..|log| - 1]).Some?
  }

  /** Every bucket that was dropped had refilled by the time its successor was made. */
  ghost predicate RefilledWhenDropped(cfg: Config, log: seq<Event>) {
    log == [] ||
    (var n := |log| - 1;
     RefilledWhenDropped(cfg, log[..n])
     && (Replaces(cfg, log) ==> Worth(cfg, Held(cfg, log[..n]), log[n].at) == cfg.burst as real))
  }

  lemma {:induction false} BothOrNeither(cfg: Config, log: seq<Event>)
    ensures Held(cfg, log).None? <==> Kept(cfg, log).None?
  {
    if log != [] {
      BothOrNeither(cfg, log[..|log| - 1]);
    }
  }

  /** Two buckets of equal worth answer a call alike and stay of equal worth. */
  lemma TakeSame(cfg: Config, a: Bucket, b: Bucket, at: real)
    requires cfg.Valid() && WellFormed(cfg, a, at) && WellFormed(cfg, b, at)
    requires TokensAt(cfg, a, at) == TokensAt(cfg, b, at)
    ensures Take(cfg, a, at).1 == Take(cfg, b, at).1
    ensures TokensAt(cfg, Take(cfg, a, at).0, at) == TokensAt(cfg, Take(cfg, b, at).0, at)
  {
    TakeKeepsWellFormed(cfg, a, at);
    TakeKeepsWellFormed(cfg, b, at);
  }

  lemma SameStep(cfg: Config, log: seq<Event>, before: real)
    requires cfg.Valid() && Ordered(log) && log != []
    requires var n := |log| - 1;
             && before <= log[n].at && (n > 0 ==> log[n - 1].at <= before)
             && Worth(cfg, Held(cfg, log[..n]), before) == Worth(cfg, Kept(cfg, log[..n]), before)
    ensures var n := |log| - 1;
            && (Worth(cfg, Held(cfg, log), log[n].at) == Worth(cfg, Kept(cfg, log), log[n].at)
                <==> (Replaces(cfg, log) ==> Worth(cfg, Held(cfg, log[..n]), log[n].at) == cfg.burst as real))
            && Answered(cfg, log, true).1[n] == Answered(cfg, log, false).1[n]
  {
    var n := |log| - 1;
    var at := log[n].at;
    var a, b := Held(cfg, log[..n]), Kept(cfg, log[..n]);
    BothOrNeither(cfg, log[..n]);
    SoundAlways(cfg, log[..n], true, before);
    SoundAlways(cfg, log[..n], false, before);
    WorthLater(cfg, a, before, at);
    WorthLater(cfg, b, before, at);
    TakeKeepsWellFormed(cfg, Fresh(cfg, at), at);
    if log[n].Call? && a.Some? {
      TakeSame(cfg, a.value, b.value, at);
    }
  }

  /**
   * Dropping the limiter with the last connection leaves the user's bucket worth as much as one never dropped, at
   * every moment, if and only if every dropped bucket had refilled when its successor was made; and then every call is
   * answered as the never-dropped limiter would.
   */
  lemma {:induction false} DropsInvisibleIff(cfg: Config, log: seq<Event>)
    requires cfg.Valid() && Ordered(log)
    ensures SameThroughout(cfg, log) <==> RefilledWhenDropped(cfg, log)
    ensures SameThroughout(cfg, log) ==> Answered(cfg, log, true).1 == Answered(cfg, log, false).1
  {
    if log != [] {
      var n := |log| - 1;
      DropsInvisibleIff(cfg, log[..n]);
      if SameThroughout(cfg, log[..n]) {
        hide Worth, Replaces, Take, Fresh;
        var before := if n > 0 then log[n - 1].at else log[n].at;
        NothingMade(cfg, before);
        SameStep(cfg, log, before);
        LastAnswer(cfg, log, true);
        LastAnswer(cfg, log, false);
      }
    }
  }

  lemma NothingMade(cfg: Config, now: real)
    ensures Worth(cfg, Held(cfg, []), now) == Worth(cfg, Kept(cfg, []), now)
  {
  }

  lemma LastAnswer(cfg: Config, log: seq<Event>, drops: bool)
    requires log != []
    ensures var n := |log| - 1;
            Answered(cfg, log, drops).1 == Answered(cfg, log[..n], drops).1 + [Answered(cfg, log, drops).1[n]]
  {
  }

  // ---- The bound of a user ----

  /** Calls answered true since log[from]. */
  function Allowed(answers: seq<bool>, from: nat): nat
    decreases |answers|
  {
    if |answers| <= from then 0 else
      var n := |answers| - 1;
      Allowed(answers[..n], from) + (if answers[n] then 1 else 0)
  }

  /** Buckets replaced since log[from]. */
  function Replaced(cfg: Config, log: seq<Event>, from: nat): nat
    decreases |log|
  {
    if |log| <= from then 0 else Replaced(cfg, log[..|log| - 1], from) + (if Replaces(cfg, log) then 1 else 0)
  }

  /** What the user has been allowed since log[from] and could still be now, less what replacements gave away. */
  function Potential(cfg: Config, log: seq<Event>, from: nat, now: real): real {
    Allowed(Answered(cfg, log, true).1, from) as real + Worth(cfg, Held(cfg, log), now)
    - (cfg.burst * Replaced(cfg, log, from)) as real
  }

  lemma PotentialStep(cfg: Config, log: seq<Event>, from: nat)
    requires cfg.Valid() && Ordered(log) && from < |log|
    ensures var n := |log| - 1;
            Potential(cfg, log, from, log[n].at) <= Potential(cfg, log[..n], from, log[n].at)
  {
    var n := |log| - 1;
    var at := log[n].at;
    SoundAlways(cfg, log[..n], true, at);
    LastAnswer(cfg, log, true);
    var b := Held(cfg, log[..n]);
    WorthLater(cfg, b, at, at);
    TakeKeepsWellFormed(cfg, if b.Some? then b.value else Fresh(cfg, at), at);
    assert cfg.burst * (Replaced(cfg, log[..n], from) + 1) == cfg.burst * Replaced(cfg, log[..n], from) + cfg.burst;
  }

  lemma PotentialLater(cfg: Config, log: seq<Event>, from: nat, t1: real, t2: real)
    requires cfg.Valid() && Ordered(log) && t1 <= t2 && (log != [] ==> log[|log| - 1].at <= t1)
    ensures Potential(cfg, log, from, t2) <= Potential(cfg, log, from, t1) + Refill(cfg, t2 - t1)
    ensures |log| <= from ==> Potential(cfg, log, from, t1) <= cfg.burst as real
    ensures Potential(cfg, log, from, t1)
         >= Allowed(Answered(cfg, log, true).1, from) as real - (cfg.burst * Replaced(cfg, log, from)) as real
  {
    SoundAlways(cfg, log, true, t1);
    WorthLater(cfg, Held(cfg, log), t1, t2);
    RefillMonotone(cfg, 0.0, t2 - t1);
  }

  lemma {:induction false} WindowPotential(cfg: Config, log: seq<Event>, from: nat)
    requires cfg.Valid() && Ordered(log) && from < |log|
    ensures Potential(cfg, log, from, log[|log| - 1].at)
         <= cfg.burst as real + Refill(cfg, log[|log| - 1].at - log[from].at)
    decreases |log|
  {
    hide Potential, Refill;
    var n := |log| - 1;
    var now := log[n].at;
    PotentialStep(cfg, log, from);
    if from < n {
      WindowPotential(cfg, log[..n], from);
      PotentialLater(cfg, log[..n], from, log[n - 1].at, now);
      RefillAdds(cfg, log[from].at, log[n - 1].at, now);
    } else {
      PotentialLater(cfg, log[..n], from, now, now);
      RefillAdds(cfg, now, now, now);
    }
  }

  /**
   * In every window of a user's events: at most burst + rate * length, and another burst for each limiter replaced in
   * it.
   */
  lemma UserWindowBound(cfg: Config, log: seq<Event>, from: nat)
    requires cfg.Valid() && Ordered(log) && from < |log|
    ensures Allowed(Answered(cfg, log, true).1, from) as real
         <= cfg.burst as real + Refill(cfg, log[|log| - 1].at - log[from].at)
            + (cfg.burst * Replaced(cfg, log, from)) as real
  {
    var now := log[|log| - 1].at;
    WindowPotential(cfg, log, from);
    PotentialLater(cfg, log, from, now, now);
  }

  // ---- Runs of the hub with calls ----

  datatype Action =
    | OnHub(a: R.Action)
    | Allow(c: ConnId) // the connection's reader asks the limiter it fetched
  datatype Timed = Timed(at: real, act: Action)

  datatype State = State(hub: R.State, buckets: map<R.LimiterId, Bucket>)

  /** The limiterFor of a user who has no limiter. */
  predicate Makes(s: State, a: Action, u: UserId) {
    && a.OnHub? && a.a.Proceed? && a.a.c in s.hub.conns && s.hub.conns[a.a.c] == R.Conn(u, R.Added)
    && u !in s.hub.hub.limiters
  }

  /** A call of one of u's readers. */
  predicate Calls(s: State, a: Action, u: UserId) {
    && a.Allow? && a.c in s.hub.conns && s.hub.conns[a.c].user == u && s.hub.conns[a.c].pc.Reading?
    && s.hub.conns[a.c].pc.limiter in s.buckets
  }

  function Step(cfg: Config, s: State, t: Timed): (State, bool) {
    match t.act
    case OnHub(a) =>
      var making := a.Proceed? && a.c in s.hub.conns && Makes(s, t.act, s.hub.conns[a.c].user);
      (State(R.Step(s.hub, a), if making then s.buckets[s.hub.nextLimiter := Fresh(cfg, t.at)] else s.buckets), false)
    case Allow(c) =>
      if c !in s.hub.conns || !Calls(s, t.act, s.hub.conns[c].user) then (s, false) else
      var l := s.hub.conns[c].pc.limiter;
      var (b, ok) := Take(cfg, s.buckets[l], t.at);
      (s.(buckets := s.buckets[l := b]), ok)
  }

  function Exec(cfg: Config, acts: seq<Timed>): State {
    if acts == [] then State(R.Init(), map[]) else
      var n := |acts| - 1;
      Step(cfg, Exec(cfg, acts[..n]), acts[n]).0
  }

  /** The limiters made for u and the calls of u's readers, with the answers those calls got. */
  function UserLog(cfg: Config, acts: seq<Timed>, u: UserId): (seq<Event>, seq<bool>) {
    if acts == [] then ([], []) else
      var n := |acts| - 1;
      var s := Exec(cfg, acts[..n]);
      var (log, answers) := UserLog(cfg, acts[..n], u);
      if Makes(s, acts[n].act, u) then (log + [Renew(acts[n].at)], answers + [false])
      else if Calls(s, acts[n].act, u) then (log + [Call(acts[n].at)], answers + [Step(cfg, s, acts[n]).1])
      else (log, answers)
  }

  /** The hub steps of the run. */
  function HubActs(acts: seq<Timed>): seq<R.Action> {
    if acts == [] then [] else
      var n := |acts| - 1;
      HubActs(acts[..n]) + (if acts[n].act.OnHub? then [acts[n].act.a] else [])
  }

  lemma {:induction false} HubRuns(cfg: Config, acts: seq<Timed>)
    ensures Exec(cfg, acts).hub == R.Exec(HubActs(acts))
  {
    if acts != [] {
      var n := |acts| - 1;
      HubRuns(cfg, acts[..n]);
      hide R.Step, Take;
      if acts[n].act.OnHub? {
        var hub := HubActs(acts);
        assert hub[..|hub| - 1] == HubActs(acts[..n]);
      } else {
        assert HubActs(acts[..n]) + [] == HubActs(acts[..n]);
      }
    }
  }

  /** The user's current limiter, if any, holds the bucket that the user's log leads to. */
  ghost predicate BucketFollows(cfg: Config, s: State, u: UserId, log: seq<Event>) {
    && (forall l :: l in s.buckets ==> l < s.hub.nextLimiter)
    && (u in s.hub.hub.limiters ==>
          s.hub.hub.limiters[u] in s.buckets && Held(cfg, log) == Some(s.buckets[s.hub.hub.limiters[u]]))
  }

  function Extended(cfg: Config, s: State, t: Timed, u: UserId, log: seq<Event>): seq<Event> {
    if Makes(s, t.act, u) then log + [Renew(t.at)] else if Calls(s, t.act, u) then log + [Call(t.at)] else log
  }

  lemma FollowsHub(cfg: Config, s: State, t: Timed, u: UserId, log: seq<Event>)
    requires R.ClientsExact(s.hub) && R.LimitersShared(s.hub) && BucketFollows(cfg, s, u, log) && t.act.OnHub?
    ensures BucketFollows(cfg, Step(cfg, s, t).0, u, Extended(cfg, s, t, u, log))
  {
    if Makes(s, t.act, u) {
      assert (log + [Renew(t.at)])[..|log|] == log;
    }
  }

  lemma FollowsCall(cfg: Config, s: State, t: Timed, u: UserId, log: seq<Event>)
    requires R.LimitersShared(s.hub) && BucketFollows(cfg, s, u, log) && t.act.Allow?
    ensures BucketFollows(cfg, Step(cfg, s, t).0, u, Extended(cfg, s, t, u, log))
    ensures Calls(s, t.act, u) ==> Answered(cfg, log + [Call(t.at)], true).1[|log|] == Step(cfg, s, t).1
  {
    hide Take;
    assert (log + [Call(t.at)])[..|log|] == log;
  }

  lemma {:induction false} FollowsAlways(cfg: Config, acts: seq<Timed>, u: UserId)
    ensures var (log, answers) := UserLog(cfg, acts, u);
            BucketFollows(cfg, Exec(cfg, acts), u, log) && answers == Answered(cfg, log, true).1
  {
    if acts != [] {
      var n := |acts| - 1;
      var s := Exec(cfg, acts[..n]);
      FollowsAlways(cfg, acts[..n], u);
      HubRuns(cfg, acts[..n]);
      R.HubAlways(HubActs(acts[..n]));
      hide Step, BucketFollows, R.ClientsExact, R.LimitersShared, Calls, Makes;
      var log := UserLog(cfg, acts[..n], u).0;
      if acts[n].act.OnHub? {
        FollowsHub(cfg, s, acts[n], u, log);
        OnlyAllowCalls(s, acts[n].act, u);
      } else {
        FollowsCall(cfg, s, acts[n], u, log);
        OnlyAllowCalls(s, acts[n].act, u);
      }
      OneMore(cfg, log, Renew(acts[n].at));
      OneMore(cfg, log, Call(acts[n].at));
    }
  }

  lemma OnlyAllowCalls(s: State, a: Action, u: UserId)
    ensures Calls(s, a, u) ==> a.Allow?
    ensures Makes(s, a, u) ==> a.OnHub?
  {
  }

  lemma OneMore(cfg: Config, log: seq<Event>, e: Event)
    ensures var more := log + [e];
            Answered(cfg, more, true).1
              == Answered(cfg, log, true).1 + [if e.Renew? then false else Answered(cfg, more, true).1[|log|]]
  {
    assert (log + [e])[..|log|] == log;
  }

  ghost predicate InOrder(acts: seq<Timed>) {
    forall i, j :: 0 <= i <= j < |acts| ==> acts[i].at <= acts[j].at
  }

  lemma {:induction false} LogInOrder(cfg: Config, acts: seq<Timed>, u: UserId)
    requires InOrder(acts)
    ensures var log := UserLog(cfg, acts, u).0;
            Ordered(log) && forall i :: 0 <= i < |log| ==> acts != [] && log[i].at <= acts[|acts| - 1].at
  {
    if acts != [] {
      LogInOrder(cfg, acts[..|acts| - 1], u);
      hide Makes, Calls;
    }
  }

  /**
   * In every run of the hub: within any window of a user's events, all readers of the user together are allowed at
   * most burst + rate * length reads, and another burst for each limiter replaced in the window by a reconnect.
   */
  lemma HubUserBound(cfg: Config, acts: seq<Timed>, u: UserId, from: nat)
    requires cfg.Valid() && InOrder(acts) && from < |UserLog(cfg, acts, u).0|
    ensures var (log, answers) := UserLog(cfg, acts, u);
            Allowed(answers, from) as real
              <= cfg.burst as real + Refill(cfg, log[|log| - 1].at - log[from].at)
                 + (cfg.burst * Replaced(cfg, log, from)) as real
  {
    FollowsAlways(cfg, acts, u);
    LogInOrder(cfg, acts, u);
    UserWindowBound(cfg, UserLog(cfg, acts, u).0, from);
  }

  /**
   * In every run of the hub: the user's bucket is worth as much as one that was never dropped at every moment if and
   * only if every dropped one had refilled when its successor was made; and then no reader can tell.
   */
  lemma HubDropsInvisibleIff(cfg: Config, acts: seq<Timed>, u: UserId)
    requires cfg.Valid() && InOrder(acts)
    ensures var (log, answers) := UserLog(cfg, acts, u);
            && (SameThroughout(cfg, log) <==> RefilledWhenDropped(cfg, log))
            && (SameThroughout(cfg, log) ==> answers == Answered(cfg, log, false).1)
  {
    FollowsAlways(cfg, acts, u);
    LogInOrder(cfg, acts, u);
    DropsInvisibleIff(cfg, UserLog(cfg, acts, u).0);
  }

  // ---- A reconnect gives a second burst ----

  lemma Then(cfg: Config, acts: seq<Timed>, a: Action, u: UserId) returns (more: seq<Timed>)
    ensures more == acts + [Timed(0.0, a)]
    ensures Exec(cfg, more) == Step(cfg, Exec(cfg, acts), Timed(0.0, a)).0
    ensures UserLog(cfg, more, u).0 == Extended(cfg, Exec(cfg, acts), Timed(0.0, a), u, UserLog(cfg, acts, u).0)
    ensures Allowed(UserLog(cfg, more, u).1, 0) == Allowed(UserLog(cfg, acts, u).1, 0)
              + (if !Makes(Exec(cfg, acts), a, u) && Calls(Exec(cfg, acts), a, u) &&
                 Step(cfg, Exec(cfg, acts), Timed(0.0, a)).1 then 1 else 0)
  {
    more := acts + [Timed(0.0, a)];
    assert more[..|acts|] == acts;
    var answers := UserLog(cfg, more, u).1;
    hide Makes, Calls, Step;
    assert |answers| > 0 && answers != UserLog(cfg, acts, u).1 ==> answers[..|answers| - 1] == UserLog(cfg, acts, u).1;
  }

  /** Reader c of user 7 asks n times at once, with n tokens in its limiter. */
  lemma {:induction false} Reads(cfg: Config, before: seq<Timed>, c: ConnId, n: nat) returns (acts: seq<Timed>)
    requires cfg.Valid() && n <= cfg.burst && AtZero(before)
    requires var s := Exec(cfg, before);
             && c in s.hub.conns && s.hub.conns[c].user == 7 && s.hub.conns[c].pc.Reading?
             && s.hub.conns[c].pc.limiter in s.buckets && s.buckets[s.hub.conns[c].pc.limiter] == Bucket(n as real, 0.0)
    ensures Exec(cfg, acts).hub == Exec(cfg, before).hub && AtZero(acts)
    ensures Allowed(UserLog(cfg, acts, 7).1, 0) == Allowed(UserLog(cfg, before, 7).1, 0) + n
    decreases n
  {
    acts := before;
    if n > 0 {
      assert Refill(cfg, 0.0 - 0.0) == 0.0;
      assert Take(cfg, Bucket(n as real, 0.0), 0.0) == (Bucket((n - 1) as real, 0.0), true);
      acts := Then(cfg, before, Allow(c), 7);
      hide UserLog, Allowed, Take, Refill;
      acts := Reads(cfg, acts, c, n - 1);
    }
  }

  /** A hub whose only connected user, if any, is 7. */
  function HubOf(clients: set<ConnId>, limiter: Option<R.LimiterId>, conns: map<ConnId, R.Conn>,
                 next: R.LimiterId): R.State {
    R.State(R.Registry(if clients == {} then map[] else map[7 := clients],
                       if limiter.None? then map[] else map[7 := limiter.value]), conns, next)
  }

  predicate AtZero(acts: seq<Timed>) {
    forall i :: 0 <= i < |acts| ==> acts[i].at == 0.0
  }

  /** The hub's part of a whole connection of a user with no other: accepted, added, reading, removed. */
  lemma HubSession(c: ConnId, conns: map<ConnId, R.Conn>, l: R.LimiterId)
    requires c !in conns
    ensures var accepted := HubOf({}, None, conns[c := R.Conn(7, R.Accepted)], l);
            var added := HubOf({c}, None, conns[c := R.Conn(7, R.Added)], l);
            var reading := HubOf({c}, Some(l), conns[c := R.Conn(7, R.Reading(l))], l + 1);
            && R.Step(HubOf({}, None, conns, l), R.Accept(c, 7)) == accepted
            && R.Step(accepted, R.Proceed(c)) == added
            && R.Step(added, R.Proceed(c)) == reading
            && R.Step(reading, R.Proceed(c)) == HubOf({}, None, conns[c := R.Conn(7, R.Removed)], l + 1)
  {
    var accepted := HubOf({}, None, conns[c := R.Conn(7, R.Accepted)], l);
    assert R.ClientsOf(accepted.hub, 7) + {c} == {c};
    assert map[7 := {c}] - {7} == map[] && {c} - {c} == {};
    assert map[7 := l] - {7} == map[];
  }

  /** User 7, with no other connection, connects and is given a full limiter. */
  lemma Connects(cfg: Config, before: seq<Timed>, c: ConnId, conns: map<ConnId, R.Conn>, l: R.LimiterId)
    returns (acts: seq<Timed>)
    requires c !in conns && AtZero(before) && Exec(cfg, before).hub == HubOf({}, None, conns, l)
    ensures Exec(cfg, acts).hub == HubOf({c}, Some(l), conns[c := R.Conn(7, R.Reading(l))], l + 1) && AtZero(acts)
    ensures l in Exec(cfg, acts).buckets && Exec(cfg, acts).buckets[l] == Fresh(cfg, 0.0)
    ensures Allowed(UserLog(cfg, acts, 7).1, 0) == Allowed(UserLog(cfg, before, 7).1, 0)
  {
    HubSession(c, conns, l);
    hide Exec, UserLog, Allowed, R.Step;
    acts := Then(cfg, before, OnHub(R.Accept(c, 7)), 7);
    acts := Then(cfg, acts, OnHub(R.Proceed(c)), 7);
    acts := Then(cfg, acts, OnHub(R.Proceed(c)), 7);
  }

  /** User 7 connects, reads a burst at once and leaves. */
  lemma Session(cfg: Config, before: seq<Timed>, c: ConnId, conns: map<ConnId, R.Conn>, l: R.LimiterId)
    returns (acts: seq<Timed>)
    requires cfg.Valid() && c !in conns && AtZero(before) && Exec(cfg, before).hub == HubOf({}, None, conns, l)
    ensures Exec(cfg, acts).hub == HubOf({}, None, conns[c := R.Conn(7, R.Removed)], l + 1) && AtZero(acts)
    ensures Allowed(UserLog(cfg, acts, 7).1, 0) == Allowed(UserLog(cfg, before, 7).1, 0) + cfg.burst
  {
    acts := Connects(cfg, before, c, conns, l);
    HubSession(c, conns, l);
    hide Exec, UserLog, Allowed, R.Step;
    acts := Reads(cfg, acts, c, cfg.burst);
    acts := Then(cfg, acts, OnHub(R.Proceed(c)), 7);
  }

  /**
   * The bound of one limiter is not a bound of the user: a burst, a disconnect, a reconnect and another burst are all
   * allowed at one instant. With the hub's limits that is 80 reads.
   */
  lemma ReconnectDoublesBurst(cfg: Config) returns (acts: seq<Timed>)
    requires cfg.Valid()
    ensures AtZero(acts) && Allowed(UserLog(cfg, acts, 7).1, 0) == 2 * cfg.burst
  {
    acts := [];
    assert Exec(cfg, acts).hub == HubOf({}, None, map[], 0);
    acts := Session(cfg, acts, 1, map[], 0);
    acts := Session(cfg, acts, 2, map[1 := R.Conn(7, R.Removed)], 1);
  }
}

/**
 * Presence with each Connect, Refresh and Disconnect taken as one step, and with real time: the counter key has a TTL,
 * connections refresh it on their pings, and instances may crash between calls. Times are in milliseconds.
 */
module PresenceSystem {
  import opened Common
  import opened PresenceTypes
  import Protocol = PresenceProtocol

  datatype CounterKey = CounterKey(value: int, deadline: Option<int>)

  datatype Redis = Redis(counters: map<UserId, CounterKey>, names: map<UserId, string>, events: seq<Event>)

  predicate Present(r: Redis, u: UserId, now: int) {
    u in r.counters && (r.counters[u].deadline.Some? ==> now < r.counters[u].deadline.value)
  }

  function Read(r: Redis, u: UserId, now: int): int {
    if Present(r, u, now) then r.counters[u].value else 0
  }

  /** The notifier's reader. */
  predicate IsOnline(r: Redis, u: UserId, now: int) {
    Read(r, u, now) > 0
  }

  function Connected(r: Redis, u: UserId, name: string, now: int): Redis {
    var n := Read(r, u, now) + 1;
    Redis(r.counters[u := CounterKey(n, Some(now + CONNS_TTL))],
          if n == 1 then r.names[u := name] else r.names,
          if n == 1 then r.events + [Event(u, Online)] else r.events)
  }

  function Disconnected(r: Redis, u: UserId, now: int): Redis {
    var n := Read(r, u, now) - 1;
    if n <= 0 then Redis(r.counters - {u}, r.names - {u}, r.events + [Event(u, Offline)])
    else r.(counters := r.counters[u := r.counters[u].(value := n)])
  }

  function Refreshed(r: Redis, u: UserId, now: int): Redis {
    if Present(r, u, now) then r.(counters := r.counters[u := r.counters[u].(deadline := Some(now + CONNS_TTL))])
    else r
  }

  // ---- The whole system ----

  datatype Link = Link(user: UserId, touched: int)

  /** links are the live connections of all instances, each with its last EXPIRE; touched is the same per user. */
  datatype System = System(redis: Redis, links: map<ConnId, Link>, touched: map<UserId, int>, now: int)

  datatype Action =
    | Connect(c: ConnId, user: UserId, name: string)
    | Ping(c: ConnId)
    | Disconnect(c: ConnId)
    | Crash(c: ConnId)    // the instance dies between calls: the connection is gone and nothing is sent
    | Wait(until: int)

  function Init(): System {
    System(Redis(map[], map[], []), map[], map[], 0)
  }

  function Step(s: System, a: Action): System {
    match a
    case Connect(c, u, name) =>
      if c in s.links then s else
      System(Connected(s.redis, u, name, s.now), s.links[c := Link(u, s.now)], s.touched[u := s.now], s.now)
    case Ping(c) =>
      if c !in s.links then s else
      var u := s.links[c].user;
      System(Refreshed(s.redis, u, s.now), s.links[c := Link(u, s.now)], s.touched[u := s.now], s.now)
    case Disconnect(c) =>
      if c !in s.links then s else
      s.(redis := Disconnected(s.redis, s.links[c].user, s.now), links := s.links - {c})
    case Crash(c) => s.(links := s.links - {c})
    case Wait(until) => if until <= s.now then s else s.(now := until)
  }

  function Exec(acts: seq<Action>): System {
    if acts == [] then Init() else Step(Exec(acts[..|acts| - 1]), acts[|acts| - 1])
  }

  function Links(s: System, u: UserId): set<ConnId> {
    set c | c in s.links && s.links[c].user == u
  }

  /** The instance holding one of u's connections dies. */
  predicate CrashOf(s: System, a: Action, u: UserId) {
    a.Crash? && a.c in s.links && s.links[a.c].user == u
  }

  /** No connection of u is now longer than gap without an EXPIRE of its own. */
  ghost predicate PingedInTime(s: System, u: UserId, gap: int) {
    forall c :: c in Links(s, u) ==> s.now - s.links[c].touched <= gap
  }

  /** Throughout the run u's connections ping in time; anything may crash. */
  ghost predicate Pinged(acts: seq<Action>, u: UserId, gap: int) {
    acts == [] || (Pinged(acts[..|acts| - 1], u, gap) && PingedInTime(Exec(acts), u, gap))
  }

  /** None of u's connections ends in a crash; others' may. */
  ghost predicate Uncrashed(acts: seq<Action>, u: UserId) {
    acts == [] ||
    (var n := |acts| - 1; Uncrashed(acts[..n], u) && !CrashOf(Exec(acts[..n]), acts[n], u))
  }

  function EventsOf(events: seq<Event>, u: UserId): seq<Status> {
    if events == [] then [] else
      var n := |events| - 1;
      EventsOf(events[..n], u) + (if events[n].user == u then [events[n].status] else [])
  }

  /** Online, offline, online, ... */
  ghost predicate Alternates(log: seq<Status>) {
    forall i :: 0 <= i < |log| ==> log[i] == if i % 2 == 0 then Online else Offline
  }

  /** Counter, listing, both readers and the published events all say the same, and say the truth. */
  ghost predicate Agrees(s: System, u: UserId) {
    var n, log := |Links(s, u)|, EventsOf(s.redis.events, u);
    && Read(s.redis, u, s.now) == n
    && (n == 0 ==> u !in s.redis.counters)
    && (u in s.redis.names <==> n > 0)
    && (IsOnline(s.redis, u, s.now) <==> n > 0)
    && Alternates(log)
    && (n > 0 <==> log != [] && log[|log| - 1] == Online)
  }

  /** The counter holds at least the number of live connections and outlasts the ttl of each one's last touch. */
  ghost predicate Anchored(s: System, u: UserId) {
    var live := Links(s, u);
    && (u in s.redis.counters ==> s.redis.counters[u].value >= 1)
    && (live != {} ==> u in s.redis.counters && s.redis.counters[u].value >= |live| &&
                       s.redis.counters[u].deadline.Some?)
    && (forall c :: c in live ==> s.links[c].touched <= s.now &&
                                  s.links[c].touched + CONNS_TTL <= s.redis.counters[u].deadline.value)
  }

  /** Without crashes the counter holds no more than that. */
  ghost predicate Exact(s: System, u: UserId) {
    u in s.redis.counters ==> s.redis.counters[u].value <= |Links(s, u)|
  }

  lemma EventsAppend(events: seq<Event>, e: Event, u: UserId)
    ensures EventsOf(events + [e], u) == EventsOf(events, u) + (if e.user == u then [e.status] else [])
  {
    assert (events + [e])[..|events|] == events;
  }

  /** An anchored key whose connections all pinged within a gap shorter than the ttl has not expired. */
  lemma AnchoredReads(s: System, u: UserId, gap: int)
    requires Anchored(s, u) && PingedInTime(s, u, gap) && gap < CONNS_TTL
    ensures Links(s, u) != {} ==> Present(s.redis, u, s.now) && Read(s.redis, u, s.now) >= |Links(s, u)| >= 1
    ensures Exact(s, u) ==> Read(s.redis, u, s.now) == |Links(s, u)|
  {
    if Links(s, u) != {} {
      var c :| c in Links(s, u);
    }
  }

  lemma LinksAfter(s: System, a: Action, u: UserId)
    ensures Links(Step(s, a), u) ==
      match a
      case Connect(c, v, _) => if c !in s.links && v == u then Links(s, u) + {c} else Links(s, u)
      case Disconnect(c) => Links(s, u) - {c}
      case Crash(c) => Links(s, u) - {c}
      case _ => Links(s, u)
  {
  }

  // ---- The key outlives the connections ----

  /** A pings-in-time state of u whose key is anchored. */
  ghost predicate Ready(s: System, u: UserId, gap: int) {
    Anchored(s, u) && PingedInTime(s, u, gap) && gap < CONNS_TTL
  }

  lemma AnchoredConnect(s: System, c: ConnId, u: UserId, name: string, gap: int)
    requires Ready(s, u, gap) && c !in s.links
    ensures Anchored(Step(s, Connect(c, u, name)), u)
    ensures Exact(s, u) ==> Exact(Step(s, Connect(c, u, name)), u)
  {
    AnchoredReads(s, u, gap);
    LinksAfter(s, Connect(c, u, name), u);
    assert c !in Links(s, u);
  }

  lemma AnchoredDisconnect(s: System, c: ConnId, gap: int)
    requires c in s.links && Ready(s, s.links[c].user, gap)
    ensures Anchored(Step(s, Disconnect(c)), s.links[c].user)
    ensures Exact(s, s.links[c].user) ==> Exact(Step(s, Disconnect(c)), s.links[c].user)
  {
    var u := s.links[c].user;
    AnchoredReads(s, u, gap);
    LinksAfter(s, Disconnect(c), u);
    assert c in Links(s, u);
    assert Links(s, u) == (Links(s, u) - {c}) + {c};
  }

  lemma AnchoredCrash(s: System, c: ConnId, u: UserId)
    requires Anchored(s, u)
    ensures Anchored(Step(s, Crash(c)), u)
    ensures !CrashOf(s, Crash(c), u) && Exact(s, u) ==> Exact(Step(s, Crash(c)), u)
  {
    LinksAfter(s, Crash(c), u);
    var live := Links(s, u);
    assert live == (live - {c}) + (if c in live then {c} else {});
  }

  /** A Connect or Disconnect of u that takes effect. */
  predicate Joins(s: System, a: Action, u: UserId) {
    a.Connect? && a.c !in s.links && a.user == u
  }

  predicate Pings(s: System, a: Action, u: UserId) {
    a.Ping? && a.c in s.links && s.links[a.c].user == u
  }

  predicate Leaves(s: System, a: Action, u: UserId) {
    a.Disconnect? && a.c in s.links && s.links[a.c].user == u
  }

  lemma AnchoredOther(s: System, a: Action, u: UserId, gap: int)
    requires Ready(s, u, gap) && !a.Crash? && !Joins(s, a, u) && !Leaves(s, a, u)
    ensures Anchored(Step(s, a), u) && (Exact(s, u) ==> Exact(Step(s, a), u))
  {
    hide EventsOf;
    AnchoredReads(s, u, gap);
    LinksAfter(s, a, u);
    assert Links(Step(s, a), u) == Links(s, u);
  }

  lemma AnchoredStep(s: System, a: Action, u: UserId, gap: int)
    requires Ready(s, u, gap)
    ensures Anchored(Step(s, a), u)
    ensures Exact(s, u) && !CrashOf(s, a, u) ==> Exact(Step(s, a), u)
  {
    hide Step, Anchored, Exact;
    if a.Crash? {
      AnchoredCrash(s, a.c, u);
    } else if Joins(s, a, u) {
      AnchoredConnect(s, a.c, u, a.name, gap);
    } else if Leaves(s, a, u) {
      AnchoredDisconnect(s, a.c, gap);
    } else {
      AnchoredOther(s, a, u, gap);
    }
  }

  lemma {:induction false} ReadyAlways(acts: seq<Action>, u: UserId, gap: int)
    requires Pinged(acts, u, gap) && gap < CONNS_TTL
    ensures Ready(Exec(acts), u, gap) && (Uncrashed(acts, u) ==> Exact(Exec(acts), u))
  {
    if acts != [] {
      hide Step;
      ReadyAlways(acts[..|acts| - 1], u, gap);
      AnchoredStep(Exec(acts[..|acts| - 1]), acts[|acts| - 1], u, gap);
    }
  }

  /**
   * In every run, crashes between calls included: while each of u's own connections refreshes within a gap below the
   * ttl, the counter key does not expire and u reads as online as long as any connection of u lives.
   */
  lemma KeyOutlivesConnections(acts: seq<Action>, u: UserId, gap: int)
    requires Pinged(acts, u, gap) && gap < CONNS_TTL
    ensures var s := Exec(acts);
            Links(s, u) != {} ==> Present(s.redis, u, s.now) && IsOnline(s.redis, u, s.now) &&
                                  Read(s.redis, u, s.now) >= |Links(s, u)|
  {
    hide Exec, Pinged;
    ReadyAlways(acts, u, gap);
    AnchoredReads(Exec(acts), u, gap);
  }

  // ---- Announcements ----

  /** The listing goes with the key. */
  ghost predicate Announced(r: Redis, u: UserId) {
    && (u in r.names <==> u in r.counters)
    && (u in r.counters ==> r.counters[u].value >= 1)
  }

  lemma {:induction false} AnnouncedAlways(acts: seq<Action>, u: UserId)
    ensures Announced(Exec(acts).redis, u)
  {
    if acts != [] {
      AnnouncedAlways(acts[..|acts| - 1], u);
    }
  }

  /** When the last EXPIRE that found u's key ran, unless a DEL has run since. */
  function LastExpire(acts: seq<Action>, u: UserId): Option<int> {
    if acts == [] then None else
      var n := |acts| - 1;
      NextExpire(Exec(acts[..n]), acts[n], u, LastExpire(acts[..n], u))
  }

  ghost predicate DatedBy(s: System, u: UserId, last: Option<int>) {
    && (u in s.redis.counters <==> last.Some?)
    && (last.Some? ==> s.redis.counters[u].deadline == Some(last.value + CONNS_TTL))
  }

  function NextExpire(s: System, a: Action, u: UserId, last: Option<int>): Option<int> {
    if Joins(s, a, u) || (Pings(s, a, u) && Present(s.redis, u, s.now)) then Some(s.now)
    else if Leaves(s, a, u) && Read(s.redis, u, s.now) <= 1 then None
    else last
  }

  lemma DatedStep(s: System, a: Action, u: UserId, last: Option<int>)
    requires DatedBy(s, u, last)
    ensures DatedBy(Step(s, a), u, NextExpire(s, a, u, last))
  {
  }

  lemma {:induction false} DatedAlways(acts: seq<Action>, u: UserId)
    ensures DatedBy(Exec(acts), u, LastExpire(acts, u))
  {
    if acts != [] {
      DatedAlways(acts[..|acts| - 1], u);
      hide Step, DatedBy, NextExpire;
      DatedStep(Exec(acts[..|acts| - 1]), acts[|acts| - 1], u, LastExpire(acts[..|acts| - 1], u));
    }
  }

  /**
   * In every run, late pings and crashes between calls included, the listing and the notifier agree on u if and only
   * if, unless a DEL has run since, the last EXPIRE that found u's key is less than a ttl ago.
   */
  lemma ReadersAgreeIff(acts: seq<Action>, u: UserId)
    ensures var s := Exec(acts);
            (u in s.redis.names <==> IsOnline(s.redis, u, s.now))
            <==> (LastExpire(acts, u).Some? ==> s.now < LastExpire(acts, u).value + CONNS_TTL)
  {
    AnnouncedAlways(acts, u);
    DatedAlways(acts, u);
  }

  /** The parity of u's event log follows u's key. */
  ghost predicate Logged(r: Redis, u: UserId) {
    Alternates(EventsOf(r.events, u)) && (u in r.counters <==> |EventsOf(r.events, u)| % 2 == 1)
  }

  /** While no command of u meets an expired key, or a key that is missing when a connection leaves. */
  lemma LoggedStep(s: System, a: Action, u: UserId)
    requires Logged(s.redis, u) && Announced(s.redis, u)
    requires Joins(s, a, u) ==> u in s.redis.counters ==> Present(s.redis, u, s.now)
    requires Leaves(s, a, u) ==> u in s.redis.counters
    ensures Logged(Step(s, a).redis, u)
  {
    hide EventsOf;
    if a.Connect? {
      EventsAppend(s.redis.events, Event(a.user, Online), u);
    } else if a.Disconnect? && a.c in s.links {
      EventsAppend(s.redis.events, Event(s.links[a.c].user, Offline), u);
    }
  }

  lemma {:induction false} LoggedAlways(acts: seq<Action>, u: UserId, gap: int)
    requires Pinged(acts, u, gap) && Uncrashed(acts, u) && gap < CONNS_TTL
    ensures Logged(Exec(acts).redis, u)
  {
    hide Step, EventsOf;
    if acts == [] {
      NothingAnnounced(u);
    } else {
      var n := |acts| - 1;
      var s := Exec(acts[..n]);
      LoggedAlways(acts[..n], u, gap);
      ReadyAlways(acts[..n], u, gap);
      AnchoredReads(s, u, gap);
      AnnouncedAlways(acts[..n], u);
      assert Leaves(s, acts[n], u) ==> acts[n].c in Links(s, u);
      LoggedStep(s, acts[n], u);
    }
  }

  lemma NothingAnnounced(u: UserId)
    ensures EventsOf([], u) == []
  {
  }

  /**
   * While each of u's connections refreshes within a gap below the ttl and ends with a Disconnect, presence of u
   * agrees in every reachable state, whatever happens to other users' connections.
   */
  lemma Agreement(acts: seq<Action>, u: UserId, gap: int)
    requires Pinged(acts, u, gap) && Uncrashed(acts, u) && gap < CONNS_TTL
    ensures Agrees(Exec(acts), u)
  {
    hide Exec, EventsOf, Pinged, Uncrashed;
    ReadyAlways(acts, u, gap);
    AnchoredReads(Exec(acts), u, gap);
    AnnouncedAlways(acts, u);
    LoggedAlways(acts, u, gap);
  }

  /** One connection that never pings reads as offline after a ttl. */
  lemma SilentConnection(gap: int) returns (acts: seq<Action>)
    requires gap >= CONNS_TTL
    ensures Pinged(acts, 7, gap) && Uncrashed(acts, 7)
    ensures Links(Exec(acts), 7) != {} && !IsOnline(Exec(acts).redis, 7, Exec(acts).now)
  {
    var one := [Connect(0, 7, "ann")];
    acts := one + [Wait(CONNS_TTL)];
    assert one[..0] == [] && acts[..1] == one;
    assert Exec(one[..0]) == Init() && Pinged(one[..0], 7, gap);
    assert Exec(one) == Step(Init(), Connect(0, 7, "ann")) && Links(Exec(one), 7) == {0};
    assert Pinged(one, 7, gap) && Uncrashed(one, 7);
    assert Links(Exec(acts), 7) == {0};
  }

  /**
   * The code's own pings are often enough, one missed ping included: in every run in which each live connection of u
   * refreshes within two ping periods, u reads as online as long as any connection of u lives, and everything agrees
   * unless one of them crashed.
   */
  lemma PingsKeepOnline(acts: seq<Action>, u: UserId)
    requires Pinged(acts, u, 2 * PING_PERIOD)
    ensures var s := Exec(acts); Links(s, u) != {} ==> IsOnline(s.redis, u, s.now)
    ensures Uncrashed(acts, u) ==> Agrees(Exec(acts), u)
  {
    KeyOutlivesConnections(acts, u, 2 * PING_PERIOD);
    if Uncrashed(acts, u) {
      Agreement(acts, u, 2 * PING_PERIOD);
    }
  }

  /** The same in milliseconds: a connection that pings every 45 s and misses one ping stays online. */
  lemma FortyFiveSecondPings(acts: seq<Action>, u: UserId)
    requires Pinged(acts, u, 90_000)
    ensures var s := Exec(acts); Links(s, u) != {} ==> IsOnline(s.redis, u, s.now)
  {
    PingsKeepOnline(acts, u);
  }

  /** The bound is exact: for gaps as long as the ttl a connected user can read as offline. */
  lemma KeyOutlivesIff(gap: int)
    ensures (forall acts, u :: Pinged(acts, u, gap) && Links(Exec(acts), u) != {} ==>
               IsOnline(Exec(acts).redis, u, Exec(acts).now))
       <==> gap < 120_000
  {
    if gap < CONNS_TTL {
      forall acts, u | Pinged(acts, u, gap) && Links(Exec(acts), u) != {}
        ensures IsOnline(Exec(acts).redis, u, Exec(acts).now)
      {
        KeyOutlivesConnections(acts, u, gap);
      }
    } else {
      var acts := SilentConnection(gap);
    }
  }

  lemma AgreementIff(gap: int)
    ensures (forall acts, u :: Pinged(acts, u, gap) && Uncrashed(acts, u) ==> Agrees(Exec(acts), u)) <==>
              gap < 120_000
  {
    if gap < CONNS_TTL {
      forall acts, u | Pinged(acts, u, gap) && Uncrashed(acts, u) ensures Agrees(Exec(acts), u) {
        Agreement(acts, u, gap);
      }
    } else {
      var acts := SilentConnection(gap);
      assert |Links(Exec(acts), 7)| > 0;
      assert !Agrees(Exec(acts), 7);
    }
  }

  /** The snapshot: which of the given contacts are listed. */
  function SnapshotUsers(r: Redis, contacts: set<UserId>): set<UserId> {
    set u | u in contacts && u in r.names
  }

  /** The contacts the notifier takes for online. */
  function OnlineUsers(r: Redis, contacts: set<UserId>, now: int): set<UserId> {
    set u | u in contacts && IsOnline(r, u, now)
  }

  /**
   * In every run with crashes between calls the snapshot sent to a new client is exactly the contacts the notifier
   * would skip as online if and only if no contact's last EXPIRE, if no DEL has run since, is a ttl ago.
   */
  lemma SnapshotMatchesNotifier(acts: seq<Action>, contacts: set<UserId>)
    ensures var s := Exec(acts);
            SnapshotUsers(s.redis, contacts) == OnlineUsers(s.redis, contacts, s.now) <==>
            (forall u :: u in contacts && LastExpire(acts, u).Some? ==> s.now < LastExpire(acts, u).value + CONNS_TTL)
  {
    var s := Exec(acts);
    hide Exec, LastExpire;
    forall u | u in contacts
      ensures (u in s.redis.names <==> IsOnline(s.redis, u, s.now))
         <==> (LastExpire(acts, u).Some? ==> s.now < LastExpire(acts, u).value + CONNS_TTL)
    {
      ReadersAgreeIff(acts, u);
    }
    var listed, online := SnapshotUsers(s.redis, contacts), OnlineUsers(s.redis, contacts, s.now);
    assert forall u :: u in listed <==> u in contacts && u in s.redis.names;
    assert forall u :: u in online <==> u in contacts && IsOnline(s.redis, u, s.now);
    if listed == online {
      forall u | u in contacts && LastExpire(acts, u).Some? ensures s.now < LastExpire(acts, u).value + CONNS_TTL {
        assert u in online <==> u in listed;
      }
    }
  }

  // ---- Crashes ----

  ghost predicate Bounded(s: System, u: UserId) {
    u in s.redis.counters ==>
      && u in s.touched && s.touched[u] <= s.now
      && s.redis.counters[u].deadline.Some? && s.redis.counters[u].deadline.value <= s.touched[u] + CONNS_TTL
  }

  lemma {:induction false} BoundedAlways(acts: seq<Action>, u: UserId)
    ensures Bounded(Exec(acts), u)
  {
    if acts != [] {
      BoundedAlways(acts[..|acts| - 1], u);
    }
  }

  /**
   * In every run with crashes between calls a user reads as offline one ttl after the last connect or ping at the
   * latest.
   */
  lemma CrashForgotten(acts: seq<Action>, u: UserId)
    requires var s := Exec(acts); u in s.touched ==> s.now >= s.touched[u] + CONNS_TTL
    ensures !IsOnline(Exec(acts).redis, u, Exec(acts).now)
  {
    BoundedAlways(acts, u);
  }

  /** In plain numbers: two minutes after the last connect or ping at the latest, a crash between calls is forgotten. */
  lemma ForgottenInTwoMinutes(acts: seq<Action>, u: UserId)
    requires var s := Exec(acts); u in s.touched ==> s.now >= s.touched[u] + 120_000
    ensures !IsOnline(Exec(acts).redis, u, Exec(acts).now)
  {
    CrashForgotten(acts, u);
  }

  /** The names hash has no ttl: after a crash the snapshot can list a user the notifier calls offline. */
  lemma CrashLeavesListing() returns (acts: seq<Action>)
    ensures var s := Exec(acts);
            Links(s, 7) == {} && 7 in SnapshotUsers(s.redis, {7}) && !IsOnline(s.redis, 7, s.now)
  {
    var one := [Connect(0, 7, "ann")];
    var two := one + [Crash(0)];
    acts := two + [Wait(CONNS_TTL)];
    assert one[..0] == [] && two[..1] == one && acts[..2] == two;
    assert Exec(one) == Step(Init(), Connect(0, 7, "ann"));
    assert Exec(two) == Step(Exec(one), Crash(0));
    assert Exec(acts) == Step(Exec(two), Wait(CONNS_TTL));
  }

  // ---- The step is the command protocol run without interruption ----

  /** What the untimed protocol sees of the counters at time now. */
  function Plain(r: Redis, now: int): map<UserId, int> {
    map u | u in r.counters && Present(r, u, now) :: r.counters[u].value
  }

  ghost predicate SameRedis(p: Protocol.State, r: Redis, now: int) {
    p.counters == Plain(r, now) && p.names == r.names && p.events == r.events
  }

  function Commands(p: Protocol.State, c: ConnId, n: nat): Protocol.State
    decreases n
  {
    if n == 0 then p else Commands(Protocol.Step(p, Protocol.Command(c)), c, n - 1)
  }

  /** Four commands of a fresh connection, run in a row. */
  lemma ConnectCommands(p: Protocol.State, c: ConnId)
    requires c in p.conns && p.conns[c].pc.Opened?
    ensures var (u, name) := (p.conns[c].user, p.conns[c].name);
            var n := Protocol.Counter(p, u) + 1;
            Commands(p, c, 4) == Protocol.State(
              p.counters[u := n],
              if n == 1 then p.names[u := name] else p.names,
              p.conns[c := Protocol.Conn(u, name, Protocol.Live)],
              if n == 1 then p.events + [Event(u, Online)] else p.events)
  {
    var (u, name) := (p.conns[c].user, p.conns[c].name);
    var n := Protocol.Counter(p, u) + 1;
    var p1 := Protocol.State(p.counters[u := n], p.names, p.conns[c := Protocol.Conn(u, name, Protocol.SetTtl(n))],
                             p.events);
    IncrCommand(p, c);
    hide Protocol.Step;
    CommandsFour(p, c);
    hide Commands;
    if n == 1 {
      FirstConnect(p1, c, name);
    } else {
      LaterConnect(p1, c, name, n);
    }
  }

  lemma IncrCommand(p: Protocol.State, c: ConnId)
    requires c in p.conns && p.conns[c].pc.Opened?
    ensures var (u, name) := (p.conns[c].user, p.conns[c].name);
            var n := Protocol.Counter(p, u) + 1;
            Protocol.Step(p, Protocol.Command(c))
              == p.(counters := p.counters[u := n], conns := p.conns[c := Protocol.Conn(u, name, Protocol.SetTtl(n))])
  {
  }

  lemma LaterConnect(p: Protocol.State, c: ConnId, name: string, n: int)
    requires c in p.conns && p.conns[c] == Protocol.Conn(p.conns[c].user, name, Protocol.SetTtl(n)) && n != 1
    ensures Protocol.Step(Protocol.Step(Protocol.Step(p, Protocol.Command(c)), Protocol.Command(c)),
                          Protocol.Command(c))
         == p.(conns := p.conns[c := Protocol.Conn(p.conns[c].user, name, Protocol.Live)])
  {
    var p1 := p.(conns := p.conns[c := Protocol.Conn(p.conns[c].user, name, Protocol.Live)]);
    assert Protocol.Step(p, Protocol.Command(c)) == p1 == Protocol.Step(p1, Protocol.Command(c));
  }

  lemma ConnectIsUninterrupted(p: Protocol.State, r: Redis, c: ConnId, now: int)
    requires SameRedis(p, r, now) && c in p.conns && p.conns[c].pc.Opened?
    ensures var (u, name) := (p.conns[c].user, p.conns[c].name);
            && SameRedis(Commands(p, c, 4), Connected(r, u, name, now), now)
            && Commands(p, c, 4).conns == p.conns[c := Protocol.Conn(u, name, Protocol.Live)]
  {
    hide Commands;
    ConnectCommands(p, c);
    var u := p.conns[c].user;
    assert Plain(Connected(r, u, p.conns[c].name, now), now) == p.counters[u := Read(r, u, now) + 1];
  }

  lemma FirstConnect(p: Protocol.State, c: ConnId, name: string)
    requires c in p.conns && p.conns[c] == Protocol.Conn(p.conns[c].user, name, Protocol.SetTtl(1))
    ensures var u := p.conns[c].user;
            Protocol.Step(Protocol.Step(Protocol.Step(p, Protocol.Command(c)), Protocol.Command(c)),
                          Protocol.Command(c))
              == Protocol.State(p.counters, p.names[u := name], p.conns[c := Protocol.Conn(u, name, Protocol.Live)],
                                p.events + [Event(u, Online)])
  {
    var u := p.conns[c].user;
    var at := (pc: Protocol.Pc) => p.conns[c := Protocol.Conn(u, name, pc)];
    var p1 := p.(conns := at(Protocol.List));
    var p2 := Protocol.State(p.counters, p.names[u := name], at(Protocol.SayOnline), p.events);
    assert Protocol.Step(p, Protocol.Command(c)) == p1;
    assert Protocol.Step(p1, Protocol.Command(c)) == p2;
  }

  lemma CommandsFour(p: Protocol.State, c: ConnId)
    ensures var p1 := Protocol.Step(p, Protocol.Command(c));
            var p2 := Protocol.Step(p1, Protocol.Command(c));
            var p3 := Protocol.Step(p2, Protocol.Command(c));
            Commands(p, c, 4) == Protocol.Step(p3, Protocol.Command(c)) && Commands(p, c, 3) == p3
  {
    hide Protocol.Step;
    var p1 := Protocol.Step(p, Protocol.Command(c));
    var p2 := Protocol.Step(p1, Protocol.Command(c));
    var p3 := Protocol.Step(p2, Protocol.Command(c));
    assert Commands(p, c, 4) == Commands(p1, c, 3) == Commands(p2, c, 2) == Commands(p3, c, 1);
    assert Commands(p, c, 3) == Commands(p1, c, 2) == Commands(p2, c, 1) == Commands(p3, c, 0);
  }

  function At(p: Protocol.State, c: ConnId, pc: Protocol.Pc): map<ConnId, Protocol.Conn>
    requires c in p.conns
  {
    p.conns[c := p.conns[c].(pc := pc)]
  }

  /** DEL, HDEL and PUBLISH, run in a row. */
  lemma ClearCommands(p: Protocol.State, c: ConnId)
    requires c in p.conns && p.conns[c].pc.Clear?
    ensures var u := p.conns[c].user;
            Commands(p, c, 3) == Protocol.State(p.counters - {u}, p.names - {u}, At(p, c, Protocol.Gone),
                                                p.events + [Event(u, Offline)])
  {
    var u := p.conns[c].user;
    var p1 := p.(counters := p.counters - {u}, conns := At(p, c, Protocol.Unlist));
    ClearCommand(p, c);
    hide Protocol.Step;
    CommandsFour(p, c);
    hide Commands;
    UnlistCommands(p1, c);
    assert At(p1, c, Protocol.Gone) == At(p, c, Protocol.Gone);
  }

  lemma ClearCommand(p: Protocol.State, c: ConnId)
    requires c in p.conns && p.conns[c].pc.Clear?
    ensures Protocol.Step(p, Protocol.Command(c))
         == p.(counters := p.counters - {p.conns[c].user}, conns := At(p, c, Protocol.Unlist))
  {
  }

  lemma UnlistCommands(p: Protocol.State, c: ConnId)
    requires c in p.conns && p.conns[c].pc.Unlist?
    ensures var u := p.conns[c].user;
            Protocol.Step(Protocol.Step(p, Protocol.Command(c)), Protocol.Command(c))
              == p.(names := p.names - {u}, conns := At(p, c, Protocol.Gone), events := p.events + [Event(u, Offline)])
  {
    var p1 := p.(names := p.names - {p.conns[c].user}, conns := At(p, c, Protocol.SayOffline));
    assert Protocol.Step(p, Protocol.Command(c)) == p1;
    assert At(p1, c, Protocol.Gone) == At(p, c, Protocol.Gone);
  }

  /** A connection that is gone sends nothing more. */
  lemma GoneCommands(p: Protocol.State, c: ConnId)
    requires c in p.conns && p.conns[c].pc.Gone?
    ensures Commands(p, c, 3) == p
  {
    CommandsFour(p, c);
    assert Protocol.Step(p, Protocol.Command(c)) == p;
  }

  lemma DisconnectIsUninterrupted(p: Protocol.State, r: Redis, c: ConnId, now: int)
    requires SameRedis(p, r, now) && c in p.conns && p.conns[c].pc.Live?
    ensures var (u, name) := (p.conns[c].user, p.conns[c].name);
            var p' := Commands(Protocol.Step(p, Protocol.Hangup(c)), c, 3);
            && SameRedis(p', Disconnected(r, u, now), now)
            && p'.conns == p.conns[c := Protocol.Conn(u, name, Protocol.Gone)]
  {
    hide Commands;
    var u := p.conns[c].user;
    var n := Read(r, u, now) - 1;
    var p1 := Protocol.Step(p, Protocol.Hangup(c));
    assert p1.counters == p.counters[u := n] && p1.conns == p.conns[c := p1.conns[c]];
    if n <= 0 {
      ClearCommands(p1, c);
      assert p1.counters - {u} == Plain(Disconnected(r, u, now), now);
    } else {
      GoneCommands(p1, c);
      assert p1.counters == Plain(Disconnected(r, u, now), now);
    }
  }
}

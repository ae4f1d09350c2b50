/**
 * Distributed presence, one Redis command at a time. Connections of any number of server instances run Connect and
 * Disconnect concurrently, and the counter key may expire at any moment. A schedule is any sequence of actions; an
 * action that is not enabled leaves the state as it is.
 */
module PresenceProtocol {
  import opened Common
  import opened PresenceTypes

  /** The next command of a connection. */
  datatype Pc =
    | Opened       // in the hub, INCR not yet sent
    | SetTtl(n: int) // INCR answered n, EXPIRE is next
    | List         // HSET is next: this INCR answered 1
    | SayOnline    // PUBLISH online is next
    | Live         // Connect has returned
    | Clear        // DECR answered 0 or less, DEL is next
    | Unlist       // HDEL is next
    | SayOffline   // PUBLISH offline is next
    | Gone         // Disconnect has returned

  datatype Conn = Conn(user: UserId, name: string, pc: Pc)

  /** The counter and names keys, every connection opened so far, and the log of published events. */
  datatype State = State(counters: map<UserId, int>, names: map<UserId, string>,
                         conns: map<ConnId, Conn>, events: seq<Event>)

  datatype Action =
    | Open(c: ConnId, user: UserId, name: string) // a socket is accepted
    | Command(c: ConnId)                          // the next command of a running Connect or Disconnect
    | Hangup(c: ConnId)                           // the reader stops: the DECR that starts Disconnect
    | KeepAlive(c: ConnId)                        // EXPIRE on a ping; it moves no value
    | Expiry(user: UserId)                        // Redis drops the counter key

  function Init(): State {
    State(map[], map[], map[], [])
  }

  /** A missing counter reads as zero. */
  function Counter(s: State, u: UserId): int {
    if u in s.counters then s.counters[u] else 0
  }

  function Moved(s: State, c: ConnId, pc: Pc): map<ConnId, Conn>
    requires c in s.conns
  {
    s.conns[c := s.conns[c].(pc := pc)]
  }

  function RunCommand(s: State, c: ConnId): State
    requires c in s.conns
  {
    var u := s.conns[c].user;
    match s.conns[c].pc
    case Opened =>
      var n := Counter(s, u) + 1;
      s.(counters := s.counters[u := n], conns := Moved(s, c, SetTtl(n)))
    case SetTtl(n) => s.(conns := Moved(s, c, if n == 1 then List else Live))
    case List => s.(names := s.names[u := s.conns[c].name], conns := Moved(s, c, SayOnline))
    case SayOnline => s.(events := s.events + [Event(u, Online)], conns := Moved(s, c, Live))
    case Clear => s.(counters := s.counters - {u}, conns := Moved(s, c, Unlist))
    case Unlist => s.(names := s.names - {u}, conns := Moved(s, c, SayOffline))
    case SayOffline => s.(events := s.events + [Event(u, Offline)], conns := Moved(s, c, Gone))
    case Live => s
    case Gone => s
  }

  function Step(s: State, a: Action): State {
    match a
    case Open(c, u, name) =>
      if c in s.conns then s else s.(conns := s.conns[c := Conn(u, name, Opened)])
    case Command(c) =>
      if c in s.conns then RunCommand(s, c) else s
    case Hangup(c) =>
      if c in s.conns && s.conns[c].pc.Live? then
        var u := s.conns[c].user;
        var n := Counter(s, u) - 1;
        s.(counters := s.counters[u := n], conns := Moved(s, c, if n <= 0 then Clear else Gone))
      else s
    case KeepAlive(c) => s
    case Expiry(u) => s.(counters := s.counters - {u})
  }

  function Exec(acts: seq<Action>): State {
    if acts == [] then Init() else Step(Exec(acts[..|acts| - 1]), acts[|acts| - 1])
  }

  /** A connection of u that has counted itself in and not yet out. */
  predicate Holding(conn: Conn, u: UserId) {
    conn.user == u && (conn.pc.SetTtl? || conn.pc.List? || conn.pc.SayOnline? || conn.pc.Live?)
  }

  function HoldersOf(conns: map<ConnId, Conn>, u: UserId): set<ConnId> {
    set c | c in conns && Holding(conns[c], u)
  }

  function Holders(s: State, u: UserId): set<ConnId> {
    HoldersOf(s.conns, u)
  }

  /** Some connection of u is about to send its DEL. */
  ghost predicate ClearPending(s: State, u: UserId) {
    exists c :: c in s.conns && s.conns[c].user == u && s.conns[c].pc.Clear?
  }

  ghost predicate UnlistPending(s: State, u: UserId) {
    exists c :: c in s.conns && s.conns[c].user == u && (s.conns[c].pc.Clear? || s.conns[c].pc.Unlist?)
  }

  /** Every connection of u has run its Disconnect to the end. */
  ghost predicate AllGone(s: State, u: UserId) {
    forall c :: c in s.conns && s.conns[c].user == u ==> s.conns[c].pc.Gone?
  }

  /** Every connection of u is either connected or gone: no command is pending. */
  ghost predicate AtRest(s: State, u: UserId) {
    forall c :: c in s.conns && s.conns[c].user == u ==> s.conns[c].pc.Live? || s.conns[c].pc.Gone?
  }

  // ---- Never stuck online ----

  ghost predicate Safe(s: State, u: UserId) {
    && Counter(s, u) <= |Holders(s, u)|
    && (u in s.counters && s.counters[u] <= 0 ==> ClearPending(s, u))
    && (u in s.names ==> Holders(s, u) != {} || UnlistPending(s, u))
  }

  /** +1 for an INCR on behalf of u, -1 for a DECR. */
  function Gain(s: State, a: Action, u: UserId): int {
    match a
    case Command(c) => if c in s.conns && s.conns[c].user == u && s.conns[c].pc.Opened? then 1 else 0
    case Hangup(c) => if c in s.conns && s.conns[c].user == u && s.conns[c].pc.Live? then -1 else 0
    case _ => 0
  }

  /** A DEL or an expiry of u's counter. */
  predicate Wipes(s: State, a: Action, u: UserId) {
    a == Expiry(u) || (a.Command? && a.c in s.conns && s.conns[a.c].user == u && s.conns[a.c].pc.Clear?)
  }

  /** The value this action destroys: whatever the wiped counter reads. */
  function Destroyed(s: State, a: Action, u: UserId): int {
    if Wipes(s, a, u) then Counter(s, u) else 0
  }

  /** Setting one connection changes the holders by that connection alone. */
  lemma HoldersUpdate(conns: map<ConnId, Conn>, c: ConnId, conn: Conn, u: UserId)
    ensures |HoldersOf(conns[c := conn], u)|
         == |HoldersOf(conns, u)| + (if Holding(conn, u) then 1 else 0)
            - (if c in conns && Holding(conns[c], u) then 1 else 0)
  {
    var rest := HoldersOf(conns, u) - {c};
    assert HoldersOf(conns[c := conn], u) == if Holding(conn, u) then rest + {c} else rest;
    assert HoldersOf(conns, u) == if c in conns && Holding(conns[c], u) then rest + {c} else rest;
  }

  lemma HoldersAfter(s: State, a: Action, u: UserId)
    ensures |Holders(Step(s, a), u)| == |Holders(s, u)| + Gain(s, a, u)
  {
    hide HoldersOf;
    var conns := Step(s, a).conns;
    if !a.Expiry? && a.c in conns {
      assert conns == s.conns[a.c := conns[a.c]];
      HoldersUpdate(s.conns, a.c, conns[a.c], u);
    }
  }

  lemma CounterAfter(s: State, a: Action, u: UserId)
    ensures Counter(Step(s, a), u) == Counter(s, u) + Gain(s, a, u) - Destroyed(s, a, u)
  {
  }

  /** A DECR that answers zero or less, or a counter already at or below zero, has its DEL still to come. */
  lemma ClearStep(s: State, a: Action, u: UserId)
    requires u in s.counters && s.counters[u] <= 0 ==> ClearPending(s, u)
    ensures var s' := Step(s, a); u in s'.counters && s'.counters[u] <= 0 ==> ClearPending(s', u)
  {
    var s' := Step(s, a);
    if u in s'.counters && s'.counters[u] <= 0 {
      if Gain(s, a, u) == -1 {
        assert s'.conns[a.c].pc.Clear?;
      } else {
        var c :| c in s.conns && s.conns[c].user == u && s.conns[c].pc.Clear?;
        assert c in s'.conns && s'.conns[c] == s.conns[c];
      }
    }
  }

  lemma ListedStep(s: State, a: Action, u: UserId)
    requires Safe(s, u) && Holders(Step(s, a), u) == {} && u in Step(s, a).names
    ensures UnlistPending(Step(s, a), u)
  {
    var s' := Step(s, a);
    HoldersAfter(s, a, u);
    if Gain(s, a, u) == -1 {
      assert s'.conns[a.c].pc.Clear?;
    } else {
      assert Holders(s, u) == {};
      assert forall c :: c in s.conns && s.conns[c].user == u && s.conns[c].pc.List? ==> c in Holders(s, u);
      var c :| c in s.conns && s.conns[c].user == u && (s.conns[c].pc.Clear? || s.conns[c].pc.Unlist?);
      assert c in s'.conns && s'.conns[c].user == u && (s'.conns[c] == s.conns[c] || s'.conns[c].pc.Unlist?);
    }
  }

  lemma SafeStep(s: State, a: Action, u: UserId)
    requires Safe(s, u)
    ensures Safe(Step(s, a), u)
  {
    hide Step;
    HoldersAfter(s, a, u);
    CounterAfter(s, a, u);
    DestroysSafely(s, a, u);
    ClearStep(s, a, u);
    if u in Step(s, a).names && Holders(Step(s, a), u) == {} {
      ListedStep(s, a, u);
    }
  }

  /** What is destroyed never exceeds what the counter over-reports. */
  lemma DestroysSafely(s: State, a: Action, u: UserId)
    ensures Destroyed(s, a, u) != 0 ==> Gain(s, a, u) == 0 && Destroyed(s, a, u) == Counter(s, u)
  {
  }

  lemma {:induction false} SafeAlways(acts: seq<Action>, u: UserId)
    ensures Safe(Exec(acts), u)
  {
    if acts != [] {
      SafeAlways(acts[..|acts| - 1], u);
      SafeStep(Exec(acts[..|acts| - 1]), acts[|acts| - 1], u);
    }
  }

  /**
   * Never stuck online: in every interleaving, expiries included, once all of a user's connections have disconnected
   * the counter key is absent and the name is not listed.
   */
  lemma NeverStuckOnline(acts: seq<Action>, u: UserId)
    requires AllGone(Exec(acts), u)
    ensures u !in Exec(acts).counters && u !in Exec(acts).names
  {
    SafeAlways(acts, u);
    assert Holders(Exec(acts), u) == {};
  }

  // ---- What is listed and published ----

  /** A user is listed under the name of one of the user's own connections. */
  ghost predicate NameGenuine(s: State, u: UserId) {
    u in s.names ==> exists c :: c in s.conns && s.conns[c].user == u && s.conns[c].name == s.names[u]
  }

  lemma NameGenuineStep(s: State, a: Action, u: UserId)
    requires NameGenuine(s, u)
    ensures NameGenuine(Step(s, a), u)
  {
    var s' := Step(s, a);
    if u in s'.names {
      if u in s.names && s'.names[u] == s.names[u] {
        var c :| c in s.conns && s.conns[c].user == u && s.conns[c].name == s.names[u];
        assert c in s'.conns && s'.conns[c].user == u && s'.conns[c].name == s.names[u];
      } else {
        assert s'.conns[a.c].user == u && s'.conns[a.c].name == s'.names[u];
      }
    }
  }

  lemma {:induction false} NamesAreGenuine(acts: seq<Action>, u: UserId)
    ensures NameGenuine(Exec(acts), u)
  {
    if acts != [] {
      NamesAreGenuine(acts[..|acts| - 1], u);
      hide Step;
      NameGenuineStep(Exec(acts[..|acts| - 1]), acts[|acts| - 1], u);
    }
  }

  // ---- What the counter has lost ----

  function Lost(acts: seq<Action>, u: UserId): int {
    if acts == [] then 0 else
      var n := |acts| - 1;
      Lost(acts[..n], u) + Destroyed(Exec(acts[..n]), acts[n], u)
  }

  /** Conservation: connections counted in are exactly the counter plus everything wiped from it so far. */
  lemma {:induction false} Ledger(acts: seq<Action>, u: UserId)
    ensures |Holders(Exec(acts), u)| == Counter(Exec(acts), u) + Lost(acts, u)
    ensures Lost(acts, u) >= 0
  {
    SafeAlways(acts, u);
    if acts != [] {
      var n := |acts| - 1;
      Ledger(acts[..n], u);
      HoldersAfter(Exec(acts[..n]), acts[n], u);
      CounterAfter(Exec(acts[..n]), acts[n], u);
    }
  }

  ghost predicate CounterAgrees(s: State, u: UserId) {
    Counter(s, u) == |Holders(s, u)|
  }

  ghost predicate AgreesThroughout(acts: seq<Action>, u: UserId) {
    CounterAgrees(Exec(acts), u) && (acts != [] ==> AgreesThroughout(acts[..|acts| - 1], u))
  }

  /** Every DEL and expiry of u's counter in the run found it reading zero. */
  ghost predicate WipesOnlyZero(acts: seq<Action>, u: UserId) {
    acts == [] ||
    (var n := |acts| - 1;
     WipesOnlyZero(acts[..n], u) && (Wipes(Exec(acts[..n]), acts[n], u) ==> Counter(Exec(acts[..n]), u) == 0))
  }

  /**
   * The counter agrees with the connections throughout a run exactly when every DEL and expiry found it reading zero.
   */
  lemma {:induction false} CounterAgreesIff(acts: seq<Action>, u: UserId)
    ensures AgreesThroughout(acts, u) <==> WipesOnlyZero(acts, u)
  {
    hide Wipes, Counter, Step;
    if acts == [] {
      NothingCounted(u);
    } else {
      var n := |acts| - 1;
      CounterAgreesIff(acts[..n], u);
      if AgreesThroughout(acts[..n], u) {
        AgreementStep(Exec(acts[..n]), acts[n], u);
      }
    }
  }

  lemma NothingCounted(u: UserId)
    ensures CounterAgrees(Exec([]), u)
  {
  }

  lemma AgreementStep(s: State, a: Action, u: UserId)
    requires CounterAgrees(s, u)
    ensures CounterAgrees(Step(s, a), u) <==> (Wipes(s, a, u) ==> Counter(s, u) == 0)
  {
    HoldersAfter(s, a, u);
    CounterAfter(s, a, u);
  }

  /** One DEL in an agreeing state: agreement survives exactly when the counter it deletes reads zero. */
  lemma ClearKeepsAgreementIff(acts: seq<Action>, c: ConnId)
    requires var s := Exec(acts);
             c in s.conns && s.conns[c].pc.Clear? && Counter(s, s.conns[c].user) == |Holders(s, s.conns[c].user)|
    ensures var s := Exec(acts);
            var s', u := Step(s, Command(c)), s.conns[c].user;
            Counter(s', u) == |Holders(s', u)| <==> Counter(s, u) == 0
  {
    HoldersAfter(Exec(acts), Command(c), Exec(acts).conns[c].user);
    CounterAfter(Exec(acts), Command(c), Exec(acts).conns[c].user);
  }

  // ---- When the listing is right ----

  /** HSET of u is this connection's next list command. */
  predicate ToBeListed(conn: Conn, u: UserId) {
    conn.user == u && (conn.pc == SetTtl(1) || conn.pc.List?)
  }

  /** Counted in, with no HSET of its own still to come. */
  predicate PastHset(conn: Conn, u: UserId) {
    Holding(conn, u) && !ToBeListed(conn, u)
  }

  ghost predicate ListPending(s: State, u: UserId) {
    exists c :: c in s.conns && ToBeListed(s.conns[c], u)
  }

  ghost predicate SomePastHset(s: State, u: UserId) {
    exists c :: c in s.conns && PastHset(s.conns[c], u)
  }

  predicate SendsHset(s: State, a: Action, u: UserId) {
    a.Command? && a.c in s.conns && s.conns[a.c].user == u && s.conns[a.c].pc.List?
  }

  predicate SendsHdel(s: State, a: Action, u: UserId) {
    a.Command? && a.c in s.conns && s.conns[a.c].user == u && s.conns[a.c].pc.Unlist?
  }

  /** Some HSET of u ran after the last HDEL of u that found a connection already past its own HSET. */
  ghost predicate Relisted(acts: seq<Action>, u: UserId) {
    acts != [] &&
    (var n := |acts| - 1;
     var s := Exec(acts[..n]);
     SendsHset(s, acts[n], u) || (Relisted(acts[..n], u) && !(SendsHdel(s, acts[n], u) && SomePastHset(s, u))))
  }

  /** The listing lags behind only while a list command is on its way. */
  ghost predicate ListingFollows(s: State, u: UserId, relisted: bool) {
    && (u in s.names ==> relisted)
    && (relisted && SomePastHset(s, u) ==> u in s.names || ListPending(s, u) || UnlistPending(s, u))
  }

  lemma NamesAfter(s: State, a: Action, u: UserId)
    ensures u in Step(s, a).names <==> SendsHset(s, a, u) || (u in s.names && !SendsHdel(s, a, u))
  {
  }

  /** A connection comes to be past its HSET by sending it, or by an INCR that does not answer 1. */
  lemma PastHsetAfter(s: State, a: Action, u: UserId)
    ensures SomePastHset(Step(s, a), u) ==>
              SomePastHset(s, u) || SendsHset(s, a, u) || (Gain(s, a, u) == 1 && Counter(s, u) != 0)
  {
    var s' := Step(s, a);
    if c :| c in s'.conns && PastHset(s'.conns[c], u) {
      assert c in s.conns && s'.conns[c] == s.conns[c] ==> PastHset(s.conns[c], u);
    }
  }

  /** A pending list command stays pending until it runs. */
  lemma ListPendingAfter(s: State, a: Action, u: UserId)
    requires ListPending(s, u)
    ensures ListPending(Step(s, a), u) || SendsHset(s, a, u)
  {
    var s' := Step(s, a);
    var c :| c in s.conns && ToBeListed(s.conns[c], u);
    assert c in s'.conns && (SendsHset(s, a, u) || ToBeListed(s'.conns[c], u));
  }

  lemma UnlistPendingAfter(s: State, a: Action, u: UserId)
    requires UnlistPending(s, u)
    ensures UnlistPending(Step(s, a), u) || SendsHdel(s, a, u)
  {
    var s' := Step(s, a);
    var c :| c in s.conns && s.conns[c].user == u && (s.conns[c].pc.Clear? || s.conns[c].pc.Unlist?);
    assert c in s'.conns && s'.conns[c].user == u;
  }

  /** A counter that is not zero has a DEL pending or a connection counted in. */
  lemma NonzeroCause(s: State, u: UserId)
    requires Safe(s, u) && Counter(s, u) != 0
    ensures UnlistPending(s, u) || ListPending(s, u) || SomePastHset(s, u)
  {
    if Counter(s, u) > 0 {
      var c :| c in Holders(s, u);
      assert PastHset(s.conns[c], u) || ToBeListed(s.conns[c], u);
    }
  }

  lemma ListingStep(s: State, a: Action, u: UserId, relisted: bool)
    requires Safe(s, u) && ListingFollows(s, u, relisted)
    ensures ListingFollows(Step(s, a), u,
                           SendsHset(s, a, u) || (relisted && !(SendsHdel(s, a, u) && SomePastHset(s, u))))
  {
    hide Step, Safe, SomePastHset, ListPending, UnlistPending, Counter;
    NamesAfter(s, a, u);
    PastHsetAfter(s, a, u);
    if ListPending(s, u) {
      ListPendingAfter(s, a, u);
    }
    if UnlistPending(s, u) {
      UnlistPendingAfter(s, a, u);
    }
    if Counter(s, u) != 0 {
      NonzeroCause(s, u);
    }
    assert SendsHdel(s, a, u) ==> Gain(s, a, u) == 0;
  }

  lemma {:induction false} ListingAlways(acts: seq<Action>, u: UserId)
    ensures ListingFollows(Exec(acts), u, Relisted(acts, u))
  {
    if acts != [] {
      var n := |acts| - 1;
      ListingAlways(acts[..n], u);
      SafeAlways(acts[..n], u);
      hide Step;
      ListingStep(Exec(acts[..n]), acts[n], u, Relisted(acts[..n], u));
    }
  }

  /**
   * With no command of a user pending, the user is listed if and only if a connection is counted in and some HSET ran
   * after the last HDEL that found a connection already past its own.
   */
  lemma ListedIff(acts: seq<Action>, u: UserId)
    requires AtRest(Exec(acts), u)
    ensures u in Exec(acts).names <==> Holders(Exec(acts), u) != {} && Relisted(acts, u)
  {
    hide Exec, Relisted;
    var s := Exec(acts);
    ListingAlways(acts, u);
    if Holders(s, u) != {} {
      var c :| c in Holders(s, u);
      assert PastHset(s.conns[c], u);
    } else {
      SafeAlways(acts, u);
    }
  }

  /** One HDEL in a state whose listing is right: it stays right exactly when no connection is counted in. */
  lemma UnlistKeepsListingIff(acts: seq<Action>, c: ConnId)
    requires var s := Exec(acts);
             c in s.conns && s.conns[c].pc.Unlist? &&
             (s.conns[c].user in s.names <==> Holders(s, s.conns[c].user) != {})
    ensures var s := Exec(acts);
            var s', u := Step(s, Command(c)), s.conns[c].user;
            (u in s'.names <==> Holders(s', u) != {}) <==> Holders(s, u) == {}
  {
    var s, u := Exec(acts), Exec(acts).conns[c].user;
    HoldersAfter(s, Command(c), u);
    assert |Holders(Step(s, Command(c)), u)| == |Holders(s, u)|;
  }

  // ---- Full agreement fails ----

  /** One more action, and the state it leads to. */
  lemma Then(acts: seq<Action>, a: Action, s: State) returns (more: seq<Action>)
    requires Step(Exec(acts), a) == s
    ensures more == acts + [a] && Exec(more) == s
  {
    more := acts + [a];
    assert more[..|acts|] == acts;
  }

  /** Two connections of user 7. */
  function Pair(counters: map<UserId, int>, listed: bool, one: Pc, two: Pc, events: seq<Event>): State {
    State(counters, if listed then map[7 := "ann"] else map[],
          map[1 := Conn(7, "ann", one), 2 := Conn(7, "ann", two)], events)
  }

  /** Connection 1 connects in full; connection 2 has been accepted; then 1 hangs up and its DECR answers 0. */
  lemma FirstHangsUp() returns (a: seq<Action>)
    ensures Exec(a) == Pair(map[7 := 0], true, Clear, Opened, [Event(7, Online)])
  {
    hide Exec;
    a := Start();
    a := Then(a, Open(1, 7, "ann"), State(map[], map[], map[1 := Conn(7, "ann", Opened)], []));
    a := Then(a, Open(2, 7, "ann"), Pair(map[], false, Opened, Opened, []));
    a := Then(a, Command(1), Pair(map[7 := 1], false, SetTtl(1), Opened, []));
    a := Then(a, Command(1), Pair(map[7 := 1], false, List, Opened, []));
    a := Then(a, Command(1), Pair(map[7 := 1], true, SayOnline, Opened, []));
    a := Then(a, Command(1), Pair(map[7 := 1], true, Live, Opened, [Event(7, Online)]));
    a := Then(a, Hangup(1), Pair(map[7 := 0], true, Clear, Opened, [Event(7, Online)]));
  }

  lemma PairAtRest(counters: map<UserId, int>, listed: bool, events: seq<Event>)
    ensures var s := Pair(counters, listed, Gone, Live, events); AtRest(s, 7) && Holders(s, 7) == {2}
  {
  }

  lemma Start() returns (a: seq<Action>)
    ensures a == [] && Exec(a) == Init()
  {
    a := [];
  }

  /** Connection 2 runs its whole Connect while connection 1 is between two commands. */
  lemma SecondConnects(before: seq<Action>, counters: map<UserId, int>, one: Pc) returns (a: seq<Action>)
    requires Exec(before) == Pair(counters, true, one, Opened, [Event(7, Online)]) && (one.Clear? || one.Unlist?)
    requires counters == map[] || counters == map[7 := 0]
    ensures Exec(a) == Pair(map[7 := 1], true, one, Live, [Event(7, Online), Event(7, Online)])
  {
    hide Exec;
    var on := [Event(7, Online)];
    a := Then(before, Command(2), Pair(map[7 := 1], true, one, SetTtl(1), on));
    a := SecondListed(a, one);
  }

  lemma SecondListed(before: seq<Action>, one: Pc) returns (a: seq<Action>)
    requires Exec(before) == Pair(map[7 := 1], true, one, SetTtl(1), [Event(7, Online)])
    ensures Exec(a) == Pair(map[7 := 1], true, one, Live, [Event(7, Online), Event(7, Online)])
  {
    hide Exec;
    var on := [Event(7, Online)];
    a := Then(before, Command(2), Pair(map[7 := 1], true, one, List, on));
    a := Then(a, Command(2), Pair(map[7 := 1], true, one, SayOnline, on));
    a := Then(a, Command(2), Pair(map[7 := 1], true, one, Live, on + on));
  }

  /**
   * Full agreement fails: the DEL of connection 1 arrives after connection 2 has counted itself in, and a connected
   * user at rest reads as offline everywhere.
   */
  lemma LateDelHidesUser() returns (a: seq<Action>)
    ensures var s := Exec(a);
            && AtRest(s, 7) && Holders(s, 7) == {2}
            && 7 !in s.counters && 7 !in s.names
            && s.events == [Event(7, Online), Event(7, Online), Event(7, Offline)]
  {
    hide Exec, Holders, AtRest, Lost;
    var on := [Event(7, Online), Event(7, Online)];
    a := FirstHangsUp();
    a := SecondConnects(a, map[7 := 0], Clear);
    a := Then(a, Command(1), Pair(map[], true, Unlist, Live, on));
    a := Then(a, Command(1), Pair(map[], false, SayOffline, Live, on));
    a := Then(a, Command(1), Pair(map[], false, Gone, Live, on + [Event(7, Offline)]));
    PairAtRest(map[], false, on + [Event(7, Offline)]);
  }

  /**
   * The two readers can disagree at rest, with nothing lost: connection 2 counts itself in between the DEL and the
   * HDEL of connection 1, so the user is counted but not listed.
   */
  lemma LateHdelSplitsReaders() returns (a: seq<Action>)
    ensures var s := Exec(a);
            && AtRest(s, 7) && Holders(s, 7) == {2}
            && Counter(s, 7) == 1 && 7 !in s.names && Lost(a, 7) == 0
  {
    hide Exec, Holders, AtRest, Lost;
    var on := [Event(7, Online), Event(7, Online)];
    a := FirstHangsUp();
    a := Then(a, Command(1), Pair(map[], true, Unlist, Opened, [Event(7, Online)]));
    a := SecondConnects(a, map[], Unlist);
    a := Then(a, Command(1), Pair(map[7 := 1], false, SayOffline, Live, on));
    a := Then(a, Command(1), Pair(map[7 := 1], false, Gone, Live, on + [Event(7, Offline)]));
    PairAtRest(map[7 := 1], false, on + [Event(7, Offline)]);
    Ledger(a, 7);
  }
}

/**
 * The hub's registry of clients and limiters, and its runs: any number of connections, each accepted, added, read from
 * and removed in the order of the WebSocket handler, interleaved in any way.
 */
module HubRegistry {
  import opened Common

  datatype Registry<C(==), L> = Registry(clients: map<UserId, set<C>>, limiters: map<UserId, L>)

  function ClientsOf<C(==), L>(r: Registry<C, L>, u: UserId): set<C> {
    if u in r.clients then r.clients[u] else {}
  }

  function WithClient<C(==), L>(r: Registry<C, L>, u: UserId, c: C): Registry<C, L> {
    r.(clients := r.clients[u := ClientsOf(r, u) + {c}])
  }

  /** The user's limiter if there is one, else the new one, which is stored. */
  function LimiterOf<C(==), L>(r: Registry<C, L>, u: UserId, created: L): L {
    if u in r.limiters then r.limiters[u] else created
  }

  function WithLimiter<C(==), L>(r: Registry<C, L>, u: UserId, created: L): Registry<C, L> {
    r.(limiters := r.limiters[u := LimiterOf(r, u, created)])
  }

  /** The last client of a user takes the user's entry and limiter with it. */
  function WithoutClient<C(==), L>(r: Registry<C, L>, u: UserId, c: C): Registry<C, L> {
    if u !in r.clients then r
    else if r.clients[u] - {c} == {} then Registry(r.clients - {u}, r.limiters - {u})
    else r.(clients := r.clients[u := r.clients[u] - {c}])
  }

  // ---- Runs ----

  type LimiterId = nat

  datatype Pc =
    | Accepted                     // upgraded; addClient is next
    | Added                        // in the hub; limiterFor is next, at the start of readPump
    | Reading(limiter: LimiterId)  // removeClient is next, when readPump returns
    | Removed

  datatype Conn = Conn(user: UserId, pc: Pc)

  /** Limiters are numbered in the order they are made. */
  datatype State = State(hub: Registry<ConnId, LimiterId>, conns: map<ConnId, Conn>, nextLimiter: LimiterId)

  datatype Action =
    | Accept(c: ConnId, user: UserId)
    | Proceed(c: ConnId) // the connection's next call on the hub

  function Init(): State {
    State(Registry(map[], map[]), map[], 0)
  }

  function Step(s: State, a: Action): State {
    match a
    case Accept(c, user) => if c in s.conns then s else s.(conns := s.conns[c := Conn(user, Accepted)])
    case Proceed(c) =>
      if c !in s.conns then s else
      var u := s.conns[c].user;
      match s.conns[c].pc
      case Accepted => s.(hub := WithClient(s.hub, u, c), conns := s.conns[c := Conn(u, Added)])
      case Added =>
        var l := LimiterOf(s.hub, u, s.nextLimiter);
        State(WithLimiter(s.hub, u, s.nextLimiter), s.conns[c := Conn(u, Reading(l))], s.nextLimiter + 1)
      case Reading(_) => s.(hub := WithoutClient(s.hub, u, c), conns := s.conns[c := Conn(u, Removed)])
      case Removed => s
  }

  function Exec(acts: seq<Action>): State {
    if acts == [] then Init() else Step(Exec(acts[..|acts| - 1]), acts[|acts| - 1])
  }

  predicate InHub(s: State, c: ConnId, u: UserId) {
    c in s.conns && s.conns[c].user == u && (s.conns[c].pc.Added? || s.conns[c].pc.Reading?)
  }

  /** The hub holds exactly the connections between their addClient and removeClient, and no empty set. */
  ghost predicate ClientsExact(s: State) {
    && (forall u, c :: c in ClientsOf(s.hub, u) <==> InHub(s, c, u))
    && (forall u :: u in s.hub.clients ==> s.hub.clients[u] != {})
  }

  ghost predicate LimitersShared(s: State) {
    && s.hub.limiters.Keys <= s.hub.clients.Keys
    && (forall c :: c in s.conns && s.conns[c].pc.Reading? ==>
          s.conns[c].user in s.hub.limiters && s.hub.limiters[s.conns[c].user] == s.conns[c].pc.limiter)
    && (forall u :: u in s.hub.limiters ==> s.hub.limiters[u] < s.nextLimiter)
    && (forall u, v :: u in s.hub.limiters && v in s.hub.limiters && s.hub.limiters[u] == s.hub.limiters[v] ==> u == v)
  }

  lemma ClientsStep(s: State, a: Action)
    requires ClientsExact(s)
    ensures ClientsExact(Step(s, a))
  {
    var s' := Step(s, a);
    forall u, c ensures c in ClientsOf(s'.hub, u) <==> InHub(s', c, u) {
      assert c in ClientsOf(s.hub, u) <==> InHub(s, c, u);
    }
  }

  /** A reader's own client is registered, so its user's entry is there for its limiter. */
  lemma LimitersStep(s: State, a: Action)
    requires ClientsExact(s) && LimitersShared(s)
    ensures LimitersShared(Step(s, a))
  {
    if a.Proceed? && a.c in s.conns {
      var u := s.conns[a.c].user;
      assert a.c in ClientsOf(s.hub, u) <==> InHub(s, a.c, u);
      var s' := Step(s, a);
      forall c | c in s'.conns && s'.conns[c].pc.Reading? && s'.conns[c].user == u
        ensures u in s'.hub.limiters && s'.hub.limiters[u] == s'.conns[c].pc.limiter
      {
        assert InHub(s, c, u) && c in ClientsOf(s.hub, u);
        if s.conns[a.c].pc.Reading? {
          assert c in s.hub.clients[u] - {a.c};
        }
      }
    }
  }

  lemma {:induction false} HubAlways(acts: seq<Action>)
    ensures ClientsExact(Exec(acts)) && LimitersShared(Exec(acts))
  {
    if acts != [] {
      HubAlways(acts[..|acts| - 1]);
      hide Step;
      ClientsStep(Exec(acts[..|acts| - 1]), acts[|acts| - 1]);
      LimitersStep(Exec(acts[..|acts| - 1]), acts[|acts| - 1]);
    }
  }

  /**
   * In every run: no user maps to an empty set; every stored limiter belongs to a user with a registered client; and
   * two connections that read hold the same limiter if and only if they are the same user's.
   */
  lemma ReadersShareLimiter(acts: seq<Action>)
    ensures var s := Exec(acts);
            && (forall u :: u in s.hub.clients ==> s.hub.clients[u] != {})
            && (forall u :: u in s.hub.limiters ==> exists c :: InHub(s, c, u))
            && (forall c, d :: c in s.conns && d in s.conns && s.conns[c].pc.Reading? && s.conns[d].pc.Reading? ==>
                  (s.conns[c].pc == s.conns[d].pc <==> s.conns[c].user == s.conns[d].user))
  {
    HubAlways(acts);
    hide Exec;
    var s := Exec(acts);
    forall u | u in s.hub.limiters ensures exists c :: InHub(s, c, u) {
      var c :| c in s.hub.clients[u];
      assert c in ClientsOf(s.hub, u);
    }
  }

  /** Whenever the handler reaches limiterFor its client is registered. */
  lemma LimiterForFindsClient(acts: seq<Action>, c: ConnId)
    requires c in Exec(acts).conns && Exec(acts).conns[c].pc.Added?
    ensures c in ClientsOf(Exec(acts).hub, Exec(acts).conns[c].user)
  {
    HubAlways(acts);
    assert InHub(Exec(acts), c, Exec(acts).conns[c].user);
  }

  // ---- How long a limiter lasts ----

  /** The user had a registered client at every moment from upto on. */
  ghost predicate StaysRegistered(acts: seq<Action>, upto: nat, u: UserId)
    requires upto <= |acts|
    decreases |acts|
  {
    u in Exec(acts).hub.clients && (upto < |acts| ==> StaysRegistered(acts[..|acts| - 1], upto, u))
  }

  ghost predicate Holds(s: State, u: UserId, l: LimiterId) {
    u in s.hub.limiters && s.hub.limiters[u] == l
  }

  /** Limiters go only with the last client, and never come back. */
  lemma LimiterAfter(s: State, a: Action, u: UserId, l: LimiterId)
    requires ClientsExact(s) && LimitersShared(s) && l < s.nextLimiter
    ensures Holds(Step(s, a), u, l) <==> Holds(s, u, l) && u in Step(s, a).hub.clients
    ensures s.nextLimiter <= Step(s, a).nextLimiter
  {
    ClientsStep(s, a);
    LimitersStep(s, a);
  }

  /**
   * A user's limiter is still the one of an earlier moment if and only if the user has had a registered client ever
   * since: losing the last connection for however short a time starts a new bucket.
   */
  lemma {:induction false} LimiterKeptIff(acts: seq<Action>, upto: nat, u: UserId, l: LimiterId)
    requires upto <= |acts| && Holds(Exec(acts[..upto]), u, l)
    ensures Holds(Exec(acts), u, l) <==> StaysRegistered(acts, upto, u)
    ensures l < Exec(acts).nextLimiter
    decreases |acts|
  {
    HubAlways(acts[..upto]);
    if upto == |acts| {
      assert acts[..upto] == acts;
    } else {
      var n := |acts| - 1;
      assert acts[..n][..upto] == acts[..upto];
      LimiterKeptIff(acts[..n], upto, u, l);
      HubAlways(acts[..n]);
      hide Step;
      LimiterAfter(Exec(acts[..n]), acts[n], u, l);
    }
  }
}

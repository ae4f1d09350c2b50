/**
 * The command protocol of presence with real time and crashes: counter keys carry deadlines, and any connection may
 * die between any two of its commands. A connection that has died stays at the command it never sent, so every run
 * here is also a run of the untimed protocol.
 */
module PresenceCrashes {
  import opened Common
  import opened PresenceTypes
  import P = PresenceProtocol

  /** deadlines are those of the counter keys that have one; an expired key is dropped by the next command on it. */
  datatype Timed = Timed(p: P.State, deadlines: map<UserId, int>, now: int, dead: set<ConnId>)

  datatype Action =
    | Open(c: ConnId, user: UserId, name: string)
    | Command(c: ConnId)
    | Hangup(c: ConnId)
    | KeepAlive(c: ConnId) // EXPIRE on a ping; the writer may send it while the reader runs Disconnect
    | Crash(c: ConnId)     // its instance dies, whatever its next command
    | Wait(until: int)

  function Init(): Timed {
    Timed(P.Init(), map[], 0, {})
  }

  predicate Runs(s: Timed, c: ConnId) {
    c in s.p.conns && c !in s.dead
  }

  predicate Expired(s: Timed, u: UserId) {
    u in s.deadlines && s.deadlines[u] <= s.now
  }

  predicate KeyThere(s: Timed, u: UserId) {
    u in s.p.counters && !Expired(s, u)
  }

  /** What every reader of the counter sees. */
  function Read(s: Timed, u: UserId): int {
    if KeyThere(s, u) then s.p.counters[u] else 0
  }

  /** The notifier's reader. */
  predicate IsOnline(s: Timed, u: UserId) {
    Read(s, u) > 0
  }

  function Lapsed(s: Timed, u: UserId): Timed {
    if Expired(s, u) then s.(p := P.Step(s.p, P.Expiry(u)), deadlines := s.deadlines - {u}) else s
  }

  /** EXPIRE. */
  function Redated(s: Timed, u: UserId): map<UserId, int> {
    if u in s.p.counters then s.deadlines[u := s.now + CONNS_TTL] else s.deadlines
  }

  function RunCommand(s: Timed, c: ConnId): Timed
    requires c in s.p.conns
  {
    var u := s.p.conns[c].user;
    s.(p := P.Step(s.p, P.Command(c)),
       deadlines := match s.p.conns[c].pc
                    case SetTtl(_) => Redated(s, u)
                    case Clear => s.deadlines - {u}
                    case _ => s.deadlines)
  }

  /** Connect has returned, so the writer has started. */
  predicate Writing(pc: P.Pc) {
    pc.Live? || pc.Clear? || pc.Unlist? || pc.SayOffline? || pc.Gone?
  }

  function Step(s: Timed, a: Action): Timed {
    match a
    case Open(c, u, name) => s.(p := P.Step(s.p, P.Open(c, u, name)))
    case Command(c) => if Runs(s, c) then RunCommand(Lapsed(s, s.p.conns[c].user), c) else s
    case Hangup(c) =>
      if !Runs(s, c) || !s.p.conns[c].pc.Live? then s else
      var l := Lapsed(s, s.p.conns[c].user);
      l.(p := P.Step(l.p, P.Hangup(c)))
    case KeepAlive(c) =>
      if !Runs(s, c) || !Writing(s.p.conns[c].pc) then s else
      var u := s.p.conns[c].user;
      var l := Lapsed(s, u);
      l.(deadlines := Redated(l, u))
    case Crash(c) => if Runs(s, c) then s.(dead := s.dead + {c}) else s
    case Wait(until) => if until > s.now then s.(now := until) else s
  }

  function Exec(acts: seq<Action>): Timed {
    if acts == [] then Init() else Step(Exec(acts[..|acts| - 1]), acts[|acts| - 1])
  }

  // ---- Every run is a run of the protocol ----

  /** The commands of the protocol that a step amounts to. */
  function Moves(s: Timed, a: Action): seq<P.Action> {
    match a
    case Open(c, u, name) => [P.Open(c, u, name)]
    case Command(c) => if Runs(s, c) then Lapse(s, s.p.conns[c].user) + [P.Command(c)] else []
    case Hangup(c) => if Runs(s, c) && s.p.conns[c].pc.Live? then Lapse(s, s.p.conns[c].user) + [P.Hangup(c)] else []
    case KeepAlive(c) => if Runs(s, c) && Writing(s.p.conns[c].pc) then Lapse(s, s.p.conns[c].user) else []
    case Crash(_) => []
    case Wait(_) => []
  }

  function Lapse(s: Timed, u: UserId): seq<P.Action> {
    if Expired(s, u) then [P.Expiry(u)] else []
  }

  function Untimed(acts: seq<Action>): seq<P.Action> {
    if acts == [] then [] else
      var n := |acts| - 1;
      Untimed(acts[..n]) + Moves(Exec(acts[..n]), acts[n])
  }

  function Apply(p: P.State, moves: seq<P.Action>): P.State
    decreases |moves|
  {
    if moves == [] then p else Apply(P.Step(p, moves[0]), moves[1..])
  }

  lemma StepApplies(s: Timed, a: Action)
    ensures Step(s, a).p == Apply(s.p, Moves(s, a)) && |Moves(s, a)| <= 2
  {
    hide P.Step;
    ApplyShort(s.p, Moves(s, a));
    hide Apply;
  }

  lemma ApplyShort(p: P.State, moves: seq<P.Action>)
    ensures |moves| == 0 ==> Apply(p, moves) == p
    ensures |moves| == 1 ==> Apply(p, moves) == P.Step(p, moves[0])
    ensures |moves| == 2 ==> Apply(p, moves) == P.Step(P.Step(p, moves[0]), moves[1])
  {
    hide P.Step;
    if |moves| == 2 {
      var rest := moves[1..];
      assert rest[0] == moves[1] && rest[1..] == [];
      assert Apply(p, moves) == Apply(P.Step(p, moves[0]), rest) == Apply(P.Step(P.Step(p, moves[0]), rest[0]), []);
    }
  }

  lemma {:induction false} MovesAdd(before: seq<P.Action>, moves: seq<P.Action>)
    ensures P.Exec(before + moves) == Apply(P.Exec(before), moves)
    decreases |moves|
  {
    hide P.Step;
    if moves == [] {
      assert before + moves == before;
    } else {
      var one := before + [moves[0]];
      assert one[..|one| - 1] == before && before + moves == one + moves[1..];
      MovesAdd(one, moves[1..]);
    }
  }

  /** Crashes and deadlines only restrict what the untimed protocol can do. */
  lemma {:induction false} RunsAreProtocolRuns(acts: seq<Action>)
    ensures P.Exec(Untimed(acts)) == Exec(acts).p
  {
    if acts != [] {
      var n := |acts| - 1;
      RunsAreProtocolRuns(acts[..n]);
      hide Step, P.Step, P.Exec, Moves, Apply;
      MovesAdd(Untimed(acts[..n]), Moves(Exec(acts[..n]), acts[n]));
      StepApplies(Exec(acts[..n]), acts[n]);
    }
  }

  lemma SafeAlways(acts: seq<Action>, u: UserId)
    ensures P.Safe(Exec(acts).p, u)
  {
    RunsAreProtocolRuns(acts);
    P.SafeAlways(Untimed(acts), u);
  }

  // ---- Keys without a deadline ----

  predicate Undated(s: Timed, u: UserId) {
    u in s.p.counters && u !in s.deadlines
  }

  /** Between a connection's INCR and its EXPIRE, or between its DECR and its DEL. */
  predicate Between(s: Timed, c: ConnId, u: UserId) {
    c in s.p.conns && s.p.conns[c].user == u && (s.p.conns[c].pc.SetTtl? || s.p.conns[c].pc.Clear?)
  }

  ghost predicate SomeBetween(s: Timed, u: UserId) {
    exists c :: Runs(s, c) && Between(s, c, u)
  }

  /** A connection dies there, leaving the key without a deadline. */
  predicate OrphansKey(s: Timed, a: Action, u: UserId) {
    a.Crash? && Runs(s, a.c) && Between(s, a.c, u) && Undated(s, u)
  }

  /** An EXPIRE of u's key. */
  predicate SendsExpire(s: Timed, a: Action, u: UserId) {
    && (a.Command? || a.KeepAlive?) && Runs(s, a.c) && s.p.conns[a.c].user == u
    && if a.Command? then s.p.conns[a.c].pc.SetTtl? else Writing(s.p.conns[a.c].pc)
  }

  predicate SendsDel(s: Timed, a: Action, u: UserId) {
    a.Command? && Runs(s, a.c) && s.p.conns[a.c].user == u && s.p.conns[a.c].pc.Clear?
  }

  /** A connection died leaving u's key without a deadline, and no EXPIRE or DEL of the key has run since. */
  ghost predicate Orphaned(acts: seq<Action>, u: UserId) {
    acts != [] &&
    (var n := |acts| - 1;
     var s := Exec(acts[..n]);
     OrphansKey(s, acts[n], u) || (Orphaned(acts[..n], u) && !SendsExpire(s, acts[n], u) && !SendsDel(s, acts[n], u)))
  }

  /** An INCR or DECR of u that finds no key and so makes one. */
  predicate MakesKey(s: Timed, a: Action, u: UserId) {
    && (a.Command? || a.Hangup?) && Runs(s, a.c) && s.p.conns[a.c].user == u && !KeyThere(s, u)
    && if a.Command? then s.p.conns[a.c].pc.Opened? else s.p.conns[a.c].pc.Live?
  }

  function NextExpire(s: Timed, a: Action, u: UserId, last: Option<int>): Option<int> {
    if SendsExpire(s, a, u) && KeyThere(s, u) then Some(s.now)
    else if SendsDel(s, a, u) || MakesKey(s, a, u) then None
    else last
  }

  /** When the last EXPIRE that found u's key ran, unless a DEL or the making of a new key came after it. */
  function LastExpire(acts: seq<Action>, u: UserId): Option<int> {
    if acts == [] then None else
      var n := |acts| - 1;
      NextExpire(Exec(acts[..n]), acts[n], u, LastExpire(acts[..n], u))
  }

  /** The key was given its ttl less than a ttl ago. */
  predicate Fresh(s: Timed, last: Option<int>) {
    last.Some? && s.now < last.value + CONNS_TTL
  }

  ghost predicate Dated(s: Timed, u: UserId, last: Option<int>) {
    && (u in s.deadlines ==> u in s.p.counters && last.Some? && s.deadlines[u] == last.value + CONNS_TTL)
    && (Fresh(s, last) ==> u in s.deadlines)
    && (last.Some? ==> last.value <= s.now)
  }

  lemma DatedStep(s: Timed, a: Action, u: UserId, last: Option<int>)
    requires Dated(s, u, last)
    ensures Dated(Step(s, a), u, NextExpire(s, a, u, last))
  {
  }

  lemma {:induction false} DatedAlways(acts: seq<Action>, u: UserId)
    ensures Dated(Exec(acts), u, LastExpire(acts, u))
  {
    if acts != [] {
      DatedAlways(acts[..|acts| - 1], u);
      hide Step, Dated, NextExpire;
      DatedStep(Exec(acts[..|acts| - 1]), acts[|acts| - 1], u, LastExpire(acts[..|acts| - 1], u));
    }
  }

  /** Only an INCR or DECR makes an undated key; only an EXPIRE or DEL ends one. */
  lemma UndatedAfter(s: Timed, a: Action, u: UserId)
    ensures Undated(s, u) ==> (Undated(Step(s, a), u) <==> !SendsExpire(s, a, u) && !SendsDel(s, a, u))
    ensures !Undated(s, u) && Undated(Step(s, a), u) ==>
              (a.Command? || a.Hangup?) && Runs(Step(s, a), a.c) && Between(Step(s, a), a.c, u)
  {
  }

  lemma SomeBetweenAfter(s: Timed, a: Action, u: UserId)
    requires SomeBetween(s, u) && !SendsExpire(s, a, u) && !SendsDel(s, a, u)
    ensures SomeBetween(Step(s, a), u) || (a.Crash? && Runs(s, a.c) && Between(s, a.c, u))
  {
    var c :| Runs(s, c) && Between(s, c, u);
    if a != Crash(c) {
      assert Silent(s, a, c);
      SilentStays(s, a, c);
      DeadAfter(s, a);
      hide Step;
      assert Runs(Step(s, a), c) && Between(Step(s, a), c, u);
    }
  }

  /** The step sends no command of the protocol for c. */
  predicate Silent(s: Timed, a: Action, c: ConnId) {
    forall i :: 0 <= i < |Moves(s, a)| ==>
      var m := Moves(s, a)[i];
      m.Expiry? || m.KeepAlive? || m.Open? || m.c != c
  }

  lemma SilentStays(s: Timed, a: Action, c: ConnId)
    requires c in s.p.conns && Silent(s, a, c)
    ensures c in Step(s, a).p.conns && Step(s, a).p.conns[c] == s.p.conns[c]
  {
    StepApplies(s, a);
    var moves := Moves(s, a);
    ApplyShort(s.p, moves);
    hide Step, P.Step, Apply, Moves;
    if moves != [] {
      OthersStay(s.p, moves[0], c);
      if |moves| == 2 {
        OthersStay(P.Step(s.p, moves[0]), moves[1], c);
      }
    }
  }

  lemma OrphanedStep(s: Timed, a: Action, u: UserId, orphaned: bool)
    requires (orphaned ==> Undated(s, u)) && (Undated(s, u) ==> SomeBetween(s, u) || orphaned)
    ensures var orphaned' := OrphansKey(s, a, u) || (orphaned && !SendsExpire(s, a, u) && !SendsDel(s, a, u));
            var s' := Step(s, a);
            (orphaned' ==> Undated(s', u)) && (Undated(s', u) ==> SomeBetween(s', u) || orphaned')
  {
    UndatedAfter(s, a, u);
    if Undated(s, u) && SomeBetween(s, u) && !SendsExpire(s, a, u) && !SendsDel(s, a, u) {
      SomeBetweenAfter(s, a, u);
    }
    hide Step, Undated, Between, Runs;
  }

  lemma {:induction false} OrphanedAlways(acts: seq<Action>, u: UserId)
    ensures Orphaned(acts, u) ==> Undated(Exec(acts), u)
    ensures Undated(Exec(acts), u) ==> SomeBetween(Exec(acts), u) || Orphaned(acts, u)
  {
    if acts != [] {
      OrphanedAlways(acts[..|acts| - 1], u);
      hide Step;
      OrphanedStep(Exec(acts[..|acts| - 1]), acts[|acts| - 1], u, Orphaned(acts[..|acts| - 1], u));
    }
  }

  /**
   * With no running connection between its INCR and EXPIRE or before its DEL, u's key has no deadline if and only if a
   * connection died there leaving it without one, and no EXPIRE or DEL of the key has run since.
   */
  lemma UndatedIff(acts: seq<Action>, u: UserId)
    requires !SomeBetween(Exec(acts), u)
    ensures Undated(Exec(acts), u) <==> Orphaned(acts, u)
  {
    OrphanedAlways(acts, u);
  }

  /**
   * Crashes at any command included, with no running connection in between: u's key is there if and only if it was
   * orphaned so or its last EXPIRE is less than a ttl ago.
   */
  lemma KeyThereIff(acts: seq<Action>, u: UserId)
    requires !SomeBetween(Exec(acts), u)
    ensures KeyThere(Exec(acts), u) <==> Orphaned(acts, u) || Fresh(Exec(acts), LastExpire(acts, u))
  {
    UndatedIff(acts, u);
    DatedAlways(acts, u);
  }

  /** So one ttl after the last EXPIRE the key is there if and only if it was orphaned; otherwise u reads as offline. */
  lemma KeyOutlivesTtlIff(acts: seq<Action>, u: UserId)
    requires var s := Exec(acts);
             !SomeBetween(s, u) && (LastExpire(acts, u).Some? ==> s.now >= LastExpire(acts, u).value + CONNS_TTL)
    ensures KeyThere(Exec(acts), u) <==> Orphaned(acts, u)
    ensures !Orphaned(acts, u) ==> !IsOnline(Exec(acts), u)
  {
    KeyThereIff(acts, u);
  }

  // ---- The listing ----

  /** Died between its INCR and the HSET it owed, or between its DECR and the HDEL it owed. */
  predicate OwesListing(conn: P.Conn, u: UserId) {
    P.ToBeListed(conn, u) || (conn.user == u && (conn.pc.Clear? || conn.pc.Unlist?))
  }

  ghost predicate DeadOwing(s: Timed, u: UserId) {
    exists c :: c in s.dead && c in s.p.conns && OwesListing(s.p.conns[c], u)
  }

  predicate DiesOwing(s: Timed, a: Action, u: UserId) {
    a.Crash? && Runs(s, a.c) && OwesListing(s.p.conns[a.c], u)
  }

  predicate SendsHset(s: Timed, a: Action, u: UserId) {
    a.Command? && Runs(s, a.c) && P.SendsHset(s.p, P.Command(a.c), u)
  }

  predicate SendsHdel(s: Timed, a: Action, u: UserId) {
    a.Command? && Runs(s, a.c) && P.SendsHdel(s.p, P.Command(a.c), u)
  }

  /** An HDEL that found a connection past its own HSET, or a dead one owing a list command. */
  ghost predicate BadHdel(s: Timed, a: Action, u: UserId) {
    SendsHdel(s, a, u) && (P.SomePastHset(s.p, u) || DeadOwing(s, u))
  }

  /**
   * Some HSET of u ran after the last such HDEL, and after the last death of a connection that owed a list command
   * while u was not listed.
   */
  ghost predicate Relisted(acts: seq<Action>, u: UserId) {
    acts != [] &&
    (var n := |acts| - 1;
     var s := Exec(acts[..n]);
     SendsHset(s, acts[n], u)
     || (Relisted(acts[..n], u) && !BadHdel(s, acts[n], u) && !(DiesOwing(s, acts[n], u) && u !in s.p.names)))
  }

  ghost predicate ListingFollows(s: Timed, u: UserId, relisted: bool) {
    && (u in s.p.names ==> relisted)
    && (relisted && DeadOwing(s, u) ==> u in s.p.names)
    && (!DeadOwing(s, u) ==> P.ListingFollows(s.p, u, relisted))
  }

  lemma NamesAfter(s: Timed, a: Action, u: UserId)
    ensures u in Step(s, a).p.names <==> SendsHset(s, a, u) || (u in s.p.names && !SendsHdel(s, a, u))
  {
    StepApplies(s, a);
    var moves := Moves(s, a);
    ApplyShort(s.p, moves);
    if moves != [] {
      P.NamesAfter(s.p, moves[0], u);
      P.NamesAfter(P.Step(s.p, moves[0]), moves[1 % |moves|], u);
      LapseKeepsConns(s.p, moves[0]);
    }
    hide Step, P.Step, Apply;
  }

  lemma LapseKeepsConns(p: P.State, a: P.Action)
    ensures a.Expiry? ==> P.Step(p, a).conns == p.conns
  {
  }

  /** The dead send nothing. */
  lemma DeadStay(s: Timed, a: Action, c: ConnId)
    requires c in s.p.conns && (c in s.dead || a == Crash(c))
    ensures c in Step(s, a).p.conns && Step(s, a).p.conns[c] == s.p.conns[c]
  {
    assert Silent(s, a, c);
    SilentStays(s, a, c);
  }

  lemma OthersStay(p: P.State, a: P.Action, c: ConnId)
    requires c in p.conns && (a.Expiry? || a.KeepAlive? || a.Open? || a.c != c)
    ensures c in P.Step(p, a).conns && P.Step(p, a).conns[c] == p.conns[c]
  {
  }

  lemma DeadAfter(s: Timed, a: Action)
    ensures Step(s, a).dead == if a.Crash? && Runs(s, a.c) then s.dead + {a.c} else s.dead
    ensures forall c :: c in Step(s, a).p.conns && c !in s.p.conns ==> Step(s, a).p.conns[c].pc == P.Opened
  {
    StepApplies(s, a);
    var moves := Moves(s, a);
    ApplyShort(s.p, moves);
    if moves != [] {
      NewAreOpened(s.p, moves[0]);
      NewAreOpened(P.Step(s.p, moves[0]), moves[1 % |moves|]);
      LapseKeepsConns(s.p, moves[0]);
    }
    hide P.Step, Apply;
  }

  lemma NewAreOpened(p: P.State, a: P.Action)
    ensures forall c :: c in P.Step(p, a).conns && c !in p.conns ==> P.Step(p, a).conns[c].pc == P.Opened
  {
  }

  lemma DeadOwingAfter(s: Timed, a: Action, u: UserId)
    ensures DeadOwing(Step(s, a), u) <==> DeadOwing(s, u) || DiesOwing(s, a, u)
  {
    var s' := Step(s, a);
    DeadAfter(s, a);
    forall c | c in s.p.conns && (c in s.dead || a == Crash(c))
      ensures c in s'.p.conns && s'.p.conns[c] == s.p.conns[c]
    {
      DeadStay(s, a, c);
    }
    hide Step;
    if c :| c in s.dead && c in s.p.conns && OwesListing(s.p.conns[c], u) {
      assert c in s'.dead && OwesListing(s'.p.conns[c], u);
    }
    if DiesOwing(s, a, u) {
      assert a.c in s'.dead && OwesListing(s'.p.conns[a.c], u);
    }
  }

  /** While no dead connection owes anything, the protocol's own step lemma applies. */
  lemma LiveListingStep(s: Timed, a: Action, u: UserId, relisted: bool)
    requires P.Safe(s.p, u) && P.ListingFollows(s.p, u, relisted)
    ensures P.ListingFollows(Step(s, a).p, u,
              SendsHset(s, a, u) || (relisted && !(SendsHdel(s, a, u) && P.SomePastHset(s.p, u))))
  {
    StepApplies(s, a);
    var moves := Moves(s, a);
    ApplyShort(s.p, moves);
    hide Apply;
    if moves != [] {
      FirstMove(s, a, u, relisted);
      if |moves| == 2 {
        P.SafeStep(s.p, moves[0], u);
        var l := Lapsed(s, s.p.conns[a.c].user);
        assert l.p == P.Step(s.p, moves[0]) && l.p.conns == s.p.conns;
        P.ListingStep(l.p, moves[1], u, relisted);
      }
    }
  }

  lemma FirstMove(s: Timed, a: Action, u: UserId, relisted: bool)
    requires P.Safe(s.p, u) && P.ListingFollows(s.p, u, relisted) && Moves(s, a) != []
    ensures P.ListingFollows(P.Step(s.p, Moves(s, a)[0]), u,
              P.SendsHset(s.p, Moves(s, a)[0], u)
              || (relisted && !(P.SendsHdel(s.p, Moves(s, a)[0], u) && P.SomePastHset(s.p, u))))
  {
    P.ListingStep(s.p, Moves(s, a)[0], u, relisted);
  }

  lemma ListingStep(s: Timed, a: Action, u: UserId, relisted: bool)
    requires P.Safe(s.p, u) && ListingFollows(s, u, relisted)
    ensures ListingFollows(Step(s, a), u,
              SendsHset(s, a, u)
              || (relisted && !BadHdel(s, a, u) && !(DiesOwing(s, a, u) && u !in s.p.names)))
  {
    NamesAfter(s, a, u);
    DeadOwingAfter(s, a, u);
    if !DeadOwing(s, u) && !DiesOwing(s, a, u) {
      LiveListingStep(s, a, u, relisted);
    }
    assert DiesOwing(s, a, u) ==> !SendsHset(s, a, u) && !SendsHdel(s, a, u);
    hide Step, P.ListingFollows, P.SomePastHset, DeadOwing, DiesOwing, SendsHset, SendsHdel;
  }

  lemma {:induction false} ListingAlways(acts: seq<Action>, u: UserId)
    ensures ListingFollows(Exec(acts), u, Relisted(acts, u))
  {
    if acts != [] {
      var n := |acts| - 1;
      ListingAlways(acts[..n], u);
      SafeAlways(acts[..n], u);
      hide Step, ListingFollows, SendsHset, BadHdel, DiesOwing;
      ListingStep(Exec(acts[..n]), acts[n], u, Relisted(acts[..n], u));
    } else {
      NothingListed(u);
    }
  }

  lemma NothingListed(u: UserId)
    ensures ListingFollows(Exec([]), u, false)
  {
  }

  /** Every running connection of u is either connected or gone. */
  ghost predicate LiveAtRest(s: Timed, u: UserId) {
    forall c :: Runs(s, c) && s.p.conns[c].user == u ==> s.p.conns[c].pc.Live? || s.p.conns[c].pc.Gone?
  }

  /** Some connection of u, running or dead, has sent its INCR and not its HDEL. */
  ghost predicate SomeCounted(s: Timed, u: UserId) {
    exists c :: c in s.p.conns && (P.Holding(s.p.conns[c], u) || OwesListing(s.p.conns[c], u))
  }

  /**
   * Crashes at any command included, with no command of a running connection of u pending: u is listed if and only if
   * some connection, running or dead, has sent its INCR and not its HDEL, and the listing was last put right since the
   * last HDEL or death that spoiled it.
   */
  lemma ListedIff(acts: seq<Action>, u: UserId)
    requires LiveAtRest(Exec(acts), u)
    ensures u in Exec(acts).p.names <==> SomeCounted(Exec(acts), u) && Relisted(acts, u)
  {
    ListingAlways(acts, u);
    SafeAlways(acts, u);
    hide Exec, Relisted;
    var s := Exec(acts);
    if u in s.p.names {
      if P.Holders(s.p, u) != {} {
        var c :| c in P.Holders(s.p, u);
        assert P.Holding(s.p.conns[c], u);
      }
    } else if SomeCounted(s, u) && !DeadOwing(s, u) {
      CountedIsPast(s, u);
    }
  }

  /** With nothing owed by the dead and nothing pending of the living, whoever is counted in is past its HSET. */
  lemma CountedIsPast(s: Timed, u: UserId)
    requires LiveAtRest(s, u) && SomeCounted(s, u) && !DeadOwing(s, u)
    ensures P.SomePastHset(s.p, u) && !P.ListPending(s.p, u) && !P.UnlistPending(s.p, u)
  {
    forall c | c in s.p.conns ensures !OwesListing(s.p.conns[c], u) {
      assert c !in s.dead ==> Runs(s, c);
    }
    var c :| c in s.p.conns && (P.Holding(s.p.conns[c], u) || OwesListing(s.p.conns[c], u));
    assert P.PastHset(s.p.conns[c], u);
  }

  /**
   * Crashes at any command included, with no command of a running connection of u pending: the two readers agree on u
   * if and only if u is listed, by ListedIff, exactly when its counter is positive and its key was orphaned or given
   * its ttl less than a ttl ago.
   */
  lemma ReadersAgreeIff(acts: seq<Action>, u: UserId)
    requires LiveAtRest(Exec(acts), u)
    ensures var s := Exec(acts);
            (u in s.p.names <==> IsOnline(s, u))
            <==> (SomeCounted(s, u) && Relisted(acts, u)
                  <==> (Orphaned(acts, u) || Fresh(s, LastExpire(acts, u))) && P.Counter(s.p, u) > 0)
  {
    ListedIff(acts, u);
    KeyThereIff(acts, u);
  }

  // ---- Crashes that readers see ----

  lemma Then(acts: seq<Action>, a: Action, s: Timed) returns (more: seq<Action>)
    requires Step(Exec(acts), a) == s
    ensures more == acts + [a] && Exec(more) == s
  {
    more := acts + [a];
    assert more[..|acts|] == acts;
  }

  /** One connection of user 7. */
  function One(counters: map<UserId, int>, deadlines: map<UserId, int>, listed: bool, pc: P.Pc,
               events: seq<Event>): Timed {
    Timed(P.State(counters, if listed then map[7 := "ann"] else map[], map[1 := P.Conn(7, "ann", pc)], events),
          deadlines, 0, {})
  }

  lemma Counted() returns (acts: seq<Action>)
    ensures Exec(acts) == One(map[7 := 1], map[], false, P.SetTtl(1), [])
  {
    hide Exec;
    acts := [];
    assert Exec(acts) == Init() by {
      NothingDone();
    }
    acts := Then(acts, Open(1, 7, "ann"), One(map[], map[], false, P.Opened, []));
    acts := Then(acts, Command(1), One(map[7 := 1], map[], false, P.SetTtl(1), []));
  }

  lemma NothingDone()
    ensures Exec([]) == Init()
  {
  }

  /** A crash between INCR and EXPIRE: the user reads as online for ever. */
  lemma CrashPinsOnline(until: int) returns (acts: seq<Action>)
    requires until >= 0
    ensures var s := Exec(acts);
            s.now == until && 1 in s.dead && s.p.conns.Keys == {1} && IsOnline(s, 7) && 7 !in s.p.names &&
            Orphaned(acts, 7)
  {
    acts := Counted();
    var s := One(map[7 := 1], map[], false, P.SetTtl(1), []);
    var before := acts;
    acts := Then(acts, Crash(1), s.(dead := {1}));
    assert acts[..|before|] == before;
    assert Orphaned(acts, 7);
    var crashed := acts;
    acts := Then(acts, Wait(until), s.(dead := {1}, now := until));
    assert acts[..|crashed|] == crashed;
  }

  /** A crash between EXPIRE and HSET: counted until the ttl runs out, never listed. */
  lemma CrashHidesListing() returns (acts: seq<Action>)
    ensures var s := Exec(acts); LiveAtRest(s, 7) && KeyThere(s, 7) && IsOnline(s, 7) && 7 !in s.p.names
  {
    acts := Counted();
    hide Exec;
    var s := One(map[7 := 1], map[7 := CONNS_TTL], false, P.List, []);
    acts := Then(acts, Command(1), s);
    acts := Then(acts, Crash(1), s.(dead := {1}));
  }

  /** A crash between DEL and HDEL: the key is gone and the name stays. */
  lemma CrashKeepsListing() returns (acts: seq<Action>)
    ensures var s := Exec(acts); LiveAtRest(s, 7) && 7 !in s.p.counters && !IsOnline(s, 7) && 7 in s.p.names
  {
    acts := Counted();
    hide Exec;
    var dated, on := map[7 := CONNS_TTL], [Event(7, Online)];
    acts := Then(acts, Command(1), One(map[7 := 1], dated, false, P.List, []));
    acts := Then(acts, Command(1), One(map[7 := 1], dated, true, P.SayOnline, []));
    acts := Then(acts, Command(1), One(map[7 := 1], dated, true, P.Live, on));
    acts := Then(acts, Hangup(1), One(map[7 := 0], dated, true, P.Clear, on));
    var s := One(map[], map[], true, P.Unlist, on);
    acts := Then(acts, Command(1), s);
    acts := Then(acts, Crash(1), s.(dead := {1}));
  }

  /** Connection 1 of user 7 dead before its HSET, and connection 2. */
  function Two(counter: int, deadline: int, pc: P.Pc, now: int): Timed {
    Timed(P.State(map[7 := counter], map[], map[1 := P.Conn(7, "ann", P.List), 2 := P.Conn(7, "ann", pc)], []),
          map[7 := deadline], now, {1})
  }

  /** After a crash between EXPIRE and HSET, a later connection that keeps pinging stays counted and unlisted. */
  lemma CrashHidesLaterConnection(t: int) returns (acts: seq<Action>)
    requires 0 < t < CONNS_TTL
    ensures var s := Exec(acts);
            && LiveAtRest(s, 7) && Runs(s, 2) && s.p.conns[2] == P.Conn(7, "ann", P.Live)
            && IsOnline(s, 7) && 7 !in s.p.names && s.now == t && s.deadlines == map[7 := t + CONNS_TTL]
  {
    acts := Counted();
    hide Exec;
    var s := One(map[7 := 1], map[7 := CONNS_TTL], false, P.List, []);
    acts := Then(acts, Command(1), s);
    acts := Then(acts, Crash(1), s.(dead := {1}));
    acts := Then(acts, Open(2, 7, "ann"), Two(1, CONNS_TTL, P.Opened, 0));
    acts := Then(acts, Command(2), Two(2, CONNS_TTL, P.SetTtl(2), 0));
    acts := Then(acts, Command(2), Two(2, CONNS_TTL, P.Live, 0));
    acts := Then(acts, Wait(t), Two(2, CONNS_TTL, P.Live, t));
    acts := Then(acts, KeepAlive(2), Two(2, t + CONNS_TTL, P.Live, t));
  }
}

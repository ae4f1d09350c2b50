/** When the published presence events tell the truth although connections may die at any command. */
module CrashEvents {
  import opened Common
  import opened PresenceTypes
  import opened PresenceCrashes
  import P = PresenceProtocol
  import E = PresenceEvents

  /** A PUBLISH is still to come from this connection, if it lives. */
  predicate OwesPublish(conn: P.Conn, u: UserId) {
    E.ToSayOnline(conn, u) || E.ToSayOffline(conn, u)
  }

  ghost predicate DeadSilent(s: Timed, u: UserId) {
    exists c :: c in s.dead && c in s.p.conns && OwesPublish(s.p.conns[c], u)
  }

  predicate DiesSilent(s: Timed, a: Action, u: UserId) {
    a.Crash? && Runs(s, a.c) && OwesPublish(s.p.conns[a.c], u)
  }

  predicate SaysOnline(s: Timed, a: Action, u: UserId) {
    a.Command? && Runs(s, a.c) && E.SaysOnline(s.p, P.Command(a.c), u)
  }

  predicate SaysOffline(s: Timed, a: Action, u: UserId) {
    a.Command? && Runs(s, a.c) && E.SaysOffline(s.p, P.Command(a.c), u)
  }

  /** An offline PUBLISH that found a connection past its own online one, or a dead one owing a PUBLISH. */
  ghost predicate BadOffline(s: Timed, a: Action, u: UserId) {
    SaysOffline(s, a, u) && (E.SomePastPublish(s.p, u) || DeadSilent(s, u))
  }

  /**
   * Some online PUBLISH of u ran after the last such offline one, and after the last death of a connection that owed a
   * PUBLISH while the last event was not online.
   */
  ghost predicate Retold(acts: seq<Action>, u: UserId) {
    acts != [] &&
    (var n := |acts| - 1;
     var s := Exec(acts[..n]);
     SaysOnline(s, acts[n], u)
     || (Retold(acts[..n], u) && !BadOffline(s, acts[n], u) && !(DiesSilent(s, acts[n], u) && !E.ToldOnline(s.p, u))))
  }

  ghost predicate EventsFollow(s: Timed, u: UserId, retold: bool) {
    && (E.ToldOnline(s.p, u) ==> retold)
    && (retold && DeadSilent(s, u) ==> E.ToldOnline(s.p, u))
    && (!DeadSilent(s, u) ==> E.EventsFollow(s.p, u, retold))
  }

  lemma ToldAfter(s: Timed, a: Action, u: UserId)
    ensures E.ToldOnline(Step(s, a).p, u) <==> SaysOnline(s, a, u) || (E.ToldOnline(s.p, u) && !SaysOffline(s, a, u))
  {
    StepApplies(s, a);
    var moves := Moves(s, a);
    ApplyShort(s.p, moves);
    if moves != [] {
      E.ToldAfter(s.p, moves[0], u);
      E.ToldAfter(P.Step(s.p, moves[0]), moves[1 % |moves|], u);
      LapseKeepsConns(s.p, moves[0]);
    }
    hide Step, P.Step, Apply, E.ToldOnline;
  }

  lemma DeadSilentAfter(s: Timed, a: Action, u: UserId)
    ensures DeadSilent(Step(s, a), u) <==> DeadSilent(s, u) || DiesSilent(s, a, u)
  {
    var s' := Step(s, a);
    DeadAfter(s, a);
    forall c | c in s.p.conns && (c in s.dead || a == Crash(c))
      ensures c in s'.p.conns && s'.p.conns[c] == s.p.conns[c]
    {
      DeadStay(s, a, c);
    }
    NoneSilentYet(s, a, u);
    hide Step;
    if c :| c in s.dead && c in s.p.conns && OwesPublish(s.p.conns[c], u) {
      assert c in s'.dead && OwesPublish(s'.p.conns[c], u);
    }
    if DiesSilent(s, a, u) {
      assert a.c in s'.dead && OwesPublish(s'.p.conns[a.c], u);
    }
  }

  /** A connection just opened owes nothing. */
  lemma NoneSilentYet(s: Timed, a: Action, u: UserId)
    ensures forall c :: c in Step(s, a).p.conns && c !in s.p.conns ==> !OwesPublish(Step(s, a).p.conns[c], u)
  {
    DeadAfter(s, a);
    hide Step;
  }

  /** While no dead connection owes anything, the protocol's own step lemma applies. */
  lemma LiveEventsStep(s: Timed, a: Action, u: UserId, retold: bool)
    requires P.Safe(s.p, u) && E.EventsFollow(s.p, u, retold)
    ensures E.EventsFollow(Step(s, a).p, u,
              SaysOnline(s, a, u) || (retold && !(SaysOffline(s, a, u) && E.SomePastPublish(s.p, u))))
  {
    StepApplies(s, a);
    var moves := Moves(s, a);
    ApplyShort(s.p, moves);
    hide Apply;
    if moves != [] {
      E.EventsStep(s.p, moves[0], u, retold);
      if |moves| == 2 {
        P.SafeStep(s.p, moves[0], u);
        var l := Lapsed(s, s.p.conns[a.c].user);
        assert l.p == P.Step(s.p, moves[0]) && l.p.conns == s.p.conns;
        E.EventsStep(l.p, moves[1], u, retold);
      }
    }
  }

  lemma EventsStep(s: Timed, a: Action, u: UserId, retold: bool)
    requires P.Safe(s.p, u) && EventsFollow(s, u, retold)
    ensures EventsFollow(Step(s, a), u,
              SaysOnline(s, a, u)
              || (retold && !BadOffline(s, a, u) && !(DiesSilent(s, a, u) && !E.ToldOnline(s.p, u))))
  {
    ToldAfter(s, a, u);
    DeadSilentAfter(s, a, u);
    if !DeadSilent(s, u) && !DiesSilent(s, a, u) {
      LiveEventsStep(s, a, u, retold);
    }
    assert DiesSilent(s, a, u) ==> !SaysOnline(s, a, u) && !SaysOffline(s, a, u);
    hide Step, E.EventsFollow, E.SomePastPublish, E.ToldOnline, DeadSilent, DiesSilent, SaysOnline, SaysOffline;
  }

  lemma {:induction false} EventsAlways(acts: seq<Action>, u: UserId)
    ensures EventsFollow(Exec(acts), u, Retold(acts, u))
  {
    if acts != [] {
      var n := |acts| - 1;
      EventsAlways(acts[..n], u);
      SafeAlways(acts[..n], u);
      hide Step, EventsFollow, SaysOnline, BadOffline, DiesSilent;
      EventsStep(Exec(acts[..n]), acts[n], u, Retold(acts[..n], u));
    } else {
      NothingSaid(u);
    }
  }

  lemma NothingSaid(u: UserId)
    ensures EventsFollow(Exec([]), u, false)
  {
  }

  /** Some connection of u, running or dead, has sent its INCR and not its offline PUBLISH. */
  ghost predicate SomeToTell(s: Timed, u: UserId) {
    exists c :: c in s.p.conns && (P.Holding(s.p.conns[c], u) || OwesPublish(s.p.conns[c], u))
  }

  /**
   * Crashes at any command included, with no command of a running connection of u pending: followers were last told
   * that u is online if and only if some connection, running or dead, has sent its INCR and not its offline PUBLISH,
   * and an online PUBLISH ran since the last offline one or death that spoiled it.
   */
  lemma AnnouncedIff(acts: seq<Action>, u: UserId)
    requires LiveAtRest(Exec(acts), u)
    ensures E.LastStatus(Exec(acts).p.events, u) == Some(Online) <==> SomeToTell(Exec(acts), u) && Retold(acts, u)
  {
    EventsAlways(acts, u);
    RunsAreProtocolRuns(acts);
    E.EventsAlways(Untimed(acts), u);
    hide Exec, P.Exec, Retold, E.Retold;
    var s := Exec(acts);
    if E.ToldOnline(s.p, u) {
      ToldHasCause(s, u);
    } else if SomeToTell(s, u) && !DeadSilent(s, u) {
      ToTellIsPast(s, u);
    }
  }

  lemma ToldHasCause(s: Timed, u: UserId)
    requires P.Holders(s.p, u) != {} || E.OfflinePending(s.p, u)
    ensures SomeToTell(s, u)
  {
    if P.Holders(s.p, u) != {} {
      var c :| c in P.Holders(s.p, u);
      assert P.Holding(s.p.conns[c], u);
    } else {
      var c :| c in s.p.conns && E.ToSayOffline(s.p.conns[c], u);
      assert OwesPublish(s.p.conns[c], u);
    }
  }

  /** With nothing owed by the dead and nothing pending of the living, whoever is counted in is past its PUBLISH. */
  lemma ToTellIsPast(s: Timed, u: UserId)
    requires LiveAtRest(s, u) && SomeToTell(s, u) && !DeadSilent(s, u)
    ensures E.SomePastPublish(s.p, u) && !E.OnlinePending(s.p, u) && !E.OfflinePending(s.p, u)
  {
    forall c | c in s.p.conns ensures !OwesPublish(s.p.conns[c], u) {
      assert c !in s.dead ==> Runs(s, c);
    }
    var c :| c in s.p.conns && (P.Holding(s.p.conns[c], u) || OwesPublish(s.p.conns[c], u));
    assert E.PastPublish(s.p.conns[c], u);
  }

  /** A crash of the only connection before its offline PUBLISH: followers go on believing the user online. */
  lemma CrashKeepsAnnouncement() returns (acts: seq<Action>)
    ensures var s := Exec(acts);
            LiveAtRest(s, 7) && 7 !in s.p.counters && 7 !in s.p.names && E.LastStatus(s.p.events, 7) == Some(Online)
  {
    acts := Counted();
    hide Exec;
    var dated, on := map[7 := CONNS_TTL], [Event(7, Online)];
    acts := Then(acts, Command(1), One(map[7 := 1], dated, false, P.List, []));
    acts := Then(acts, Command(1), One(map[7 := 1], dated, true, P.SayOnline, []));
    acts := Then(acts, Command(1), One(map[7 := 1], dated, true, P.Live, on));
    acts := Then(acts, Hangup(1), One(map[7 := 0], dated, true, P.Clear, on));
    acts := Then(acts, Command(1), One(map[], map[], true, P.Unlist, on));
    var s := One(map[], map[], false, P.SayOffline, on);
    acts := Then(acts, Command(1), s);
    acts := Then(acts, Crash(1), s.(dead := {1}));
  }
}

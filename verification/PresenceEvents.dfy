/** When the published presence events tell the truth, command by command. */
module PresenceEvents {
  import opened Common
  import opened PresenceTypes
  import opened PresenceProtocol

  /** The status followers were last told. */
  function LastStatus(events: seq<Event>, u: UserId): Option<Status> {
    if events == [] then None else
      var n := |events| - 1;
      if events[n].user == u then Some(events[n].status) else LastStatus(events[..n], u)
  }

  predicate ToldOnline(s: State, u: UserId) {
    LastStatus(s.events, u) == Some(Online)
  }

  /** The online PUBLISH of u is still to come from this connection. */
  predicate ToSayOnline(conn: Conn, u: UserId) {
    conn.user == u && (conn.pc == SetTtl(1) || conn.pc.List? || conn.pc.SayOnline?)
  }

  predicate ToSayOffline(conn: Conn, u: UserId) {
    conn.user == u && (conn.pc.Clear? || conn.pc.Unlist? || conn.pc.SayOffline?)
  }

  /** Counted in, with no online PUBLISH of its own still to come. */
  predicate PastPublish(conn: Conn, u: UserId) {
    Holding(conn, u) && !ToSayOnline(conn, u)
  }

  ghost predicate OnlinePending(s: State, u: UserId) {
    exists c :: c in s.conns && ToSayOnline(s.conns[c], u)
  }

  ghost predicate OfflinePending(s: State, u: UserId) {
    exists c :: c in s.conns && ToSayOffline(s.conns[c], u)
  }

  ghost predicate SomePastPublish(s: State, u: UserId) {
    exists c :: c in s.conns && PastPublish(s.conns[c], u)
  }

  predicate SaysOnline(s: State, a: Action, u: UserId) {
    a.Command? && a.c in s.conns && s.conns[a.c].user == u && s.conns[a.c].pc.SayOnline?
  }

  predicate SaysOffline(s: State, a: Action, u: UserId) {
    a.Command? && a.c in s.conns && s.conns[a.c].user == u && s.conns[a.c].pc.SayOffline?
  }

  /** Some online PUBLISH of u ran after the last offline one that found a connection already past its own. */
  ghost predicate Retold(acts: seq<Action>, u: UserId) {
    acts != [] &&
    (var n := |acts| - 1;
     var s := Exec(acts[..n]);
     SaysOnline(s, acts[n], u) || (Retold(acts[..n], u) && !(SaysOffline(s, acts[n], u) && SomePastPublish(s, u))))
  }

  /** The last event lags behind only while a PUBLISH is on its way. */
  ghost predicate EventsFollow(s: State, u: UserId, retold: bool) {
    && (ToldOnline(s, u) ==> retold)
    && (ToldOnline(s, u) ==> Holders(s, u) != {} || OfflinePending(s, u))
    && (retold && SomePastPublish(s, u) ==> ToldOnline(s, u) || OnlinePending(s, u) || OfflinePending(s, u))
  }

  lemma ToldAfter(s: State, a: Action, u: UserId)
    ensures ToldOnline(Step(s, a), u) <==> SaysOnline(s, a, u) || (ToldOnline(s, u) && !SaysOffline(s, a, u))
  {
    var events := Step(s, a).events;
    if events != s.events {
      assert events[..|events| - 1] == s.events;
    }
  }

  lemma PastPublishAfter(s: State, a: Action, u: UserId)
    ensures SomePastPublish(Step(s, a), u) ==>
              SomePastPublish(s, u) || SaysOnline(s, a, u) || (Gain(s, a, u) == 1 && Counter(s, u) != 0)
  {
    var s' := Step(s, a);
    if c :| c in s'.conns && PastPublish(s'.conns[c], u) {
      assert c in s.conns && s'.conns[c] == s.conns[c] ==> PastPublish(s.conns[c], u);
    }
  }

  lemma OnlinePendingAfter(s: State, a: Action, u: UserId)
    requires OnlinePending(s, u)
    ensures OnlinePending(Step(s, a), u) || SaysOnline(s, a, u)
  {
    var s' := Step(s, a);
    var c :| c in s.conns && ToSayOnline(s.conns[c], u);
    assert c in s'.conns && (SaysOnline(s, a, u) || ToSayOnline(s'.conns[c], u));
  }

  lemma OfflinePendingAfter(s: State, a: Action, u: UserId)
    requires OfflinePending(s, u)
    ensures OfflinePending(Step(s, a), u) || SaysOffline(s, a, u)
  {
    var s' := Step(s, a);
    var c :| c in s.conns && ToSayOffline(s.conns[c], u);
    assert c in s'.conns && (SaysOffline(s, a, u) || ToSayOffline(s'.conns[c], u));
  }

  /** Whoever is last to leave has an offline PUBLISH to send. */
  lemma LastToLeave(s: State, a: Action, u: UserId)
    requires Safe(s, u) && Holders(s, u) != {} && Holders(Step(s, a), u) == {}
    ensures OfflinePending(Step(s, a), u)
  {
    HoldersAfter(s, a, u);
    assert Gain(s, a, u) == -1;
    assert ToSayOffline(Step(s, a).conns[a.c], u);
  }

  lemma HolderSays(s: State, a: Action, u: UserId)
    requires SaysOnline(s, a, u)
    ensures Holders(Step(s, a), u) != {}
  {
    assert a.c in Holders(Step(s, a), u);
  }

  lemma NonzeroSays(s: State, u: UserId)
    requires Safe(s, u) && Counter(s, u) != 0
    ensures OfflinePending(s, u) || OnlinePending(s, u) || SomePastPublish(s, u)
  {
    if Counter(s, u) > 0 {
      var c :| c in Holders(s, u);
      assert PastPublish(s.conns[c], u) || ToSayOnline(s.conns[c], u);
    } else {
      var c :| c in s.conns && s.conns[c].user == u && s.conns[c].pc.Clear?;
      assert ToSayOffline(s.conns[c], u);
    }
  }

  lemma EventsStep(s: State, a: Action, u: UserId, retold: bool)
    requires Safe(s, u) && EventsFollow(s, u, retold)
    ensures EventsFollow(Step(s, a), u,
                         SaysOnline(s, a, u) || (retold && !(SaysOffline(s, a, u) && SomePastPublish(s, u))))
  {
    hide Step, Safe, SomePastPublish, OnlinePending, OfflinePending, Counter, Holders, ToldOnline;
    ToldAfter(s, a, u);
    PastPublishAfter(s, a, u);
    if OnlinePending(s, u) {
      OnlinePendingAfter(s, a, u);
    }
    if OfflinePending(s, u) {
      OfflinePendingAfter(s, a, u);
    }
    if Counter(s, u) != 0 {
      NonzeroSays(s, u);
    }
    if Holders(s, u) != {} && Holders(Step(s, a), u) == {} {
      LastToLeave(s, a, u);
    }
    if SaysOnline(s, a, u) {
      HolderSays(s, a, u);
    }
    assert SaysOffline(s, a, u) ==> Gain(s, a, u) == 0;
  }

  lemma {:induction false} EventsAlways(acts: seq<Action>, u: UserId)
    ensures EventsFollow(Exec(acts), u, Retold(acts, u))
  {
    if acts != [] {
      var n := |acts| - 1;
      EventsAlways(acts[..n], u);
      SafeAlways(acts[..n], u);
      hide Step;
      EventsStep(Exec(acts[..n]), acts[n], u, Retold(acts[..n], u));
    }
  }

  /**
   * With no command of a user pending, followers were last told that the user is online if and only if a connection is
   * counted in and some online PUBLISH ran after the last offline one that found a connection already past its own.
   */
  lemma AnnouncedIff(acts: seq<Action>, u: UserId)
    requires AtRest(Exec(acts), u)
    ensures LastStatus(Exec(acts).events, u) == Some(Online) <==> Holders(Exec(acts), u) != {} && Retold(acts, u)
  {
    hide Exec, Retold;
    var s := Exec(acts);
    EventsAlways(acts, u);
    if Holders(s, u) != {} {
      var c :| c in Holders(s, u);
      assert PastPublish(s.conns[c], u);
    }
  }
}

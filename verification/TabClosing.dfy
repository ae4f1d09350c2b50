/**
 * Token rotation when tabs close in the middle of a call. A closed tab runs no catch block and writes nothing more,
 * while the server goes on with the request it has; every run here is also a run of the rotation protocol.
 */
module TabClosing {
  import opened Common
  import T = TokenRotation

  /** closed are the calls whose tab is gone, deleted those whose DEL has taken effect. */
  datatype State = State(t: T.State, closed: set<T.OpId>, deleted: set<T.OpId>)

  datatype Action =
    | Run(a: T.Action)
    | CloseTab(o: T.OpId)

  predicate InTab(a: T.Action) {
    a.Read? || a.Deliver? || a.Lose? || a.Compare? || a.Clear?
  }

  predicate Deletes(s: T.State, a: T.Action) {
    a.ServerDel? && a.done && a.o in s.ops && s.ops[a.o].server.Del? && s.ops[a.o].rt.Some?
  }

  function Step(s: State, a: Action): State {
    match a
    case Run(b) =>
      if InTab(b) && b.o in s.closed then s
      else State(T.Step(s.t, b), s.closed, if Deletes(s.t, b) then s.deleted + {b.o} else s.deleted)
    case CloseTab(o) => if o in s.t.ops then s.(closed := s.closed + {o}) else s
  }

  function Exec(acts: seq<Action>): State {
    if acts == [] then State(T.Init(), {}, {}) else Step(Exec(acts[..|acts| - 1]), acts[|acts| - 1])
  }

  /** The steps of the rotation protocol that were not lost with a tab. */
  function Taken(acts: seq<Action>): seq<T.Action> {
    if acts == [] then [] else
      var n := |acts| - 1;
      Taken(acts[..n]) +
      (if acts[n].Run? && !(InTab(acts[n].a) && acts[n].a.o in Exec(acts[..n]).closed) then [acts[n].a] else [])
  }

  lemma {:induction false} RunsAreRotationRuns(acts: seq<Action>)
    ensures T.Exec(Taken(acts)) == Exec(acts).t
  {
    if acts != [] {
      var n := |acts| - 1;
      RunsAreRotationRuns(acts[..n]);
      hide T.Step;
      var before, taken := Taken(acts[..n]), Taken(acts);
      if taken != before {
        assert taken[..|taken| - 1] == before;
      }
    }
  }

  lemma InvAlways(acts: seq<Action>)
    ensures T.Inv(Exec(acts).t)
  {
    RunsAreRotationRuns(acts);
    T.InvAlways(T.Init(), Taken(acts));
  }

  /** Deleted tokens stay dead, and a dead stored token was deleted by a call that read it. */
  ghost predicate DeathsExplained(s: State) {
    && (forall o :: o in s.deleted ==> o in s.t.ops && s.t.ops[o].rt.Some? && s.t.ops[o].rt.value !in s.t.live)
    && (s.t.slot.Some? && s.t.slot.value !in s.t.live ==> exists o :: o in s.deleted && s.t.ops[o].rt == s.t.slot)
  }

  lemma TokenReadOnce(s: T.State, a: T.Action, o: T.OpId)
    requires T.Inv(s) && o in s.ops && s.ops[o].rt.Some?
    ensures o in T.Step(s, a).ops && T.Step(s, a).ops[o].rt == s.ops[o].rt
  {
    T.OpsStep(s, a);
    hide T.Step, T.Inv;
  }

  lemma DelKills(s: T.State, a: T.Action)
    requires Deletes(s, a)
    ensures s.ops[a.o].rt.value !in T.Step(s, a).live
  {
  }

  lemma OnlyDelsKill(s: T.State, a: T.Action)
    requires T.Inv(s) && s.slot.Some? && s.slot.value in s.live && T.Step(s, a).slot == s.slot
    requires s.slot.value !in T.Step(s, a).live
    ensures Deletes(s, a) && s.ops[a.o].rt == s.slot
  {
    T.KeysStep(s, a);
    assert a.ServerDel? && a.o in s.ops && s.ops[a.o].server.Del?;
    assert a.done;
  }

  lemma NewSlotLive(s: T.State, a: T.Action)
    requires T.Inv(s) && T.Step(s, a).slot.Some? && T.Step(s, a).slot != s.slot
    ensures T.Step(s, a).slot.value in T.Step(s, a).live
  {
    T.KeysStep(s, a);
    assert T.Undelivered(s.ops[a.o], T.Step(s, a).slot.value);
  }

  lemma DeathsStep(s: State, b: T.Action)
    requires T.Inv(s.t) && DeathsExplained(s) && !(InTab(b) && b.o in s.closed)
    ensures DeathsExplained(Step(s, Run(b)))
  {
    var s' := Step(s, Run(b));
    T.KeysStep(s.t, b);
    forall o | o in s'.deleted ensures o in s'.t.ops && s'.t.ops[o].rt.Some? && s'.t.ops[o].rt.value !in s'.t.live {
      TokenReadOnce(s.t, b, o);
      if o !in s.deleted {
        DelKills(s.t, b);
      }
    }
    if s'.t.slot.Some? && s'.t.slot.value !in s'.t.live {
      if s'.t.slot != s.t.slot {
        NewSlotLive(s.t, b);
        assert false;
      } else if s.t.slot.value in s.t.live {
        OnlyDelsKill(s.t, b);
        TokenReadOnce(s.t, b, b.o);
        assert b.o in s'.deleted;
      } else {
        var o :| o in s.deleted && s.t.ops[o].rt == s.t.slot;
        TokenReadOnce(s.t, b, o);
        assert o in s'.deleted;
      }
    }
  }

  lemma {:induction false} DeathsAlways(acts: seq<Action>)
    ensures DeathsExplained(Exec(acts))
  {
    if acts != [] {
      var s, a := Exec(acts[..|acts| - 1]), acts[|acts| - 1];
      DeathsAlways(acts[..|acts| - 1]);
      InvAlways(acts[..|acts| - 1]);
      hide T.Step, T.Inv;
      if a.Run? && !(InTab(a.a) && a.a.o in s.closed) {
        hide DeathsExplained, Step;
        DeathsStep(s, a.a);
      }
    }
  }

  /** Once its tab is closed a call stays where it was in the tab, and no step of it writes the slot. */
  lemma ClosedTabIsStill(s: State, b: T.Action, o: T.OpId)
    requires o in s.closed && o in s.t.ops
    ensures o in Step(s, Run(b)).t.ops && Step(s, Run(b)).t.ops[o].client == s.t.ops[o].client
    ensures !b.OtherMint? && !b.OtherRevoke? && b.o == o ==> Step(s, Run(b)).t.slot == s.t.slot
    ensures o in Step(s, Run(b)).closed
  {
  }

  /** No open tab is in the middle of a call, and the server is done with every request. */
  ghost predicate Quiet(s: State) {
    forall o :: o in s.t.ops ==>
      var op := s.t.ops[o];
      !op.server.Get? && !op.server.Del? && !op.server.Set? && (o !in s.closed ==> !T.ClientBusy(op))
  }

  /** The tab closed before its call's own write, the call's DEL took effect, and its token is still stored. */
  predicate Stranded(s: State, o: T.OpId) {
    o in s.closed && o in s.deleted && o in s.t.ops && T.ClientBusy(s.t.ops[o]) && s.t.slot.Some? &&
    s.t.ops[o].rt == s.t.slot
  }

  /**
   * For any number of tabs, closing at any point, in any interleaving, with lost responses and without the lock: with
   * nothing at work the stored token is dead if and only if a tab closed before its call's own write, that call's DEL
   * took effect, and its token is still stored.
   */
  lemma DeadTokenIff(acts: seq<Action>)
    requires Quiet(Exec(acts))
    ensures var s := Exec(acts);
            s.t.slot.Some? && s.t.slot.value !in s.t.live <==> exists o :: Stranded(s, o)
  {
    DeathsAlways(acts);
    InvAlways(acts);
    hide Exec;
    var s := Exec(acts);
    if s.t.slot.Some? && s.t.slot.value !in s.t.live {
      var o :| o in s.deleted && s.t.ops[o].rt == s.t.slot;
      assert T.ClientBusy(s.t.ops[o]);
      assert Stranded(s, o);
    }
  }

  lemma Then(acts: seq<Action>, a: Action, s: State) returns (more: seq<Action>)
    requires Step(Exec(acts), a) == s
    ensures more == acts + [a] && Exec(more) == s
  {
    more := acts + [a];
    assert more[..|acts|] == acts;
  }

  /** The tab of a login holding token 0, then one refresh. */
  function Tab(slot: Option<T.Token>, live: set<T.Token>, next: T.Token, login: T.Op, ops: map<T.OpId, T.Op>): T.State {
    T.State(slot, live, {}, next, ops[0 := login])
  }

  lemma SignedInOnce() returns (acts: seq<Action>)
    ensures Exec(acts) == State(Tab(Some(0), {0}, 1, T.Op(T.Login, T.Done(Some(0)), T.Reply(Some(0)), None), map[]),
                                {}, {})
  {
    acts := [];
    assert Exec(acts) == State(T.Init(), {}, {});
    hide Exec;
    acts := Then(acts, Run(T.Begin(0, T.Login)),
                 State(Tab(None, {}, 0, T.Op(T.Login, T.Start, T.NoRequest, None), map[]), {}, {}));
    acts := Then(acts, Run(T.Read(0)), State(Tab(None, {}, 0, T.Op(T.Login, T.Waiting, T.Set, None), map[]), {}, {}));
    acts := Then(acts, Run(T.ServerSet(0, true)),
                 State(Tab(None, {0}, 1, T.Op(T.Login, T.Waiting, T.Reply(Some(0)), None), map[]), {}, {}));
    acts := Then(acts, Run(T.Deliver(0)),
                 State(Tab(Some(0), {0}, 1, T.Op(T.Login, T.Done(Some(0)), T.Reply(Some(0)), None), map[]), {}, {}));
  }

  /** A refresh of the signed-in browser as far as the server's DEL. */
  lemma RefreshDeleted() returns (acts: seq<Action>)
    ensures Exec(acts) == State(Tab(Some(0), {}, 1, T.Op(T.Login, T.Done(Some(0)), T.Reply(Some(0)), None),
                                    map[1 := T.Op(T.Refresh, T.Waiting, T.Set, Some(0))]), {}, {1})
  {
    acts := SignedInOnce();
    hide Exec;
    var login := T.Op(T.Login, T.Done(Some(0)), T.Reply(Some(0)), None);
    var w := T.Op(T.Refresh, T.Waiting, T.Get, Some(0));
    acts := Then(acts, Run(T.Begin(1, T.Refresh)),
                 State(Tab(Some(0), {0}, 1, login, map[1 := T.Op(T.Refresh, T.Start, T.NoRequest, None)]), {}, {}));
    acts := Then(acts, Run(T.Read(1)), State(Tab(Some(0), {0}, 1, login, map[1 := w]), {}, {}));
    acts := Then(acts, Run(T.ServerGet(1, true)),
                 State(Tab(Some(0), {0}, 1, login, map[1 := w.(server := T.Del)]), {}, {}));
    acts := Then(acts, Run(T.ServerDel(1, true)),
                 State(Tab(Some(0), {}, 1, login, map[1 := w.(server := T.Set)]), {}, {1}));
  }

  /** Closing the tab of a refresh between the DEL and its write leaves a dead token stored with nothing at work. */
  lemma ClosedTabStrandsToken() returns (acts: seq<Action>)
    ensures var s := Exec(acts); Quiet(s) && Stranded(s, 1) && s.t.slot == Some(0) && 0 !in s.t.live
  {
    acts := RefreshDeleted();
    hide Exec;
    var login := T.Op(T.Login, T.Done(Some(0)), T.Reply(Some(0)), None);
    var w := T.Op(T.Refresh, T.Waiting, T.Set, Some(0));
    acts := Then(acts, CloseTab(1), State(Tab(Some(0), {}, 1, login, map[1 := w]), {1}, {1}));
    acts := Then(acts, Run(T.ServerSet(1, true)),
                 State(Tab(Some(0), {1}, 2, login, map[1 := w.(server := T.Reply(Some(1)))]), {1}, {1}));
  }
}

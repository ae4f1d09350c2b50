/**
 * Refresh-token rotation. Any number of tabs of one browser share one localStorage slot and run refresh, login and
 * logout concurrently; the server handles each request as separate Redis GET, DEL and SET commands; responses may be
 * lost. Other browsers rotate their own tokens beside them. A disabled action leaves the state as it is.
 */
module TokenRotation {
  import opened Common

  /** Tokens are 32 random bytes, here numbers handed out once each. */
  type Token = nat
  type OpId = nat

  datatype Kind = Refresh | Login | Logout

  datatype ClientPc =
    | Start    // nothing read yet
    | Waiting  // the request is out
    | Caught   // in the catch block of doRefresh, about to compare the slot
    | Clearing // about to remove the slot
    | Done(result: Option<Token>) // what the tab got: a token, or null or an error

  datatype ServerPc =
    | NoRequest
    | Get // lookup is next
    | Del // delete is next
    | Set // store of a fresh token is next
    | Reply(token: Option<Token>) // None is any error status

  /** One call of refresh, login or logout in some tab; rt is the token it read. */
  datatype Op = Op(kind: Kind, client: ClientPc, server: ServerPc, rt: Option<Token>)

  /** live are the rt: keys in Redis, others those of them that belong to other browsers. */
  datatype State = State(slot: Option<Token>, live: set<Token>, others: set<Token>, next: Token, ops: map<OpId, Op>)

  datatype Action =
    | Begin(o: OpId, kind: Kind)
    | Read(o: OpId)                   // getRefreshToken, then the request
    | ServerGet(o: OpId, found: bool) // found: the account is still there
    | ServerDel(o: OpId, done: bool)  // done: the DEL took effect; its error is ignored
    | ServerSet(o: OpId, ok: bool)    // ok: credentials hold and the SET succeeded
    | Deliver(o: OpId)                // the response reaches the tab
    | Lose(o: OpId)                   // the tab sees a network error instead
    | Compare(o: OpId)                // getRefreshToken() === rt
    | Clear(o: OpId)                  // removeItem
    | OtherMint
    | OtherRevoke(t: Token)

  function Init(): State {
    State(None, {}, {}, 0, map[])
  }

  function With(s: State, o: OpId, op: Op): State {
    s.(ops := s.ops[o := op])
  }

  /** The operation o steps, if it exists. */
  function Step(s: State, a: Action): State {
    match a
    case OtherMint => s.(live := s.live + {s.next}, others := s.others + {s.next}, next := s.next + 1)
    case OtherRevoke(t) => if t in s.others then s.(live := s.live - {t}, others := s.others - {t}) else s
    case Begin(o, kind) => if o in s.ops then s else With(s, o, Op(kind, Start, NoRequest, None))
    case _ => if a.o in s.ops then OpStep(s, a, s.ops[a.o]) else s
  }

  function OpStep(s: State, a: Action, op: Op): State
    requires !a.OtherMint? && !a.OtherRevoke?
  {
    var o := a.o;
    match a
    case Read(_) =>
      if !op.client.Start? then s else
      (match op.kind
       case Login => With(s, o, op.(client := Waiting, server := Set))
       case Refresh =>
         if s.slot.None? then With(s, o, op.(client := Done(None)))
         else With(s, o, op.(client := Waiting, server := Get, rt := s.slot))
       case Logout =>
         if s.slot.None? then With(s, o, op.(client := Clearing))
         else With(s, o, op.(client := Waiting, server := Del, rt := s.slot)))
    case ServerGet(_, found) =>
      if !op.server.Get? then s else
      With(s, o, op.(server := if op.rt.Some? && op.rt.value in s.live && found then Del else Reply(None)))
    case ServerDel(_, done) =>
      if !op.server.Del? || op.rt.None? then s else
      With(s, o, op.(server := if op.kind.Refresh? then Set else Reply(None)))
        .(live := if done then s.live - {op.rt.value} else s.live)
    case ServerSet(_, ok) =>
      if !op.server.Set? then s else
      if ok then With(s, o, op.(server := Reply(Some(s.next)))).(live := s.live + {s.next}, next := s.next + 1)
      else With(s, o, op.(server := Reply(None)))
    case Deliver(_) =>
      if !op.client.Waiting? || !op.server.Reply? then s else
      if op.kind.Logout? then With(s, o, op.(client := Clearing)) else
      if op.server.token.Some? then With(s, o, op.(client := Done(op.server.token))).(slot := op.server.token)
      else Failed(s, o, op)
    case Lose(_) =>
      if !op.client.Waiting? then s else
      if op.kind.Logout? then With(s, o, op.(client := Clearing)) else Failed(s, o, op)
    case Compare(_) =>
      if !op.client.Caught? then s else
      With(s, o, op.(client := if s.slot == op.rt then Clearing else Done(None)))
    case Clear(_) =>
      if !op.client.Clearing? then s else With(s, o, op.(client := Done(None))).(slot := None)
    case _ => s
  }

  /** A failed refresh goes to its catch block; a failed login just throws. */
  function Failed(s: State, o: OpId, op: Op): State {
    With(s, o, op.(client := if op.kind.Refresh? then Caught else Done(None)))
  }

  function ExecFrom(s0: State, acts: seq<Action>): State {
    if acts == [] then s0 else Step(ExecFrom(s0, acts[..|acts| - 1]), acts[|acts| - 1])
  }

  function Exec(acts: seq<Action>): State {
    ExecFrom(Init(), acts)
  }

  /** The tab's part of the call is not over. */
  predicate ClientBusy(op: Op) {
    !op.client.Done?
  }

  predicate InFlight(op: Op) {
    ClientBusy(op) || op.server.Get? || op.server.Del? || op.server.Set?
  }

  ghost predicate Quiet(s: State) {
    forall o :: o in s.ops ==> !InFlight(s.ops[o])
  }

  // ---- The stored token is absent or live ----

  /** A token minted for this call that its tab has not received yet. */
  predicate Undelivered(op: Op, t: Token) {
    op.client.Waiting? && !op.kind.Logout? && op.server == Reply(Some(t))
  }

  ghost predicate Numbered(s: State) {
    && (forall t :: t in s.live || s.slot == Some(t) ==> t < s.next)
    && (forall o :: o in s.ops && s.ops[o].rt.Some? ==> s.ops[o].rt.value < s.next)
    && (forall o :: o in s.ops && s.ops[o].server.Reply? && s.ops[o].server.token.Some? ==>
          s.ops[o].server.token.value < s.next)
    && s.others <= s.live
  }

  /** The tokens of other browsers never reach this one. */
  ghost predicate Apart(s: State) {
    && (s.slot.Some? ==> s.slot.value !in s.others)
    && (forall o :: o in s.ops && s.ops[o].rt.Some? ==> s.ops[o].rt.value !in s.others)
  }

  ghost predicate Shaped(op: Op) {
    && (op.server.Get? || op.server.Del? ==> op.rt.Some?)
    && (op.server.Get? ==> op.kind.Refresh?)
    && (op.client.Start? ==> op.server.NoRequest? && op.rt.None?)
    && (op.kind.Login? ==> op.rt.None? && !op.client.Clearing?)
    && (op.client.Caught? ==> op.kind.Refresh?)
  }

  /** A token on its way to a tab is live and unseen: not stored, not read by anyone, not promised twice. */
  ghost predicate FreshReplies(s: State) {
    forall o, t :: o in s.ops && Undelivered(s.ops[o], t) ==>
      && t in s.live && t !in s.others && s.slot != Some(t)
      && (forall o' :: o' in s.ops ==> s.ops[o'].rt != Some(t))
      && (forall o' :: o' in s.ops && o' != o ==> s.ops[o'].server != Reply(Some(t)))
  }

  /** A finished call leaves a slot that no longer holds the token it read. */
  ghost predicate UsedUp(s: State) {
    forall o :: o in s.ops && s.ops[o].client.Done? && s.ops[o].rt.Some? ==> s.slot != s.ops[o].rt
  }

  /** A dead stored token was read by some call whose tab is still at work on it. */
  ghost predicate Excused(s: State) {
    s.slot.Some? && s.slot.value !in s.live ==> exists o :: o in s.ops && s.ops[o].rt == s.slot && ClientBusy(s.ops[o])
  }

  ghost predicate Inv(s: State) {
    && Numbered(s) && Apart(s) && (forall o :: o in s.ops ==> Shaped(s.ops[o]))
    && FreshReplies(s) && UsedUp(s) && Excused(s)
  }

  /** What a step can do to the calls: only the acting one changes. */
  ghost predicate OpsChange(s: State, a: Action, s': State) {
    && s.ops.Keys <= s'.ops.Keys
    && (forall o :: o in s'.ops && (a.OtherMint? || a.OtherRevoke? || o != a.o) ==> o in s.ops && s'.ops[o] == s.ops[o])
    && (!a.OtherMint? && !a.OtherRevoke? && a.o in s.ops ==> CallChange(s, a, s.ops[a.o], s'.ops[a.o], s'.slot))
    && (!a.OtherMint? && !a.OtherRevoke? && a.o !in s.ops && a.o in s'.ops ==>
          s'.ops[a.o].client.Start? && s'.ops[a.o].server.NoRequest? && s'.ops[a.o].rt.None?)
  }

  /** Each change of a call has its cause. */
  ghost predicate CallChange(s: State, a: Action, op: Op, op': Op, slot': Option<Token>) {
    && op'.kind == op.kind
    && (op'.rt == op.rt || (a.Read? && op.rt.None? && op'.rt == s.slot && op'.client.Waiting? && !op.kind.Login?))
    && (op'.server == op.server || !op'.server.Reply? || op'.server == Reply(None)
        || (a.ServerSet? && op.server.Set? && op'.server == Reply(Some(s.next)) && op'.client == op.client))
    && (op'.client.Waiting? ==> op.client.Waiting? || a.Read?)
    && (op'.client.Done? ==> op.client.Done? || op'.rt.None? || slot' != op'.rt || Undelivered(op, slot'.value))
    && (op.client.Done? ==> op'.client.Done?)
  }

  /** What a step can do to the slot and to the server's keys. */
  ghost predicate KeysChange(s: State, a: Action, s': State) {
    && (s'.slot == s.slot || s'.slot.None?
        || (a.Deliver? && a.o in s.ops && s'.slot.Some? && Undelivered(s.ops[a.o], s'.slot.value) &&
            s'.ops == s.ops[a.o := s.ops[a.o].(client := Done(s'.slot))]))
    && s.next <= s'.next <= s.next + 1
    && (forall t :: t in s'.live ==> t in s.live || (t == s.next && s'.next == s.next + 1))
    && (forall t :: t in s'.others ==> t in s.others || (t == s.next && s'.next == s.next + 1 && a.OtherMint?))
    && (forall t :: t in s.live && t !in s'.live ==>
          || (a.OtherRevoke? && t in s.others)
          || (a.ServerDel? && a.o in s.ops && s.ops[a.o].server.Del? && s.ops[a.o].rt == Some(t)))
    && (a.ServerSet? && a.o in s.ops && a.o in s'.ops && s.ops[a.o].server.Set? &&
        s'.ops[a.o].server == Reply(Some(s.next))
        ==> s.next in s'.live && s'.next == s.next + 1)
    && s'.others <= s'.live
    && (a.OtherRevoke? ==> s'.others == s.others - {a.t})
    && (!a.OtherRevoke? ==> s.others <= s'.others)
  }

  lemma ShapedStep(s: State, a: Action)
    requires forall o :: o in s.ops ==> Shaped(s.ops[o])
    ensures forall o :: o in Step(s, a).ops ==> Shaped(Step(s, a).ops[o])
  {
  }

  lemma CallChangeStep(s: State, a: Action)
    requires !a.OtherMint? && !a.OtherRevoke? && a.o in s.ops && Shaped(s.ops[a.o])
    ensures a.o in Step(s, a).ops && CallChange(s, a, s.ops[a.o], Step(s, a).ops[a.o], Step(s, a).slot)
  {
  }

  lemma OpsChangeStep(s: State, a: Action)
    requires forall o :: o in s.ops ==> Shaped(s.ops[o])
    ensures OpsChange(s, a, Step(s, a))
  {
    hide CallChange, Shaped;
    if !a.OtherMint? && !a.OtherRevoke? && a.o in s.ops {
      CallChangeStep(s, a);
    }
  }

  lemma OpsStep(s: State, a: Action)
    requires forall o :: o in s.ops ==> Shaped(s.ops[o])
    ensures OpsChange(s, a, Step(s, a))
    ensures forall o :: o in Step(s, a).ops ==> Shaped(Step(s, a).ops[o])
  {
    hide *;
    ShapedStep(s, a);
    OpsChangeStep(s, a);
  }

  lemma KeysStep(s: State, a: Action)
    requires Numbered(s) && Apart(s)
    ensures KeysChange(s, a, Step(s, a))
  {
  }

  lemma NumberedStep(s: State, a: Action)
    requires Inv(s)
    ensures Numbered(Step(s, a))
  {
    OpsStep(s, a);
    KeysStep(s, a);
    hide Step, Shaped, Excused, UsedUp;
  }

  lemma ApartStep(s: State, a: Action)
    requires Inv(s)
    ensures Apart(Step(s, a))
  {
    OpsStep(s, a);
    KeysStep(s, a);
    hide Step, Shaped, Excused, UsedUp;
  }

  /** A token stays fresh on its way: nobody else can come by it. */
  lemma FreshStays(s: State, a: Action, o: OpId, t: Token)
    requires Numbered(s) && Apart(s) && FreshReplies(s) && o in s.ops && Undelivered(s.ops[o], t)
    requires OpsChange(s, a, Step(s, a)) && KeysChange(s, a, Step(s, a))
    requires var s' := Step(s, a); o in s'.ops && Undelivered(s'.ops[o], t)
    ensures var s' := Step(s, a);
            && t in s'.live && t !in s'.others && s'.slot != Some(t)
            && (forall o' :: o' in s'.ops ==> s'.ops[o'].rt != Some(t))
            && (forall o' :: o' in s'.ops && o' != o ==> s'.ops[o'].server != Reply(Some(t)))
  {
    hide Step;
    assert t < s.next && t in s.live;
  }

  lemma FreshBegins(s: State, a: Action, o: OpId)
    requires Numbered(s) && Apart(s) && FreshReplies(s) && o in s.ops && !Undelivered(s.ops[o], s.next)
    requires OpsChange(s, a, Step(s, a)) && KeysChange(s, a, Step(s, a))
    requires var s' := Step(s, a); o in s'.ops && Undelivered(s'.ops[o], s.next)
    ensures var (s', t) := (Step(s, a), s.next);
            && t in s'.live && t !in s'.others && s'.slot != Some(t)
            && (forall o' :: o' in s'.ops ==> s'.ops[o'].rt != Some(t))
            && (forall o' :: o' in s'.ops && o' != o ==> s'.ops[o'].server != Reply(Some(t)))
  {
    hide Step;
    assert a.ServerSet? && a.o == o;
  }

  lemma FreshStep(s: State, a: Action)
    requires Inv(s)
    ensures FreshReplies(Step(s, a))
  {
    OpsStep(s, a);
    KeysStep(s, a);
    var s' := Step(s, a);
    forall o, t | o in s'.ops && Undelivered(s'.ops[o], t)
      ensures o in s.ops && (Undelivered(s.ops[o], t) || t == s.next)
    {
      hide Step, KeysChange, FreshReplies, Numbered, Apart, UsedUp, Excused;
    }
    hide Step, OpsChange, KeysChange, UsedUp, Excused, Shaped, Numbered, Apart;
    forall o, t | o in s'.ops && Undelivered(s'.ops[o], t)
      ensures t in s'.live && t !in s'.others && s'.slot != Some(t)
      ensures forall o' :: o' in s'.ops ==> s'.ops[o'].rt != Some(t)
      ensures forall o' :: o' in s'.ops && o' != o ==> s'.ops[o'].server != Reply(Some(t))
    {
      if Undelivered(s.ops[o], t) {
        FreshStays(s, a, o, t);
      } else {
        FreshBegins(s, a, o);
      }
    }
  }

  lemma UsedUpStep(s: State, a: Action)
    requires Inv(s)
    ensures UsedUp(Step(s, a))
  {
    OpsStep(s, a);
    KeysStep(s, a);
    hide Step;
  }

  lemma ExcusedStep(s: State, a: Action)
    requires Inv(s) && UsedUp(Step(s, a))
    ensures Excused(Step(s, a))
  {
    OpsStep(s, a);
    KeysStep(s, a);
    hide Step;
    var s' := Step(s, a);
    if s'.slot.Some? && s'.slot.value !in s'.live {
      assert s'.slot == s.slot;
      if s.slot.value in s.live {
        assert a.ServerDel? && s'.ops[a.o].rt == s'.slot;
      } else {
        var o :| o in s.ops && s.ops[o].rt == s.slot && ClientBusy(s.ops[o]);
        assert o in s'.ops && s'.ops[o].rt == s'.slot;
      }
    }
  }

  lemma InvStep(s: State, a: Action)
    requires Inv(s)
    ensures Inv(Step(s, a))
  {
    hide Step, Numbered, Apart, FreshReplies, UsedUp, Excused;
    OpsStep(s, a);
    NumberedStep(s, a);
    ApartStep(s, a);
    FreshStep(s, a);
    UsedUpStep(s, a);
    ExcusedStep(s, a);
  }

  lemma {:induction false} InvAlways(s0: State, acts: seq<Action>)
    requires Inv(s0)
    ensures Inv(ExecFrom(s0, acts))
  {
    if acts != [] {
      InvAlways(s0, acts[..|acts| - 1]);
      InvStep(ExecFrom(s0, acts[..|acts| - 1]), acts[|acts| - 1]);
    }
  }

  /**
   * For any number of tabs that stay open, in any interleaving, with lost responses and without the lock: whenever
   * nothing is in flight the stored token is absent or live.
   */
  lemma StoredTokenNullOrLive(acts: seq<Action>)
    requires Quiet(Exec(acts))
    ensures var s := Exec(acts); s.slot.None? || s.slot.value in s.live
  {
    InvAlways(Init(), acts);
  }

  /** Other browsers mint tokens of their own and revoke only those. */
  lemma OtherBrowsers(s: State, t: Token)
    ensures Step(s, OtherMint) == s.(live := s.live + {s.next}, others := s.others + {s.next}, next := s.next + 1)
    ensures Step(s, OtherRevoke(t)) == if t in s.others then s.(live := s.live - {t}, others := s.others - {t}) else s
  {
  }

  // ---- Who writes the slot ----

  /** A step that stores a token delivers it to the tab of a refresh or login that was answered with it. */
  predicate Stores(s: State, a: Action, t: Token) {
    && a.Deliver? && a.o in s.ops && !s.ops[a.o].kind.Logout?
    && s.ops[a.o].client.Waiting? && s.ops[a.o].server == Reply(Some(t))
  }

  /** A step that empties the slot ends a logout, or a refresh that has come to the end of its catch block. */
  predicate Empties(s: State, a: Action) {
    a.Clear? && a.o in s.ops && s.ops[a.o].client.Clearing? && (s.ops[a.o].kind.Logout? || s.ops[a.o].kind.Refresh?)
  }

  /**
   * The slot holds what the last such step put there: a call that is refused or gets no answer stores nothing, and a
   * login never empties the slot.
   */
  lemma SlotAfter(s: State, a: Action)
    requires Inv(s)
    ensures Step(s, a).slot.Some? && Step(s, a).slot != s.slot ==> Stores(s, a, Step(s, a).slot.value)
    ensures Step(s, a).slot.None? && s.slot.Some? ==> Empties(s, a)
    ensures forall t: Token :: Stores(s, a, t) ==>
              Step(s, a).slot == Some(t) && Step(s, a).ops[a.o].client == Done(Some(t))
    ensures Empties(s, a) ==> Step(s, a).slot.None? && Step(s, a).ops[a.o].client == Done(None)
  {
    assert !a.OtherMint? && !a.OtherRevoke? && a.o in s.ops ==> Shaped(s.ops[a.o]);
  }

  /** The acting call is a login: the slot changes only when its answer brings a token, and then to that token. */
  lemma LoginOnlyStores(s: State, a: Action)
    requires Inv(s) && !a.OtherMint? && !a.OtherRevoke? && a.o in s.ops && s.ops[a.o].kind.Login?
    ensures Step(s, a).slot != s.slot ==>
              a.Deliver? && s.ops[a.o].server.Reply? && s.ops[a.o].server.token.Some?
              && Step(s, a).slot == s.ops[a.o].server.token
  {
    SlotAfter(s, a);
  }

  /** A refused or lost login is over at once and leaves the slot alone. */
  lemma RefusedLoginIsOver(s: State, o: OpId)
    requires o in s.ops && s.ops[o].kind.Login? && s.ops[o].client.Waiting?
    ensures Step(s, Lose(o)) == s.(ops := s.ops[o := s.ops[o].(client := Done(None))])
    ensures s.ops[o].server == Reply(None) ==>
              Step(s, Deliver(o)) == s.(ops := s.ops[o := s.ops[o].(client := Done(None))])
  {
  }

  /**
   * How calls end: with a token only when it has just been stored; a logout only by emptying the slot, whatever it
   * found there at first; a refresh without a token only after it found nothing to send, after emptying the slot, or
   * because its comparison found another token stored.
   */
  lemma HowCallsEnd(s: State, a: Action, o: OpId)
    requires Inv(s) && o in s.ops && !s.ops[o].client.Done? && Step(s, a).ops[o].client.Done?
    ensures var (s', op, result) := (Step(s, a), s.ops[o], Step(s, a).ops[o].client.result);
            && (result.Some? ==> Stores(s, a, result.value) && a.o == o && s'.slot == result)
            && (op.kind.Logout? ==> a == Clear(o) && s'.slot.None?)
            && (op.kind.Refresh? && result.None? ==>
                  || (a == Read(o) && s.slot.None?)
                  || (a == Clear(o) && s'.slot.None?)
                  || (a == Compare(o) && s.slot != op.rt))
  {
    assert Shaped(s.ops[o]);
  }

  /** A logout always has a next step, and its third step at the latest is to empty the slot. */
  lemma LogoutGoesOn(s: State, o: OpId)
    requires o in s.ops && s.ops[o].kind.Logout?
    ensures s.ops[o].client.Start? ==>
              var op' := Step(s, Read(o)).ops[o];
              if s.slot.None? then op'.client.Clearing? else op'.client.Waiting? && op'.rt == s.slot
    ensures s.ops[o].client.Waiting? ==> Step(s, Lose(o)).ops[o].client.Clearing?
    ensures s.ops[o].client.Waiting? && s.ops[o].server.Reply? ==> Step(s, Deliver(o)).ops[o].client.Clearing?
    ensures s.ops[o].client.Clearing? ==> Step(s, Clear(o)).slot.None? && Step(s, Clear(o)).ops[o].client.Done?
  {
  }

  /** Some comparison of this call, in its catch block, found its own token stored. */
  ghost predicate Matched(s0: State, acts: seq<Action>, o: OpId) {
    acts != [] &&
    (var n := |acts| - 1;
     var s := ExecFrom(s0, acts[..n]);
     Matched(s0, acts[..n], o)
     || (acts[n] == Compare(o) && o in s.ops && s.ops[o].client.Caught? && s.slot.Some? && s.slot == s.ops[o].rt))
  }

  /** A refresh about to empty the slot has compared and matched. */
  ghost predicate ClearsAfterMatch(s0: State, acts: seq<Action>) {
    var s := ExecFrom(s0, acts);
    forall o :: o in s.ops && s.ops[o].kind.Refresh? ==>
      && (s.ops[o].client.Waiting? || s.ops[o].client.Caught? ==> s.ops[o].rt.Some?)
      && (s.ops[o].client.Clearing? ==> Matched(s0, acts, o))
  }

  lemma RefreshPath(s: State, a: Action, o: OpId)
    requires o in Step(s, a).ops && Step(s, a).ops[o].kind.Refresh?
    ensures var op' := Step(s, a).ops[o];
            && (op'.client.Waiting? || op'.client.Caught? ==>
                  op'.rt.Some? ||
                  (o in s.ops && op'.rt == s.ops[o].rt && (s.ops[o].client.Waiting? || s.ops[o].client.Caught?)))
            && (op'.client.Clearing? ==>
                  o in s.ops && s.ops[o].kind.Refresh? &&
                  (s.ops[o].client.Clearing? || (a == Compare(o) && s.ops[o].client.Caught? && s.slot == s.ops[o].rt)))
            && (o in s.ops ==> s.ops[o].kind == op'.kind)
  {
  }

  lemma {:induction false} ClearsAfterMatchAlways(s0: State, acts: seq<Action>)
    requires Quiet(s0)
    ensures ClearsAfterMatch(s0, acts)
  {
    if acts == [] {
      assert forall o :: o in s0.ops ==> !InFlight(s0.ops[o]);
    } else {
      var n := |acts| - 1;
      ClearsAfterMatchAlways(s0, acts[..n]);
      hide Step;
      var s := ExecFrom(s0, acts[..n]);
      forall o | o in Step(s, acts[n]).ops && Step(s, acts[n]).ops[o].kind.Refresh?
        ensures var op' := Step(s, acts[n]).ops[o];
                && (op'.client.Waiting? || op'.client.Caught? ==> op'.rt.Some?)
                && (op'.client.Clearing? ==> Matched(s0, acts, o))
      {
        RefreshPath(s, acts[n], o);
      }
    }
  }

  /**
   * In every run from a quiet state: a step that empties the slot ends a logout, or a refresh whose own comparison
   * found its token stored.
   */
  lemma EmptiedOnlyAfterMatch(s0: State, acts: seq<Action>, a: Action)
    requires Inv(s0) && Quiet(s0)
    requires ExecFrom(s0, acts).slot.Some? && Step(ExecFrom(s0, acts), a).slot.None?
    ensures var s := ExecFrom(s0, acts);
            a.Clear? && a.o in s.ops &&
            (s.ops[a.o].kind.Logout? || (s.ops[a.o].kind.Refresh? && Matched(s0, acts, a.o)))
  {
    InvAlways(s0, acts);
    ClearsAfterMatchAlways(s0, acts);
    SlotAfter(ExecFrom(s0, acts), a);
  }

  // ---- Under the Web Lock the session is never lost ----

  /** The live tokens of this browser's session. */
  function Session(s: State): set<Token> {
    s.live - s.others
  }

  /** Nothing is in flight and the stored token is the session's only live one. */
  ghost predicate SignedIn(s: State) {
    Inv(s) && Quiet(s) && s.slot.Some? && Session(s) == {s.slot.value}
  }

  /** The call has read a token and not finished: under the Web Lock, it holds the lock. */
  predicate Holds(op: Op) {
    op.client.Waiting? || op.client.Caught? || op.client.Clearing?
  }

  predicate HasLock(s: State, o: OpId) {
    o in s.ops && Holds(s.ops[o])
  }

  ghost predicate Unlocked(s: State) {
    forall o :: o in s.ops ==> !HasLock(s, o)
  }

  /** Refreshes only, no response lost, the account and Redis well. */
  predicate Healthy(a: Action) {
    match a
    case Begin(_, kind) => kind.Refresh?
    case ServerGet(_, found) => found
    case ServerSet(_, ok) => ok
    case Lose(_) => false
    case _ => true
  }

  /** Besides, no DEL is skipped, and a refresh starts only when no other holds the lock. */
  ghost predicate Orderly(s: State, a: Action) {
    Healthy(a) && (a.ServerDel? ==> a.done) && (a.Read? ==> Unlocked(s))
  }

  ghost predicate LockedRun(s0: State, acts: seq<Action>) {
    acts == [] ||
    (LockedRun(s0, acts[..|acts| - 1]) && Orderly(ExecFrom(s0, acts[..|acts| - 1]), acts[|acts| - 1]))
  }

  /** The tab got a token. */
  predicate Succeeded(op: Op) {
    op.client.Done? && op.client.result.Some?
  }

  predicate Settled(op: Op) {
    Succeeded(op) && op.server.Reply?
  }

  /** While one refresh is out, the session moves from the token it read, through nothing, to the new one. */
  ghost predicate Rotating(s: State, op: Op) {
    && op.client.Waiting? && op.rt == s.slot && s.slot.Some?
    && (op.server.Get? || op.server.Del? ==> Session(s) == {s.slot.value})
    && (op.server.Set? ==> Session(s) == {})
    && !op.server.NoRequest?
    && (op.server.Reply? ==> op.server.token.Some? && Session(s) == {op.server.token.value})
  }

  ghost predicate LockInv(s0: State, s: State) {
    && s.slot.Some?
    && s0.ops.Keys <= s.ops.Keys
    && (forall o :: o in s0.ops ==> s.ops[o] == s0.ops[o])
    && (forall o :: o in s.ops && o !in s0.ops ==>
          s.ops[o].kind.Refresh? && (s.ops[o].client.Start? || Settled(s.ops[o]) || Rotating(s, s.ops[o])))
    && (forall o, o' :: HasLock(s, o) && HasLock(s, o') ==> o == o')
    && (Unlocked(s) ==> Session(s) == {s.slot.value})
  }

  /** A finished call takes no further step. */
  lemma FinishedIsStuck(s: State, a: Action)
    requires !a.OtherMint? && !a.OtherRevoke?
    requires a.o in s.ops ==> !InFlight(s.ops[a.o])
    requires a.o !in s.ops ==> !a.Begin?
    ensures Step(s, a) == s
  {
  }

  lemma LockInvOthers(s0: State, s: State, a: Action)
    requires Numbered(s) && LockInv(s0, s) && (a.OtherMint? || a.OtherRevoke?)
    ensures LockInv(s0, Step(s, a))
  {
    var s' := Step(s, a);
    assert s'.ops == s.ops && s'.slot == s.slot;
    assert Session(s') == Session(s);
    assert forall o :: HasLock(s', o) <==> HasLock(s, o);
  }

  lemma LockInvBegin(s0: State, s: State, o: OpId)
    requires LockInv(s0, s) && o !in s.ops
    ensures LockInv(s0, Step(s, Begin(o, Refresh)))
  {
    var s' := Step(s, Begin(o, Refresh));
    assert Session(s') == Session(s);
    assert forall o' :: HasLock(s', o') <==> HasLock(s, o');
    assert Unlocked(s') ==> Unlocked(s);
  }

  lemma LockInvRead(s0: State, s: State, o: OpId)
    requires LockInv(s0, s) && o in s.ops && s.ops[o].client.Start? && s.ops[o].kind.Refresh? && Unlocked(s)
    requires o !in s0.ops
    ensures LockInv(s0, Step(s, Read(o)))
  {
    var s' := Step(s, Read(o));
    assert Session(s') == Session(s);
    assert HasLock(s', o);
    forall o' | HasLock(s', o') ensures o' == o {
      assert o' != o ==> HasLock(s, o');
    }
  }

  /** Only the acting call changes, so nobody else comes to hold the lock. */
  lemma OthersKeepLock(s: State, a: Action)
    requires forall o :: o in s.ops ==> Shaped(s.ops[o])
    requires !a.OtherMint? && !a.OtherRevoke? && a.o in s.ops
    ensures var s' := Step(s, a);
            s'.ops.Keys == s.ops.Keys && forall o :: o in s.ops && o != a.o ==> s'.ops[o] == s.ops[o]
  {
    OpsStep(s, a);
    hide Step, Shaped;
  }

  lemma LockInvHolder(s0: State, s: State, a: Action)
    requires Inv(s) && LockInv(s0, s) && Orderly(s, a)
    requires !a.OtherMint? && !a.OtherRevoke? && !a.Begin? && HasLock(s, a.o) && a.o !in s0.ops
    ensures LockInv(s0, Step(s, a))
  {
    OthersKeepLock(s, a);
    RotatingStep(s, a, s.ops[a.o]);
    KindKept(s, a);
    hide *;
    HolderMoves(s0, s, Step(s, a), a.o);
  }

  lemma HolderMoves(s0: State, s: State, s': State, o: OpId)
    requires LockInv(s0, s) && HasLock(s, o) && o !in s0.ops
    requires s'.ops.Keys == s.ops.Keys && forall o' :: o' in s.ops && o' != o ==> s'.ops[o'] == s.ops[o']
    requires s'.ops[o].kind.Refresh? && s'.slot.Some?
    requires Rotating(s', s'.ops[o]) || (Settled(s'.ops[o]) && Session(s') == {s'.slot.value})
    ensures LockInv(s0, s')
  {
    hide Session;
    forall o' | o' in s.ops && o' != o ensures !HasLock(s', o') {
      assert HasLock(s', o') ==> HasLock(s, o');
    }
    assert Unlocked(s') ==> !HasLock(s', o);
  }

  lemma KindKept(s: State, a: Action)
    requires !a.OtherMint? && !a.OtherRevoke? && a.o in s.ops
    ensures a.o in Step(s, a).ops && Step(s, a).ops[a.o].kind == s.ops[a.o].kind
  {
  }

  lemma LockInvStep(s0: State, s: State, a: Action)
    requires Quiet(s0) && Inv(s) && LockInv(s0, s) && Orderly(s, a)
    ensures LockInv(s0, Step(s, a))
  {
    if a.OtherMint? || a.OtherRevoke? {
      LockInvOthers(s0, s, a);
    } else if a.o !in s.ops && a.Begin? {
      LockInvBegin(s0, s, a.o);
    } else if a.o !in s.ops || !InFlight(s.ops[a.o]) {
      FinishedIsStuck(s, a);
    } else if s.ops[a.o].client.Start? {
      if a.Read? {
        LockInvRead(s0, s, a.o);
      } else {
        assert Shaped(s.ops[a.o]);
        assert Step(s, a) == s;
      }
    } else if a.Begin? {
      assert Step(s, a) == s;
    } else {
      LockInvHolder(s0, s, a);
    }
  }

  lemma RotatingStep(s: State, a: Action, op: Op)
    requires Inv(s) && Orderly(s, a) && !a.OtherMint? && !a.OtherRevoke? && !a.Begin?
    requires a.o in s.ops && s.ops[a.o] == op && op.kind.Refresh? && Rotating(s, op)
    ensures var s' := Step(s, a);
            && s'.slot.Some?
            && (Rotating(s', s'.ops[a.o]) || (Settled(s'.ops[a.o]) && Session(s') == {s'.slot.value}))
  {
    assert s.slot.value !in s.others;
    if op.server.Get? && a.ServerGet? {
      assert s.slot.value in Session(s);
    }
    if op.server.Del? && a.ServerDel? {
      assert Session(Step(s, a)) == Session(s) - {s.slot.value};
    }
    if op.server.Set? && a.ServerSet? {
      assert s.next !in s.others;
      assert Session(Step(s, a)) == Session(s) + {s.next};
    }
  }

  lemma {:induction false} LockInvAlways(s0: State, acts: seq<Action>)
    requires SignedIn(s0) && LockedRun(s0, acts)
    ensures LockInv(s0, ExecFrom(s0, acts))
  {
    if acts != [] {
      var s, a := ExecFrom(s0, acts[..|acts| - 1]), acts[|acts| - 1];
      LockInvAlways(s0, acts[..|acts| - 1]);
      InvAlways(s0, acts[..|acts| - 1]);
      LockInvStep(s0, s, a);
    } else {
      assert Unlocked(s0) by {
        assert forall o :: o in s0.ops ==> !InFlight(s0.ops[o]);
      }
    }
  }

  /**
   * When every refresh takes the lock and no response is lost, every refresh that finishes succeeds, and whenever the
   * lock is free the stored token is the one live token of the session.
   */
  lemma LockedRotationKeepsSession(s0: State, acts: seq<Action>)
    requires SignedIn(s0) && LockedRun(s0, acts)
    ensures var s := ExecFrom(s0, acts);
            && (forall o :: o in s.ops && o !in s0.ops && s.ops[o].client.Done? ==> Succeeded(s.ops[o]))
            && (Unlocked(s) ==> s.slot.Some? && Session(s) == {s.slot.value})
  {
    LockInvAlways(s0, acts);
  }

  // ---- When the lock holds but requests fail ----

  /** Refreshes only, each under the lock; responses may be lost and the server may fail at any command. */
  ghost predicate OnlyLocked(s0: State, acts: seq<Action>) {
    acts == [] ||
    (var n := |acts| - 1;
     OnlyLocked(s0, acts[..n]) && (acts[n].Begin? ==> acts[n].kind.Refresh?) &&
     (acts[n].Read? ==> Unlocked(ExecFrom(s0, acts[..n]))))
  }

  /** The tab sent a token and got an error. */
  predicate FailedInTab(op: Op) {
    op.client.Done? && op.client.result.None? && op.rt.Some?
  }

  /** A call that holds the lock holds the stored token; one that failed has left no token stored. */
  predicate Fits(slot: Option<Token>, op: Op) {
    op.kind.Refresh? && (Holds(op) ==> slot.Some? && op.rt == slot) && (FailedInTab(op) ==> slot.None?)
  }

  ghost predicate SomeFailed(s0: State, s: State) {
    exists o :: o in s.ops && o !in s0.ops && FailedInTab(s.ops[o])
  }

  ghost predicate SlotInv(s0: State, s: State) {
    && s0.ops.Keys <= s.ops.Keys
    && (forall o :: o in s0.ops ==> s.ops[o] == s0.ops[o])
    && (forall o :: o in s.ops && o !in s0.ops ==> Fits(s.slot, s.ops[o]))
    && (forall o, o' :: HasLock(s, o) && HasLock(s, o') ==> o == o')
    && (s.slot.None? ==> SomeFailed(s0, s))
  }

  /** What one step of a call does to it and to the slot, when every call that holds the lock holds the stored token. */
  lemma CallStep(s: State, a: Action)
    requires !a.OtherMint? && !a.OtherRevoke? && a.o in s.ops && Shaped(s.ops[a.o]) && Fits(s.slot, s.ops[a.o])
    ensures var s', o := Step(s, a), a.o;
            && s'.ops == s.ops[o := s'.ops[o]]
            && Fits(s'.slot, s'.ops[o])
            && (s'.slot != s.slot ==> Holds(s.ops[o]) && !Holds(s'.ops[o]))
            && (s'.slot.None? && s.slot.Some? ==> FailedInTab(s'.ops[o]))
            && (FailedInTab(s.ops[o]) ==> FailedInTab(s'.ops[o]))
            && (Holds(s'.ops[o]) ==> Holds(s.ops[o]) || a.Read?)
  {
  }

  lemma SlotInvCall(s0: State, s: State, a: Action)
    requires SlotInv(s0, s) && (forall o :: o in s.ops ==> Shaped(s.ops[o]))
    requires !a.OtherMint? && !a.OtherRevoke? && a.o in s.ops && a.o !in s0.ops && (a.Read? ==> Unlocked(s))
    ensures SlotInv(s0, Step(s, a))
  {
    CallStep(s, a);
    hide Step, Shaped;
    var s', o := Step(s, a), a.o;
    forall o' | o' in s.ops && o' != o && o' !in s0.ops ensures Fits(s'.slot, s'.ops[o']) {
      assert Holds(s.ops[o']) ==> HasLock(s, o');
      assert Holds(s.ops[o]) ==> HasLock(s, o);
    }
    forall o', o'' | HasLock(s', o') && HasLock(s', o'') ensures o' == o'' {
      assert o' != o ==> HasLock(s, o');
      assert o'' != o ==> HasLock(s, o'');
      assert Holds(s.ops[o]) ==> HasLock(s, o);
    }
    if s'.slot.None? {
      if s.slot.None? {
        var f :| f in s.ops && f !in s0.ops && FailedInTab(s.ops[f]);
        assert FailedInTab(s'.ops[f]);
      } else {
        assert FailedInTab(s'.ops[o]);
      }
    }
  }

  lemma SlotInvStep(s0: State, s: State, a: Action)
    requires Quiet(s0) && SlotInv(s0, s) && (forall o :: o in s.ops ==> Shaped(s.ops[o]))
    requires (a.Begin? ==> a.kind.Refresh?) && (a.Read? ==> Unlocked(s))
    ensures SlotInv(s0, Step(s, a))
  {
    var s' := Step(s, a);
    if a.OtherMint? || a.OtherRevoke? || a.o !in s.ops {
      assert forall o :: HasLock(s', o) <==> HasLock(s, o);
      if s.slot.None? {
        var f :| f in s.ops && f !in s0.ops && FailedInTab(s.ops[f]);
        assert FailedInTab(s'.ops[f]);
      }
    } else if a.o in s0.ops {
      FinishedIsStuck(s, a);
    } else {
      SlotInvCall(s0, s, a);
    }
  }

  lemma {:induction false} SlotInvAlways(s0: State, acts: seq<Action>)
    requires SignedIn(s0) && OnlyLocked(s0, acts)
    ensures SlotInv(s0, ExecFrom(s0, acts))
  {
    if acts != [] {
      var s, a := ExecFrom(s0, acts[..|acts| - 1]), acts[|acts| - 1];
      SlotInvAlways(s0, acts[..|acts| - 1]);
      InvAlways(s0, acts[..|acts| - 1]);
      SlotInvStep(s0, s, a);
    } else {
      assert forall o :: o in s0.ops ==> !InFlight(s0.ops[o]);
    }
  }

  /**
   * Under the lock, with lost responses and server failures anywhere: whenever the lock is free the browser is still
   * signed in if and only if no refresh has failed in its tab, and then the stored token is live.
   */
  lemma LockedSessionKeptIff(s0: State, acts: seq<Action>)
    requires SignedIn(s0) && OnlyLocked(s0, acts) && Unlocked(ExecFrom(s0, acts))
    ensures var s := ExecFrom(s0, acts);
            && (s.slot.Some? <==> forall o :: o in s.ops && o !in s0.ops ==> !FailedInTab(s.ops[o]))
            && (s.slot.Some? ==> s.slot.value in s.live)
  {
    SlotInvAlways(s0, acts);
    InvAlways(s0, acts);
  }

  // ---- Without the lock ----

  /** A refresh that will store a new token when its response is delivered. */
  predicate Carrying(op: Op) {
    op.client.Waiting? && (op.server.Set? || (op.server.Reply? && op.server.token.Some?))
  }

  ghost predicate SomeCarrying(s: State) {
    exists o :: o in s.ops && Carrying(s.ops[o])
  }

  /** The browser is signed in, or about to be. */
  ghost predicate Kept(s: State) {
    (s.slot.Some? && s.slot.value in s.live) || SomeCarrying(s)
  }

  /** In a healthy run a request is only refused for a dead token, and the tab is told. */
  ghost predicate HealthyOp(live: set<Token>, op: Op) {
    && (op.client.Done? ==> !InFlight(op))
    && (!op.client.Done? ==> op.kind.Refresh?)
    && (op.server.Get? || op.server.Del? || op.server.Set? ==> op.client.Waiting?)
    && (op.client.Caught? || op.client.Clearing? ==> op.server == Reply(None))
    && (!op.client.Done? && op.server == Reply(None) ==> op.rt.Some? && op.rt.value !in live)
  }

  ghost predicate AllHealthy(s: State) {
    forall o :: o in s.ops ==> HealthyOp(s.live, s.ops[o])
  }

  ghost predicate HealthyRun(acts: seq<Action>) {
    forall i :: 0 <= i < |acts| ==> Healthy(acts[i])
  }

  lemma HealthyStep(s: State, a: Action)
    requires Inv(s) && AllHealthy(s) && Healthy(a)
    ensures AllHealthy(Step(s, a))
  {
    var s' := Step(s, a);
    KeysStep(s, a);
    forall o | o in s'.ops ensures HealthyOp(s'.live, s'.ops[o]) {
      if o in s.ops {
        assert HealthyOp(s.live, s.ops[o]) && Shaped(s.ops[o]);
        assert s.ops[o].rt.Some? ==> s.ops[o].rt.value < s.next;
      }
    }
  }

  /** The removal takes away a token this tab did not compare, and no refresh has another on its way. */
  ghost predicate SignsOut(s: State, a: Action) {
    && a.Clear? && a.o in s.ops && s.ops[a.o].client.Clearing?
    && s.slot.Some? && s.slot != s.ops[a.o].rt && !SomeCarrying(s)
  }

  /** Calls go on carrying until they deliver; a DEL makes its call carry. */
  lemma CarryingAfter(s: State, a: Action, o: OpId)
    requires AllHealthy(s) && Healthy(a) && o in s.ops
    ensures o in Step(s, a).ops
    ensures Carrying(s.ops[o]) && a != Deliver(o) ==> Carrying(Step(s, a).ops[o])
    ensures a.ServerDel? && a.o == o && s.ops[o].server.Del? && s.ops[o].rt.Some? && s.ops[o].kind.Refresh? ==>
              Carrying(Step(s, a).ops[o])
  {
    assert HealthyOp(s.live, s.ops[o]);
  }

  lemma DeliveryLands(s: State, o: OpId)
    requires Inv(s) && AllHealthy(s) && o in s.ops && Carrying(s.ops[o])
    ensures Kept(Step(s, Deliver(o)))
  {
    assert HealthyOp(s.live, s.ops[o]);
    if s.ops[o].server.Reply? {
      assert Undelivered(s.ops[o], s.ops[o].server.token.value);
    } else {
      assert Step(s, Deliver(o)) == s;
      assert SomeCarrying(s);
    }
  }

  lemma KeptStep(s: State, a: Action)
    requires Inv(s) && AllHealthy(s) && Healthy(a) && Kept(s)
    requires !(a.Clear? && a.o in s.ops && s.ops[a.o].client.Clearing?)
    ensures Kept(Step(s, a))
  {
    hide Inv, Carrying;
    var s' := Step(s, a);
    if a.Deliver? && a.o in s.ops && Carrying(s.ops[a.o]) {
      DeliveryLands(s, a.o);
    } else if SomeCarrying(s) {
      var o :| o in s.ops && Carrying(s.ops[o]);
      CarryingAfter(s, a, o);
    } else {
      SlotKept(s, a);
    }
  }

  lemma SlotKept(s: State, a: Action)
    requires Inv(s) && AllHealthy(s) && Healthy(a) && s.slot.Some? && s.slot.value in s.live
    requires !(a.Clear? && a.o in s.ops && s.ops[a.o].client.Clearing?)
    requires a.Deliver? && a.o in s.ops ==> !Carrying(s.ops[a.o])
    ensures Kept(Step(s, a))
  {
    var s' := Step(s, a);
    KeysStep(s, a);
    if !a.OtherMint? && !a.OtherRevoke? && a.o in s.ops {
      CarryingAfter(s, a, a.o);
      assert HealthyOp(s.live, s.ops[a.o]) && Shaped(s.ops[a.o]);
    }
  }

  lemma ClearStep(s: State, o: OpId)
    requires AllHealthy(s) && Kept(s) && o in s.ops && s.ops[o].client.Clearing?
    ensures Kept(Step(s, Clear(o))) <==> !SignsOut(s, Clear(o))
  {
    var s' := Step(s, Clear(o));
    assert HealthyOp(s.live, s.ops[o]);
    assert s'.slot.None? && s'.ops == s.ops[o := s'.ops[o]] && !Carrying(s'.ops[o]) && !Carrying(s.ops[o]);
    if SomeCarrying(s) {
      var c :| c in s.ops && Carrying(s.ops[c]);
      assert Carrying(s'.ops[c]);
    }
    if SomeCarrying(s') {
      var c :| c in s'.ops && Carrying(s'.ops[c]);
      assert Carrying(s.ops[c]);
    }
  }

  lemma {:induction false} HealthyAlways(s0: State, acts: seq<Action>)
    requires SignedIn(s0) && HealthyRun(acts)
    ensures AllHealthy(ExecFrom(s0, acts)) && Inv(ExecFrom(s0, acts))
  {
    InvAlways(s0, acts);
    if acts != [] {
      HealthyAlways(s0, acts[..|acts| - 1]);
      HealthyStep(ExecFrom(s0, acts[..|acts| - 1]), acts[|acts| - 1]);
    } else {
      assert forall o :: o in s0.ops ==> !InFlight(s0.ops[o]);
    }
  }

  ghost predicate KeptThroughout(s0: State, acts: seq<Action>) {
    Kept(ExecFrom(s0, acts)) && (acts != [] ==> KeptThroughout(s0, acts[..|acts| - 1]))
  }

  ghost predicate NeverSignsOut(s0: State, acts: seq<Action>) {
    acts == [] ||
    (NeverSignsOut(s0, acts[..|acts| - 1]) && !SignsOut(ExecFrom(s0, acts[..|acts| - 1]), acts[|acts| - 1]))
  }

  /**
   * Refreshes in any number of tabs without the lock, no response lost and the server well: the browser stays signed
   * in throughout if and only if no tab removes a token other than the one it compared while no refresh has a new
   * token on its way.
   */
  lemma {:induction false} UnlockedSessionKeptIff(s0: State, acts: seq<Action>)
    requires SignedIn(s0) && HealthyRun(acts)
    ensures KeptThroughout(s0, acts) <==> NeverSignsOut(s0, acts)
  {
    hide Step, Kept, SignsOut, Inv, AllHealthy;
    if acts == [] {
      SignedInKept(s0);
    } else {
      var s, a := ExecFrom(s0, acts[..|acts| - 1]), acts[|acts| - 1];
      UnlockedSessionKeptIff(s0, acts[..|acts| - 1]);
      if KeptThroughout(s0, acts[..|acts| - 1]) {
        HealthyAlways(s0, acts[..|acts| - 1]);
        if a.Clear? && a.o in s.ops && s.ops[a.o].client.Clearing? {
          ClearStep(s, a.o);
        } else {
          KeptStep(s, a);
          OnlyClearsSignOut(s, a);
        }
      }
    }
  }

  lemma SignedInKept(s: State)
    requires SignedIn(s)
    ensures Kept(s)
  {
    assert s.slot.value in Session(s);
  }

  lemma OnlyClearsSignOut(s: State, a: Action)
    requires !(a.Clear? && a.o in s.ops && s.ops[a.o].client.Clearing?)
    ensures !SignsOut(s, a)
  {
  }

  /** Comparing and removing are one step: nothing comes between a successful comparison and its removal. */
  ghost predicate PromptRun(s0: State, acts: seq<Action>) {
    acts == [] ||
    (var n := |acts| - 1;
     var s := ExecFrom(s0, acts[..n]);
     PromptRun(s0, acts[..n]) && forall o :: o in s.ops && s.ops[o].client.Clearing? ==> acts[n] == Clear(o))
  }

  ghost predicate Comparing(s: State) {
    forall o :: o in s.ops && s.ops[o].client.Clearing? ==> s.slot == s.ops[o].rt
  }

  lemma ComparingStep(s: State, a: Action)
    requires AllHealthy(s) && Comparing(s) && forall o :: o in s.ops && s.ops[o].client.Clearing? ==> a == Clear(o)
    ensures Comparing(Step(s, a)) && !SignsOut(s, a)
  {
    var s' := Step(s, a);
    forall o | o in s'.ops && s'.ops[o].client.Clearing? ensures s'.slot == s'.ops[o].rt {
      assert o in s.ops && HealthyOp(s.live, s.ops[o]);
    }
  }

  lemma {:induction false} PromptAlways(s0: State, acts: seq<Action>)
    requires SignedIn(s0) && HealthyRun(acts) && PromptRun(s0, acts)
    ensures Comparing(ExecFrom(s0, acts)) && NeverSignsOut(s0, acts)
  {
    if acts == [] {
      assert forall o :: o in s0.ops ==> !InFlight(s0.ops[o]);
    } else {
      PromptAlways(s0, acts[..|acts| - 1]);
      HealthyAlways(s0, acts[..|acts| - 1]);
      hide Step, Inv, AllHealthy;
      ComparingStep(ExecFrom(s0, acts[..|acts| - 1]), acts[|acts| - 1]);
    }
  }

  /**
   * If comparing and removing were one step, refreshes without the lock would never sign the browser out: with no
   * response lost and the server well the stored token is live, or a refresh has a new one on its way; and with
   * nothing in flight it is live.
   */
  lemma AtomicClearKeepsSession(s0: State, acts: seq<Action>)
    requires SignedIn(s0) && HealthyRun(acts) && PromptRun(s0, acts)
    ensures var s := ExecFrom(s0, acts); Kept(s) && (Quiet(s) ==> s.slot.Some? && s.slot.value in s.live)
  {
    PromptAlways(s0, acts);
    UnlockedSessionKeptIff(s0, acts);
  }

  // ---- Both conditions can fail ----

  lemma Then(s0: State, acts: seq<Action>, a: Action, s: State) returns (more: seq<Action>)
    requires Step(ExecFrom(s0, acts), a) == s
    ensures more == acts + [a] && ExecFrom(s0, more) == s
  {
    more := acts + [a];
    assert more[..|acts|] == acts;
  }

  /** A signed-in browser holding token 0, with two calls of the given shapes. */
  function Racing(slot: Option<Token>, live: set<Token>, next: Token, one: Op, two: Op): State {
    State(slot, live, {}, next, map[1 := one, 2 := two])
  }

  function Holder(): State {
    State(Some(0), {0}, {}, 1, map[])
  }

  /**
   * Without the lock two refreshes of one session can sign the browser out: tab 2 loses the race, sees its own token
   * still stored, and removes the slot just after tab 1 has put the new token there.
   */
  lemma UnlockedRaceSignsOut() returns (a: seq<Action>)
    ensures SignedIn(Holder()) && HealthyRun(a)
    ensures var s := ExecFrom(Holder(), a);
            Quiet(s) && s.slot.None? && Session(s) == {1} && s.ops.Keys == {1, 2}
            && s.ops[1].server == Reply(Some(1)) && s.ops[2].server == Reply(None)
  {
    hide ExecFrom, Inv;
    a := HolderReady();
    var w := Op(Refresh, Waiting, Get, Some(0));
    a := Then(Holder(), a, Begin(1, Refresh),
              State(Some(0), {0}, {}, 1, map[1 := Op(Refresh, Start, NoRequest, None)]));
    a := Then(Holder(), a, Begin(2, Refresh),
              Racing(Some(0), {0}, 1, Op(Refresh, Start, NoRequest, None), Op(Refresh, Start, NoRequest, None)));
    a := Then(Holder(), a, Read(1), Racing(Some(0), {0}, 1, w, Op(Refresh, Start, NoRequest, None)));
    a := Then(Holder(), a, Read(2), Racing(Some(0), {0}, 1, w, w));
    a := Then(Holder(), a, ServerGet(1, true), Racing(Some(0), {0}, 1, w.(server := Del), w));
    a := Then(Holder(), a, ServerDel(1, true), Racing(Some(0), {}, 1, w.(server := Set), w));
    a := Then(Holder(), a, ServerGet(2, true), Racing(Some(0), {}, 1, w.(server := Set), w.(server := Reply(None))));
    a := Then(Holder(), a, Deliver(2),
              Racing(Some(0), {}, 1, w.(server := Set), w.(server := Reply(None), client := Caught)));
    a := UnlockedRaceEnds(a);
  }

  lemma UnlockedRaceEnds(before: seq<Action>) returns (a: seq<Action>)
    requires ExecFrom(Holder(), before)
          == Racing(Some(0), {}, 1, Op(Refresh, Waiting, Set, Some(0)), Op(Refresh, Caught, Reply(None), Some(0)))
    requires HealthyRun(before)
    ensures HealthyRun(a)
    ensures var s := ExecFrom(Holder(), a);
            Quiet(s) && s.slot.None? && Session(s) == {1} && s.ops.Keys == {1, 2}
            && s.ops[1].server == Reply(Some(1)) && s.ops[2].server == Reply(None)
  {
    hide ExecFrom;
    var one := Op(Refresh, Waiting, Reply(Some(1)), Some(0));
    var two := Op(Refresh, Clearing, Reply(None), Some(0));
    a := Then(Holder(), before, Compare(2), Racing(Some(0), {}, 1, one.(server := Set), two));
    a := Then(Holder(), a, ServerSet(1, true), Racing(Some(0), {1}, 2, one, two));
    a := Then(Holder(), a, Deliver(1), Racing(Some(1), {1}, 2, one.(client := Done(Some(1))), two));
    a := Then(Holder(), a, Clear(2), Racing(None, {1}, 2, one.(client := Done(Some(1))), two.(client := Done(None))));
  }

  lemma HolderReady() returns (a: seq<Action>)
    ensures a == [] && ExecFrom(Holder(), a) == Holder() && SignedIn(Holder())
  {
    a := [];
  }

  /** One more action of a browser whose refreshes take the lock. */
  lemma ThenLocked(acts: seq<Action>, a: Action, s: State) returns (more: seq<Action>)
    requires OnlyLocked(Holder(), acts) && Step(ExecFrom(Holder(), acts), a) == s
    requires (a.Begin? ==> a.kind.Refresh?) && (a.Read? ==> Unlocked(ExecFrom(Holder(), acts)))
    ensures more == acts + [a] && ExecFrom(Holder(), more) == s && OnlyLocked(Holder(), more)
  {
    more := Then(Holder(), acts, a, s);
    assert more[..|acts|] == acts;
  }

  lemma NothingDone()
    ensures OnlyLocked(Holder(), [])
  {
  }

  /** A lone refresh whose response is ready but not delivered. */
  lemma ResponseReady() returns (a: seq<Action>)
    ensures OnlyLocked(Holder(), a)
    ensures ExecFrom(Holder(), a) == State(Some(0), {1}, {}, 2, map[1 := Op(Refresh, Waiting, Reply(Some(1)), Some(0))])
  {
    hide ExecFrom, Inv, OnlyLocked;
    a := HolderReady();
    NothingDone();
    var w := Op(Refresh, Waiting, Get, Some(0));
    a := ThenLocked(a, Begin(1, Refresh), State(Some(0), {0}, {}, 1, map[1 := Op(Refresh, Start, NoRequest, None)]));
    a := ThenLocked(a, Read(1), State(Some(0), {0}, {}, 1, map[1 := w]));
    a := ThenLocked(a, ServerGet(1, true), State(Some(0), {0}, {}, 1, map[1 := w.(server := Del)]));
    a := ThenLocked(a, ServerDel(1, true), State(Some(0), {}, {}, 1, map[1 := w.(server := Set)]));
    a := ThenLocked(a, ServerSet(1, true), State(Some(0), {1}, {}, 2, map[1 := w.(server := Reply(Some(1)))]));
  }

  /** Even under the lock, a lost response strands the new token and signs the browser out. */
  lemma LostResponseSignsOut() returns (a: seq<Action>)
    ensures SignedIn(Holder()) && OnlyLocked(Holder(), a)
    ensures var s := ExecFrom(Holder(), a); Quiet(s) && s.slot.None? && Session(s) == {1}
  {
    hide ExecFrom, Inv, OnlyLocked;
    a := HolderReady();
    a := ResponseReady();
    var r := Op(Refresh, Waiting, Reply(Some(1)), Some(0));
    a := ThenLocked(a, Lose(1), State(Some(0), {1}, {}, 2, map[1 := r.(client := Caught)]));
    a := ThenLocked(a, Compare(1), State(Some(0), {1}, {}, 2, map[1 := r.(client := Clearing)]));
    a := ThenLocked(a, Clear(1), State(None, {1}, {}, 2, map[1 := r.(client := Done(None))]));
  }
}

/** The refresh-token handlers and the browser's auth calls, each run from start to end without interruption. */
module AuthServer {
  import opened Common
  import opened TokenRotation

  // ---- The live tokens ----

  /** A SET or DEL of an rt: key. */
  datatype TokenCommand = Put(token: Token, user: UserId) | Drop(token: Token)

  function Replay(log: seq<TokenCommand>): map<Token, UserId> {
    if log == [] then map[] else
      var n := |log| - 1;
      match log[n]
      case Put(t, u) => Replay(log[..n])[t := u]
      case Drop(t) => Replay(log[..n]) - {t}
  }

  /** The last command on the token stored it for this user. */
  ghost predicate StoredLast(log: seq<TokenCommand>, t: Token, u: UserId) {
    exists i :: 0 <= i < |log| && log[i] == Put(t, u) && forall j :: i < j < |log| ==> log[j].token != t
  }

  /** A token is live for a user exactly when it was stored for that user and neither stored again nor deleted since. */
  lemma {:induction false} LiveTokenIff(log: seq<TokenCommand>, t: Token, u: UserId)
    ensures t in Replay(log) && Replay(log)[t] == u <==> StoredLast(log, t, u)
  {
    if log != [] {
      var n := |log| - 1;
      LiveTokenIff(log[..n], t, u);
      if log[n].token == t {
        assert log[n] == Put(t, u) ==> StoredLast(log, t, u);
      } else if StoredLast(log[..n], t, u) {
        var i :| 0 <= i < n && log[..n][i] == Put(t, u) && forall j :: i < j < n ==> log[..n][j].token != t;
        assert log[i] == Put(t, u);
        assert forall j :: i < j < n ==> log[j] == log[..n][j];
      }
    }
  }

  /** The rt: keys in Redis, each holding its user, and the accounts that are not deleted. */
  class TokenServer {
    var tokens: map<Token, UserId>
    var next: Token
    var accounts: set<UserId>
    /** Every SET and DEL so far. */
    ghost var log: seq<TokenCommand>

    ghost predicate Valid()
      reads this
    {
      && tokens == Replay(log)
      && (forall t :: t in tokens ==> t < next)
      && (forall i :: 0 <= i < |log| && log[i].Put? ==> log[i].token < next)
    }

    constructor (accounts: set<UserId>)
      ensures Valid() && tokens == map[] && log == [] && this.accounts == accounts
    {
      tokens, next, log := map[], 0, [];
      this.accounts := accounts;
    }

    /** A new token is not live, and has never been stored before. */
    method NewRefreshToken() returns (token: Token)
      requires Valid()
      modifies this`next
      ensures Valid() && token == old(next) && next == old(next) + 1
      ensures token !in tokens && forall i :: 0 <= i < |log| && log[i].Put? ==> log[i].token != token
    {
      token := next;
      next := next + 1;
    }

    /** The token is one that NewRefreshToken has handed out. */
    method StoreRefreshToken(token: Token, user: UserId)
      requires Valid() && token < next
      modifies this`tokens, this`log
      ensures Valid() && log == old(log) + [Put(token, user)] && tokens == old(tokens)[token := user]
    {
      tokens := tokens[token := user];
      log := log + [Put(token, user)];
      assert log[..|log| - 1] == old(log);
    }

    /** Finds the user the token was last stored for, unless it has been deleted since. */
    method LookupRefreshToken(token: Token) returns (user: Option<UserId>)
      requires Valid()
      ensures forall u :: user == Some(u) <==> StoredLast(log, token, u)
      ensures user.Some? <==> token in tokens
      ensures user.Some? ==> tokens[token] == user.value
    {
      user := if token in tokens then Some(tokens[token]) else None;
      forall u ensures user == Some(u) <==> StoredLast(log, token, u) {
        LiveTokenIff(log, token, u);
      }
    }

    /** DEL of a token that is already gone is not an error. */
    method DeleteRefreshToken(token: Token)
      requires Valid()
      modifies this`tokens, this`log
      ensures Valid() && log == old(log) + [Drop(token)] && tokens == old(tokens) - {token}
    {
      tokens := tokens - {token};
      log := log + [Drop(token)];
      assert log[..|log| - 1] == old(log);
    }

    /** Swaps a live token of a live account for a fresh one of the same user; anything else changes nothing. */
    method RefreshHandler(token: Option<Token>) returns (minted: Option<Token>)
      requires Valid()
      modifies this`tokens, this`next, this`log
      ensures Valid()
      ensures minted.Some? <==> token.Some? && token.value in old(tokens) && old(tokens)[token.value] in accounts
      ensures minted.None? ==> tokens == old(tokens) && next == old(next)
      ensures minted.Some? ==>
        && minted.value !in old(tokens) && minted.value == old(next) && next == old(next) + 1
        && tokens == (old(tokens) - {token.value})[minted.value := old(tokens)[token.value]]
    {
      if token.None? {
        return None;
      }
      var user := LookupRefreshToken(token.value);
      if user.None? {
        return None;
      }
      if user.value !in accounts {
        return None;
      }
      DeleteRefreshToken(token.value);
      var newRT := NewRefreshToken();
      StoreRefreshToken(newRT, user.value);
      return Some(newRT);
    }

    method LoginHandler(user: UserId, passwordMatches: bool) returns (minted: Option<Token>)
      requires Valid()
      modifies this`tokens, this`next, this`log
      ensures Valid()
      ensures minted.Some? <==> user in accounts && passwordMatches
      ensures minted.None? ==> tokens == old(tokens) && next == old(next)
      ensures minted.Some? ==>
        && minted.value !in old(tokens) && minted.value == old(next) && next == old(next) + 1
        && tokens == old(tokens)[minted.value := user]
    {
      if user !in accounts || !passwordMatches {
        return None;
      }
      var rt := NewRefreshToken();
      StoreRefreshToken(rt, user);
      return Some(rt);
    }

    method LogoutHandler(token: Option<Token>)
      requires Valid()
      modifies this`tokens, this`log
      ensures Valid()
      ensures tokens == if token.Some? then old(tokens) - {token.value} else old(tokens)
    {
      if token.Some? {
        DeleteRefreshToken(token.value);
      }
    }
  }

  // ---- What the concurrent protocol does when one call runs alone ----

  function RefreshAlone(found: bool): seq<Action> {
    [Begin(0, Refresh), Read(0), ServerGet(0, found), ServerDel(0, true), ServerSet(0, true), Deliver(0), Compare(0),
     Clear(0)]
  }

  function LoginAlone(ok: bool): seq<Action> {
    [Begin(0, Login), Read(0), ServerSet(0, ok), Deliver(0)]
  }

  function LogoutAlone(): seq<Action> {
    [Begin(0, Logout), Read(0), ServerDel(0, true), Deliver(0), Clear(0)]
  }

  function Run(s: State, acts: seq<Action>): State
    decreases |acts|
  {
    if acts == [] then s else Run(Step(s, acts[0]), acts[1..])
  }

  /** Running forwards from s is ExecFrom. */
  lemma {:induction false} RunIsExec(s: State, acts: seq<Action>)
    ensures Run(s, acts) == ExecFrom(s, acts)
    decreases |acts|
  {
    if |acts| == 1 {
      assert acts[..0] == [] && acts[1..] == [];
      assert ExecFrom(s, acts) == Step(ExecFrom(s, []), acts[0]);
    } else if |acts| > 1 {
      var n := |acts| - 1;
      var rest := acts[1..];
      RunIsExec(Step(s, acts[0]), rest);
      RunIsExec(Step(s, acts[0]), rest[..n - 1]);
      RunIsExec(s, acts[..n]);
      assert acts[..n][1..] == rest[..n - 1] && acts[..n][0] == acts[0] && rest[n - 1] == acts[n];
    }
  }

  /** How a lone refresh leaves the slot and the keys. */
  lemma RefreshAloneEnds(s: State, found: bool)
    requires s.ops == map[] && (s.slot.Some? && s.slot.value in s.live ==> s.next != s.slot.value)
    ensures var s' := ExecFrom(s, RefreshAlone(found));
            if s.slot.Some? && s.slot.value in s.live && found
            then s'.slot == Some(s.next) && s'.live == s.live - {s.slot.value} + {s.next} && s'.next == s.next + 1
            else s'.slot == None && s'.live == s.live && s'.next == s.next
    ensures var s' := ExecFrom(s, RefreshAlone(found)); 0 in s'.ops && s'.ops[0].client == Done(s'.slot)
  {
    RefreshUnrolls(s, found);
    hide ExecFrom;
    RefreshReads(s);
    var s2 := Step(Step(s, Begin(0, Refresh)), Read(0));
    if s.slot.Some? {
      hide Step;
      if s.slot.value in s.live && found {
        RefreshAccepted(s2);
      } else {
        RefreshRefused(s2, found);
      }
    }
  }

  lemma RefreshReads(s: State)
    requires s.ops == map[]
    ensures Step(Step(s, Begin(0, Refresh)), Read(0)) ==
      s.(ops := map[0 := if s.slot.None? then Op(Refresh, Done(None), NoRequest, None)
                         else Op(Refresh, Waiting, Get, s.slot)])
  {
  }

  lemma RefreshAccepted(s: State)
    requires s.ops == map[0 := Op(Refresh, Waiting, Get, s.slot)] && s.slot.Some? && s.slot.value in s.live
    requires s.next != s.slot.value
    ensures Step(Step(Step(Step(Step(Step(s, ServerGet(0, true)), ServerDel(0, true)), ServerSet(0, true)),
                 Deliver(0)), Compare(0)), Clear(0))
         == State(Some(s.next), s.live - {s.slot.value} + {s.next}, s.others, s.next + 1,
                  map[0 := Op(Refresh, Done(Some(s.next)), Reply(Some(s.next)), s.slot)])
  {
    var s4 := Step(Step(s, ServerGet(0, true)), ServerDel(0, true));
    assert s4 == s.(live := s.live - {s.slot.value}, ops := map[0 := Op(Refresh, Waiting, Set, s.slot)]);
  }

  lemma RefreshRefused(s: State, found: bool)
    requires s.ops == map[0 := Op(Refresh, Waiting, Get, s.slot)] && s.slot.Some? && !(s.slot.value in s.live && found)
    ensures Step(Step(Step(Step(Step(Step(s, ServerGet(0, found)), ServerDel(0, true)), ServerSet(0, true)),
                 Deliver(0)), Compare(0)), Clear(0))
         == s.(slot := None, ops := map[0 := Op(Refresh, Done(None), Reply(None), s.slot)])
  {
    var s3 := Step(s, ServerGet(0, found));
    assert s3 == s.(ops := map[0 := Op(Refresh, Waiting, Reply(None), s.slot)]);
    assert Step(Step(s3, ServerDel(0, true)), ServerSet(0, true)) == s3;
  }

  lemma RefreshUnrolls(s: State, found: bool)
    ensures ExecFrom(s, RefreshAlone(found)) ==
      Step(Step(Step(
        Step(Step(Step(Step(Step(s, Begin(0, Refresh)), Read(0)), ServerGet(0, found)), ServerDel(0, true)),
             ServerSet(0, true)),
        Deliver(0)), Compare(0)), Clear(0))
  {
    hide Step;
    var a := RefreshAlone(found);
    RunIsExec(s, a);
    var s1 := Step(s, Begin(0, Refresh));
    var s2 := Step(s1, Read(0));
    var s3 := Step(s2, ServerGet(0, found));
    var s4 := Step(s3, ServerDel(0, true));
    var s5 := Step(s4, ServerSet(0, true));
    var s6 := Step(s5, Deliver(0));
    var s7 := Step(s6, Compare(0));
    assert Run(s, a) == Run(s1, a[1..]) == Run(s2, a[2..]) == Run(s3, a[3..]) == Run(s4, a[4..]);
    assert Run(s4, a[4..]) == Run(s5, a[5..]) == Run(s6, a[6..]) == Run(s7, a[7..]) == Run(Step(s7, Clear(0)), a[8..]);
  }

  lemma LoginAloneEnds(s: State, ok: bool)
    requires s.ops == map[]
    ensures var s' := ExecFrom(s, LoginAlone(ok));
            0 in s'.ops &&
            if ok
            then s'.slot == Some(s.next) && s'.live == s.live + {s.next} && s'.next == s.next + 1
                 && s'.ops[0].client == Done(Some(s.next))
            else s'.slot == s.slot && s'.live == s.live && s'.next == s.next && s'.ops[0].client == Done(None)
  {
    var a := LoginAlone(ok);
    RunIsExec(s, a);
    var s1 := Step(s, Begin(0, Login));
    var s2 := Step(s1, Read(0));
    var s3 := Step(s2, ServerSet(0, ok));
    assert ExecFrom(s, a) == Step(s3, Deliver(0)) by {
      hide Step;
      assert Run(s, a) == Run(s1, a[1..]) == Run(s2, a[2..]) == Run(s3, a[3..]) == Run(Step(s3, Deliver(0)), a[4..]);
    }
  }

  lemma LogoutAloneEnds(s: State)
    requires s.ops == map[]
    ensures var s' := ExecFrom(s, LogoutAlone());
            s'.slot == None && s'.live == (if s.slot.Some? then s.live - {s.slot.value} else s.live) &&
            s'.next == s.next
    ensures var s' := ExecFrom(s, LogoutAlone()); 0 in s'.ops && s'.ops[0].client == Done(None)
  {
    var a := LogoutAlone();
    RunIsExec(s, a);
    var s1 := Step(s, Begin(0, Logout));
    var s2 := Step(s1, Read(0));
    var s3 := Step(s2, ServerDel(0, true));
    var s4 := Step(s3, Deliver(0));
    assert ExecFrom(s, a) == Step(s4, Clear(0)) by {
      hide Step;
      assert Run(s, a) == Run(s1, a[1..]) == Run(s2, a[2..]) == Run(s3, a[3..]);
      assert Run(s3, a[3..]) == Run(s4, a[4..]) == Run(Step(s4, Clear(0)), a[5..]);
    }
  }

  // ---- The browser ----

  /** One browser's localStorage slot, and the server it talks to. */
  class Browser {
    const server: TokenServer
    var slot: Option<Token>

    constructor (server: TokenServer)
      ensures this.server == server && slot == None
    {
      this.server := server;
      slot := None;
    }

    ghost predicate Valid()
      reads this, server
    {
      server.Valid() && (slot.Some? ==> slot.value < server.next)
    }

    /** The protocol state this browser sees, with no call in progress. */
    ghost function View(): State
      reads this, server
    {
      State(slot, server.tokens.Keys, {}, server.next, map[])
    }

    ghost predicate LooksLike(s: State)
      reads this, server
    {
      slot == s.slot && server.tokens.Keys == s.live && server.next == s.next
    }

    /** The account behind the stored token is still there. */
    ghost predicate AccountFound()
      reads this, server
    {
      slot.Some? && slot.value in server.tokens && server.tokens[slot.value] in server.accounts
    }

    method DoRefresh() returns (ok: bool)
      requires Valid()
      modifies this, server`tokens, server`next, server`log
      ensures Valid()
      ensures LooksLike(ExecFrom(old(View()), RefreshAlone(old(AccountFound()))))
      ensures ok <==> old(AccountFound())
      ensures ok ==> slot.Some? && AccountFound() && server.tokens[slot.value] == old(server.tokens[slot.value])
    {
      RefreshAloneEnds(View(), AccountFound());
      var rt := slot;
      if rt.None? {
        return false;
      }
      var data := server.RefreshHandler(rt);
      if data.Some? {
        slot := data;
        return true;
      }
      if slot == rt {
        slot := None;
      }
      return false;
    }

    method Login(user: UserId, passwordMatches: bool) returns (ok: bool)
      requires Valid()
      modifies this, server`tokens, server`next, server`log
      ensures Valid() && (ok <==> user in server.accounts && passwordMatches)
      ensures LooksLike(ExecFrom(old(View()), LoginAlone(ok)))
    {
      LoginAloneEnds(View(), user in server.accounts && passwordMatches);
      var data := server.LoginHandler(user, passwordMatches);
      if data.None? {
        return false;
      }
      slot := data;
      return true;
    }

    method Logout()
      requires Valid()
      modifies this, server`tokens, server`log
      ensures Valid()
      ensures LooksLike(ExecFrom(old(View()), LogoutAlone()))
    {
      LogoutAloneEnds(View());
      var rt := slot;
      if rt.Some? {
        server.LogoutHandler(rt);
      }
      slot := None;
    }
  }
}

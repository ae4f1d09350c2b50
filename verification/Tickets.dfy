/** WebSocket tickets: issue, expiry, and consumption by GETDEL, over any number of connections. */
module Tickets {
  import opened Common
  import opened Decimal

  datatype AuthUser = AuthUser(id: int, username: string)

  function PrintTicket(u: AuthUser): string {
    PrintInt(u.id) + ":" + u.username
  }

  /** Index of the first colon, or the length if there is none. */
  function FirstColon(s: string): (i: nat)
    ensures i <= |s| && (forall k :: 0 <= k < i ==> s[k] != ':') && (i < |s| ==> s[i] == ':')
  {
    if s == "" || s[0] == ':' then 0 else 1 + FirstColon(s[1..])
  }

  lemma FirstColonIs(s: string, n: nat)
    requires n < |s| && s[n] == ':' && forall k :: 0 <= k < n ==> s[k] != ':'
    ensures FirstColon(s) == n
  {
    var i := FirstColon(s);
    assert i <= n && n <= i;
  }

  /** SplitN(val, ":", 2), then ParseInt on the first part. */
  function ParseTicket(val: string): Option<AuthUser> {
    var i := FirstColon(val);
    if i == |val| then None else
      var id := ParseInt(val[..i]);
      if id.None? then None else Some(AuthUser(id.value, val[i + 1..]))
  }

  /** For every int64 id and every username, colons included, the stored value reads back as what was printed. */
  lemma TicketRoundTrip(u: AuthUser)
    ensures ParseTicket(PrintTicket(u)) == if IsInt64(u.id) then Some(u) else None
  {
    var number, val := PrintInt(u.id), PrintTicket(u);
    NatRoundTrip(if u.id < 0 then -u.id else u.id);
    IntRoundTrip(u.id);
    assert forall k :: 0 <= k < |number| ==> number[k] != ':';
    hide ParseInt, PrintInt, FirstColon;
    assert val[|number|] == ':';
    FirstColonIs(val, |number|);
    assert val[..|number|] == number && val[|number| + 1..] == u.username;
  }

  // ---- Runs ----

  type Ticket = string

  datatype Auth = Auth(ticket: Ticket, conn: ConnId, user: AuthUser)

  /** stored are the ws:ticket: keys; issued and auths record who got which ticket and who was let in by one. */
  datatype State = State(stored: map<Ticket, string>, issued: map<Ticket, AuthUser>, auths: seq<Auth>)

  datatype Action =
    | Issue(ticket: Ticket, user: AuthUser)               // a fresh random ticket for a signed-in user
    | Expire(ticket: Ticket)
    | Consume(ticket: Ticket, conn: ConnId, alive: bool)  // alive: the account has not been deleted since

  function Step(s: State, a: Action): State {
    match a
    case Issue(t, u) =>
      if t in s.issued || !IsInt64(u.id) then s
      else s.(stored := s.stored[t := PrintTicket(u)], issued := s.issued[t := u])
    case Expire(t) => s.(stored := s.stored - {t})
    case Consume(t, conn, alive) =>
      if t !in s.stored then s else
      var user := ParseTicket(s.stored[t]);
      State(s.stored - {t}, s.issued, if user.Some? && alive then s.auths + [Auth(t, conn, user.value)] else s.auths)
  }

  function Exec(acts: seq<Action>): State {
    if acts == [] then State(map[], map[], []) else Step(Exec(acts[..|acts| - 1]), acts[|acts| - 1])
  }

  ghost predicate Inv(s: State) {
    && (forall t :: t in s.stored ==> t in s.issued && IsInt64(s.issued[t].id) &&
                                      s.stored[t] == PrintTicket(s.issued[t]))
    && (forall i :: 0 <= i < |s.auths| ==>
          s.auths[i].ticket in s.issued && s.auths[i].user == s.issued[s.auths[i].ticket] &&
          s.auths[i].ticket !in s.stored)
    && (forall i, j :: 0 <= i < j < |s.auths| ==> s.auths[i].ticket != s.auths[j].ticket)
  }

  lemma {:induction false} InvAlways(acts: seq<Action>)
    ensures Inv(Exec(acts))
  {
    if acts != [] {
      InvAlways(acts[..|acts| - 1]);
      InvStep(Exec(acts[..|acts| - 1]), acts[|acts| - 1]);
    }
  }

  /** Over all runs each ticket lets in at most one connection, and as the user it was issued to. */
  lemma TicketsAreSingleUse(acts: seq<Action>)
    ensures var s := Exec(acts);
            && (forall i :: 0 <= i < |s.auths| ==> s.auths[i].ticket in s.issued &&
                                                   s.auths[i].user == s.issued[s.auths[i].ticket])
            && (forall i, j :: 0 <= i < j < |s.auths| ==> s.auths[i].ticket != s.auths[j].ticket)
  {
    InvAlways(acts);
  }

  lemma InvStep(s: State, a: Action)
    requires Inv(s)
    ensures Inv(Step(s, a))
  {
    hide ParseTicket, PrintTicket;
    if a.Consume? && a.ticket in s.stored {
      TicketRoundTrip(s.issued[a.ticket]);
    }
  }

  /** A ticket that is still stored lets its live user in, and is gone afterwards. */
  lemma StoredTicketAdmits(acts: seq<Action>, t: Ticket, conn: ConnId)
    requires t in Exec(acts).stored
    ensures var s' := Step(Exec(acts), Consume(t, conn, true));
            t in Exec(acts).issued && s'.auths == Exec(acts).auths + [Auth(t, conn, Exec(acts).issued[t])] &&
            t !in s'.stored
  {
    InvAlways(acts);
    TicketRoundTrip(Exec(acts).issued[t]);
  }

  /** A ticket that has expired admits nobody, ever after. */
  lemma {:induction false} ExpiredAdmitsNobody(acts: seq<Action>, upto: nat, t: Ticket)
    requires upto < |acts| && acts[upto] == Expire(t) && t in Exec(acts[..upto]).issued
    ensures t !in Exec(acts).stored && t in Exec(acts).issued
    decreases |acts|
  {
    var n := |acts| - 1;
    if upto == n {
      IssuedStays(Exec(acts[..n]), acts[n], t);
    } else {
      assert acts[..n][..upto] == acts[..upto];
      ExpiredAdmitsNobody(acts[..n], upto, t);
      IssuedStays(Exec(acts[..n]), acts[n], t);
    }
  }

  lemma IssuedStays(s: State, a: Action, t: Ticket)
    requires t in s.issued
    ensures t in Step(s, a).issued && Step(s, a).issued[t] == s.issued[t]
    ensures t in Step(s, a).stored ==> t in s.stored && a != Expire(t) && !(a.Consume? && a.ticket == t)
  {
  }

  /**
   * A ticket of an account erased since admits nobody, and is gone all the same; nor does a ticket that is not stored.
   */
  lemma ErasedOrUnknownAdmitsNobody(s: State, t: Ticket, conn: ConnId)
    ensures Step(s, Consume(t, conn, false)) == s.(stored := s.stored - {t})
    ensures t !in s.stored ==> forall alive :: Step(s, Consume(t, conn, alive)) == s
  {
  }

  /** The handlers over Redis, with the record of who was given and who used which ticket. */
  class TicketStore {
    var stored: map<Ticket, string>
    ghost var issued: map<Ticket, AuthUser>
    ghost var auths: seq<Auth>

    ghost function View(): State
      reads this
    {
      State(stored, issued, auths)
    }

    constructor ()
      ensures View() == Exec([])
    {
      stored, issued, auths := map[], map[], [];
    }

    /** The ticket is 16 fresh random bytes, the user one of the accounts. */
    method Issue(ticket: Ticket, user: AuthUser)
      requires ticket !in issued && IsInt64(user.id)
      modifies this
      ensures View() == Step(old(View()), Action.Issue(ticket, user))
      ensures ticket in stored && ParseTicket(stored[ticket]) == Some(user)
    {
      TicketRoundTrip(user);
      var val := PrintInt(user.id) + ":" + user.username;
      stored := stored[ticket := val];
      issued := issued[ticket := user];
    }

    /** GETDEL and parse, then the check that the account is still there: the ticket is gone either way. */
    method Consume(ticket: Ticket, conn: ConnId, alive: bool) returns (user: Option<AuthUser>)
      modifies this
      ensures View() == Step(old(View()), Action.Consume(ticket, conn, alive))
      ensures user.Some? <==> |auths| == |old(auths)| + 1
      ensures user.Some? ==> auths == old(auths) + [Auth(ticket, conn, user.value)]
    {
      user := None;
      if ticket in stored {
        var val := stored[ticket];
        stored := stored - {ticket};
        var i := FirstColon(val);
        if i < |val| {
          var id := ParseInt(val[..i]);
          if id.Some? {
            user := Some(AuthUser(id.value, val[i + 1..]));
          }
        }
        assert user == ParseTicket(val);
        if !alive {
          user := None;
        }
      }
      auths := auths + if user.Some? then [Auth(ticket, conn, user.value)] else [];
    }
  }
}

/**
 * Users, invites, contacts, messages and the deletion log, with every request as one step on the whole database. names
 * is the unique index on users.username; times are the database's NOW().
 */
module Accounts {
  import opened Common
  import opened Decimal
  import opened MessageTable

  datatype User = User(username: string, passwordHash: string, publicKey: Option<string>, deletedAt: Option<int>)
  datatype Invite = Invite(createdBy: string, usedBy: Option<string>, expiresAt: Option<int>)
  datatype AuditRow = AuditRow(user: UserId, messagesPurged: nat, invitesExpired: nat)

  datatype Db = Db(users: map<UserId, User>, names: map<string, UserId>, nextUser: UserId,
                   invites: map<string, Invite>, contacts: set<(UserId, UserId)>,
                   messages: Table, log: seq<AuditRow>, now: int)

  datatype Request =
    | Tick(until: int)
    | CreateInvite(code: string, createdBy: string, expiresAt: Option<int>)
    | ResetInvite(code: string)
    | Register(code: string, username: string, hash: string)
    | AddContact(user: UserId, target: string)
    | RemoveContact(user: UserId, target: string)
    | SendMessage(user: UserId, to: string, body: string, iv: string, encrypted: bool, clientId: string)
    | MarkRead(user: UserId, peer: UserId)
    | DeleteMessage(user: UserId, id: int)
    | DeleteAccount(user: UserId)

  function Empty(): Db {
    Db(map[], map[], 1, map[], {}, Table([], 1), [], 0)
  }

  predicate Live(db: Db, u: UserId) {
    u in db.users && db.users[u].deletedAt.None?
  }

  /** SELECT id FROM users WHERE username = name AND deleted_at IS NULL. */
  predicate LiveName(db: Db, name: string) {
    name in db.names && Live(db, db.names[name])
  }

  // ---- Invites and registration ----

  predicate Redeemable(i: Invite, now: int) {
    i.usedBy.None? && (i.expiresAt.Some? ==> i.expiresAt.value > now)
  }

  predicate CanRegister(db: Db, code: string, username: string) {
    code in db.invites && Redeemable(db.invites[code], db.now) && username !in db.names
  }

  /** The code is marked and the user inserted together, or neither; a duplicate name still burns an id. */
  function Registered(db: Db, code: string, username: string, hash: string): Db {
    if code !in db.invites || !Redeemable(db.invites[code], db.now) then db
    else if username in db.names then db.(nextUser := db.nextUser + 1)
    else db.(invites := db.invites[code := db.invites[code].(usedBy := Some(username))],
             users := db.users[db.nextUser := User(username, hash, None, None)],
             names := db.names[username := db.nextUser],
             nextUser := db.nextUser + 1)
  }

  function InviteCreated(db: Db, code: string, createdBy: string, expiresAt: Option<int>): Db {
    if code in db.invites then db else db.(invites := db.invites[code := Invite(createdBy, None, expiresAt)])
  }

  function InviteReset(db: Db, code: string): Db {
    if code !in db.invites then db else db.(invites := db.invites[code := db.invites[code].(usedBy := None)])
  }

  // ---- Contacts ----

  /** The target must be live, and the table's CHECK refuses a user's own id. */
  function ContactAdded(db: Db, user: UserId, target: string): Db {
    if LiveName(db, target) && db.names[target] != user then db.(contacts := db.contacts + {(user, db.names[target])})
    else db
  }

  function ContactRemoved(db: Db, user: UserId, target: string): Db {
    if target in db.names then db.(contacts := db.contacts - {(user, db.names[target])}) else db
  }

  /** ListContacts. */
  function ContactIDs(db: Db, user: UserId): set<UserId> {
    set p | p in db.contacts && p.0 == user && Live(db, p.1) :: p.1
  }

  /** GetContactFollowerIDs, the fan-out of presence events. */
  function FollowerIDs(db: Db, user: UserId): set<UserId> {
    set p | p in db.contacts && p.1 == user && Live(db, p.0) :: p.0
  }

  // ---- Messages ----

  function SentBy(u: UserId): Row -> bool {
    (r: Row) => r.sender == u
  }

  function CountSent(rows: seq<Row>, u: UserId): nat {
    |Select(rows, SentBy(u))|
  }

  function MessageSent(db: Db, user: UserId, to: string, body: string, iv: string, encrypted: bool,
                       clientId: string): Db {
    if !LiveName(db, to) then db
    else db.(messages := Inserted(db.messages, Draft(user, db.names[to], body, iv, encrypted, clientId)))
  }

  // ---- Erasure ----

  /** 'deleted_' || id::text */
  function AnonymousName(u: UserId): string {
    "deleted_" + PrintInt(u)
  }

  /** The anonymous name is free, or already the user's own: the unique index admits the update. */
  predicate CanErase(db: Db, u: UserId) {
    Live(db, u) && (AnonymousName(u) in db.names ==> db.names[AnonymousName(u)] == u)
  }

  predicate Voids(i: Invite, username: string) {
    i.createdBy == username && i.usedBy.None?
  }

  function VoidedCodes(invites: map<string, Invite>, username: string): set<string> {
    set c | c in invites && Voids(invites[c], username)
  }

  function InvitesVoided(invites: map<string, Invite>, username: string, now: int): map<string, Invite> {
    map c | c in invites :: if Voids(invites[c], username) then invites[c].(expiresAt := Some(now)) else invites[c]
  }

  function ContactsWithout(contacts: set<(UserId, UserId)>, u: UserId): set<(UserId, UserId)> {
    set p | p in contacts && p.0 != u && p.1 != u
  }

  function Erased(db: Db, u: UserId): Db {
    if !CanErase(db, u) then db else
    var username := db.users[u].username;
    db.(users := db.users[u := User(AnonymousName(u), "", None, Some(db.now))],
        names := (db.names - {username})[AnonymousName(u) := u],
        messages := db.messages.(rows := Purged(db.messages.rows, u)),
        invites := InvitesVoided(db.invites, username, db.now),
        contacts := ContactsWithout(db.contacts, u),
        log := db.log + [AuditRow(u, CountSent(db.messages.rows, u), |VoidedCodes(db.invites, username)|)])
  }

  // ---- Runs ----

  /** Requests other than registration, invites and time are made by a signed-in, live user. */
  function Step(db: Db, r: Request): Db {
    match r
    case Tick(until) => if until > db.now then db.(now := until) else db
    case CreateInvite(code, createdBy, expiresAt) => InviteCreated(db, code, createdBy, expiresAt)
    case ResetInvite(code) => InviteReset(db, code)
    case Register(code, username, hash) => Registered(db, code, username, hash)
    case AddContact(user, target) => if Live(db, user) then ContactAdded(db, user, target) else db
    case RemoveContact(user, target) => if Live(db, user) then ContactRemoved(db, user, target) else db
    case SendMessage(user, to, body, iv, encrypted, clientId) =>
      if Live(db, user) then MessageSent(db, user, to, body, iv, encrypted, clientId) else db
    case MarkRead(user, peer) =>
      if Live(db, user) then db.(messages := db.messages.(rows := Marked(db.messages.rows, user, peer, db.now))) else db
    case DeleteMessage(user, id) =>
      if Live(db, user) then db.(messages := db.messages.(rows := SoftDeleted(db.messages.rows, id, user, db.now)))
      else db
    case DeleteAccount(user) => Erased(db, user)
  }

  function Exec(reqs: seq<Request>): Db {
    if reqs == [] then Empty() else Step(Exec(reqs[..|reqs| - 1]), reqs[|reqs| - 1])
  }

  // ---- What every request keeps ----

  ghost predicate IndexExact(db: Db) {
    && (forall u :: u in db.users ==> u < db.nextUser && db.users[u].username in db.names &&
                                      db.names[db.users[u].username] == u)
    && (forall n :: n in db.names ==> db.names[n] in db.users && db.users[db.names[n]].username == n)
  }

  ghost predicate ContactsLive(db: Db) {
    forall p :: p in db.contacts ==> p.0 != p.1 && Live(db, p.0) && Live(db, p.1)
  }

  predicate Blank(r: Row) {
    r.body == "" && r.iv.None? && !r.encrypted
  }

  ghost predicate SendersErased(db: Db) {
    forall i :: 0 <= i < |db.messages.rows| ==>
      db.messages.rows[i].sender in db.users && (!Live(db, db.messages.rows[i].sender) ==> Blank(db.messages.rows[i]))
  }

  /** Each deleted user has exactly one audit row, and nobody else has any. */
  ghost predicate Audited(db: Db) {
    && (forall i :: 0 <= i < |db.log| ==>
          db.log[i].user in db.users && !Live(db, db.log[i].user) &&
          db.log[i].messagesPurged == CountSent(db.messages.rows, db.log[i].user))
    && (forall i, j :: 0 <= i < j < |db.log| ==> db.log[i].user != db.log[j].user)
    && (forall u :: u in db.users && !Live(db, u) ==> exists i :: 0 <= i < |db.log| && db.log[i].user == u)
  }

  /** What is left of a deleted user: the anonymous name and the time of the deletion. */
  ghost predicate RowErased(db: Db, u: UserId) {
    && u in db.users && db.users[u].username == "deleted_" + PrintInt(u)
    && db.users[u].passwordHash == "" && db.users[u].publicKey == None
    && db.users[u].deletedAt.Some? && db.users[u].deletedAt.value <= db.now
  }

  ghost predicate RowsErased(db: Db) {
    forall u :: u in db.users && !Live(db, u) ==> RowErased(db, u)
  }

  ghost predicate Inv(db: Db) {
    IndexExact(db) && ContactsLive(db) && SendersErased(db) && Audited(db) && RowsErased(db)
  }

  /** Erasure leaves the row blank, and nothing touches it afterwards. */
  lemma RowsStep(db: Db, r: Request, u: UserId)
    requires u in db.users && (!Live(db, u) ==> RowErased(db, u)) && IndexExact(db)
    ensures u in Step(db, r).users && (!Live(Step(db, r), u) ==> RowErased(Step(db, r), u))
    ensures !Live(db, u) ==> Step(db, r).users[u] == db.users[u]
  {
    hide PrintInt, InvitesVoided, ContactsWithout, Purged, CountSent, Marked, SoftDeleted, Inserted;
  }

  lemma RowsErasedStep(db: Db, r: Request)
    requires IndexExact(db) && RowsErased(db)
    ensures RowsErased(Step(db, r))
  {
    hide Step, RowErased, IndexExact;
    forall u | u in Step(db, r).users && !Live(Step(db, r), u) ensures RowErased(Step(db, r), u) {
      if u in db.users {
        RowsStep(db, r, u);
      } else {
        NewUsersLive(db, r, u);
      }
    }
  }

  lemma IndexStep(db: Db, r: Request)
    requires IndexExact(db)
    ensures IndexExact(Step(db, r))
  {
  }

  /** Only registration and erasure change who is live, and nobody comes back. */
  lemma LiveAfter(db: Db, r: Request, u: UserId)
    requires IndexExact(db) && u in db.users
    ensures u in Step(db, r).users
    ensures Live(Step(db, r), u) <==> Live(db, u) && !(r == DeleteAccount(u) && CanErase(db, u))
  {
  }

  lemma ContactsStep(db: Db, r: Request)
    requires IndexExact(db) && ContactsLive(db)
    ensures ContactsLive(Step(db, r))
  {
    var db' := Step(db, r);
    forall p | p in db'.contacts ensures p.0 != p.1 && Live(db', p.0) && Live(db', p.1) {
      if p in db.contacts {
        LiveAfter(db, r, p.0);
        LiveAfter(db, r, p.1);
      }
    }
  }

  /** A request changes no message's sender, and adds messages of its own live user only. */
  lemma RowsAfter(db: Db, r: Request)
    ensures var (rows, rows') := (db.messages.rows, Step(db, r).messages.rows);
            || SameMessages(rows, rows')
            || (r.SendMessage? && Live(db, r.user) && |rows'| == |rows| + 1 && rows'[..|rows|] == rows &&
                rows'[|rows|].sender == r.user)
  {
  }

  lemma BlankStays(db: Db, r: Request, i: nat)
    requires i < |db.messages.rows|
    ensures i < |Step(db, r).messages.rows|
    ensures Blank(db.messages.rows[i]) ==> Blank(Step(db, r).messages.rows[i])
    ensures r == DeleteAccount(db.messages.rows[i].sender) && CanErase(db, r.user) ==>
              Blank(Step(db, r).messages.rows[i])
  {
  }

  lemma SendersStep(db: Db, r: Request)
    requires IndexExact(db) && SendersErased(db)
    ensures SendersErased(Step(db, r))
  {
    var db' := Step(db, r);
    var rows, rows' := db.messages.rows, db'.messages.rows;
    RowsAfter(db, r);
    forall i | 0 <= i < |rows'|
      ensures rows'[i].sender in db'.users && (!Live(db', rows'[i].sender) ==> Blank(rows'[i]))
    {
      if i < |rows| {
        assert rows'[i].sender == rows[i].sender;
        BlankStays(db, r, i);
        LiveAfter(db, r, rows[i].sender);
      } else {
        LiveAfter(db, r, r.user);
      }
    }
  }

  lemma CountAfter(db: Db, r: Request, u: UserId)
    requires !Live(db, u) || !r.SendMessage?
    ensures CountSent(Step(db, r).messages.rows, u) == CountSent(db.messages.rows, u)
  {
    var rows, rows' := db.messages.rows, Step(db, r).messages.rows;
    RowsAfter(db, r);
    if SameMessages(rows, rows') {
      SelectSameIds(rows, rows', SentBy(u), SentBy(u));
    }
  }

  lemma AuditRowsKept(db: Db, r: Request)
    requires IndexExact(db) && Audited(db)
    ensures var db' := Step(db, r);
            forall i :: 0 <= i < |db'.log| ==>
              db'.log[i].user in db'.users && !Live(db', db'.log[i].user) &&
              db'.log[i].messagesPurged == CountSent(db'.messages.rows, db'.log[i].user)
  {
    hide Step, CountSent;
    var db' := Step(db, r);
    LogAfter(db, r);
    forall i | 0 <= i < |db'.log|
      ensures db'.log[i].user in db'.users && !Live(db', db'.log[i].user)
      ensures db'.log[i].messagesPurged == CountSent(db'.messages.rows, db'.log[i].user)
    {
      assert i < |db.log| ==> db'.log[i] == db.log[i];
      LiveAfter(db, r, db'.log[i].user);
      CountAfter(db, r, db'.log[i].user);
    }
  }

  lemma AuditedStep(db: Db, r: Request)
    requires IndexExact(db) && Audited(db)
    ensures Audited(Step(db, r))
  {
    AuditRowsKept(db, r);
    hide Step, CountSent, CanErase;
    var db' := Step(db, r);
    LogAfter(db, r);
    forall u | u in db'.users && !Live(db', u) ensures exists i :: 0 <= i < |db'.log| && db'.log[i].user == u {
      if u in db.users {
        LiveAfter(db, r, u);
        if !Live(db, u) {
          var i :| 0 <= i < |db.log| && db.log[i].user == u;
          assert db'.log[i] == db.log[i];
        } else {
          assert db'.log[|db.log|].user == u;
        }
      } else {
        NewUsersLive(db, r, u);
      }
    }
    forall i, j | 0 <= i < j < |db'.log| ensures db'.log[i].user != db'.log[j].user {
      assert db'.log[i] == db.log[i];
      assert j < |db.log| ==> db'.log[j] == db.log[j];
      assert j == |db.log| ==> Live(db, db'.log[j].user);
    }
  }

  lemma LogAfter(db: Db, r: Request)
    ensures r.DeleteAccount? && CanErase(db, r.user) ==>
      |Step(db, r).log| == |db.log| + 1 && Step(db, r).log[..|db.log|] == db.log
      && Step(db, r).log[|db.log|].user == r.user && Live(db, r.user) &&
         Step(db, r).log[|db.log|].messagesPurged == CountSent(db.messages.rows, r.user)
    ensures !(r.DeleteAccount? && CanErase(db, r.user)) ==> Step(db, r).log == db.log
  {
  }

  lemma NewUsersLive(db: Db, r: Request, u: UserId)
    requires u !in db.users && u in Step(db, r).users
    ensures Live(Step(db, r), u)
  {
  }

  lemma {:induction false} InvAlways(reqs: seq<Request>)
    ensures Inv(Exec(reqs))
  {
    if reqs != [] {
      var db, r := Exec(reqs[..|reqs| - 1]), reqs[|reqs| - 1];
      InvAlways(reqs[..|reqs| - 1]);
      hide Step, IndexExact, ContactsLive, SendersErased, Audited, RowsErased;
      IndexStep(db, r);
      ContactsStep(db, r);
      SendersStep(db, r);
      AuditedStep(db, r);
      RowsErasedStep(db, r);
    }
  }

  /**
   * Over all runs: contacts relate only live users; every message a deleted user ever sent is blank; of each deleted
   * user's own row only the anonymous name and the time are left; and each deleted user has exactly one audit row,
   * whose purge count is the number of messages they had sent.
   */
  lemma ErasureHolds(reqs: seq<Request>)
    ensures var db := Exec(reqs);
            && (forall p :: p in db.contacts ==> p.0 != p.1 && Live(db, p.0) && Live(db, p.1))
            && (forall m :: m in db.messages.rows && !Live(db, m.sender) ==>
                  m.body == "" && m.iv == None && !m.encrypted)
            && (forall u :: u in db.users && db.users[u].deletedAt.Some? ==>
                  db.users[u] == User("deleted_" + PrintInt(u), "", None, db.users[u].deletedAt) &&
                  db.users[u].deletedAt.value <= db.now)
            && (forall u :: u in db.users && !Live(db, u) ==>
                  exists i :: 0 <= i < |db.log| && db.log[i].user == u &&
                              db.log[i].messagesPurged == CountSent(db.messages.rows, u)
                              && forall j :: 0 <= j < |db.log| && j != i ==> db.log[j].user != u)
  {
    hide Exec, PrintInt;
    InvAlways(reqs);
    var db := Exec(reqs);
    forall u | u in db.users && db.users[u].deletedAt.Some?
      ensures db.users[u] == User("deleted_" + PrintInt(u), "", None, db.users[u].deletedAt) &&
              db.users[u].deletedAt.value <= db.now
    {
      assert RowErased(db, u);
    }
    forall u | u in db.users && !Live(db, u)
      ensures exists i :: 0 <= i < |db.log| && db.log[i].user == u &&
                          db.log[i].messagesPurged == CountSent(db.messages.rows, u)
                          && forall j :: 0 <= j < |db.log| && j != i ==> db.log[j].user != u
    {
      var i :| 0 <= i < |db.log| && db.log[i].user == u;
      assert forall j :: 0 <= j < |db.log| && j != i ==> db.log[j].user != u;
    }
  }

  lemma RowFacts(reqs: seq<Request>, u: UserId)
    requires u in Exec(reqs).users
    ensures IndexExact(Exec(reqs)) && (!Live(Exec(reqs), u) ==> RowErased(Exec(reqs), u))
  {
    InvAlways(reqs);
    hide Exec;
  }

  /** Once deleted, a user's row never changes again. */
  lemma {:induction false} ErasedRowIsFinal(reqs: seq<Request>, upto: nat, u: UserId)
    requires upto <= |reqs| && u in Exec(reqs[..upto]).users && !Live(Exec(reqs[..upto]), u)
    ensures u in Exec(reqs).users && Exec(reqs).users[u] == Exec(reqs[..upto]).users[u]
    decreases |reqs|
  {
    if upto == |reqs| {
      assert reqs[..upto] == reqs;
    } else {
      var n := |reqs| - 1;
      assert reqs[..n][..upto] == reqs[..upto];
      ErasedRowIsFinal(reqs[..n], upto, u);
      RowFacts(reqs[..n], u);
      RowsStep(Exec(reqs[..n]), reqs[n], u);
      hide Step, RowErased, IndexExact;
    }
  }

  /** The whole effect of one erasure, column by column. */
  lemma ErasureEffects(db: Db, u: UserId)
    requires IndexExact(db) && CanErase(db, u)
    ensures var (db', name) := (Erased(db, u), db.users[u].username);
            && db'.users == db.users[u := User("deleted_" + PrintInt(u), "", None, Some(db.now))]
            && (forall n :: n in db'.names <==> n == "deleted_" + PrintInt(u) || (n in db.names && n != name))
            && (forall p :: p in db'.contacts <==> p in db.contacts && p.0 != u && p.1 != u)
            && (forall c :: c in db'.invites <==> c in db.invites)
            && (forall c :: c in db.invites ==>
                  db'.invites[c] == if db.invites[c].createdBy == name && db.invites[c].usedBy.None?
                                    then db.invites[c].(expiresAt := Some(db.now)) else db.invites[c])
            && db'.nextUser == db.nextUser && db'.now == db.now
  {
    hide PrintInt, Purged, CountSent;
  }

  lemma ErasureBlanksMessages(db: Db, u: UserId)
    requires CanErase(db, u)
    ensures var (rows, rows') := (db.messages.rows, Erased(db, u).messages.rows);
            && |rows'| == |rows|
            && forall i :: 0 <= i < |rows| ==>
                 rows'[i] == if rows[i].sender == u then rows[i].(body := "", iv := None, encrypted := false)
                             else rows[i]
  {
    hide PrintInt, CountSent;
  }

  /** The audit row counts the user's messages, and the unused invites they had created. */
  lemma ErasureIsAudited(db: Db, u: UserId)
    requires CanErase(db, u)
    ensures var name := db.users[u].username;
            var unused := set c | c in db.invites && db.invites[c].createdBy == name && db.invites[c].usedBy.None?;
            var sent := set i | 0 <= i < |db.messages.rows| && db.messages.rows[i].sender == u;
            Erased(db, u).log == db.log + [AuditRow(u, |sent|, |unused|)]
  {
    hide PrintInt, Purged;
    CountSentIs(db.messages.rows, u);
    assert SentIndices(db.messages.rows, u) == set i | 0 <= i < |db.messages.rows| && db.messages.rows[i].sender == u;
    var name := db.users[u].username;
    var unused := set c | c in db.invites && db.invites[c].createdBy == name && db.invites[c].usedBy.None?;
    assert VoidedCodes(db.invites, name) == unused;
  }

  function SentIndices(rows: seq<Row>, u: UserId): set<int> {
    set i | 0 <= i < |rows| && rows[i].sender == u
  }

  lemma SentIndicesStep(rows: seq<Row>, u: UserId)
    requires rows != []
    ensures var n := |rows| - 1;
            |SentIndices(rows, u)| == |SentIndices(rows[..n], u)| + (if rows[n].sender == u then 1 else 0)
  {
    var n := |rows| - 1;
    var before := SentIndices(rows[..n], u);
    assert SentIndices(rows, u) == if rows[n].sender == u then before + {n} else before;
  }

  lemma {:induction false} CountSentIs(rows: seq<Row>, u: UserId)
    ensures CountSent(rows, u) == |SentIndices(rows, u)|
  {
    if rows == [] {
      assert SentIndices(rows, u) == {};
    } else {
      var n := |rows| - 1;
      CountSentIs(rows[..n], u);
      SentIndicesStep(rows, u);
      hide SentIndices;
      assert Select(rows, SentBy(u)) == Select(rows[..n], SentBy(u)) + (if rows[n].sender == u then [rows[n]] else []);
    }
  }

  /** Presence events go to exactly the users whose contact list has the subject. */
  lemma FollowersAreReverseContacts(reqs: seq<Request>, u: UserId, f: UserId)
    ensures f in FollowerIDs(Exec(reqs), u) <==> u in ContactIDs(Exec(reqs), f)
    ensures f in FollowerIDs(Exec(reqs), u) ==> Live(Exec(reqs), u) && Live(Exec(reqs), f) && f != u
  {
    hide Exec;
    InvAlways(reqs);
    assert (f, u) in Exec(reqs).contacts ==> Live(Exec(reqs), u) && Live(Exec(reqs), f);
    assert f in FollowerIDs(Exec(reqs), u) <==> (f, u) in Exec(reqs).contacts;
  }

  // ---- What each request does ----

  /** Contacts change only by a live user's own requests, one pair at a time, and by erasure. */
  lemma ContactRequests(db: Db, user: UserId, target: string)
    ensures Step(db, AddContact(user, target)) ==
      if Live(db, user) && target in db.names && Live(db, db.names[target]) && db.names[target] != user
      then db.(contacts := db.contacts + {(user, db.names[target])}) else db
    ensures Step(db, RemoveContact(user, target)) ==
      if Live(db, user) && target in db.names then db.(contacts := db.contacts - {(user, db.names[target])}) else db
  {
  }

  /** A live user's message to a live name is stored with all its columns, once for each client id. */
  lemma SendRequest(db: Db, user: UserId, to: string, body: string, iv: string, encrypted: bool, clientId: string)
    ensures var db' := Step(db, SendMessage(user, to, body, iv, encrypted, clientId));
            var rows := db.messages.rows;
            && db' == db.(messages := db'.messages)
            && (if !Live(db, user) || to !in db.names || !Live(db, db.names[to]) then db' == db
                else if exists r :: r in rows && r.sender == user && r.clientId == clientId
                then db'.messages.rows == rows
                else db'.messages.rows == rows + [Row(db.messages.nextId, user, db.names[to], body, Some(iv), encrypted,
                                                      clientId, None, None)])
  {
    var rows := db.messages.rows;
    if r :| r in rows && r.sender == user && r.clientId == clientId {
      var i :| 0 <= i < |rows| && rows[i] == r;
      assert HasKey(rows[i], user, clientId);
    }
  }

  /** Reading and deleting touch only the messages they are about, for a live user, at the current time. */
  lemma MessageRequests(db: Db, user: UserId, peer: UserId, id: int, i: nat)
    requires i < |db.messages.rows|
    ensures var (r, db') := (db.messages.rows[i], Step(db, MarkRead(user, peer)));
            && db' == db.(messages := db'.messages) && |db'.messages.rows| == |db.messages.rows|
            && db'.messages.rows[i] ==
                 if Live(db, user) && r.recipient == user && r.sender == peer && r.readAt.None? && r.deletedAt.None?
                 then r.(readAt := Some(db.now)) else r
    ensures var (r, db') := (db.messages.rows[i], Step(db, DeleteMessage(user, id)));
            && db' == db.(messages := db'.messages) && |db'.messages.rows| == |db.messages.rows|
            && db'.messages.rows[i] ==
                 if Live(db, user) && r.id == id && r.sender == user && r.deletedAt.None?
                 then r.(deletedAt := Some(db.now)) else r
  {
  }

  /** Time moves forward only; an invite is made once, and a reset clears its mark and nothing else. */
  lemma TimeAndInvites(db: Db, until: int, code: string, createdBy: string, expiresAt: Option<int>)
    ensures Step(db, Tick(until)) == db.(now := if until > db.now then until else db.now)
    ensures Step(db, CreateInvite(code, createdBy, expiresAt)) ==
      if code in db.invites then db else db.(invites := db.invites[code := Invite(createdBy, None, expiresAt)])
    ensures Step(db, ResetInvite(code)) ==
      if code in db.invites then db.(invites := db.invites[code := db.invites[code].(usedBy := None)]) else db
  {
  }

  /** A registration with an unused, unexpired code and a free name makes one live user and marks the code. */
  lemma RegisterRequest(db: Db, code: string, username: string, hash: string)
    ensures var db' := Step(db, Register(code, username, hash));
            var valid := code in db.invites && db.invites[code].usedBy.None? &&
                         (db.invites[code].expiresAt.None? || db.invites[code].expiresAt.value > db.now);
            if valid && username !in db.names
            then db' == db.(users := db.users[db.nextUser := User(username, hash, None, None)],
                            names := db.names[username := db.nextUser], nextUser := db.nextUser + 1,
                            invites := db.invites[code := db.invites[code].(usedBy := Some(username))])
            else db' == db.(nextUser := db'.nextUser)
  {
  }

  // ---- Who is live ----

  /** Some erasure of u in the run took effect. */
  ghost predicate WasErased(reqs: seq<Request>, u: UserId) {
    exists i :: 0 <= i < |reqs| && reqs[i] == DeleteAccount(u) && CanErase(Exec(reqs[..i]), u)
  }

  /**
   * Over all runs a user looked up by id is found exactly when registered and never erased: erasure is final, and
   * nothing else ends an account.
   */
  lemma {:induction false} LiveIffNeverErased(reqs: seq<Request>, u: UserId)
    ensures Live(Exec(reqs), u) <==> u in Exec(reqs).users && !WasErased(reqs, u)
    ensures WasErased(reqs, u) ==> u in Exec(reqs).users
  {
    if reqs != [] {
      var n := |reqs| - 1;
      var db := Exec(reqs[..n]);
      LiveIffNeverErased(reqs[..n], u);
      InvAlways(reqs[..n]);
      hide Step, CanErase;
      ErasedLater(reqs, u);
      if u in db.users {
        LiveAfter(db, reqs[n], u);
      } else if u in Step(db, reqs[n]).users {
        NewUsersLive(db, reqs[n], u);
      }
      ErasableIsLive(db, u);
    }
  }

  lemma ErasableIsLive(db: Db, u: UserId)
    ensures CanErase(db, u) ==> u in db.users && Live(db, u)
  {
  }

  lemma ErasedLater(reqs: seq<Request>, u: UserId)
    requires reqs != []
    ensures var n := |reqs| - 1;
            WasErased(reqs, u) <==> WasErased(reqs[..n], u) ||
                                    (reqs[n] == DeleteAccount(u) && CanErase(Exec(reqs[..n]), u))
  {
    hide Exec, CanErase;
    var n := |reqs| - 1;
    assert forall i :: 0 <= i < n ==> reqs[..n][..i] == reqs[..i];
    if WasErased(reqs[..n], u) {
      var i :| 0 <= i < n && reqs[..n][i] == DeleteAccount(u) && CanErase(Exec(reqs[..n][..i]), u);
      assert reqs[i] == DeleteAccount(u) && CanErase(Exec(reqs[..i]), u);
    }
    if WasErased(reqs, u) {
      var i :| 0 <= i < |reqs| && reqs[i] == DeleteAccount(u) && CanErase(Exec(reqs[..i]), u);
      assert i < n ==> reqs[..n][i] == DeleteAccount(u) && CanErase(Exec(reqs[..n][..i]), u);
    }
  }

  // ---- Invites of erased users ----

  predicate Dead(db: Db, code: string) {
    code in db.invites && db.invites[code].expiresAt.Some? && db.invites[code].expiresAt.value <= db.now
  }

  lemma {:induction false} DeadForever(reqs: seq<Request>, upto: nat, code: string)
    requires upto <= |reqs| && Dead(Exec(reqs[..upto]), code)
    ensures Dead(Exec(reqs), code)
    decreases |reqs|
  {
    if upto == |reqs| {
      assert reqs[..upto] == reqs;
    } else {
      assert reqs[..|reqs| - 1][..upto] == reqs[..upto];
      DeadForever(reqs[..|reqs| - 1], upto, code);
      DeadStep(Exec(reqs[..|reqs| - 1]), reqs[|reqs| - 1], code);
    }
  }

  lemma DeadStep(db: Db, r: Request, code: string)
    requires Dead(db, code)
    ensures Dead(Step(db, r), code)
  {
  }

  /**
   * An invite that was unused when its creator was erased is never redeemable again, whatever follows: resets, other
   * users taking the freed name, and their deletions included.
   */
  lemma ErasedInvitesNeverRedeemable(reqs: seq<Request>, at: nat, code: string)
    requires at < |reqs| && reqs[at].DeleteAccount? && CanErase(Exec(reqs[..at]), reqs[at].user)
    requires var db := Exec(reqs[..at]); code in db.invites && Voids(db.invites[code], db.users[reqs[at].user].username)
    ensures code in Exec(reqs).invites && !Redeemable(Exec(reqs).invites[code], Exec(reqs).now)
  {
    hide *;
    ExecNext(reqs, at);
    ErasureVoids(Exec(reqs[..at]), reqs[at].user, code);
    DeadForever(reqs, at + 1, code);
    DeadCannotRegister(Exec(reqs), code);
  }

  lemma ExecNext(reqs: seq<Request>, at: nat)
    requires at < |reqs|
    ensures Exec(reqs[..at + 1]) == Step(Exec(reqs[..at]), reqs[at])
  {
    assert reqs[..at + 1][..at] == reqs[..at];
  }

  lemma DeadCannotRegister(db: Db, code: string)
    requires Dead(db, code)
    ensures code in db.invites && !Redeemable(db.invites[code], db.now)
  {
  }

  lemma ErasureVoids(db: Db, u: UserId, code: string)
    requires CanErase(db, u) && code in db.invites && Voids(db.invites[code], db.users[u].username)
    ensures Dead(Step(db, DeleteAccount(u)), code)
  {
  }

  // ---- When erasure can fail ----

  ghost predicate LooksAnonymous(name: string) {
    exists u :: name == AnonymousName(u)
  }

  lemma AnonymousNameInjective(u: UserId, v: UserId)
    requires AnonymousName(u) == AnonymousName(v)
    ensures u == v
  {
    assert AnonymousName(u)[8..] == PrintInt(u) && AnonymousName(v)[8..] == PrintInt(v);
    PrintIntInjective(u, v);
  }

  ghost predicate AnonymousNamesOwn(db: Db) {
    forall u :: AnonymousName(u) in db.names ==> db.names[AnonymousName(u)] == u
  }

  lemma AnonymousStep(db: Db, r: Request)
    requires AnonymousNamesOwn(db) && (r.Register? ==> !LooksAnonymous(r.username))
    ensures AnonymousNamesOwn(Step(db, r))
  {
    var db' := Step(db, r);
    forall u | AnonymousName(u) in db'.names ensures db'.names[AnonymousName(u)] == u {
      if r.DeleteAccount? && CanErase(db, r.user) && AnonymousName(u) == AnonymousName(r.user) {
        AnonymousNameInjective(u, r.user);
      }
    }
  }

  /** If nobody registers a name of the form deleted_<id>, every live account can be erased at any time. */
  lemma {:induction false} ErasureAlwaysPossible(reqs: seq<Request>, u: UserId)
    requires forall i :: 0 <= i < |reqs| && reqs[i].Register? ==> !LooksAnonymous(reqs[i].username)
    requires Live(Exec(reqs), u)
    ensures CanErase(Exec(reqs), u)
  {
    AnonymousAlways(reqs);
  }

  lemma {:induction false} AnonymousAlways(reqs: seq<Request>)
    requires forall i :: 0 <= i < |reqs| && reqs[i].Register? ==> !LooksAnonymous(reqs[i].username)
    ensures AnonymousNamesOwn(Exec(reqs))
  {
    if reqs != [] {
      AnonymousAlways(reqs[..|reqs| - 1]);
      AnonymousStep(Exec(reqs[..|reqs| - 1]), reqs[|reqs| - 1]);
    }
  }

  /** Erasing a live account takes effect exactly when no other row holds its anonymous name. */
  lemma ErasureTakesEffectIff(db: Db, u: UserId)
    requires IndexExact(db) && Live(db, u)
    ensures !Live(Erased(db, u), u)
       <==> forall v :: v in db.users && v != u ==> db.users[v].username != AnonymousName(u)
    ensures Live(Erased(db, u), u) ==> Erased(db, u) == db
  {
    if !CanErase(db, u) {
      var v := db.names[AnonymousName(u)];
      assert v in db.users && v != u && db.users[v].username == AnonymousName(u);
    }
  }

  /** A registered name can block another account's erasure. */
  lemma TakenNameBlocksErasure() returns (reqs: seq<Request>)
    ensures Live(Exec(reqs), 1) && !CanErase(Exec(reqs), 1)
  {
    var one := [CreateInvite("A", "root", None)];
    var two := one + [CreateInvite("B", "root", None)];
    var three := two + [Register("A", "ann", "")];
    reqs := three + [Register("B", AnonymousName(1), "")];
    assert one[..0] == [] && two[..1] == one && three[..2] == two && reqs[..3] == three;
    assert Exec(one) == Step(Empty(), one[0]);
    assert Exec(two) == Step(Exec(one), two[1]);
    assert Exec(three) == Step(Exec(two), three[2]);
    assert AnonymousName(1)[0] == 'd' && AnonymousName(1) != "ann";
  }

  // ---- Invite conservation ----

  /** A registration with this code that went through. */
  predicate Registers(db: Db, r: Request, code: string) {
    r.Register? && r.code == code && CanRegister(db, r.code, r.username)
  }

  /** A reset of this code that un-marked a use. */
  predicate Releases(db: Db, r: Request, code: string) {
    r.ResetInvite? && r.code == code && r.code in db.invites && db.invites[r.code].usedBy.Some?
  }

  function Registrations(reqs: seq<Request>, code: string): nat {
    if reqs == [] then 0 else
      var n := |reqs| - 1;
      Registrations(reqs[..n], code) + (if Registers(Exec(reqs[..n]), reqs[n], code) then 1 else 0)
  }

  function UsedResets(reqs: seq<Request>, code: string): nat {
    if reqs == [] then 0 else
      var n := |reqs| - 1;
      UsedResets(reqs[..n], code) + (if Releases(Exec(reqs[..n]), reqs[n], code) then 1 else 0)
  }

  function Uses(db: Db, code: string): nat {
    if code in db.invites && db.invites[code].usedBy.Some? then 1 else 0
  }

  lemma UsesStep(db: Db, r: Request, code: string)
    ensures Uses(Step(db, r), code)
         == Uses(db, code) + (if Registers(db, r, code) then 1 else 0) - (if Releases(db, r, code) then 1 else 0)
  {
  }

  /** For every code and every run: registrations with it = its current mark + resets that hit it while used. */
  lemma {:induction false} InviteLedger(reqs: seq<Request>, code: string)
    ensures Registrations(reqs, code) == Uses(Exec(reqs), code) + UsedResets(reqs, code)
  {
    if reqs != [] {
      InviteLedger(reqs[..|reqs| - 1], code);
      UsesStep(Exec(reqs[..|reqs| - 1]), reqs[|reqs| - 1], code);
    }
  }

  /** Between two resets a code admits at most one user. */
  lemma OneUserBetweenResets(reqs: seq<Request>, from: nat, code: string)
    requires from <= |reqs| && forall i :: from <= i < |reqs| ==> reqs[i] != ResetInvite(code)
    ensures Registrations(reqs, code) <= Registrations(reqs[..from], code) + 1
  {
    InviteLedger(reqs, code);
    InviteLedger(reqs[..from], code);
    NoResetsBetween(reqs, from, code);
  }

  lemma {:induction false} NoResetsBetween(reqs: seq<Request>, from: nat, code: string)
    requires from <= |reqs| && forall i :: from <= i < |reqs| ==> reqs[i] != ResetInvite(code)
    ensures UsedResets(reqs, code) == UsedResets(reqs[..from], code)
    decreases |reqs|
  {
    if from == |reqs| {
      assert reqs[..from] == reqs;
    } else {
      assert reqs[..|reqs| - 1][..from] == reqs[..from];
      NoResetsBetween(reqs[..|reqs| - 1], from, code);
    }
  }

  function AllRegistrations(reqs: seq<Request>): nat {
    if reqs == [] then 0 else
      var n := |reqs| - 1;
      var registers := reqs[n].Register? && Registers(Exec(reqs[..n]), reqs[n], reqs[n].code);
      AllRegistrations(reqs[..n]) + (if registers then 1 else 0)
  }

  function AllUsedResets(reqs: seq<Request>): nat {
    if reqs == [] then 0 else
      var n := |reqs| - 1;
      var releases := reqs[n].ResetInvite? && Releases(Exec(reqs[..n]), reqs[n], reqs[n].code);
      AllUsedResets(reqs[..n]) + (if releases then 1 else 0)
  }

  function UsedCodes(db: Db): set<string> {
    set c | c in db.invites && db.invites[c].usedBy.Some?
  }

  lemma UsedCodesStep(db: Db, r: Request)
    ensures UsedCodes(Step(db, r)) ==
      if r.Register? && Registers(db, r, r.code) then UsedCodes(db) + {r.code}
      else if r.ResetInvite? && Releases(db, r, r.code) then UsedCodes(db) - {r.code}
      else UsedCodes(db)
    ensures r.Register? && Registers(db, r, r.code) ==> r.code !in UsedCodes(db)
    ensures r.ResetInvite? && Releases(db, r, r.code) ==> r.code in UsedCodes(db)
  {
  }

  lemma UsersStep(db: Db, r: Request)
    requires IndexExact(db)
    ensures |Step(db, r).users| == |db.users| + (if r.Register? && Registers(db, r, r.code) then 1 else 0)
  {
    if r.Register? && Registers(db, r, r.code) {
      assert db.nextUser !in db.users;
    } else {
      assert Step(db, r).users.Keys == db.users.Keys;
      KeysCount(db.users);
      KeysCount(Step(db, r).users);
    }
  }

  lemma KeysCount<K, V>(m: map<K, V>)
    ensures |m| == |m.Keys|
  {
  }

  /** Conservation over the whole database: users = registrations = codes marked used + resets that hit a used code. */
  lemma {:induction false} InviteConservation(reqs: seq<Request>)
    ensures |Exec(reqs).users| == AllRegistrations(reqs) == |UsedCodes(Exec(reqs))| + AllUsedResets(reqs)
  {
    if reqs == [] {
      assert UsedCodes(Empty()) == {};
    } else {
      var db, r := Exec(reqs[..|reqs| - 1]), reqs[|reqs| - 1];
      InviteConservation(reqs[..|reqs| - 1]);
      InvAlways(reqs[..|reqs| - 1]);
      hide Step;
      UsedCodesStep(db, r);
      UsersStep(db, r);
    }
  }
}

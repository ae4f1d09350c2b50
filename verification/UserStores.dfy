/** UserStore: the transactions and queries over the account tables, statement by statement. */
module UserStores {
  import opened Common
  import opened Decimal
  import opened MessageTable
  import opened Accounts

  datatype Error =
    | UserNotFound
    | InvalidInviteCode
    | UsernameTaken
    | AlreadyDeleted
    | NameConflict      // the anonymous name is held by another row
    | ContactNotFound
    | SelfContact       // the contacts table's CHECK
    | CodeExists
    | CodeNotFound

  datatype Result<+T> = Ok(value: T) | Err(error: Error)

  datatype Contact = Contact(id: UserId, username: string)

  /** A collation: reflexive by totality, and transitive. */
  ghost predicate TotalOrder(le: (string, string) -> bool) {
    (forall a, b :: le(a, b) || le(b, a)) && (forall a, b, c :: le(a, b) && le(b, c) ==> le(a, c))
  }

  /** Some row of any non-empty set of rows comes first. */
  lemma {:induction false} LeastName<K>(ids: set<K>, users: map<K, User>, le: (string, string) -> bool)
    returns (least: K)
    requires TotalOrder(le) && ids != {} && ids <= users.Keys
    ensures least in ids && forall u :: u in ids ==> le(users[least].username, users[u].username)
    decreases ids
  {
    var some :| some in ids;
    least := some;
    var rest := ids - {some};
    if rest != {} {
      var other := LeastName(rest, users, le);
      if !le(users[some].username, users[other].username) {
        least := other;
      }
      forall u | u in ids ensures le(users[least].username, users[u].username) {
        assert u != some ==> u in rest && le(users[other].username, users[u].username);
      }
    } else {
      assert forall u :: u in ids ==> u in rest || u == some;
    }
  }

  class UserStore {
    var users: map<UserId, User>
    var names: map<string, UserId>
    var nextUser: UserId
    var invites: map<string, Invite>
    var contacts: set<(UserId, UserId)>
    var messages: Table
    var log: seq<AuditRow>
    var now: int

    function View(): Db
      reads this
    {
      Db(users, names, nextUser, invites, contacts, messages, log, now)
    }

    constructor ()
      ensures View() == Empty()
    {
      users, names, nextUser, invites, contacts := map[], map[], 1, map[], {};
      messages, log, now := Table([], 1), [], 0;
    }

    /** One transaction: mark the code, insert the user; a duplicate name rolls the mark back. */
    method RegisterWithInvite(code: string, username: string, hash: string) returns (r: Result<UserId>)
      modifies this
      ensures View() == Registered(old(View()), code, username, hash)
      ensures r.Ok? <==>
                code in old(invites) && old(invites)[code].usedBy.None? && username !in old(names)
                && (old(invites)[code].expiresAt.None? || old(invites)[code].expiresAt.value > now)
      ensures r.Ok? ==> r.value == old(nextUser) && users == old(users)[r.value := User(username, hash, None, None)]
      ensures r.Ok? ==> names == old(names)[username := r.value]
      ensures r.Ok? ==> invites == old(invites)[code := old(invites)[code].(usedBy := Some(username))]
      ensures r.Err? ==> users == old(users) && invites == old(invites) && names == old(names)
      ensures r == Err(InvalidInviteCode) <==> !(code in old(invites) && Redeemable(old(invites)[code], now))
    {
      var snapshot := invites;
      if code !in invites || !Redeemable(invites[code], now) {
        return Err(InvalidInviteCode);
      }
      invites := invites[code := invites[code].(usedBy := Some(username))];
      var id := nextUser;
      nextUser := nextUser + 1;
      if username in names {
        invites := snapshot;
        return Err(UsernameTaken);
      }
      users := users[id := User(username, hash, None, None)];
      names := names[username := id];
      return Ok(id);
    }

    /** Erasure in one transaction; nothing changes unless all of it does. */
    method DeleteAccountGDPR(userID: UserId) returns (r: Result<AuditRow>)
      modifies this
      ensures View() == Erased(old(View()), userID)
      ensures r.Ok? <==> old(CanErase(View(), userID))
      ensures r.Ok? ==> log == old(log) + [r.value] && r.value.user == userID && !Live(View(), userID)
      ensures r.Ok? ==> users == old(users)[userID := User("deleted_" + PrintInt(userID), "", None, Some(now))]
      ensures r.Err? ==>
                View() == old(View()) && r.error == if old(Live(View(), userID)) then NameConflict else AlreadyDeleted
    {
      assert AnonymousName(userID) == "deleted_" + PrintInt(userID);
      hide CountSent, Purged, AnonymousName, VoidedCodes, InvitesVoided, ContactsWithout;
      if !Live(View(), userID) {
        return Err(AlreadyDeleted);
      }
      var originalUsername := users[userID].username;
      var anonymous := AnonymousName(userID);
      if anonymous in names && names[anonymous] != userID {
        return Err(NameConflict);
      }
      users := users[userID := User(anonymous, "", None, Some(now))];
      names := (names - {originalUsername})[anonymous := userID];
      var msgCount := CountSent(messages.rows, userID);
      messages := messages.(rows := Purged(messages.rows, userID));
      var voided := VoidedCodes(invites, originalUsername);
      invites := InvitesVoided(invites, originalUsername, now);
      contacts := ContactsWithout(contacts, userID);
      var record := AuditRow(userID, msgCount, |voided|);
      log := log + [record];
      return Ok(record);
    }

    /** Adding a contact twice is not an error. */
    method AddContact(userID: UserId, targetUsername: string) returns (r: Result<()>)
      modifies this`contacts
      ensures View() == ContactAdded(old(View()), userID, targetUsername)
      ensures r == if !LiveName(View(), targetUsername) then Err(UserNotFound)
                   else if names[targetUsername] == userID then Err(SelfContact) else Ok(())
      ensures r.Ok? ==>
                LiveName(View(), targetUsername) && contacts == old(contacts) + {(userID, names[targetUsername])}
      ensures r.Err? ==> contacts == old(contacts)
    {
      if targetUsername !in names || !Live(View(), names[targetUsername]) {
        return Err(UserNotFound);
      }
      var targetID := names[targetUsername];
      if targetID == userID {
        return Err(SelfContact);
      }
      contacts := contacts + {(userID, targetID)};
      return Ok(());
    }

    method RemoveContact(userID: UserId, targetUsername: string) returns (r: Result<()>)
      modifies this`contacts
      ensures View() == ContactRemoved(old(View()), userID, targetUsername)
      ensures r.Ok? <==> targetUsername in names && (userID, names[targetUsername]) in old(contacts)
      ensures r.Ok? ==> contacts == old(contacts) - {(userID, names[targetUsername])}
      ensures r.Err? ==> contacts == old(contacts) && r.error == ContactNotFound
    {
      if targetUsername !in names {
        return Err(ContactNotFound);
      }
      var targetID := names[targetUsername];
      if (userID, targetID) !in contacts {
        return Err(ContactNotFound);
      }
      contacts := contacts - {(userID, targetID)};
      return Ok(());
    }

    method FirstByName(ids: set<UserId>, collation: (string, string) -> bool) returns (id: UserId)
      requires TotalOrder(collation) && ids != {} && ids <= users.Keys
      ensures id in ids && forall u :: u in ids ==> collation(users[id].username, users[u].username)
    {
      ghost var least := LeastName(ids, users, collation);
      id :| id in ids && forall u :: u in ids ==> collation(users[id].username, users[u].username);
    }

    /** The live contacts of a user, each once, in the order of their names under the database's collation. */
    method ListContacts(userID: UserId, collation: (string, string) -> bool) returns (list: seq<Contact>)
      requires TotalOrder(collation)
      ensures forall c :: c in list <==>
                (userID, c.id) in contacts && c.id in users && users[c.id].deletedAt.None? &&
                c.username == users[c.id].username
      ensures forall i, j :: 0 <= i < j < |list| ==> list[i].id != list[j].id
      ensures forall i, j :: 0 <= i < j < |list| ==> collation(list[i].username, list[j].username)
    {
      list := [];
      var rows := ContactIDs(View(), userID);
      assert rows <= users.Keys;
      assert forall c :: c in rows <==> (userID, c) in contacts && c in users && users[c].deletedAt.None?;
      hide ContactIDs, TotalOrder;
      var unseen := rows;
      while unseen != {}
        invariant unseen <= rows
        invariant forall c :: c in list <==> c.id in rows - unseen && c.username == users[c.id].username
        invariant forall i, j :: 0 <= i < j < |list| ==> list[i].id != list[j].id
        invariant forall i, j :: 0 <= i < j < |list| ==> collation(list[i].username, list[j].username)
        invariant forall i, u :: 0 <= i < |list| && u in unseen ==> collation(list[i].username, users[u].username)
        decreases unseen
      {
        var id := FirstByName(unseen, collation);
        assert forall c :: c in list ==> c.id != id;
        list := list + [Contact(id, users[id].username)];
        unseen := unseen - {id};
      }
    }

    method GetContactFollowerIDs(userID: UserId) returns (ids: seq<UserId>)
      ensures forall f :: f in ids <==> (f, userID) in contacts && f in users && users[f].deletedAt.None?
      ensures forall i, j :: 0 <= i < j < |ids| ==> ids[i] != ids[j]
    {
      ids := [];
      var unseen := FollowerIDs(View(), userID);
      assert forall f :: f in unseen <==> (f, userID) in contacts && f in users && users[f].deletedAt.None?;
      while unseen != {}
        invariant forall f :: f in FollowerIDs(View(), userID) <==> f in ids || f in unseen
        invariant forall f :: f in ids ==> f !in unseen
        invariant forall i, j :: 0 <= i < j < |ids| ==> ids[i] != ids[j]
        decreases unseen
      {
        var id := Pick(unseen);
        ids := ids + [id];
        unseen := unseen - {id};
      }
    }

    /** After any run that led here, finds exactly the users that are registered and were never erased. */
    method GetUserByID(userID: UserId) returns (r: Result<User>)
      ensures forall reqs :: View() == Exec(reqs) ==> (r.Ok? <==> userID in users && !WasErased(reqs, userID))
      ensures r.Ok? ==> Live(View(), userID) && r.value == users[userID]
      ensures r.Err? ==> !Live(View(), userID) && r.error == UserNotFound
    {
      forall reqs | View() == Exec(reqs) ensures Live(View(), userID) <==> userID in users && !WasErased(reqs, userID) {
        LiveIffNeverErased(reqs, userID);
      }
      if userID in users && users[userID].deletedAt.None? {
        return Ok(users[userID]);
      }
      return Err(UserNotFound);
    }

    /** Finds exactly the live user of that name. */
    method GetUserByUsername(username: string) returns (r: Result<UserId>)
      requires IndexExact(View())
      ensures r.Ok? ==> Live(View(), r.value) && users[r.value].username == username
      ensures r.Err? ==> r.error == UserNotFound && forall u :: Live(View(), u) ==> users[u].username != username
    {
      if username in names && Live(View(), names[username]) {
        return Ok(names[username]);
      }
      return Err(UserNotFound);
    }

    method AdminCreateInvite(code: string, createdBy: string, expiresAt: Option<int>) returns (r: Result<Invite>)
      modifies this`invites
      ensures View() == InviteCreated(old(View()), code, createdBy, expiresAt)
      ensures r.Ok? <==> code !in old(invites)
      ensures r.Ok? ==> r.value == invites[code] == Invite(createdBy, None, expiresAt)
    {
      if code in invites {
        return Err(CodeExists);
      }
      invites := invites[code := Invite(createdBy, None, expiresAt)];
      return Ok(invites[code]);
    }

    /** Clears the mark and nothing else: an expired code stays expired. */
    method AdminResetInvite(code: string) returns (r: Result<()>)
      modifies this`invites
      ensures View() == InviteReset(old(View()), code)
      ensures r.Ok? <==> code in old(invites)
      ensures r.Ok? ==> invites[code].expiresAt == old(invites)[code].expiresAt && invites[code].usedBy.None?
    {
      if code !in invites {
        return Err(CodeNotFound);
      }
      invites := invites[code := invites[code].(usedBy := None)];
      return Ok(());
    }
  }
}

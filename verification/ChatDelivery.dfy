/**
 * A message from send to screen: idempotent sends, an event published for every accepted send (retries included),
 * delivery of each event any number of times, catch-up replays, page fetches, and one client's per-peer lists. Frames,
 * pages and replies may be handled late, in any order and more than once.
 */
module ChatDelivery {
  import opened Common
  import opened MessageTable
  import opened MessageStores
  import opened Paging
  import Runs = MessageRuns

  /** A line in a list. Optimistic lines have negative ids and no client id. */
  datatype Entry = Entry(id: int, sender: UserId, clientId: string, body: string, failed: bool)

  type Lists = map<string, seq<Entry>>

  /**
   * What the server has stored and published, what is on its way to the client, and what the client holds and shows.
   */
  datatype State = State(history: Runs.History, published: set<int>,
                         frames: set<Row>, pages: set<seq<Row>>, replies: set<Row>,
                         decrypting: set<(Row, string)>, // frames whose peer is looked up, their text still to come
                         contacts: map<UserId, string>, lists: Lists, optimisticId: int)

  datatype Action =
    | Server(a: Runs.Action, now: int)                               // any user's request; a send also publishes
    | Push(id: int)                                                  // the subscriber loads and forwards an event
    | CatchUp(since: int)                                            // replay on reconnect
    | Fetch(user: UserId, since: int, limit: nat)                    // GET /messages
    | LoadContacts(contacts: map<UserId, string>)
    | Dispatch(frame: Row)                                           // onMessage up to its await: the peer is looked up
    | OnMessage(frame: Row, peer: string, text: string)              // the rest of it, with the decrypted body
    | ReplacePage(peer: string, page: seq<Row>, texts: seq<string>)  // selectPeer, and the refetch of deleteMessage
    | AppendPage(peer: string, page: seq<Row>, texts: seq<string>)   // loadMoreMessages
    | Optimistic(peer: string, text: string)                         // sendMessage, before the request
    | Confirm(peer: string, msgId: int, saved: Row, text: string)    // sendMessage and retryMessage, after it
    | SetFailed(peer: string, msgId: int, failed: bool)
    | RemoveLocal(peer: string, msgId: int)                          // deleteMessage
    | OnMessageDeleted(msgId: int)

  // ---- The list updaters ----

  function ListOf(lists: Lists, peer: string): seq<Entry> {
    if peer in lists then lists[peer] else []
  }

  predicate HasId(list: seq<Entry>, id: int) {
    exists i :: 0 <= i < |list| && list[i].id == id
  }

  function Received(r: Row, text: string): Entry {
    Entry(r.id, r.sender, r.clientId, text, false)
  }

  function Decrypted(page: seq<Row>, texts: seq<string>): (entries: seq<Entry>)
    requires |page| == |texts|
    ensures |entries| == |page| && forall i :: 0 <= i < |page| ==> entries[i] == Received(page[i], texts[i])
  {
    seq(|page|, i requires 0 <= i < |page| => Received(page[i], texts[i]))
  }

  /** decrypted.filter(m => !existingIds.has(m.id)) */
  function Unseen(existing: seq<Entry>, page: seq<Entry>): seq<Entry> {
    if page == [] then [] else
      var n := |page| - 1;
      Unseen(existing, page[..n]) + (if HasId(existing, page[n].id) then [] else [page[n]])
  }

  function Without(list: seq<Entry>, id: int): seq<Entry> {
    if list == [] then [] else
      var n := |list| - 1;
      Without(list[..n], id) + (if list[n].id == id then [] else [list[n]])
  }

  /** Replace the first line with the given id, if there is one. */
  function ReplaceFirst(list: seq<Entry>, id: int, e: Entry): (r: seq<Entry>)
    ensures |r| == |list|
    ensures forall i :: 0 <= i < |list| ==> r[i] == list[i] || r[i] == e
  {
    if list == [] then [] else
    if list[0].id == id then [e] + list[1..] else [list[0]] + ReplaceFirst(list[1..], id, e)
  }

  function Flagged(list: seq<Entry>, id: int, failed: bool): (r: seq<Entry>)
    ensures |r| == |list|
    ensures forall i :: 0 <= i < |list| ==> r[i] == if list[i].id == id then list[i].(failed := failed) else list[i]
  {
    seq(|list|, i requires 0 <= i < |list| => if list[i].id == id then list[i].(failed := failed) else list[i])
  }

  /** The list a frame goes to: the sender's if a contact, else the recipient's. */
  function PeerName(contacts: map<UserId, string>, r: Row): Option<string> {
    if r.sender in contacts then Some(contacts[r.sender])
    else if r.recipient in contacts then Some(contacts[r.recipient])
    else None
  }

  function OnMessageLists(lists: Lists, frame: Row, peer: string, text: string): Lists {
    var existing := ListOf(lists, peer);
    if HasId(existing, frame.id) then lists else lists[peer := existing + [Received(frame, text)]]
  }

  // ---- Steps ----

  function Init(): State {
    State(Runs.History(Table([], 1), []), {}, {}, {}, {}, {}, map[], map[], -1)
  }

  function Step(me: UserId, s: State, a: Action): State {
    match a
    case Server(act, now) =>
      var s' := s.(history := Runs.Step(s.history, act, now));
      if act.Send? then
        var saved := Saved(s.history.table, act.draft);
        s'.(published := s.published + {saved.id},
            replies := if act.draft.sender == me then s.replies + {saved} else s.replies)
      else s'
    case Push(id) =>
      if id !in s.published then s else
      var mine := set r | r in s.history.table.rows && r.id == id && (r.sender == me || r.recipient == me) :: Shown(r);
      s.(frames := s.frames + mine)
    case CatchUp(since) =>
      s.(frames := s.frames + set r | r in s.history.table.rows && MissedBy(me, since)(r) :: Shown(r))
    case Fetch(user, since, limit) =>
      s.(pages := s.pages + {PageSince(s.history.table.rows, me, user, since, limit).messages})
    case LoadContacts(contacts) => s.(contacts := contacts)
    case Dispatch(frame) =>
      var peer := PeerName(s.contacts, frame);
      if frame !in s.frames || frame.sender == me || peer.None? then s else
      s.(decrypting := s.decrypting + {(frame, peer.value)})
    case OnMessage(frame, peer, text) =>
      if (frame, peer) !in s.decrypting then s else s.(lists := OnMessageLists(s.lists, frame, peer, text))
    case ReplacePage(peer, page, texts) =>
      if page !in s.pages || |page| != |texts| then s else
      s.(lists := s.lists[peer := Decrypted(page, texts)])
    case AppendPage(peer, page, texts) =>
      if page !in s.pages || |page| != |texts| then s else
      var existing := ListOf(s.lists, peer);
      s.(lists := s.lists[peer := existing + Unseen(existing, Decrypted(page, texts))])
    case Optimistic(peer, text) =>
      s.(lists := s.lists[peer := ListOf(s.lists, peer) + [Entry(s.optimisticId, me, "", text, false)]],
         optimisticId := s.optimisticId - 1)
    case Confirm(peer, msgId, saved, text) =>
      if saved !in s.replies then s else
      s.(lists := s.lists[peer := ReplaceFirst(ListOf(s.lists, peer), msgId, Received(saved, text))])
    case SetFailed(peer, msgId, failed) => s.(lists := s.lists[peer := Flagged(ListOf(s.lists, peer), msgId, failed)])
    case RemoveLocal(peer, msgId) => s.(lists := s.lists[peer := Without(ListOf(s.lists, peer), msgId)])
    case OnMessageDeleted(msgId) => s.(lists := map p | p in s.lists :: Without(s.lists[p], msgId))
  }

  function Exec(me: UserId, acts: seq<Action>): State {
    if acts == [] then Init() else Step(me, Exec(me, acts[..|acts| - 1]), acts[|acts| - 1])
  }

  // ---- At most once ----

  /** A message with this id, sender and client id is stored. */
  ghost predicate Stored(rows: seq<Row>, id: int, sender: UserId, clientId: string) {
    exists i :: 0 <= i < |rows| && rows[i].id == id && rows[i].sender == sender && rows[i].clientId == clientId
  }

  ghost predicate StoredRow(rows: seq<Row>, r: Row) {
    Stored(rows, r.id, r.sender, r.clientId)
  }

  /** An optimistic line of the user's own, or a copy of a stored message. */
  ghost predicate Genuine(me: UserId, rows: seq<Row>, e: Entry) {
    (e.id < 0 && e.sender == me) || Stored(rows, e.id, e.sender, e.clientId)
  }

  /** Every line is genuine, and no message from someone else is there twice. */
  ghost predicate Clean(me: UserId, rows: seq<Row>, list: seq<Entry>) {
    && (forall i :: 0 <= i < |list| ==> Genuine(me, rows, list[i]))
    && (forall i, j :: 0 <= i < j < |list| && list[i].sender != me && list[j].sender != me ==> list[i].id != list[j].id)
  }

  ghost predicate GoodPage(rows: seq<Row>, page: seq<Row>) {
    Ascending(page) && forall i :: 0 <= i < |page| ==> StoredRow(rows, page[i])
  }

  /** Everything on its way is a copy of a message among rows. */
  ghost predicate InTransit(me: UserId, rows: seq<Row>, s: State) {
    && (forall r :: r in s.frames ==> StoredRow(rows, r))
    && (forall p :: p in s.pages ==> GoodPage(rows, p))
    && (forall r :: r in s.replies ==> StoredRow(rows, r) && r.sender == me)
    && (forall d :: d in s.decrypting ==> StoredRow(rows, d.0) && d.0.sender != me)
    && s.optimisticId < 0
  }

  ghost predicate OnScreen(me: UserId, rows: seq<Row>, s: State) {
    forall p :: p in s.lists ==> Clean(me, rows, s.lists[p])
  }

  ghost predicate Inv(me: UserId, s: State) {
    Valid(s.history.table) && InTransit(me, s.history.table.rows, s) && OnScreen(me, s.history.table.rows, s)
  }

  lemma StoredLater(earlier: seq<Row>, later: seq<Row>, id: int, sender: UserId, clientId: string)
    requires Extends(earlier, later) && Stored(earlier, id, sender, clientId)
    ensures Stored(later, id, sender, clientId)
  {
    var i :| 0 <= i < |earlier| && earlier[i].id == id && earlier[i].sender == sender &&
        earlier[i].clientId == clientId;
    assert later[..|earlier|][i] == later[i];
  }

  lemma CleanLater(me: UserId, earlier: seq<Row>, later: seq<Row>, list: seq<Entry>)
    requires Extends(earlier, later) && Clean(me, earlier, list)
    ensures Clean(me, later, list)
  {
    forall i | 0 <= i < |list| ensures Genuine(me, later, list[i]) {
      if Stored(earlier, list[i].id, list[i].sender, list[i].clientId) {
        StoredLater(earlier, later, list[i].id, list[i].sender, list[i].clientId);
      }
    }
  }

  /** What is on its way or on screen stays genuine while the table grows. */
  lemma TransitLater(me: UserId, rows: seq<Row>, later: seq<Row>, s: State)
    requires InTransit(me, rows, s) && Extends(rows, later)
    ensures InTransit(me, later, s)
  {
    forall r | r in s.frames || r in s.replies ensures StoredRow(later, r) {
      StoredLater(rows, later, r.id, r.sender, r.clientId);
    }
    forall d: (Row, string) | d in s.decrypting ensures StoredRow(later, d.0) {
      StoredLater(rows, later, d.0.id, d.0.sender, d.0.clientId);
    }
    forall p: seq<Row> | p in s.pages ensures GoodPage(later, p) {
      forall i | 0 <= i < |p| ensures StoredRow(later, p[i]) {
        StoredLater(rows, later, p[i].id, p[i].sender, p[i].clientId);
      }
    }
  }

  lemma ScreenLater(me: UserId, rows: seq<Row>, later: seq<Row>, s: State)
    requires OnScreen(me, rows, s) && Extends(rows, later)
    ensures OnScreen(me, later, s)
  {
    forall p | p in s.lists ensures Clean(me, later, s.lists[p]) {
      CleanLater(me, rows, later, s.lists[p]);
    }
  }

  /** A send's reply is a copy of a message of its sender that is now stored. */
  lemma SavedStored(t: Table, d: Draft)
    requires Valid(t)
    ensures StoredRow(Inserted(t, d).rows, Saved(t, d)) && Saved(t, d).sender == d.sender
  {
    InsertedValid(t, d);
    var rows := Inserted(t, d).rows;
    var i :| 0 <= i < |rows| && rows[i] == Saved(t, d);
  }

  lemma ServerKeepsInv(me: UserId, s: State, act: Runs.Action, now: int)
    requires Inv(me, s)
    ensures Inv(me, Step(me, s, Server(act, now)))
  {
    var s' := Step(me, s, Server(act, now));
    var rows, rows' := s.history.table.rows, s'.history.table.rows;
    Runs.StepExtends(s.history, act, now);
    TransitLater(me, rows, rows', s);
    ScreenLater(me, rows, rows', s);
    if act.Send? {
      SavedStored(s.history.table, act.draft);
      assert rows' == Inserted(s.history.table, act.draft).rows;
    }
    hide Runs.Step, Stored, StoredRow, GoodPage, Clean, Valid, Extends, Inserted, Saved;
  }

  lemma FetchKeepsInv(me: UserId, s: State, peer: UserId, since: int, limit: nat)
    requires Inv(me, s)
    ensures Inv(me, Step(me, s, Fetch(peer, since, limit)))
  {
    var rows := s.history.table.rows;
    var all := After(rows, me, peer, since);
    var page := PageSince(rows, me, peer, since, limit).messages;
    SelectAscending(rows, PairAfter(me, peer, since));
    forall i | 0 <= i < |page| ensures StoredRow(rows, page[i]) {
      SelectIn(rows, PairAfter(me, peer, since), all[i]);
    }
    assert GoodPage(rows, page);
  }

  lemma FramesKeepInv(me: UserId, s: State, a: Action)
    requires Inv(me, s) && (a.Push? || a.CatchUp?)
    ensures Inv(me, Step(me, s, a))
  {
    var rows := s.history.table.rows;
    forall r | r in rows ensures StoredRow(rows, Shown(r)) {
      var i :| 0 <= i < |rows| && rows[i] == r;
    }
  }

  lemma {:induction false} UnseenClean(me: UserId, rows: seq<Row>, existing: seq<Entry>, page: seq<Entry>)
    requires Clean(me, rows, existing) && Clean(me, rows, page)
    ensures Clean(me, rows, existing + Unseen(existing, page))
    ensures forall i :: 0 <= i < |Unseen(existing, page)| ==> Unseen(existing, page)[i] in page
  {
    if page != [] {
      var n := |page| - 1;
      assert Clean(me, rows, page[..n]);
      UnseenClean(me, rows, existing, page[..n]);
      var before := Unseen(existing, page[..n]);
      var list := existing + before;
      if !HasId(existing, page[n].id) {
        assert existing + Unseen(existing, page) == list + [page[n]];
        forall i | 0 <= i < |list| && list[i].sender != me && page[n].sender != me ensures list[i].id != page[n].id {
          if i >= |existing| {
            assert list[i] in page[..n];
          }
        }
      } else {
        assert existing + Unseen(existing, page) == list;
      }
    }
  }

  lemma {:induction false} WithoutClean(me: UserId, rows: seq<Row>, list: seq<Entry>, id: int)
    requires Clean(me, rows, list)
    ensures Clean(me, rows, Without(list, id))
    ensures forall i :: 0 <= i < |Without(list, id)| ==> Without(list, id)[i] in list
  {
    if list != [] {
      var n := |list| - 1;
      assert Clean(me, rows, list[..n]);
      WithoutClean(me, rows, list[..n], id);
    }
  }

  lemma OnMessageKeepsInv(me: UserId, s: State, frame: Row, peer: string, text: string)
    requires Inv(me, s)
    ensures Inv(me, Step(me, s, OnMessage(frame, peer, text)))
  {
    var s' := Step(me, s, OnMessage(frame, peer, text));
    if s'.lists != s.lists {
      assert Clean(me, s.history.table.rows, ListOf(s.lists, peer) + [Received(frame, text)]);
    }
  }

  lemma PagesKeepInv(me: UserId, s: State, a: Action)
    requires Inv(me, s) && (a.ReplacePage? || a.AppendPage?)
    ensures Inv(me, Step(me, s, a))
  {
    if a.page in s.pages && |a.page| == |a.texts| {
      var rows := s.history.table.rows;
      var entries := Decrypted(a.page, a.texts);
      assert GoodPage(rows, a.page);
      forall i | 0 <= i < |entries| ensures Genuine(me, rows, entries[i]) {
        assert StoredRow(rows, a.page[i]);
      }
      assert Clean(me, rows, entries);
      UnseenClean(me, rows, ListOf(s.lists, a.peer), entries);
    }
  }

  lemma RemovalsKeepInv(me: UserId, s: State, a: Action)
    requires Inv(me, s) && (a.RemoveLocal? || a.OnMessageDeleted?)
    ensures Inv(me, Step(me, s, a))
  {
    var rows, msgId := s.history.table.rows, a.msgId;
    forall p | p in s.lists ensures Clean(me, rows, Without(s.lists[p], msgId)) {
      WithoutClean(me, rows, s.lists[p], msgId);
    }
    assert Clean(me, rows, []);
    WithoutClean(me, rows, [], msgId);
  }

  lemma ConfirmKeepsInv(me: UserId, s: State, a: Action)
    requires Inv(me, s) && a.Confirm?
    ensures Inv(me, Step(me, s, a))
  {
    if a.saved in s.replies {
      assert Clean(me, s.history.table.rows, ReplaceFirst(ListOf(s.lists, a.peer), a.msgId, Received(a.saved, a.text)));
    }
  }

  lemma FlagKeepsInv(me: UserId, s: State, a: Action)
    requires Inv(me, s) && a.SetFailed?
    ensures Inv(me, Step(me, s, a))
  {
    assert Clean(me, s.history.table.rows, Flagged(ListOf(s.lists, a.peer), a.msgId, a.failed));
  }

  lemma OptimisticKeepsInv(me: UserId, s: State, a: Action)
    requires Inv(me, s) && a.Optimistic?
    ensures Inv(me, Step(me, s, a))
  {
    assert Clean(me, s.history.table.rows, ListOf(s.lists, a.peer) + [Entry(s.optimisticId, me, "", a.text, false)]);
  }

  lemma ContactsKeepInv(me: UserId, s: State, a: Action)
    requires Inv(me, s) && (a.LoadContacts? || a.Dispatch?)
    ensures Inv(me, Step(me, s, a))
  {
  }

  lemma InvStep(me: UserId, s: State, a: Action)
    requires Inv(me, s)
    ensures Inv(me, Step(me, s, a))
  {
    hide Step, Inv;
    match a
    case Server(act, now) => ServerKeepsInv(me, s, act, now);
    case Push(_) => FramesKeepInv(me, s, a);
    case CatchUp(_) => FramesKeepInv(me, s, a);
    case Fetch(user, since, limit) => FetchKeepsInv(me, s, user, since, limit);
    case OnMessage(frame, peer, text) => OnMessageKeepsInv(me, s, frame, peer, text);
    case ReplacePage(_, _, _) => PagesKeepInv(me, s, a);
    case AppendPage(_, _, _) => PagesKeepInv(me, s, a);
    case RemoveLocal(_, _) => RemovalsKeepInv(me, s, a);
    case OnMessageDeleted(_) => RemovalsKeepInv(me, s, a);
    case Confirm(_, _, _, _) => ConfirmKeepsInv(me, s, a);
    case SetFailed(_, _, _) => FlagKeepsInv(me, s, a);
    case Optimistic(_, _) => OptimisticKeepsInv(me, s, a);
    case _ => ContactsKeepInv(me, s, a);
  }

  lemma {:induction false} InvAlways(me: UserId, acts: seq<Action>)
    ensures Inv(me, Exec(me, acts))
  {
    if acts != [] {
      InvAlways(me, acts[..|acts| - 1]);
      InvStep(me, Exec(me, acts[..|acts| - 1]), acts[|acts| - 1]);
    }
  }

  /**
   * End to end: however often a send is retried, an event redelivered, or a page refetched, no list ever shows two
   * lines for one received (sender, client id).
   */
  lemma ReceivedAtMostOnce(me: UserId, acts: seq<Action>, peer: string, i: nat, j: nat)
    requires var s := Exec(me, acts);
             peer in s.lists && i < j < |s.lists[peer]| && s.lists[peer][i].sender != me &&
             s.lists[peer][j].sender != me
    ensures var s := Exec(me, acts);
            var (x, y) := (s.lists[peer][i], s.lists[peer][j]);
            x.sender != y.sender || x.clientId != y.clientId
  {
    hide Exec;
    InvAlways(me, acts);
    var s := Exec(me, acts);
    var rows := s.history.table.rows;
    var (x, y) := (s.lists[peer][i], s.lists[peer][j]);
    var k :| 0 <= k < |rows| && rows[k].id == x.id && rows[k].sender == x.sender && rows[k].clientId == x.clientId;
    var l :| 0 <= l < |rows| && rows[l].id == y.id && rows[l].sender == y.sender && rows[l].clientId == y.clientId;
    assert k != l;
  }

  /** Every line anyone can ever see is an unconfirmed line of their own or a message that was really stored. */
  lemma LinesAreGenuine(me: UserId, acts: seq<Action>, peer: string, i: nat)
    requires var s := Exec(me, acts); peer in s.lists && i < |s.lists[peer]|
    ensures var s := Exec(me, acts); Genuine(me, s.history.table.rows, s.lists[peer][i])
  {
    InvAlways(me, acts);
  }

  ghost predicate ExactlyOnce(list: seq<Entry>, id: int) {
    HasId(list, id) && forall i, j :: 0 <= i < j < |list| && list[i].id == id ==> list[j].id != id
  }

  /** The line shows this message with this text, and not as failed. */
  predicate Shows(e: Entry, r: Row, text: string) {
    e.id == r.id && e.sender == r.sender && e.clientId == r.clientId && e.body == text && !e.failed
  }

  /**
   * Whatever happened while its body was decrypted, handling a frame leaves its message exactly once on the list its
   * peer was looked up for, keeps the lines before it, and changes no other list; a message that was not there yet is
   * shown with its decrypted text.
   */
  lemma HandledExactlyOnce(me: UserId, acts: seq<Action>, frame: Row, peer: string, text: string)
    requires (frame, peer) in Exec(me, acts).decrypting
    ensures var (s, s') := (Exec(me, acts), Step(me, Exec(me, acts), OnMessage(frame, peer, text)));
            var (before, after) := (ListOf(s.lists, peer), ListOf(s'.lists, peer));
            && peer in s'.lists && ExactlyOnce(after, frame.id)
            && before <= after && s'.lists - {peer} == s.lists - {peer}
            && (if HasId(before, frame.id) then after == before
                else |after| == |before| + 1 && Shows(after[|before|], frame, text))
  {
    hide Exec;
    InvAlways(me, acts);
    var s := Exec(me, acts);
    InvStep(me, s, OnMessage(frame, peer, text));
    var list := OnMessageLists(s.lists, frame, peer, text)[peer];
    if !HasId(ListOf(s.lists, peer), frame.id) {
      assert list[|list| - 1].id == frame.id;
    }
    ReceivedIdOnce(me, s.history.table, list, frame);
  }

  /** A stored message's id stands for that message alone, so two lines with it are one received message twice. */
  lemma ReceivedIdOnce(me: UserId, t: Table, list: seq<Entry>, r: Row)
    requires Valid(t) && Clean(me, t.rows, list) && StoredRow(t.rows, r) && r.sender != me
    ensures forall i, j :: 0 <= i < j < |list| && list[i].id == r.id ==> list[j].id != r.id
  {
    var k :| 0 <= k < |t.rows| && t.rows[k].id == r.id && t.rows[k].sender == r.sender &&
        t.rows[k].clientId == r.clientId;
    forall i | 0 <= i < |list| && list[i].id == r.id ensures list[i].sender != me {
      assert Genuine(me, t.rows, list[i]);
      var l :| 0 <= l < |t.rows| && t.rows[l].id == list[i].id && t.rows[l].sender == list[i].sender;
      assert l == k;
    }
  }

  /** Loading a page keeps every line already there and leaves every message of the page on the list. */
  lemma {:induction false} AppendShowsPage(existing: seq<Entry>, page: seq<Entry>)
    ensures forall i :: 0 <= i < |page| ==> HasId(existing + Unseen(existing, page), page[i].id)
  {
    if page != [] {
      var n := |page| - 1;
      AppendShowsPage(existing, page[..n]);
      var before, after := existing + Unseen(existing, page[..n]), existing + Unseen(existing, page);
      assert before <= after;
      forall i | 0 <= i < |page| ensures HasId(after, page[i].id) {
        if i < n {
          assert page[i] == page[..n][i];
          var k :| 0 <= k < |before| && before[k].id == page[i].id;
          assert after[k] == before[k];
        } else if HasId(existing, page[n].id) {
          var k :| 0 <= k < |existing| && existing[k].id == page[n].id;
          assert after[k] == existing[k];
        } else {
          assert after[|after| - 1] == page[n];
        }
      }
    }
  }

  // ---- What each step shows ----

  /** A row that concerns the user, with any text. */
  predicate Concerns(me: UserId, r: Row) {
    r.sender == me || r.recipient == me
  }

  /** Pushing a published message forwards it, as displayed, to its two parties and nobody else. */
  lemma PushForwards(me: UserId, s: State, id: int, m: Row)
    ensures m in Step(me, s, Push(id)).frames <==>
              m in s.frames || (id in s.published && exists r :: r in s.history.table.rows && r.id == id &&
                                                                 (r.sender == me || r.recipient == me) && m == Shown(r))
  {
  }

  /** Reconnecting replays exactly the undeleted messages to the user past the cursor. */
  lemma CatchUpReplays(me: UserId, s: State, since: int, m: Row)
    ensures m in Step(me, s, CatchUp(since)).frames <==>
              m in s.frames || (m in s.history.table.rows && m.recipient == me && m.id > since && m.deletedAt.None?)
  {
    if m in s.history.table.rows && MissedBy(me, since)(m) {
      assert Shown(m) == m;
    }
  }

  /** The contacts used to find the peer are the ones last loaded. */
  lemma LoadsContacts(me: UserId, s: State, contacts: map<UserId, string>)
    ensures Step(me, s, LoadContacts(contacts)) == s.(contacts := contacts)
  {
  }

  ghost predicate OwnTraffic(me: UserId, s: State) {
    && (forall r :: r in s.frames ==> Concerns(me, r))
    && (forall d :: d in s.decrypting ==> Concerns(me, d.0))
    && (forall r :: r in s.replies ==> Concerns(me, r))
    && (forall p, i :: p in s.pages && 0 <= i < |p| ==> Concerns(me, p[i]))
  }

  lemma OwnTrafficStep(me: UserId, s: State, a: Action)
    requires OwnTraffic(me, s)
    ensures OwnTraffic(me, Step(me, s, a))
  {
    hide Runs.Step, Received, Decrypted, Unseen, Without, ReplaceFirst, Flagged;
    if a.Fetch? {
      var all := After(s.history.table.rows, me, a.user, a.since);
      var page := PageSince(s.history.table.rows, me, a.user, a.since, a.limit).messages;
      forall i | 0 <= i < |page| ensures Concerns(me, page[i]) {
        AfterColumns(s.history.table.rows, me, a.user, a.since, all[i]);
      }
    }
  }

  /** In every run, everything that reaches a client is of its own user's conversations. */
  lemma {:induction false} OnlyOwnTraffic(me: UserId, acts: seq<Action>)
    ensures OwnTraffic(me, Exec(me, acts))
  {
    if acts != [] {
      OnlyOwnTraffic(me, acts[..|acts| - 1]);
      hide Step, OwnTraffic;
      OwnTrafficStep(me, Exec(me, acts[..|acts| - 1]), acts[|acts| - 1]);
    } else {
      NothingSentYet(me);
    }
  }

  lemma NothingSentYet(me: UserId)
    ensures OwnTraffic(me, Exec(me, []))
  {
  }

  /** A frame of someone else is queued for the list of its sender, if a contact, else of its recipient. */
  lemma DispatchFindsPeer(me: UserId, s: State, frame: Row)
    ensures var s' := Step(me, s, Dispatch(frame));
            && s' == s.(decrypting := s'.decrypting)
            && s'.decrypting - s.decrypting <=
                 (if frame.sender in s.contacts then {(frame, s.contacts[frame.sender])}
                  else if frame.recipient in s.contacts then {(frame, s.contacts[frame.recipient])} else {})
            && s.decrypting <= s'.decrypting
            && (frame in s.frames && frame.sender != me && frame.sender in s.contacts ==>
                  (frame, s.contacts[frame.sender]) in s'.decrypting)
            && (frame in s.frames && frame.sender != me &&
                frame.sender !in s.contacts && frame.recipient in s.contacts ==>
                  (frame, s.contacts[frame.recipient]) in s'.decrypting)
  {
  }

  /** Published and pushed, a message from a contact gets onto that contact's list, with its decrypted text. */
  lemma PublishedReachesList(me: UserId, s: State, r: Row, text: string)
    requires r in s.history.table.rows && r.id in s.published && r.sender != me && r.recipient == me
    requires r.sender in s.contacts
    ensures var peer := s.contacts[r.sender];
            var frame := Shown(r);
            var s' := Step(me, Step(me, Step(me, s, Push(r.id)), Dispatch(frame)), OnMessage(frame, peer, text));
            && peer in s'.lists && HasId(s'.lists[peer], r.id)
            && (!HasId(ListOf(s.lists, peer), r.id) ==> exists e :: e in s'.lists[peer] && Shows(e, r, text))
  {
    var peer, frame := s.contacts[r.sender], Shown(r);
    var s1 := Step(me, s, Push(r.id));
    assert frame in s1.frames && s1.lists == s.lists && s1.contacts == s.contacts;
    var s2 := Step(me, s1, Dispatch(frame));
    assert (frame, peer) in s2.decrypting && s2.lists == s.lists;
    var before, after := ListOf(s.lists, peer), Step(me, s2, OnMessage(frame, peer, text)).lists[peer];
    if !HasId(before, r.id) {
      assert after == before + [Received(frame, text)];
      assert Shows(after[|before|], r, text);
    }
  }

  /** A send that is accepted, repeated ones included, is published under the id of the stored row. */
  lemma SendPublishes(me: UserId, s: State, d: Draft, now: int)
    requires Valid(s.history.table)
    ensures var s' := Step(me, s, Server(Runs.Send(d), now));
            exists r :: r in s'.history.table.rows && r.sender == d.sender && r.clientId == d.clientId &&
                        r.id in s'.published && (d.sender == me ==> r in s'.replies)
  {
    InsertedValid(s.history.table, d);
    assert HasKey(Saved(s.history.table, d), d.sender, d.clientId);
  }

  /** Replacing a list with a page shows exactly the page, in order, with its own texts; other lists stay. */
  lemma ReplaceShowsPage(me: UserId, s: State, peer: string, page: seq<Row>, texts: seq<string>)
    requires page in s.pages && |page| == |texts|
    ensures var s' := Step(me, s, ReplacePage(peer, page, texts));
            && peer in s'.lists && |s'.lists[peer]| == |page| && s'.lists - {peer} == s.lists - {peer}
            && forall i :: 0 <= i < |page| ==> Shows(s'.lists[peer][i], page[i], texts[i])
  {
  }

  /** The lines a page adds: those whose id is not there yet, each as it is on the page, in the order of the page. */
  lemma {:induction false} UnseenExact(existing: seq<Entry>, page: seq<Entry>)
    ensures forall e :: e in Unseen(existing, page) <==> e in page && !HasId(existing, e.id)
    ensures IdsAscend(page) ==> IdsAscend(Unseen(existing, page))
  {
    if page != [] {
      var n := |page| - 1;
      UnseenExact(existing, page[..n]);
      assert page == page[..n] + [page[n]];
      var front := Unseen(existing, page[..n]);
      assert forall k :: 0 <= k < |front| ==> front[k] in page[..n];
    }
  }

  ghost predicate IdsAscend(list: seq<Entry>) {
    forall i, j :: 0 <= i < j < |list| ==> list[i].id < list[j].id
  }

  /** added shows exactly the messages of the page whose id is not on the list, each with its own text. */
  ghost predicate AddsUnseen(before: seq<Entry>, added: seq<Entry>, page: seq<Row>, texts: seq<string>)
    requires |page| == |texts|
  {
    && (forall i :: 0 <= i < |page| && !HasId(before, page[i].id) ==>
          exists e :: e in added && Shows(e, page[i], texts[i]))
    && (forall e :: e in added ==>
          !HasId(before, e.id) && exists i :: 0 <= i < |page| && Shows(e, page[i], texts[i]))
  }

  lemma UnseenAdds(before: seq<Entry>, page: seq<Row>, texts: seq<string>)
    requires |page| == |texts|
    ensures AddsUnseen(before, Unseen(before, Decrypted(page, texts)), page, texts)
    ensures Ascending(page) ==> IdsAscend(Unseen(before, Decrypted(page, texts)))
  {
    var entries := Decrypted(page, texts);
    UnseenExact(before, entries);
    hide Unseen;
    var added := Unseen(before, entries);
    forall i | 0 <= i < |page| && !HasId(before, page[i].id)
      ensures exists e :: e in added && Shows(e, page[i], texts[i])
    {
      assert entries[i] in added && Shows(entries[i], page[i], texts[i]);
    }
    forall e | e in added
      ensures !HasId(before, e.id) && exists i :: 0 <= i < |page| && Shows(e, page[i], texts[i])
    {
      var i :| 0 <= i < |entries| && entries[i] == e;
    }
  }

  lemma AppendIs(me: UserId, s: State, peer: string, page: seq<Row>, texts: seq<string>)
    requires page in s.pages && |page| == |texts|
    ensures var before := ListOf(s.lists, peer);
            Step(me, s, AppendPage(peer, page, texts)).lists
              == s.lists[peer := before + Unseen(before, Decrypted(page, texts))]
  {
  }

  /** Appending a page keeps the lines there and adds the rest of the page in the order of its ids. */
  lemma AppendShowsTexts(me: UserId, s: State, peer: string, page: seq<Row>, texts: seq<string>)
    requires Inv(me, s) && page in s.pages && |page| == |texts|
    ensures var (s', before) := (Step(me, s, AppendPage(peer, page, texts)), ListOf(s.lists, peer));
            && before <= ListOf(s'.lists, peer) && s'.lists - {peer} == s.lists - {peer}
            && AddsUnseen(before, ListOf(s'.lists, peer)[|before|..], page, texts)
            && IdsAscend(ListOf(s'.lists, peer)[|before|..])
  {
    var before := ListOf(s.lists, peer);
    assert GoodPage(s.history.table.rows, page);
    UnseenAdds(before, page, texts);
    AppendIs(me, s, peer, page, texts);
    hide Step, Inv, AddsUnseen, IdsAscend, Decrypted, Unseen, GoodPage;
    var added := Unseen(before, Decrypted(page, texts));
    assert (before + added)[|before|..] == added;
    PutList(s.lists, peer, before + added);
    hide ListOf;
  }

  lemma PutList(lists: Lists, peer: string, list: seq<Entry>)
    ensures var lists' := lists[peer := list]; ListOf(lists', peer) == list && lists' - {peer} == lists - {peer}
  {
  }

  /** The optimistic line shows what was typed, under an id the next one does not get. */
  lemma OptimisticShowsText(me: UserId, s: State, peer: string, text: string)
    ensures var s' := Step(me, s, Optimistic(peer, text));
            && ListOf(s'.lists, peer) == ListOf(s.lists, peer) + [Entry(s.optimisticId, me, "", text, false)]
            && s'.lists - {peer} == s.lists - {peer} && s'.optimisticId < s.optimisticId
  {
  }

  /** A confirmation that finds its line shows there the saved message with the typed text, and touches nothing else. */
  lemma ConfirmShowsText(me: UserId, s: State, peer: string, msgId: int, saved: Row, text: string)
    requires saved in s.replies
    ensures var s' := Step(me, s, Confirm(peer, msgId, saved, text));
            var (before, after) := (ListOf(s.lists, peer), ListOf(s'.lists, peer));
            && s'.lists - {peer} == s.lists - {peer} && |after| == |before|
            && (if HasId(before, msgId)
                then exists k :: 0 <= k < |before| && before[k].id == msgId && Shows(after[k], saved, text)
                                 && forall i :: 0 <= i < |before| && i != k ==> after[i] == before[i]
                else after == before)
  {
    var before := ListOf(s.lists, peer);
    if HasId(before, msgId) {
      var k := ReplacedAt(before, msgId, Received(saved, text));
      assert Shows(before[k := Received(saved, text)][k], saved, text);
    } else {
      ReplaceNothing(before, msgId, Received(saved, text));
    }
  }

  /** Marking a send as failed, or clearing the mark, changes that flag on the lines with that id and nothing else. */
  lemma SetFailedChangesFlag(me: UserId, s: State, peer: string, msgId: int, failed: bool)
    ensures var s' := Step(me, s, SetFailed(peer, msgId, failed));
            var (before, after) := (ListOf(s.lists, peer), ListOf(s'.lists, peer));
            && s'.lists - {peer} == s.lists - {peer} && |after| == |before|
            && forall i :: 0 <= i < |before| ==>
                 after[i] == if before[i].id == msgId then before[i].(failed := failed) else before[i]
  {
  }

  /** What is left of a list after a removal: the lines with other ids, each as it was. */
  lemma {:induction false} WithoutExact(list: seq<Entry>, id: int)
    ensures !HasId(Without(list, id), id)
    ensures forall e :: e in Without(list, id) <==> e in list && e.id != id
    ensures !HasId(list, id) ==> Without(list, id) == list
  {
    if list != [] {
      var n := |list| - 1;
      WithoutExact(list[..n], id);
      assert list == list[..n] + [list[n]];
    }
  }

  /** Deleting removes the message from the list it was deleted on. */
  lemma DeletionRemovesMessage(me: UserId, s: State, peer: string, msgId: int)
    ensures var s' := Step(me, s, RemoveLocal(peer, msgId));
            && s'.lists - {peer} == s.lists - {peer}
            && forall e :: e in ListOf(s'.lists, peer) <==> e in ListOf(s.lists, peer) && e.id != msgId
  {
    WithoutExact(ListOf(s.lists, peer), msgId);
    hide Without;
  }

  /** The event of a deletion removes the message from every list. */
  lemma DeletionEventRemovesMessage(me: UserId, s: State, msgId: int)
    ensures var s' := Step(me, s, OnMessageDeleted(msgId));
            && s'.lists.Keys == s.lists.Keys
            && forall p, e :: p in s.lists ==> (e in s'.lists[p] <==> e in s.lists[p] && e.id != msgId)
  {
    forall p | p in s.lists ensures forall e :: e in Without(s.lists[p], msgId) <==> e in s.lists[p] && e.id != msgId {
      WithoutExact(s.lists[p], msgId);
    }
    hide Without;
  }

  /** The lines around a removed one keep their order. */
  lemma {:induction false} RemovalKeepsOrder(before: seq<Entry>, e: Entry, after: seq<Entry>)
    requires !HasId(before, e.id) && !HasId(after, e.id)
    ensures Without(before + [e] + after, e.id) == before + after
  {
    if after == [] {
      WithoutExact(before, e.id);
      assert before + [e] + after == before + [e] && (before + [e])[..|before|] == before;
    } else {
      var n := |after| - 1;
      var list := before + [e] + after;
      assert list[..|list| - 1] == before + [e] + after[..n] && list[|list| - 1] == after[n];
      RemovalKeepsOrder(before, e, after[..n]);
      assert before + after == before + after[..n] + [after[n]];
    }
  }

  // ---- When an own message shows twice ----

  ghost predicate DistinctIds(list: seq<Entry>) {
    forall i, j :: 0 <= i < j < |list| ==> list[i].id != list[j].id
  }

  ghost predicate AllDistinct(s: State) {
    forall p :: p in s.lists ==> DistinctIds(s.lists[p])
  }

  /** The confirmed line and the saved message are both on the list already, on different lines. */
  ghost predicate ConfirmsTwice(s: State, a: Action) {
    a.Confirm? && a.saved in s.replies && a.saved.id != a.msgId
    && HasId(ListOf(s.lists, a.peer), a.msgId) && HasId(ListOf(s.lists, a.peer), a.saved.id)
  }

  lemma {:induction false} ReplacedAt(list: seq<Entry>, id: int, e: Entry) returns (k: nat)
    requires HasId(list, id)
    ensures k < |list| && list[k].id == id && ReplaceFirst(list, id, e) == list[k := e]
  {
    hide ReplaceFirst, HasId;
    HasIdSplit(list, id);
    ReplaceUnfolds(list, id, e);
    if list[0].id == id {
      k := 0;
      assert [e] + list[1..] == list[0 := e];
    } else {
      var l := ReplacedAt(list[1..], id, e);
      k := l + 1;
      ConsUpdate(list, l, e);
    }
  }

  lemma ReplaceUnfolds(list: seq<Entry>, id: int, e: Entry)
    requires list != []
    ensures ReplaceFirst(list, id, e)
         == if list[0].id == id then [e] + list[1..] else [list[0]] + ReplaceFirst(list[1..], id, e)
  {
  }

  lemma ConsUpdate(list: seq<Entry>, l: nat, e: Entry)
    requires l + 1 < |list|
    ensures [list[0]] + list[1..][l := e] == list[l + 1 := e] && list[1..][l] == list[l + 1]
  {
  }

  lemma HasIdSplit(list: seq<Entry>, id: int)
    requires HasId(list, id)
    ensures list != [] && (list[0].id == id || HasId(list[1..], id))
  {
    var i :| 0 <= i < |list| && list[i].id == id;
    assert i > 0 ==> list[1..][i - 1].id == id;
  }

  lemma {:induction false} ReplaceNothing(list: seq<Entry>, id: int, e: Entry)
    requires !HasId(list, id)
    ensures ReplaceFirst(list, id, e) == list
  {
    if list != [] {
      assert !HasId(list[1..], id) by {
        forall i | 0 <= i < |list| - 1 ensures list[1..][i].id != id {
          assert list[1..][i] == list[i + 1];
        }
      }
      assert list[0].id != id;
      ReplaceNothing(list[1..], id, e);
    }
  }

  /** Confirming keeps a list's ids distinct unless it holds both the confirmed line and the saved message. */
  lemma ConfirmDistinctIff(list: seq<Entry>, id: int, e: Entry)
    requires DistinctIds(list)
    ensures DistinctIds(ReplaceFirst(list, id, e)) <==> !(HasId(list, id) && HasId(list, e.id) && e.id != id)
  {
    if HasId(list, id) {
      var k := ReplacedAt(list, id, e);
      var r := list[k := e];
      if HasId(list, e.id) && e.id != id {
        var j :| 0 <= j < |list| && list[j].id == e.id;
        assert r[j].id == r[k].id && j != k;
      }
    } else {
      ReplaceNothing(list, id, e);
    }
  }

  lemma {:induction false} UnseenDistinct(existing: seq<Entry>, page: seq<Entry>)
    requires DistinctIds(existing) && DistinctIds(page)
    ensures DistinctIds(existing + Unseen(existing, page))
    ensures forall i :: 0 <= i < |Unseen(existing, page)| ==> Unseen(existing, page)[i] in page
  {
    if page != [] {
      var n := |page| - 1;
      UnseenDistinct(existing, page[..n]);
      var list := existing + Unseen(existing, page[..n]);
      if !HasId(existing, page[n].id) {
        assert existing + Unseen(existing, page) == list + [page[n]];
        forall i | 0 <= i < |list| ensures list[i].id != page[n].id {
          if i >= |existing| {
            assert list[i] in page[..n];
          }
        }
      } else {
        assert existing + Unseen(existing, page) == list;
      }
    }
  }

  lemma {:induction false} WithoutDistinct(list: seq<Entry>, id: int)
    requires DistinctIds(list)
    ensures DistinctIds(Without(list, id))
    ensures forall i :: 0 <= i < |Without(list, id)| ==> Without(list, id)[i] in list
  {
    if list != [] {
      var n := |list| - 1;
      WithoutDistinct(list[..n], id);
    }
  }

  /** Optimistic ids count down, so those in use lie above the next one. */
  ghost predicate IdsAbove(list: seq<Entry>, next: int) {
    forall i :: 0 <= i < |list| ==> list[i].id > next
  }

  ghost predicate AllAbove(s: State) {
    s.optimisticId < 0 && forall p :: p in s.lists ==> IdsAbove(s.lists[p], s.optimisticId)
  }

  lemma PageDistinct(me: UserId, s: State, page: seq<Row>, texts: seq<string>)
    requires Inv(me, s) && page in s.pages && |page| == |texts|
    ensures DistinctIds(Decrypted(page, texts)) && IdsAbove(Decrypted(page, texts), 0)
  {
    assert GoodPage(s.history.table.rows, page);
    forall i | 0 <= i < |page| ensures page[i].id > 0 {
      assert StoredRow(s.history.table.rows, page[i]);
    }
  }

  /** The only step of the client that can put one id on two lines is such a confirmation. */
  lemma PagesDistinct(me: UserId, s: State, a: Action)
    requires Inv(me, s) && AllAbove(s) && AllDistinct(s) && (a.ReplacePage? || a.AppendPage?)
    ensures AllDistinct(Step(me, s, a)) && AllAbove(Step(me, s, a))
  {
    if a.page in s.pages && |a.page| == |a.texts| {
      PageDistinct(me, s, a.page, a.texts);
      hide Inv, Decrypted;
      UnseenDistinct(ListOf(s.lists, a.peer), Decrypted(a.page, a.texts));
    }
  }

  lemma RemovalsDistinct(me: UserId, s: State, a: Action)
    requires AllAbove(s) && AllDistinct(s) && (a.RemoveLocal? || a.OnMessageDeleted?)
    ensures AllDistinct(Step(me, s, a)) && AllAbove(Step(me, s, a))
  {
    var msgId := a.msgId;
    forall p | p in s.lists
      ensures DistinctIds(Without(s.lists[p], msgId)) && IdsAbove(Without(s.lists[p], msgId), s.optimisticId)
    {
      WithoutDistinct(s.lists[p], msgId);
    }
    WithoutDistinct(ListOf(s.lists, if a.RemoveLocal? then a.peer else ""), msgId);
  }

  lemma ConfirmDistinct(me: UserId, s: State, a: Action)
    requires Inv(me, s) && AllAbove(s) && AllDistinct(s) && a.Confirm?
    ensures AllDistinct(Step(me, s, a)) <==> !ConfirmsTwice(s, a)
    ensures AllAbove(Step(me, s, a))
  {
    if a.saved in s.replies {
      assert StoredRow(s.history.table.rows, a.saved);
      hide Inv;
      var list := ListOf(s.lists, a.peer);
      ConfirmDistinctIff(list, a.msgId, Received(a.saved, a.text));
      var s' := Step(me, s, a);
      assert s'.lists[a.peer] == ReplaceFirst(list, a.msgId, Received(a.saved, a.text));
      assert forall p :: p in s'.lists && p != a.peer ==> s'.lists[p] == s.lists[p];
    }
  }

  lemma LinesDistinct(me: UserId, s: State, a: Action)
    requires Inv(me, s) && AllAbove(s) && AllDistinct(s) && (a.Optimistic? || a.SetFailed? || a.OnMessage?)
    ensures AllDistinct(Step(me, s, a)) && AllAbove(Step(me, s, a))
  {
    if a.OnMessage? && (a.frame, a.peer) in s.decrypting {
      assert StoredRow(s.history.table.rows, a.frame);
    }
    hide Inv;
  }

  lemma DistinctStep(me: UserId, s: State, a: Action)
    requires Inv(me, s) && AllAbove(s) && AllDistinct(s)
    ensures AllDistinct(Step(me, s, a)) <==> !ConfirmsTwice(s, a)
    ensures AllAbove(Step(me, s, a))
  {
    hide Inv, ConfirmsTwice;
    assert ConfirmsTwice(s, a) ==> a.Confirm? by {
      OnlyConfirms(s, a);
    }
    match a
    case ReplacePage(_, _, _) => PagesDistinct(me, s, a);
    case AppendPage(_, _, _) => PagesDistinct(me, s, a);
    case RemoveLocal(_, _) => RemovalsDistinct(me, s, a);
    case OnMessageDeleted(_) => RemovalsDistinct(me, s, a);
    case Confirm(_, _, _, _) => ConfirmDistinct(me, s, a);
    case Optimistic(_, _) => LinesDistinct(me, s, a);
    case SetFailed(_, _, _) => LinesDistinct(me, s, a);
    case OnMessage(_, _, _) => LinesDistinct(me, s, a);
    case _ => assert Step(me, s, a).lists == s.lists;
  }

  lemma OnlyConfirms(s: State, a: Action)
    ensures ConfirmsTwice(s, a) ==> a.Confirm?
  {
  }

  ghost predicate DistinctThroughout(me: UserId, acts: seq<Action>) {
    AllDistinct(Exec(me, acts)) && (acts != [] ==> DistinctThroughout(me, acts[..|acts| - 1]))
  }

  ghost predicate NeverConfirmsTwice(me: UserId, acts: seq<Action>) {
    acts == [] ||
    (NeverConfirmsTwice(me, acts[..|acts| - 1]) && !ConfirmsTwice(Exec(me, acts[..|acts| - 1]), acts[|acts| - 1]))
  }

  /**
   * Own messages included: no list ever has two lines with one id if and only if no confirmation finds its line and
   * the saved message both on the list already. Optimistic ids then stay apart from each other too.
   */
  lemma {:induction false} ShownOnceIff(me: UserId, acts: seq<Action>)
    ensures DistinctThroughout(me, acts) <==> NeverConfirmsTwice(me, acts)
    ensures DistinctThroughout(me, acts) ==> AllAbove(Exec(me, acts))
  {
    hide Step, Inv, AllDistinct, ConfirmsTwice;
    if acts == [] {
      NothingShown();
    } else {
      ShownOnceIff(me, acts[..|acts| - 1]);
      InvAlways(me, acts[..|acts| - 1]);
      if DistinctThroughout(me, acts[..|acts| - 1]) {
        DistinctStep(me, Exec(me, acts[..|acts| - 1]), acts[|acts| - 1]);
      }
    }
  }

  lemma NothingShown()
    ensures AllDistinct(Init()) && AllAbove(Init())
  {
  }

  /** And then no stored message, whoever sent it, has two lines on a list. */
  lemma StoredAtMostOnce(me: UserId, acts: seq<Action>, peer: string, i: nat, j: nat)
    requires NeverConfirmsTwice(me, acts)
    requires var s := Exec(me, acts);
             peer in s.lists && i < j < |s.lists[peer]| && s.lists[peer][i].id > 0 && s.lists[peer][j].id > 0
    ensures var s := Exec(me, acts);
            var (x, y) := (s.lists[peer][i], s.lists[peer][j]);
            x.sender != y.sender || x.clientId != y.clientId
  {
    ShownOnceIff(me, acts);
    hide Exec, NeverConfirmsTwice;
    InvAlways(me, acts);
    var s := Exec(me, acts);
    var rows := s.history.table.rows;
    var (x, y) := (s.lists[peer][i], s.lists[peer][j]);
    assert DistinctIds(s.lists[peer]);
    var k :| 0 <= k < |rows| && rows[k].id == x.id && rows[k].sender == x.sender && rows[k].clientId == x.clientId;
    var l :| 0 <= l < |rows| && rows[l].id == y.id && rows[l].sender == y.sender && rows[l].clientId == y.clientId;
    assert k != l;
  }

  lemma Then(me: UserId, acts: seq<Action>, a: Action, s: State) returns (more: seq<Action>)
    requires Step(me, Exec(me, acts), a) == s
    ensures more == acts + [a] && Exec(me, more) == s
  {
    more := acts + [a];
    assert more[..|acts|] == acts;
  }

  lemma Start(me: UserId) returns (acts: seq<Action>)
    ensures acts == [] && Exec(me, acts) == Init()
  {
    acts := [];
  }

  /** A message of user 1 is stored and its reply and a page with it are on their way; its optimistic line is shown. */
  lemma SentAndFetched(d: Draft, row: Row) returns (acts: seq<Action>)
    requires d == Draft(1, 2, "hi", "", false, "c") && row == NewRow(1, d)
    ensures Exec(1, acts) == Init().(lists := map["bob" := [Entry(-1, 1, "", "hi", false)]], optimisticId := -2,
                                     history := Runs.History(Table([row], 2), []), published := {1}, replies := {row},
                                     pages := {[row]})
  {
    hide Exec;
    var line := Entry(-1, 1, "", "hi", false);
    acts := Start(1);
    var s1 := Init().(lists := map["bob" := [line]], optimisticId := -2);
    assert ListOf(Init().lists, "bob") + [line] == [line];
    acts := Then(1, acts, Optimistic("bob", "hi"), s1);
    var s2 := s1.(history := Runs.History(Table([row], 2), []), published := {1}, replies := {row});
    acts := Then(1, acts, Server(Runs.Send(d), 0), s2);
    OneRowPage(row);
    acts := Then(1, acts, Fetch(2, 0, 50), s2.(pages := {[row]}));
  }

  /**
   * The limit to received messages is real: a page loaded before the confirmation shows an own message twice. This is
   * a run of the context's functions on a conversation of one message; the chat panel offers to load more only while
   * hasMore is set, so there the first page must have been full.
   */
  lemma OwnMessageCanShowTwice() returns (acts: seq<Action>)
    ensures var list := ListOf(Exec(1, acts).lists, "bob");
            |list| == 2 && list[0].id == list[1].id == 1 && list[0].sender == 1
  {
    hide Exec;
    var d := Draft(1, 2, "hi", "", false, "c");
    var row := NewRow(1, d);
    var line := Entry(-1, 1, "", "hi", false);
    var own := Received(row, "hi");
    OwnLists(line, own, row);
    acts := SentAndFetched(d, row);
    var s := Exec(1, acts);
    var s1 := s.(lists := s.lists["bob" := [line, own]]);
    acts := Then(1, acts, AppendPage("bob", [row], ["hi"]), s1);
    acts := Then(1, acts, Confirm("bob", -1, row, "hi"), s1.(lists := s.lists["bob" := [own, own]]));
  }

  lemma OwnLists(line: Entry, own: Entry, row: Row)
    requires line.id == -1 && own == Received(row, "hi") && row.id == 1
    ensures [line] + Unseen([line], Decrypted([row], ["hi"])) == [line, own]
    ensures ReplaceFirst([line, own], -1, own) == [own, own]
  {
    var page := Decrypted([row], ["hi"]);
    assert page == [own] && page[..0] == [];
    assert !HasId([line], own.id);
    assert Unseen([line], page) == Unseen([line], []) + [own] == [own];
  }

  lemma OneRowPage(row: Row)
    requires row.sender == 1 && row.recipient == 2 && row.id == 1 && row.deletedAt.None?
    ensures PageSince([row], 1, 2, 0, 50).messages == [row]
  {
    assert [row][..0] == [];
    assert After([row], 1, 2, 0) == Select([], PairAfter(1, 2, 0)) + [row] == [row];
  }
}

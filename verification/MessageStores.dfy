/** MessageStore: the queries run against the table, then the row loops of the Go code. */
module MessageStores {
  import opened Common
  import opened Decimal
  import opened MessageTable

  predicate InPair(r: Row, a: UserId, b: UserId) {
    (r.sender == a && r.recipient == b) || (r.sender == b && r.recipient == a)
  }

  function PairAfter(a: UserId, b: UserId, cursor: int): Row -> bool {
    (r: Row) => InPair(r, a, b) && r.id > cursor
  }

  function PairBefore(a: UserId, b: UserId, cursor: int): Row -> bool {
    (r: Row) => InPair(r, a, b) && r.id < cursor
  }

  function MissedBy(user: UserId, cursor: int): Row -> bool {
    (r: Row) => r.recipient == user && r.id > cursor && r.deletedAt.None?
  }

  /** Messages of the pair with a larger id, oldest first. */
  function After(rows: seq<Row>, a: UserId, b: UserId, cursor: int): seq<Row> {
    Select(rows, PairAfter(a, b, cursor))
  }

  function Before(rows: seq<Row>, a: UserId, b: UserId, cursor: int): seq<Row> {
    Select(rows, PairBefore(a, b, cursor))
  }

  function First<T>(s: seq<T>, n: nat): seq<T> {
    if |s| <= n then s else s[..n]
  }

  function Last<T>(s: seq<T>, n: nat): seq<T> {
    if |s| <= n then s else s[|s| - n..]
  }

  function Reversed<T>(s: seq<T>): (r: seq<T>)
    ensures |r| == |s| && forall i :: 0 <= i < |s| ==> r[i] == s[|s| - 1 - i]
  {
    seq(|s|, i requires 0 <= i < |s| => s[|s| - 1 - i])
  }

  /** Newest first, cut off, and turned round again: the newest, oldest first. */
  lemma NewestReversed(all: seq<Row>, limit: nat)
    ensures Reversed(AllShown(First(Reversed(all), limit))) == AllShown(Last(all, limit))
  {
  }

  /** ListMessagesHandler: a positive limit wins over the default of 50, and 100 is the most. */
  function PageSize(requested: Option<int>): (limit: nat)
    ensures 1 <= limit <= 100
    ensures requested.None? || requested.value <= 0 ==> limit == 50
    ensures requested.Some? && requested.value >= 1 ==>
              limit <= requested.value && (limit < requested.value ==> limit == 100)
  {
    var limit := if requested.Some? && requested.value > 0 then requested.value else 50;
    if limit > 100 then 100 else limit
  }

  /** Above a cursor: exactly the stored messages that one of the two sent to the other. */
  lemma AfterColumns(rows: seq<Row>, a: UserId, b: UserId, cursor: int, r: Row)
    ensures r in After(rows, a, b, cursor) <==>
              r in rows && r.id > cursor
              && ((r.sender == a && r.recipient == b) || (r.sender == b && r.recipient == a))
  {
    SelectIn(rows, PairAfter(a, b, cursor), r);
  }

  lemma BeforeColumns(rows: seq<Row>, a: UserId, b: UserId, cursor: int, r: Row)
    ensures r in Before(rows, a, b, cursor) <==>
              r in rows && r.id < cursor
              && ((r.sender == a && r.recipient == b) || (r.sender == b && r.recipient == a))
  {
    SelectIn(rows, PairBefore(a, b, cursor), r);
  }

  /** What a page displays: of a deleted message everything but its text, of any other everything. */
  predicate Displays(m: Row, r: Row) {
    if r.deletedAt.Some? then m == r.(body := "", iv := Some("")) else m == r
  }

  /** Every message displayed is one that one of the two sent to the other, above (or below) the cursor. */
  ghost predicate FromConversation(msgs: seq<Row>, rows: seq<Row>, a: UserId, b: UserId, low: int, high: int) {
    forall m :: m in msgs ==>
      exists r :: r in rows && Displays(m, r) && low < r.id < high
                  && ((r.sender == a && r.recipient == b) || (r.sender == b && r.recipient == a))
  }

  /** Every message between the two in that range is displayed. */
  ghost predicate WholeConversation(msgs: seq<Row>, rows: seq<Row>, a: UserId, b: UserId, low: int, high: int) {
    forall r :: r in rows && low < r.id < high
                && ((r.sender == a && r.recipient == b) || (r.sender == b && r.recipient == a)) ==>
      exists m :: m in msgs && Displays(m, r)
  }

  lemma PageSinceReads(rows: seq<Row>, a: UserId, b: UserId, cursor: int, limit: nat, above: int)
    requires forall r :: r in rows ==> r.id < above
    ensures var page := PageSince(rows, a, b, cursor, limit);
            && |page.messages| <= limit && FromConversation(page.messages, rows, a, b, cursor, above)
            && (!page.hasMore ==> WholeConversation(page.messages, rows, a, b, cursor, above))
  {
    var (page, all) := (PageSince(rows, a, b, cursor, limit), After(rows, a, b, cursor));
    hide After;
    forall m | m in page.messages
      ensures exists r :: r in rows && Displays(m, r) && cursor < r.id < above
                          && ((r.sender == a && r.recipient == b) || (r.sender == b && r.recipient == a))
    {
      var i :| 0 <= i < |page.messages| && page.messages[i] == m;
      AfterColumns(rows, a, b, cursor, all[i]);
    }
    forall r | r in rows && cursor < r.id < above && !page.hasMore
               && ((r.sender == a && r.recipient == b) || (r.sender == b && r.recipient == a))
      ensures exists m :: m in page.messages && Displays(m, r)
    {
      AfterColumns(rows, a, b, cursor, r);
      var i :| 0 <= i < |all| && all[i] == r;
      assert page.messages[i] in page.messages && Displays(page.messages[i], r);
    }
  }

  lemma PageBeforeReads(rows: seq<Row>, a: UserId, b: UserId, cursor: int, limit: nat, below: int)
    requires forall r :: r in rows ==> r.id > below
    ensures var page := PageBefore(rows, a, b, cursor, limit);
            && |page.messages| <= limit && FromConversation(page.messages, rows, a, b, below, cursor)
            && (!page.hasMore ==> WholeConversation(page.messages, rows, a, b, below, cursor))
  {
    var (page, all) := (PageBefore(rows, a, b, cursor, limit), Before(rows, a, b, cursor));
    var last := Last(all, limit);
    hide Before;
    forall m | m in page.messages
      ensures exists r :: r in rows && Displays(m, r) && below < r.id < cursor
                          && ((r.sender == a && r.recipient == b) || (r.sender == b && r.recipient == a))
    {
      var i :| 0 <= i < |page.messages| && page.messages[i] == m;
      assert last[i] in all;
      BeforeColumns(rows, a, b, cursor, last[i]);
    }
    forall r | r in rows && below < r.id < cursor && !page.hasMore
               && ((r.sender == a && r.recipient == b) || (r.sender == b && r.recipient == a))
      ensures exists m :: m in page.messages && Displays(m, r)
    {
      BeforeColumns(rows, a, b, cursor, r);
      var i :| 0 <= i < |all| && all[i] == r;
      assert page.messages[i] in page.messages && Displays(page.messages[i], r);
    }
  }

  datatype Page = Page(messages: seq<Row>, hasMore: bool)

  /** The newest limit messages below a cursor, oldest first. */
  function PageBefore(rows: seq<Row>, a: UserId, b: UserId, beforeID: int, limit: nat): Page {
    var all := Before(rows, a, b, beforeID);
    Page(AllShown(Last(all, limit)), |all| > limit)
  }

  /** The oldest limit messages above a cursor, oldest first. */
  function PageSince(rows: seq<Row>, a: UserId, b: UserId, sinceID: int, limit: nat): Page {
    var all := After(rows, a, b, sinceID);
    Page(AllShown(First(all, limit)), |all| > limit)
  }

  /** The two-index swap loop that turns newest-first into oldest-first. */
  method ReverseInPlace(msgs: array<Row>)
    modifies msgs
    ensures msgs[..] == Reversed(old(msgs[..]))
  {
    var i, j := 0, msgs.Length - 1;
    while i < j
      invariant 0 <= i && j == msgs.Length - 1 - i && i <= j + 1
      invariant forall k :: 0 <= k < i || j < k < msgs.Length ==> msgs[k] == old(msgs[msgs.Length - 1 - k])
      invariant forall k :: i <= k <= j ==> msgs[k] == old(msgs[k])
    {
      msgs[i], msgs[j] := msgs[j], msgs[i];
      i, j := i + 1, j - 1;
    }
  }

  /** The ids a read receipt lists are those of the unread, undeleted messages of that sender to that recipient. */
  lemma ReadColumns(rows: seq<Row>, recipient: UserId, sender: UserId)
    ensures forall r :: r in rows && r.recipient == recipient && r.sender == sender && r.readAt.None? &&
                        r.deletedAt.None?
              ==> r.id in NewlyRead(rows, recipient, sender)
    ensures forall id :: id in NewlyRead(rows, recipient, sender) ==>
              exists r :: r in rows && r.id == id && r.recipient == recipient && r.sender == sender &&
                          r.readAt.None? && r.deletedAt.None?
  {
    var hit := Select(rows, UnreadFrom(recipient, sender));
    forall r | r in rows && r.recipient == recipient && r.sender == sender && r.readAt.None? && r.deletedAt.None?
      ensures r.id in Ids(hit)
    {
      SelectIn(rows, UnreadFrom(recipient, sender), r);
      var k :| 0 <= k < |hit| && hit[k] == r;
      assert Ids(hit)[k] == r.id;
    }
    forall k | 0 <= k < |hit| ensures hit[k] in rows && Unread(hit[k], recipient, sender) {
      SelectIn(rows, UnreadFrom(recipient, sender), hit[k]);
    }
  }

  class MessageStore {
    var rows: seq<Row>
    var nextId: int

    ghost function View(): Table
      reads this
    {
      Table(rows, nextId)
    }

    constructor ()
      ensures Valid(View()) && rows == []
    {
      rows, nextId := [], 1;
    }

    /** Idempotent send: one row per (sender, client id), and every send returns it. */
    method CreateOrGetExisting(d: Draft) returns (m: Row, inserted: bool)
      requires Valid(View())
      modifies this
      ensures Valid(View()) && View() == Inserted(old(View()), d)
      ensures m == Saved(old(View()), d) && m in rows && HasKey(m, d.sender, d.clientId)
      ensures inserted <==> m !in old(rows)
      ensures inserted ==> rows == old(rows) + [m]
      ensures inserted ==>
                && m.id == old(nextId) && m.sender == d.sender && m.recipient == d.recipient && m.clientId == d.clientId
                && m.body == d.body && m.iv == Some(d.iv) && m.encrypted == d.encrypted &&
                   m.readAt == m.deletedAt == None
      ensures !inserted ==> rows == old(rows)
    {
      InsertedValid(View(), d);
      var conflict := Existing(rows, d);
      var id := nextId;
      nextId := nextId + 1;
      if conflict.None? {
        m := NewRow(id, d);
        assert m !in rows;
        rows := rows + [m];
        return m, true;
      }
      return conflict.value, false;
    }

    method GetByID(id: int) returns (m: Option<Row>)
      requires Valid(View())
      ensures m.None? <==> forall i :: 0 <= i < |rows| ==> rows[i].id != id
      ensures m.Some? ==> exists r :: r in rows && r.id == id && Displays(m.value, r)
    {
      for i := 0 to |rows|
        invariant forall k :: 0 <= k < i ==> rows[k].id != id
      {
        if rows[i].id == id {
          return Some(Shown(rows[i]));
        }
      }
      return None;
    }

    /** Scans at most retainLimit + 1 fetched rows and reports whether one was left over. */
    method QueryMessages(fetched: seq<Row>, retainLimit: nat) returns (msgs: seq<Row>, hasMore: bool)
      ensures msgs == AllShown(First(fetched, retainLimit)) && (hasMore <==> |fetched| > retainLimit)
    {
      msgs := [];
      for i := 0 to |fetched|
        invariant msgs == AllShown(fetched[..i])
      {
        msgs := msgs + [Shown(fetched[i])];
      }
      if |msgs| > retainLimit {
        return msgs[..retainLimit], true;
      }
      return msgs, false;
    }

    method ListConversationSince(userID: UserId, peerID: UserId, sinceID: int, limit: nat)
      returns (msgs: seq<Row>, hasMore: bool)
      requires Valid(View())
      ensures Page(msgs, hasMore) == PageSince(rows, userID, peerID, sinceID, limit)
      ensures FromConversation(msgs, rows, userID, peerID, sinceID, nextId) && |msgs| <= limit
      ensures !hasMore ==> WholeConversation(msgs, rows, userID, peerID, sinceID, nextId)
    {
      PageSinceReads(rows, userID, peerID, sinceID, limit, nextId);
      hide FromConversation, WholeConversation, After;
      var all := After(rows, userID, peerID, sinceID);
      msgs, hasMore := QueryMessages(First(all, limit + 1), limit);
      assert First(First(all, limit + 1), limit) == First(all, limit);
    }

    method ListConversationBefore(userID: UserId, peerID: UserId, beforeID: int, limit: nat)
      returns (msgs: seq<Row>, hasMore: bool)
      requires Valid(View())
      ensures Page(msgs, hasMore) == PageBefore(rows, userID, peerID, beforeID, limit)
      ensures FromConversation(msgs, rows, userID, peerID, 0, beforeID) && |msgs| <= limit
      ensures !hasMore ==> WholeConversation(msgs, rows, userID, peerID, 0, beforeID)
    {
      PageBeforeReads(rows, userID, peerID, beforeID, limit, 0);
      hide Before, FromConversation, WholeConversation;
      var all := Before(rows, userID, peerID, beforeID);
      var newestFirst := Reversed(all);
      msgs, hasMore := QueryMessages(First(newestFirst, limit + 1), limit);
      assert First(First(newestFirst, limit + 1), limit) == First(newestFirst, limit);
      ghost var page := msgs;
      var buffer := new Row[|msgs|](i requires 0 <= i < |msgs| => msgs[i]);
      assert buffer[..] == page;
      ReverseInPlace(buffer);
      msgs := buffer[..];
      NewestReversed(all, limit);
    }

    /**
     * The cursor choice of ListMessagesHandler over the raw query parameters, "" for an absent one: a beforeId wins
     * over a sinceId and must be positive, a sinceId must not be negative, and None is a 400.
     */
    method ListMessages(userID: UserId, peerID: UserId, beforeStr: string, sinceStr: string, limitStr: string)
      returns (r: Option<Page>)
      requires Valid(View())
      ensures var (before, limit) := (ParseInt(beforeStr), PageSize(ParseInt(limitStr)));
              beforeStr != "" ==>
                r == if before.Some? && before.value > 0
                     then Some(PageBefore(rows, userID, peerID, before.value, limit)) else None
      ensures var (since, limit) := (ParseInt(sinceStr), PageSize(ParseInt(limitStr)));
              beforeStr == "" && sinceStr != "" ==>
                r == if since.Some? && since.value >= 0
                     then Some(PageSince(rows, userID, peerID, since.value, limit)) else None
      ensures beforeStr == sinceStr == "" ==>
                r == Some(PageSince(rows, userID, peerID, 0, PageSize(ParseInt(limitStr))))
    {
      hide *;
      var limit := PageSize(ParseInt(limitStr));
      var msgs, hasMore;
      if beforeStr != "" {
        var beforeID := ParseInt(beforeStr);
        if beforeID.None? || beforeID.value <= 0 {
          return None;
        }
        msgs, hasMore := ListConversationBefore(userID, peerID, beforeID.value, limit);
      } else {
        var sinceID := 0;
        if sinceStr != "" {
          var parsed := ParseInt(sinceStr);
          if parsed.None? || parsed.value < 0 {
            return None;
          }
          sinceID := parsed.value;
        }
        msgs, hasMore := ListConversationSince(userID, peerID, sinceID, limit);
      }
      return Some(Page(msgs, hasMore));
    }

    /** Live messages to userID past the cursor, oldest first. */
    method GetUnreadForUser(userID: UserId, sinceID: int) returns (msgs: seq<Row>)
      requires Valid(View())
      ensures msgs == Select(rows, MissedBy(userID, sinceID)) && Ascending(msgs)
      ensures forall m :: m in msgs <==> m in rows && m.recipient == userID && m.id > sinceID && m.deletedAt.None?
    {
      SelectAscending(rows, MissedBy(userID, sinceID));
      forall m ensures m in Select(rows, MissedBy(userID, sinceID)) <==>
                         m in rows && m.recipient == userID && m.id > sinceID && m.deletedAt.None?
      {
        SelectIn(rows, MissedBy(userID, sinceID), m);
      }
      var fetched := Select(rows, MissedBy(userID, sinceID));
      msgs := [];
      for i := 0 to |fetched|
        invariant msgs == fetched[..i]
      {
        SelectIn(rows, MissedBy(userID, sinceID), fetched[i]);
        msgs := msgs + [Shown(fetched[i])];
      }
    }

    method MarkRead(recipientID: UserId, senderID: UserId, now: int) returns (ids: seq<int>)
      requires Valid(View())
      modifies this`rows
      ensures Valid(View())
      ensures rows == Marked(old(rows), recipientID, senderID, now)
      ensures ids == NewlyRead(old(rows), recipientID, senderID)
      ensures |rows| == |old(rows)| && forall i :: 0 <= i < |rows| ==>
                var r := old(rows)[i];
                if r.recipient == recipientID && r.sender == senderID && r.readAt.None? && r.deletedAt.None?
                then rows[i] == r.(readAt := Some(now)) && r.id in ids else rows[i] == r
      ensures forall id :: id in ids ==>
                exists r :: r in old(rows) && r.id == id && r.recipient == recipientID && r.sender == senderID &&
                            r.readAt.None? && r.deletedAt.None?
    {
      ReadColumns(rows, recipientID, senderID);
      var matched := Select(rows, UnreadFrom(recipientID, senderID));
      SameMessagesValid(View(), Marked(rows, recipientID, senderID, now));
      rows := Marked(rows, recipientID, senderID, now);
      ids := [];
      for i := 0 to |matched|
        invariant ids == Ids(matched)[..i]
      {
        ids := ids + [matched[i].id];
      }
    }

    /** Only the sender may delete, and only once. */
    method SoftDelete(messageID: int, senderID: UserId, now: int) returns (m: Option<Row>)
      requires Valid(View())
      modifies this`rows
      ensures Valid(View())
      ensures rows == SoftDeleted(old(rows), messageID, senderID, now)
      ensures m.None? <==> forall i :: 0 <= i < |rows| ==> !Deletable(old(rows)[i], messageID, senderID)
      ensures m.None? ==> rows == old(rows)
      ensures |rows| == |old(rows)| && forall i :: 0 <= i < |rows| ==>
                var r := old(rows)[i];
                rows[i] == if r.id == messageID && r.sender == senderID && r.deletedAt.None?
                           then r.(deletedAt := Some(now)) else r
      ensures m.Some? ==> exists i :: 0 <= i < |rows| && Deletable(old(rows)[i], messageID, senderID)
                                 && m.value == rows[i] == old(rows)[i].(deletedAt := Some(now))
    {
      SameMessagesValid(View(), SoftDeleted(rows, messageID, senderID, now));
      m := None;
      for i := 0 to |rows|
        invariant m.None? ==> forall k :: 0 <= k < i ==> !Deletable(rows[k], messageID, senderID)
        invariant m.Some? ==> exists k :: 0 <= k < i && Deletable(rows[k], messageID, senderID) &&
                                          m.value == rows[k].(deletedAt := Some(now))
      {
        if Deletable(rows[i], messageID, senderID) {
          m := Some(rows[i].(deletedAt := Some(now)));
        }
      }
      rows := SoftDeleted(rows, messageID, senderID, now);
    }
  }
}

/** The messages table in id order, and the SQL statements of the message store as functions on it. */
module MessageTable {
  import opened Common

  datatype Row = Row(id: int, sender: UserId, recipient: UserId, body: string, iv: Option<string>, encrypted: bool,
                     clientId: string, readAt: Option<int>, deletedAt: Option<int>)

  datatype Draft = Draft(sender: UserId, recipient: UserId, body: string, iv: string, encrypted: bool, clientId: string)

  /** rows in commit order, which is id order; nextId is the BIGSERIAL sequence, which may skip numbers. */
  datatype Table = Table(rows: seq<Row>, nextId: int)

  ghost predicate Ascending(rows: seq<Row>) {
    forall i, j :: 0 <= i < j < |rows| ==> rows[i].id < rows[j].id
  }

  ghost predicate UniqueKeys(rows: seq<Row>) {
    forall i, j :: 0 <= i < j < |rows| ==> rows[i].sender != rows[j].sender || rows[i].clientId != rows[j].clientId
  }

  ghost predicate Valid(t: Table) {
    && Ascending(t.rows) && UniqueKeys(t.rows)
    && (forall i :: 0 <= i < |t.rows| ==> 0 < t.rows[i].id < t.nextId)
    && 0 < t.nextId
  }

  /** SELECT ... WHERE, in id order. */
  function Select(rows: seq<Row>, where: Row -> bool): seq<Row> {
    if rows == [] then [] else
      var n := |rows| - 1;
      Select(rows[..n], where) + (if where(rows[n]) then [rows[n]] else [])
  }

  function Ids(rows: seq<Row>): (ids: seq<int>)
    ensures |ids| == |rows| && forall i :: 0 <= i < |rows| ==> ids[i] == rows[i].id
  {
    seq(|rows|, i requires 0 <= i < |rows| => rows[i].id)
  }

  lemma {:induction false} SelectConcat(a: seq<Row>, b: seq<Row>, where: Row -> bool)
    ensures Select(a + b, where) == Select(a, where) + Select(b, where)
    decreases |b|
  {
    if b == [] {
      assert a + b == a;
    } else {
      var n := |b| - 1;
      assert (a + b)[..|a + b| - 1] == a + b[..n];
      SelectConcat(a, b[..n], where);
    }
  }

  lemma {:induction false} SelectIn(rows: seq<Row>, where: Row -> bool, r: Row)
    ensures r in Select(rows, where) <==> r in rows && where(r)
  {
    if rows != [] {
      var n := |rows| - 1;
      SelectIn(rows[..n], where, r);
      assert rows == rows[..n] + [rows[n]];
    }
  }

  lemma {:induction false} SelectAscending(rows: seq<Row>, where: Row -> bool)
    requires Ascending(rows)
    ensures Ascending(Select(rows, where)) && |Select(rows, where)| <= |rows|
  {
    if rows != [] {
      var n := |rows| - 1;
      var front := Select(rows[..n], where);
      SelectAscending(rows[..n], where);
      forall i | 0 <= i < |front| ensures front[i].id < rows[n].id {
        SelectIn(rows[..n], where, front[i]);
      }
    }
  }

  /** Row i of both selects the same way, so the ids selected are the same. */
  lemma {:induction false} SelectSameIds(a: seq<Row>, b: seq<Row>, whereA: Row -> bool, whereB: Row -> bool)
    requires |a| == |b|
    requires forall i :: 0 <= i < |a| ==> a[i].id == b[i].id && whereA(a[i]) == whereB(b[i])
    ensures Ids(Select(a, whereA)) == Ids(Select(b, whereB))
  {
    if a != [] {
      var n := |a| - 1;
      SelectSameIds(a[..n], b[..n], whereA, whereB);
      var fa, fb := Select(a[..n], whereA), Select(b[..n], whereB);
      assert Ids(fa + [a[n]]) == Ids(fa) + [a[n].id];
      assert Ids(fb + [b[n]]) == Ids(fb) + [b[n].id];
    }
  }

  /** Two ascending sequences with the same elements are equal. */
  lemma {:induction false} SameElements(a: seq<Row>, b: seq<Row>)
    requires Ascending(a) && Ascending(b)
    requires forall r :: r in a <==> r in b
    ensures a == b
  {
    assert (a != [] ==> a[|a| - 1] in b) && (b != [] ==> b[|b| - 1] in a);
    if a != [] && b != [] {
      var n, m := |a| - 1, |b| - 1;
      assert a[n] == b[m];
      forall r ensures r in a[..n] <==> r in b[..m] {
        assert a == a[..n] + [a[n]] && b == b[..m] + [b[m]];
        if r in a[..n] || r in b[..m] {
          assert r in a && r in b;
        }
      }
      SameElements(a[..n], b[..m]);
    }
  }

  // ---- INSERT ... ON CONFLICT (sender_id, client_message_id) DO NOTHING, then SELECT ----

  predicate HasKey(r: Row, sender: UserId, clientId: string) {
    r.sender == sender && r.clientId == clientId
  }

  function NewRow(id: int, d: Draft): Row {
    Row(id, d.sender, d.recipient, d.body, Some(d.iv), d.encrypted, d.clientId, None, None)
  }

  /** The row already stored under the draft's key, if any. */
  function Existing(rows: seq<Row>, d: Draft): (r: Option<Row>)
    ensures r.Some? ==> r.value in rows && HasKey(r.value, d.sender, d.clientId)
    ensures r.None? ==> forall i :: 0 <= i < |rows| ==> !HasKey(rows[i], d.sender, d.clientId)
  {
    if rows == [] then None else
      var n := |rows| - 1;
      if HasKey(rows[n], d.sender, d.clientId) then Some(rows[n]) else Existing(rows[..n], d)
  }

  /** The conflicting insert stores nothing but still burns a sequence number. */
  function Inserted(t: Table, d: Draft): Table {
    Table(if Existing(t.rows, d).Some? then t.rows else t.rows + [NewRow(t.nextId, d)], t.nextId + 1)
  }

  /** The row a send returns. */
  function Saved(t: Table, d: Draft): Row {
    var stored := Existing(t.rows, d);
    if stored.Some? then stored.value else NewRow(t.nextId, d)
  }

  lemma InsertedValid(t: Table, d: Draft)
    requires Valid(t)
    ensures Valid(Inserted(t, d)) && Saved(t, d) in Inserted(t, d).rows
  {
    var rows := Inserted(t, d).rows;
    if Existing(t.rows, d).None? {
      hide Existing;
      assert rows == t.rows + [NewRow(t.nextId, d)];
      assert rows[|t.rows|] == NewRow(t.nextId, d);
    }
  }

  // ---- Display, receipts and soft deletion ----

  /** selectCols: a deleted message shows neither body nor iv. */
  function Shown(r: Row): Row {
    if r.deletedAt.Some? then r.(body := "", iv := Some("")) else r
  }

  function AllShown(rows: seq<Row>): (s: seq<Row>)
    ensures |s| == |rows| && forall i :: 0 <= i < |rows| ==> s[i] == Shown(rows[i])
  {
    seq(|rows|, i requires 0 <= i < |rows| => Shown(rows[i]))
  }

  predicate Unread(r: Row, recipient: UserId, sender: UserId) {
    r.recipient == recipient && r.sender == sender && r.readAt.None? && r.deletedAt.None?
  }

  function Updated(rows: seq<Row>, f: Row -> Row): (s: seq<Row>)
    ensures |s| == |rows| && forall i :: 0 <= i < |rows| ==> s[i] == f(rows[i])
  {
    seq(|rows|, i requires 0 <= i < |rows| => f(rows[i]))
  }

  /** UPDATE ... SET read_at = NOW(). */
  function Marked(rows: seq<Row>, recipient: UserId, sender: UserId, now: int): seq<Row> {
    Updated(rows, (r: Row) => if Unread(r, recipient, sender) then r.(readAt := Some(now)) else r)
  }

  function UnreadFrom(recipient: UserId, sender: UserId): Row -> bool {
    (r: Row) => Unread(r, recipient, sender)
  }

  /** RETURNING id of that update. */
  function NewlyRead(rows: seq<Row>, recipient: UserId, sender: UserId): seq<int> {
    Ids(Select(rows, UnreadFrom(recipient, sender)))
  }

  predicate Deletable(r: Row, id: int, sender: UserId) {
    r.id == id && r.sender == sender && r.deletedAt.None?
  }

  function SoftDeleted(rows: seq<Row>, id: int, sender: UserId, now: int): seq<Row> {
    Updated(rows, (r: Row) => if Deletable(r, id, sender) then r.(deletedAt := Some(now)) else r)
  }

  /** The erasure of an account's messages: UPDATE ... SET body = '', iv = NULL, encrypted = FALSE. */
  function Purged(rows: seq<Row>, sender: UserId): seq<Row> {
    Updated(rows, (r: Row) => if r.sender == sender then r.(body := "", iv := None, encrypted := false) else r)
  }

  /** The same messages, in the same places, with at most their mutable columns changed. */
  ghost predicate SameMessages(a: seq<Row>, b: seq<Row>) {
    && |a| == |b|
    && forall i :: 0 <= i < |a| ==>
         a[i].id == b[i].id && a[i].sender == b[i].sender && a[i].recipient == b[i].recipient &&
         a[i].clientId == b[i].clientId
  }

  lemma SameMessagesValid(t: Table, rows: seq<Row>)
    requires Valid(t) && SameMessages(t.rows, rows)
    ensures Valid(Table(rows, t.nextId))
  {
  }
}

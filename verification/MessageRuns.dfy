/** Runs of the message store: any sequence of sends, read marks, deletions and account erasures. */
module MessageRuns {
  import opened Common
  import opened MessageTable
  import opened MessageStores
  import opened Paging

  datatype Action =
    | Send(draft: Draft)
    | Read(recipient: UserId, sender: UserId)
    | Delete(id: int, sender: UserId)
    | Erase(user: UserId)

  /** receipts are all the ids MarkRead has returned, in order. */
  datatype History = History(table: Table, receipts: seq<int>)

  function Step(h: History, a: Action, now: int): History {
    match a
    case Send(d) => h.(table := Inserted(h.table, d))
    case Read(recipient, sender) =>
      History(h.table.(rows := Marked(h.table.rows, recipient, sender, now)),
              h.receipts + NewlyRead(h.table.rows, recipient, sender))
    case Delete(id, sender) => h.(table := h.table.(rows := SoftDeleted(h.table.rows, id, sender, now)))
    case Erase(user) => h.(table := h.table.(rows := Purged(h.table.rows, user)))
  }

  /** The i-th action happens at time i. */
  function Exec(acts: seq<Action>): History {
    if acts == [] then History(Table([], 1), []) else
      var n := |acts| - 1;
      Step(Exec(acts[..n]), acts[n], n)
  }

  lemma StepExtends(h: History, a: Action, now: int)
    requires Valid(h.table)
    ensures Valid(Step(h, a, now).table) && Extends(h.table.rows, Step(h, a, now).table.rows)
  {
    var rows := h.table.rows;
    match a
    case Send(d) =>
      InsertedValid(h.table, d);
      assert Inserted(h.table, d).rows[..|rows|] == rows;
    case Read(recipient, sender) =>
      SameMessagesValid(h.table, Marked(rows, recipient, sender, now));
    case Delete(id, sender) =>
      SameMessagesValid(h.table, SoftDeleted(rows, id, sender, now));
    case Erase(user) =>
      SameMessagesValid(h.table, Purged(rows, user));
  }

  lemma {:induction false} ExecValid(acts: seq<Action>)
    ensures Valid(Exec(acts).table)
  {
    if acts != [] {
      ExecValid(acts[..|acts| - 1]);
      StepExtends(Exec(acts[..|acts| - 1]), acts[|acts| - 1], |acts| - 1);
    }
  }

  /** The table only ever grows at the end; existing messages keep their place, parties and key. */
  lemma {:induction false} RunExtends(acts: seq<Action>, upto: nat)
    requires upto <= |acts|
    ensures Extends(Exec(acts[..upto]).table.rows, Exec(acts).table.rows)
    decreases |acts|
  {
    ExecValid(acts);
    if upto == |acts| {
      assert acts[..upto] == acts;
    } else {
      var n := |acts| - 1;
      RunExtends(acts[..n], upto);
      assert acts[..n][..upto] == acts[..upto];
      ExecValid(acts[..n]);
      StepExtends(Exec(acts[..n]), acts[n], n);
    }
  }

  /** What each action does to the rows already there, column by column. */
  lemma ActionEffects(h: History, a: Action, now: int, i: nat)
    requires i < |h.table.rows|
    ensures var (r, rows') := (h.table.rows[i], Step(h, a, now).table.rows);
            i < |rows'| &&
            rows'[i] == match a
                        case Send(_) => r
                        case Read(recipient, sender) =>
                          if r.recipient == recipient && r.sender == sender && r.readAt.None? && r.deletedAt.None?
                          then r.(readAt := Some(now)) else r
                        case Delete(id, sender) =>
                          if r.id == id && r.sender == sender && r.deletedAt.None?
                          then r.(deletedAt := Some(now)) else r
                        case Erase(user) =>
                          if r.sender == user then r.(body := "", iv := None, encrypted := false) else r
  {
  }

  /** A send adds the draft's row at the end, unless its sender already has a message with that client id. */
  lemma SendEffect(h: History, d: Draft, now: int)
    requires Valid(h.table)
    ensures var (rows, rows') := (h.table.rows, Step(h, Send(d), now).table.rows);
            if exists r :: r in rows && r.sender == d.sender && r.clientId == d.clientId then rows' == rows
            else rows' == rows + [Row(h.table.nextId, d.sender, d.recipient, d.body, Some(d.iv), d.encrypted,
                                      d.clientId, None, None)]
  {
    var rows := h.table.rows;
    if r :| r in rows && r.sender == d.sender && r.clientId == d.clientId {
      var i :| 0 <= i < |rows| && rows[i] == r;
      assert HasKey(rows[i], d.sender, d.clientId);
    }
  }

  // ---- Paging while the run goes on ----

  ghost predicate Moments(times: seq<nat>, acts: seq<Action>) {
    && (forall i :: 0 <= i < |times| ==> times[i] <= |acts|)
    && (forall i, j :: 0 <= i <= j < |times| ==> times[i] <= times[j])
  }

  /** The tables the pages are read from, each at its moment of the run. */
  function Snapshots(acts: seq<Action>, times: seq<nat>): (tables: seq<seq<Row>>)
    requires forall i :: 0 <= i < |times| ==> times[i] <= |acts|
    ensures |tables| == |times| && forall i :: 0 <= i < |times| ==> tables[i] == Exec(acts[..times[i]]).table.rows
  {
    seq(|times|, i requires 0 <= i < |times| => Exec(acts[..times[i]]).table.rows)
  }

  lemma SnapshotsGrow(acts: seq<Action>, times: seq<nat>)
    requires Moments(times, acts)
    ensures Grows(Snapshots(acts, times))
  {
    forall i, j | 0 <= i <= j < |times| ensures Extends(Snapshots(acts, times)[i], Snapshots(acts, times)[j]) {
      RunExtends(acts[..times[j]], times[i]);
      assert acts[..times[j]][..times[i]] == acts[..times[i]];
    }
  }

  /** In any run, a finished forward walk has read each message of the pair past the cursor exactly once, in order. */
  lemma ForwardPagingInAnyRun(acts: seq<Action>, times: seq<nat>, a: UserId, b: UserId, cursor: int, limit: nat)
    requires limit >= 1 && Moments(times, acts) && ForwardWalk(Snapshots(acts, times), a, b, cursor, limit).done
    ensures var w := ForwardWalk(Snapshots(acts, times), a, b, cursor, limit);
            && 1 <= w.pages <= |times|
            && StrictlyAscending(w.ids)
            && (forall id :: id in w.ids <==>
                  id > cursor &&
                  exists r :: r in Exec(acts[..times[w.pages - 1]]).table.rows && r.id == id &&
                              ((r.sender == a && r.recipient == b) || (r.sender == b && r.recipient == a)))
  {
    SnapshotsGrow(acts, times);
    ForwardExact(Snapshots(acts, times), a, b, cursor, limit);
    var w := ForwardWalk(Snapshots(acts, times), a, b, cursor, limit);
    var rows := Snapshots(acts, times)[w.pages - 1];
    ExecValid(acts[..times[w.pages - 1]]);
    forall id {
      AfterIds(rows, a, b, cursor, id);
    }
  }

  /**
   * In any run, a finished backward walk has read each message below the cursor, as it began, exactly once, in order.
   */
  lemma BackwardPagingInAnyRun(acts: seq<Action>, times: seq<nat>, a: UserId, b: UserId, cursor: int, limit: nat)
    requires limit >= 1 && Moments(times, acts) && BackwardWalk(Snapshots(acts, times), a, b, cursor, limit).done
    ensures var w := BackwardWalk(Snapshots(acts, times), a, b, cursor, limit);
            && times != [] && StrictlyAscending(w.ids)
            && (forall id :: id in w.ids <==>
                  id < cursor &&
                  exists r :: r in Exec(acts[..times[0]]).table.rows && r.id == id &&
                              ((r.sender == a && r.recipient == b) || (r.sender == b && r.recipient == a)))
  {
    SnapshotsGrow(acts, times);
    var tables := Snapshots(acts, times);
    BackwardExact(tables, a, b, cursor, limit);
    ExecValid(acts[..times[0]]);
    forall id {
      BeforeIds(tables[0], a, b, cursor, id);
    }
  }

  // ---- Receipts ----

  ghost predicate NoRepeats(ids: seq<int>) {
    forall i, j :: 0 <= i < j < |ids| ==> ids[i] != ids[j]
  }

  ghost predicate ReceiptsMatch(h: History) {
    && NoRepeats(h.receipts)
    && (forall i :: 0 <= i < |h.table.rows| ==> (h.table.rows[i].id in h.receipts <==> h.table.rows[i].readAt.Some?))
    && (forall id :: id in h.receipts ==> exists i :: 0 <= i < |h.table.rows| && h.table.rows[i].id == id)
  }

  lemma NewlyReadExact(rows: seq<Row>, recipient: UserId, sender: UserId)
    requires Ascending(rows)
    ensures StrictlyAscending(NewlyRead(rows, recipient, sender))
    ensures forall i :: 0 <= i < |rows| ==>
              (rows[i].id in NewlyRead(rows, recipient, sender) <==> Unread(rows[i], recipient, sender))
    ensures forall id :: id in NewlyRead(rows, recipient, sender) ==>
              exists i :: 0 <= i < |rows| && rows[i].id == id && Unread(rows[i], recipient, sender)
  {
    var where := UnreadFrom(recipient, sender);
    var hit := Select(rows, where);
    SelectAscending(rows, where);
    forall k | 0 <= k < |hit|
      ensures exists i :: 0 <= i < |rows| && rows[i].id == hit[k].id && Unread(rows[i], recipient, sender)
    {
      SelectIn(rows, where, hit[k]);
      var i :| 0 <= i < |rows| && rows[i] == hit[k];
    }
    forall i | 0 <= i < |rows| && Unread(rows[i], recipient, sender) ensures rows[i].id in Ids(hit) {
      SelectIn(rows, where, rows[i]);
      var k :| 0 <= k < |hit| && hit[k] == rows[i];
      assert Ids(hit)[k] == rows[i].id;
    }
  }

  lemma NoRepeatsConcat(a: seq<int>, b: seq<int>)
    requires NoRepeats(a) && NoRepeats(b) && forall id :: id in b ==> id !in a
    ensures NoRepeats(a + b)
  {
    forall i, j | 0 <= i < j < |a + b| ensures (a + b)[i] != (a + b)[j] {
      if i < |a| <= j {
        assert (a + b)[j] == b[j - |a|];
        assert b[j - |a|] !in a && a[i] in a;
      }
    }
  }

  lemma ReceiptsRead(h: History, recipient: UserId, sender: UserId, now: int)
    requires Valid(h.table) && ReceiptsMatch(h)
    ensures ReceiptsMatch(Step(h, Read(recipient, sender), now))
  {
    var rows := h.table.rows;
    var more := NewlyRead(rows, recipient, sender);
    NewlyReadExact(rows, recipient, sender);
    forall id | id in more ensures id !in h.receipts {
      var i :| 0 <= i < |rows| && rows[i].id == id && Unread(rows[i], recipient, sender);
    }
    NoRepeatsConcat(h.receipts, more);
    var h' := Step(h, Read(recipient, sender), now);
    forall id | id in h'.receipts ensures exists i :: 0 <= i < |rows| && h'.table.rows[i].id == id {
      if id in h.receipts {
        var i :| 0 <= i < |rows| && rows[i].id == id;
        assert h'.table.rows[i].id == id;
      } else {
        assert id in more;
        var i :| 0 <= i < |rows| && rows[i].id == id && Unread(rows[i], recipient, sender);
        assert h'.table.rows[i].id == id;
      }
    }
    forall i | 0 <= i < |rows| ensures h'.table.rows[i].id in h'.receipts <==> h'.table.rows[i].readAt.Some? {
      assert h'.table.rows[i].id == rows[i].id;
    }
  }

  lemma ReceiptsStep(h: History, a: Action, now: int)
    requires Valid(h.table) && ReceiptsMatch(h)
    ensures ReceiptsMatch(Step(h, a, now))
  {
    var h' := Step(h, a, now);
    if a.Read? {
      ReceiptsRead(h, a.recipient, a.sender, now);
    } else {
      StepExtends(h, a, now);
      forall id | id in h.receipts ensures exists i :: 0 <= i < |h'.table.rows| && h'.table.rows[i].id == id {
        var i :| 0 <= i < |h.table.rows| && h.table.rows[i].id == id;
        assert h'.table.rows[..|h.table.rows|][i].id == id;
      }
    }
  }

  /** Over any run no id is ever receipted twice, and the ids receipted are exactly those with read_at set. */
  lemma {:induction false} ReceiptsExact(acts: seq<Action>)
    ensures ReceiptsMatch(Exec(acts))
  {
    if acts != [] {
      var n := |acts| - 1;
      ExecValid(acts[..n]);
      ReceiptsExact(acts[..n]);
      ReceiptsStep(Exec(acts[..n]), acts[n], n);
    }
  }

  // ---- Deletion is final ----

  lemma DeletedRowFrozen(h: History, a: Action, now: int, i: nat)
    requires i < |h.table.rows| && h.table.rows[i].deletedAt.Some?
    ensures var (r, rows') := (h.table.rows[i], Step(h, a, now).table.rows);
            i < |rows'| && rows'[i].id == r.id && rows'[i].deletedAt == r.deletedAt && rows'[i].readAt == r.readAt
  {
  }

  /** From a moment when row i is deleted, its read and deletion marks are frozen for the rest of the run. */
  lemma {:induction false} DeletedIsFinal(acts: seq<Action>, upto: nat, i: nat)
    requires upto <= |acts| && i < |Exec(acts[..upto]).table.rows| && Exec(acts[..upto]).table.rows[i].deletedAt.Some?
    ensures var (r, r') := (Exec(acts[..upto]).table.rows[i], Exec(acts).table.rows);
            i < |r'| && r'[i].id == r.id && r'[i].deletedAt == r.deletedAt && r'[i].readAt == r.readAt
    decreases |acts|
  {
    hide Step;
    if upto == |acts| {
      assert acts[..upto] == acts;
    } else {
      var n := |acts| - 1;
      assert acts[..n][..upto] == acts[..upto];
      DeletedIsFinal(acts[..n], upto, i);
      DeletedRowFrozen(Exec(acts[..n]), acts[n], n, i);
    }
  }

  /**
   * Once deleted: every later display of the message is blank, it is never replayed to its recipient, and if it was
   * unread when deleted it is never receipted.
   */
  lemma DeletedStaysHidden(acts: seq<Action>, upto: nat, i: nat, since: int)
    requires upto <= |acts| && i < |Exec(acts[..upto]).table.rows| && Exec(acts[..upto]).table.rows[i].deletedAt.Some?
    ensures var (r, h) := (Exec(acts[..upto]).table.rows[i], Exec(acts));
            && i < |h.table.rows| && h.table.rows[i].id == r.id
            && Shown(h.table.rows[i]).body == "" && Shown(h.table.rows[i]).iv == Some("") &&
               Shown(h.table.rows[i]).deletedAt.Some?
            && (forall m :: m in Select(h.table.rows, MissedBy(r.recipient, since)) ==> m.id != r.id)
            && (r.readAt.None? ==> r.id !in h.receipts)
  {
    hide Exec, UniqueKeys;
    DeletedIsFinal(acts, upto, i);
    ExecValid(acts);
    ReceiptsExact(acts);
    var (r, h) := (Exec(acts[..upto]).table.rows[i], Exec(acts));
    forall m | m in Select(h.table.rows, MissedBy(r.recipient, since)) ensures m.id != r.id {
      SelectIn(h.table.rows, MissedBy(r.recipient, since), m);
      var k :| 0 <= k < |h.table.rows| && h.table.rows[k] == m;
      assert h.table.rows[k].deletedAt.None?;
    }
  }
}

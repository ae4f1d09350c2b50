/**
 * Paging through a conversation, one query per page, while other requests insert, mark and delete messages between the
 * pages. tables[i] is the table that page i is read from.
 */
module Paging {
  import opened Common
  import opened MessageTable
  import opened MessageStores

  /** Ids gathered, pages fetched, and whether a page without hasMore was reached. */
  datatype Walk = Walk(ids: seq<int>, pages: nat, done: bool)

  /** ListConversationSince from each page's last id; newer pages go to the end. */
  function ForwardWalk(tables: seq<seq<Row>>, a: UserId, b: UserId, cursor: int, limit: nat): Walk
    requires limit >= 1
  {
    if tables == [] then Walk([], 0, false) else
      var page := PageSince(tables[0], a, b, cursor, limit);
      var ids := Ids(page.messages);
      if !page.hasMore then Walk(ids, 1, true) else
      var rest := ForwardWalk(tables[1..], a, b, ids[|ids| - 1], limit);
      Walk(ids + rest.ids, rest.pages + 1, rest.done)
  }

  /** ListConversationBefore from each page's first id; older pages go to the front. */
  function BackwardWalk(tables: seq<seq<Row>>, a: UserId, b: UserId, cursor: int, limit: nat): Walk
    requires limit >= 1
  {
    if tables == [] then Walk([], 0, false) else
      var page := PageBefore(tables[0], a, b, cursor, limit);
      var ids := Ids(page.messages);
      if !page.hasMore then Walk(ids, 1, true) else
      var rest := BackwardWalk(tables[1..], a, b, ids[0], limit);
      Walk(rest.ids + ids, rest.pages + 1, rest.done)
  }

  /** The ids on a page are those of the pair's messages, whatever is blanked for display. */
  lemma SincePageIds(rows: seq<Row>, a: UserId, b: UserId, cursor: int, limit: nat)
    ensures var (page, all) := (PageSince(rows, a, b, cursor, limit), After(rows, a, b, cursor));
            Ids(page.messages) == Ids(First(all, limit)) && (page.hasMore <==> |all| > limit)
  {
    hide After;
  }

  lemma BeforePageIds(rows: seq<Row>, a: UserId, b: UserId, cursor: int, limit: nat)
    ensures var (page, all) := (PageBefore(rows, a, b, cursor, limit), Before(rows, a, b, cursor));
            Ids(page.messages) == Ids(Last(all, limit)) && (page.hasMore <==> |all| > limit)
  {
    hide Before;
  }

  /** One page of a forward walk, in terms of all that lies above the cursor. */
  lemma ForwardPage(tables: seq<seq<Row>>, a: UserId, b: UserId, cursor: int, limit: nat)
    requires limit >= 1 && tables != []
    ensures var all := After(tables[0], a, b, cursor);
            ForwardWalk(tables, a, b, cursor, limit) ==
              if |all| <= limit then Walk(Ids(all), 1, true) else
                var rest := ForwardWalk(tables[1..], a, b, all[limit - 1].id, limit);
                Walk(Ids(all[..limit]) + rest.ids, rest.pages + 1, rest.done)
  {
    hide After, Ids, PageSince;
    SincePageIds(tables[0], a, b, cursor, limit);
  }

  lemma BackwardPage(tables: seq<seq<Row>>, a: UserId, b: UserId, cursor: int, limit: nat)
    requires limit >= 1 && tables != []
    ensures var all := Before(tables[0], a, b, cursor);
            BackwardWalk(tables, a, b, cursor, limit) ==
              if |all| <= limit then Walk(Ids(all), 1, true) else
                var rest := BackwardWalk(tables[1..], a, b, all[|all| - limit].id, limit);
                Walk(rest.ids + Ids(all[|all| - limit..]), rest.pages + 1, rest.done)
  {
    hide Before, Ids, PageBefore;
    BeforePageIds(tables[0], a, b, cursor, limit);
  }

  /** later is earlier with some mutable columns changed and newer rows at the end. */
  ghost predicate Extends(earlier: seq<Row>, later: seq<Row>) {
    && Ascending(earlier) && Ascending(later)
    && |earlier| <= |later| && SameMessages(earlier, later[..|earlier|])
  }

  ghost predicate Grows(tables: seq<seq<Row>>) {
    forall i, j :: 0 <= i <= j < |tables| ==> Extends(tables[i], tables[j])
  }

  ghost predicate StrictlyAscending(ids: seq<int>) {
    forall i, j :: 0 <= i < j < |ids| ==> ids[i] < ids[j]
  }

  // ---- Cutting a page off ----

  lemma AfterSplit(rows: seq<Row>, a: UserId, b: UserId, cursor: int, m: nat)
    requires Ascending(rows) && 1 <= m <= |After(rows, a, b, cursor)|
    ensures After(rows, a, b, After(rows, a, b, cursor)[m - 1].id) == After(rows, a, b, cursor)[m..]
  {
    var all := After(rows, a, b, cursor);
    var rest := After(rows, a, b, all[m - 1].id);
    SelectAscending(rows, PairAfter(a, b, cursor));
    SelectAscending(rows, PairAfter(a, b, all[m - 1].id));
    SelectIn(rows, PairAfter(a, b, cursor), all[m - 1]);
    forall r ensures r in rest <==> r in all[m..] {
      SelectIn(rows, PairAfter(a, b, cursor), r);
      SelectIn(rows, PairAfter(a, b, all[m - 1].id), r);
      CutAbove(all, m, r);
    }
    SameElements(rest, all[m..]);
  }

  lemma CutAbove(all: seq<Row>, m: nat, r: Row)
    requires Ascending(all) && 1 <= m <= |all|
    ensures r in all[m..] <==> r in all && r.id > all[m - 1].id
  {
    if r in all {
      var i :| 0 <= i < |all| && all[i] == r;
      assert i >= m ==> all[m..][i - m] == r;
    }
  }

  lemma BeforeSplit(rows: seq<Row>, a: UserId, b: UserId, cursor: int, m: nat)
    requires Ascending(rows) && m < |Before(rows, a, b, cursor)|
    ensures Before(rows, a, b, Before(rows, a, b, cursor)[m].id) == Before(rows, a, b, cursor)[..m]
  {
    var all := Before(rows, a, b, cursor);
    var older := Before(rows, a, b, all[m].id);
    SelectAscending(rows, PairBefore(a, b, cursor));
    SelectAscending(rows, PairBefore(a, b, all[m].id));
    SelectIn(rows, PairBefore(a, b, cursor), all[m]);
    forall r ensures r in older <==> r in all[..m] {
      SelectIn(rows, PairBefore(a, b, cursor), r);
      SelectIn(rows, PairBefore(a, b, all[m].id), r);
      CutBelow(all, m, r);
    }
    SameElements(older, all[..m]);
  }

  lemma CutBelow(all: seq<Row>, m: nat, r: Row)
    requires Ascending(all) && m < |all|
    ensures r in all[..m] <==> r in all && r.id < all[m].id
  {
    if r in all {
      var i :| 0 <= i < |all| && all[i] == r;
      assert i < m ==> all[..m][i] == r;
    }
  }

  // ---- What later rows change ----

  lemma AfterExtends(earlier: seq<Row>, later: seq<Row>, a: UserId, b: UserId, cursor: int)
    requires Extends(earlier, later)
    ensures var n := |After(earlier, a, b, cursor)|;
            n <= |After(later, a, b, cursor)| &&
            Ids(After(later, a, b, cursor))[..n] == Ids(After(earlier, a, b, cursor))
  {
    var front, back := later[..|earlier|], later[|earlier|..];
    assert later == front + back;
    SelectConcat(front, back, PairAfter(a, b, cursor));
    SelectSameIds(earlier, front, PairAfter(a, b, cursor), PairAfter(a, b, cursor));
  }

  /** Rows inserted later lie above any cursor that is an id of the earlier table. */
  lemma BeforeStable(earlier: seq<Row>, later: seq<Row>, a: UserId, b: UserId, at: nat)
    requires Extends(earlier, later) && at < |earlier|
    ensures Ids(Before(later, a, b, earlier[at].id)) == Ids(Before(earlier, a, b, earlier[at].id))
  {
    var where := PairBefore(a, b, earlier[at].id);
    var front, back := later[..|earlier|], later[|earlier|..];
    assert later == front + back;
    SelectConcat(front, back, where);
    SelectSameIds(earlier, front, where, where);
    assert front[at] == later[at];
    if Select(back, where) != [] {
      SelectIn(back, where, Select(back, where)[0]);
      assert false;
    }
  }

  // ---- Forward ----

  /**
   * Following the last id of each page until hasMore is false yields exactly the pair's messages above the start
   * cursor, as they stand at the last page: none missed, none twice, in order.
   */
  lemma {:induction false} ForwardExact(tables: seq<seq<Row>>, a: UserId, b: UserId, cursor: int, limit: nat)
    requires limit >= 1 && Grows(tables) && ForwardWalk(tables, a, b, cursor, limit).done
    ensures var w := ForwardWalk(tables, a, b, cursor, limit);
            1 <= w.pages <= |tables| && w.ids == Ids(After(tables[w.pages - 1], a, b, cursor))
    decreases |tables|
  {
    hide After, Ids, Extends, PageSince;
    var all := After(tables[0], a, b, cursor);
    ForwardPage(tables, a, b, cursor, limit);
    if |all| > limit {
      var next := all[limit - 1].id;
      assert Grows(tables[1..]);
      ForwardExact(tables[1..], a, b, next, limit);
      var last := tables[ForwardWalk(tables, a, b, cursor, limit).pages - 1];
      ForwardGlue(tables[0], last, a, b, cursor, limit);
    }
  }

  /** A page read earlier followed by what lies above it later is what lies above the cursor later. */
  lemma ForwardGlue(earlier: seq<Row>, later: seq<Row>, a: UserId, b: UserId, cursor: int, limit: nat)
    requires Extends(earlier, later) && 1 <= limit < |After(earlier, a, b, cursor)|
    ensures var all := After(earlier, a, b, cursor);
            Ids(After(later, a, b, cursor)) == Ids(all[..limit]) + Ids(After(later, a, b, all[limit - 1].id))
  {
    var all, final := After(earlier, a, b, cursor), After(later, a, b, cursor);
    AfterExtends(earlier, later, a, b, cursor);
    assert Ids(final)[..|all|][limit - 1] == final[limit - 1].id;
    AfterSplit(later, a, b, cursor, limit);
    assert Ids(final) == Ids(final)[..limit] + Ids(final[limit..]);
    assert Ids(final)[..limit] == Ids(final)[..|all|][..limit] == Ids(all[..limit]);
  }

  lemma BackwardGlue(earlier: seq<Row>, later: seq<Row>, a: UserId, b: UserId, cursor: int, limit: nat)
    requires Extends(earlier, later) && 1 <= limit < |Before(earlier, a, b, cursor)|
    ensures var all := Before(earlier, a, b, cursor);
            var m := |all| - limit;
            Ids(Before(later, a, b, all[m].id)) + Ids(all[m..]) == Ids(all)
  {
    var all := Before(earlier, a, b, cursor);
    var m := |all| - limit;
    SelectIn(earlier, PairBefore(a, b, cursor), all[m]);
    var at :| 0 <= at < |earlier| && earlier[at] == all[m];
    BeforeStable(earlier, later, a, b, at);
    BeforeSplit(earlier, a, b, cursor, m);
    assert Ids(all) == Ids(all[..m]) + Ids(all[m..]);
  }

  /** A message with this id that one of the two sent to the other. */
  ghost predicate Exchanged(rows: seq<Row>, a: UserId, b: UserId, id: int) {
    exists r :: r in rows && r.id == id && ((r.sender == a && r.recipient == b) || (r.sender == b && r.recipient == a))
  }

  lemma AfterIds(rows: seq<Row>, a: UserId, b: UserId, cursor: int, id: int)
    requires Ascending(rows)
    ensures StrictlyAscending(Ids(After(rows, a, b, cursor)))
    ensures id in Ids(After(rows, a, b, cursor)) <==> Exchanged(rows, a, b, id) && id > cursor
  {
    var all := After(rows, a, b, cursor);
    SelectAscending(rows, PairAfter(a, b, cursor));
    if id in Ids(all) {
      var i :| 0 <= i < |all| && all[i].id == id;
      AfterColumns(rows, a, b, cursor, all[i]);
    }
    if Exchanged(rows, a, b, id) && id > cursor {
      var r :| r in rows && r.id == id && ((r.sender == a && r.recipient == b) || (r.sender == b && r.recipient == a));
      AfterColumns(rows, a, b, cursor, r);
      var i :| 0 <= i < |all| && all[i] == r;
      assert Ids(all)[i] == id;
    }
  }

  lemma BeforeIds(rows: seq<Row>, a: UserId, b: UserId, cursor: int, id: int)
    requires Ascending(rows)
    ensures StrictlyAscending(Ids(Before(rows, a, b, cursor)))
    ensures id in Ids(Before(rows, a, b, cursor)) <==> Exchanged(rows, a, b, id) && id < cursor
  {
    var all := Before(rows, a, b, cursor);
    SelectAscending(rows, PairBefore(a, b, cursor));
    if id in Ids(all) {
      var i :| 0 <= i < |all| && all[i].id == id;
      BeforeColumns(rows, a, b, cursor, all[i]);
    }
    if Exchanged(rows, a, b, id) && id < cursor {
      var r :| r in rows && r.id == id && ((r.sender == a && r.recipient == b) || (r.sender == b && r.recipient == a));
      BeforeColumns(rows, a, b, cursor, r);
      var i :| 0 <= i < |all| && all[i] == r;
      assert Ids(all)[i] == id;
    }
  }

  /** A finished walk has read an id exactly when a message with it passed between the two, whichever way. */
  lemma ForwardReads(tables: seq<seq<Row>>, a: UserId, b: UserId, cursor: int, limit: nat, id: int)
    requires limit >= 1 && Grows(tables) && ForwardWalk(tables, a, b, cursor, limit).done
    ensures var w := ForwardWalk(tables, a, b, cursor, limit);
            && 1 <= w.pages <= |tables| && StrictlyAscending(w.ids)
            && (id in w.ids <==> Exchanged(tables[w.pages - 1], a, b, id) && id > cursor)
  {
    ForwardExact(tables, a, b, cursor, limit);
    var n := ForwardWalk(tables, a, b, cursor, limit).pages - 1;
    assert Extends(tables[n], tables[n]);
    AfterIds(tables[n], a, b, cursor, id);
  }

  lemma BackwardReads(tables: seq<seq<Row>>, a: UserId, b: UserId, cursor: int, limit: nat, id: int)
    requires limit >= 1 && Grows(tables) && BackwardWalk(tables, a, b, cursor, limit).done
    ensures var w := BackwardWalk(tables, a, b, cursor, limit);
            && tables != [] && StrictlyAscending(w.ids)
            && (id in w.ids <==> Exchanged(tables[0], a, b, id) && id < cursor)
  {
    BackwardExact(tables, a, b, cursor, limit);
    assert Extends(tables[0], tables[0]);
    BeforeIds(tables[0], a, b, cursor, id);
  }

  lemma {:induction false} SelectSame(rows: seq<Row>, f: Row -> bool, g: Row -> bool)
    requires forall r :: f(r) == g(r)
    ensures Select(rows, f) == Select(rows, g)
  {
    if rows != [] {
      SelectSame(rows[..|rows| - 1], f, g);
    }
  }

  lemma SamePages(rows: seq<Row>, a: UserId, b: UserId, cursor: int, limit: nat)
    ensures PageSince(rows, a, b, cursor, limit) == PageSince(rows, b, a, cursor, limit)
    ensures PageBefore(rows, a, b, cursor, limit) == PageBefore(rows, b, a, cursor, limit)
  {
    SelectSame(rows, PairAfter(a, b, cursor), PairAfter(b, a, cursor));
    SelectSame(rows, PairBefore(a, b, cursor), PairBefore(b, a, cursor));
    hide Select;
    assert After(rows, a, b, cursor) == After(rows, b, a, cursor);
    assert Before(rows, a, b, cursor) == Before(rows, b, a, cursor);
  }

  /** Both parties walk the same conversation: the same ids, page by page. */
  lemma {:induction false} PartiesReadTheSame(tables: seq<seq<Row>>, a: UserId, b: UserId, cursor: int, limit: nat)
    requires limit >= 1
    ensures ForwardWalk(tables, a, b, cursor, limit) == ForwardWalk(tables, b, a, cursor, limit)
    decreases |tables|
  {
    if tables != [] {
      SamePages(tables[0], a, b, cursor, limit);
      ForwardPage(tables, a, b, cursor, limit);
      var all := After(tables[0], a, b, cursor);
      if |all| > limit {
        PartiesReadTheSame(tables[1..], a, b, all[limit - 1].id, limit);
      }
      ForwardPage(tables, b, a, cursor, limit);
      SincePageIds(tables[0], a, b, cursor, limit);
      SelectSame(tables[0], PairAfter(a, b, cursor), PairAfter(b, a, cursor));
      assert After(tables[0], b, a, cursor) == all by {
        hide Select;
      }
      hide After, ForwardWalk, Ids, PageSince;
    }
  }

  /** A message from u to v is in the finished walks of both. */
  lemma SentIsReadByBoth(tables: seq<seq<Row>>, u: UserId, v: UserId, cursor: int, limit: nat, r: Row)
    requires limit >= 1 && Grows(tables) && ForwardWalk(tables, u, v, cursor, limit).done
    requires var n := ForwardWalk(tables, u, v, cursor, limit).pages;
             1 <= n <= |tables| && r in tables[n - 1] && r.sender == u && r.recipient == v && r.id > cursor
    ensures r.id in ForwardWalk(tables, u, v, cursor, limit).ids && r.id in ForwardWalk(tables, v, u, cursor, limit).ids
  {
    ForwardReads(tables, u, v, cursor, limit, r.id);
    PartiesReadTheSame(tables, u, v, cursor, limit);
  }

  /** max(1, ceil(n / limit)): the fewest pages, at least one, that hold n messages. */
  function PagesFor(n: nat, limit: nat): (pages: nat)
    requires limit >= 1
    ensures pages >= 1 && n <= pages * limit && (pages > 1 ==> (pages - 1) * limit < n)
  {
    if n <= limit then 1 else PagesFor(n - limit, limit) + 1
  }

  /** Nothing is inserted between the pages; marks, deletions and erasures may be. */
  ghost predicate NoInserts(tables: seq<seq<Row>>) {
    forall i, j :: 0 <= i <= j < |tables| ==> |tables[i]| == |tables[j]|
  }

  /** Without inserts a later page has as much above any cursor as an earlier one. */
  lemma AfterSameLength(earlier: seq<Row>, later: seq<Row>, a: UserId, b: UserId, cursor: int)
    requires Extends(earlier, later) && |earlier| == |later|
    ensures |After(earlier, a, b, cursor)| == |After(later, a, b, cursor)|
  {
    assert later[..|earlier|] == later;
    SelectSameIds(earlier, later, PairAfter(a, b, cursor), PairAfter(a, b, cursor));
    assert |Ids(After(earlier, a, b, cursor))| == |Ids(After(later, a, b, cursor))|;
  }

  /** Without inserts the walk ends, after exactly max(1, ceil(n / limit)) pages. */
  lemma {:induction false} QuietWalkEnds(tables: seq<seq<Row>>, a: UserId, b: UserId, cursor: int, limit: nat)
    requires limit >= 1 && Grows(tables) && NoInserts(tables) && tables != []
    requires |tables| >= PagesFor(|After(tables[0], a, b, cursor)|, limit)
    ensures var w := ForwardWalk(tables, a, b, cursor, limit);
            w.done && w.pages == PagesFor(|After(tables[0], a, b, cursor)|, limit)
    decreases |tables|
  {
    hide After, ForwardWalk, Ids, Extends;
    var all := After(tables[0], a, b, cursor);
    ForwardPage(tables, a, b, cursor, limit);
    if |all| > limit {
      var next := all[limit - 1].id;
      assert Extends(tables[0], tables[0]) && Extends(tables[0], tables[1]);
      OrderedByExtends(tables[0]);
      AfterSplit(tables[0], a, b, cursor, limit);
      AfterSameLength(tables[0], tables[1], a, b, next);
      assert Grows(tables[1..]) && NoInserts(tables[1..]);
      QuietWalkEnds(tables[1..], a, b, next, limit);
    }
  }

  lemma OrderedByExtends(rows: seq<Row>)
    requires Extends(rows, rows)
    ensures Ascending(rows)
  {
  }

  // ---- Backward ----

  /**
   * Walking back from a cursor and putting older pages in front yields exactly the messages below it, as they stood
   * when the walk began: concurrent inserts never show up.
   */
  lemma {:induction false} BackwardExact(tables: seq<seq<Row>>, a: UserId, b: UserId, cursor: int, limit: nat)
    requires limit >= 1 && Grows(tables) && BackwardWalk(tables, a, b, cursor, limit).done
    ensures var w := BackwardWalk(tables, a, b, cursor, limit);
            1 <= w.pages <= |tables| && w.ids == Ids(Before(tables[0], a, b, cursor))
    decreases |tables|
  {
    hide Before, Ids, Extends, PageBefore;
    var all := Before(tables[0], a, b, cursor);
    BackwardPage(tables, a, b, cursor, limit);
    if |all| > limit {
      var m := |all| - limit;
      assert Grows(tables[1..]);
      BackwardExact(tables[1..], a, b, all[m].id, limit);
      BackwardGlue(tables[0], tables[1], a, b, cursor, limit);
    }
  }

  /** A walk back ends after max(1, ceil(n / limit)) pages, n counted at its start, whatever is inserted meanwhile. */
  lemma {:induction false} BackwardEnds(tables: seq<seq<Row>>, a: UserId, b: UserId, cursor: int, limit: nat)
    requires limit >= 1 && Grows(tables) && tables != []
    requires |tables| >= PagesFor(|Before(tables[0], a, b, cursor)|, limit)
    ensures var w := BackwardWalk(tables, a, b, cursor, limit);
            w.done && w.pages == PagesFor(|Before(tables[0], a, b, cursor)|, limit)
    decreases |tables|
  {
    hide Before, BackwardWalk, Extends;
    var all := Before(tables[0], a, b, cursor);
    BackwardPage(tables, a, b, cursor, limit);
    if |all| > limit {
      var m := |all| - limit;
      assert Grows(tables[1..]);
      BackwardGlue(tables[0], tables[1], a, b, cursor, limit);
      assert |Ids(Before(tables[1], a, b, all[m].id))| == m;
      BackwardEnds(tables[1..], a, b, all[m].id, limit);
    }
  }

  /**
   * Both walks tell the same story: after a finished forward walk, walking back from above everything it read gives
   * the same ids in the same order.
   */
  lemma WalksMirror(forward: seq<seq<Row>>, backward: seq<seq<Row>>, a: UserId, b: UserId, low: int, high: int,
                    limit: nat, limit': nat)
    requires limit >= 1 && limit' >= 1 && Grows(forward) && Grows(backward) && backward != []
    requires var w := ForwardWalk(forward, a, b, low, limit);
             w.done && 1 <= w.pages <= |forward| && backward[0] == forward[w.pages - 1]
    requires BackwardWalk(backward, a, b, high, limit').done
    requires forall id :: Exchanged(backward[0], a, b, id) ==> low < id < high
    ensures BackwardWalk(backward, a, b, high, limit').ids == ForwardWalk(forward, a, b, low, limit).ids
  {
    ForwardExact(forward, a, b, low, limit);
    BackwardExact(backward, a, b, high, limit');
    var rows := backward[0];
    forall i | 0 <= i < |rows| && InPair(rows[i], a, b) ensures low < rows[i].id < high {
      assert Exchanged(rows, a, b, rows[i].id);
    }
    SelectSameIds(rows, rows, PairAfter(a, b, low), PairBefore(a, b, high));
  }
}

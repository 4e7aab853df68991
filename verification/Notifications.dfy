/** A user's notification list, read page by page while the client archives or deletes what it has
    already loaded (src/repositories/notification-repository.ts). */
module Notifications {
  import opened Text
  import opened Paging

  /** `archived` is None on documents written before the attribute existed. */
  datatype Notification = Notification(userId: string, archived: Option<bool>, isRead: bool)

  type Notes = seq<Row<Notification>>

  datatype Page = Page(items: Notes, hasMore: bool, continuationToken: Option<string>)

  /** A test of a database query, and what a query may ask: one test, or either of two. */
  datatype Test = UserIs(id: string) | ArchivedIs(flag: bool) | ArchivedIsNull

  datatype Condition = That(test: Test) | Or(first: Test, second: Test)

  predicate Passes(t: Test, n: Notification) {
    match t
    case UserIs(id) => n.userId == id
    case ArchivedIs(flag) => n.archived == Some(flag)
    case ArchivedIsNull => n.archived == None
  }

  predicate Holds(c: Condition, n: Notification) {
    match c
    case That(test) => Passes(test, n)
    case Or(first, second) => Passes(first, n) || Passes(second, n)
  }

  function AllHold(conditions: seq<Condition>): Notification -> bool {
    (n: Notification) => forall i | 0 <= i < |conditions| :: Holds(conditions[i], n)
  }

  /** archivedFilter: documents from before the attribute existed count as active. */
  function ArchivedFilter(archived: bool): Condition {
    if archived then That(ArchivedIs(true)) else Or(ArchivedIs(false), ArchivedIsNull)
  }

  /** The notifications a list request is about: the user's archived ones, or all the others. */
  function Listed(userId: string, archived: bool): Notification -> bool {
    (n: Notification) => n.userId == userId && (n.archived == Some(true) <==> archived)
  }

  lemma FilterMeans(userId: string, archived: bool, n: Notification)
    ensures AllHold([That(UserIs(userId)), ArchivedFilter(archived)])(n) <==> Listed(userId, archived)(n)
  {
    var conditions := [That(UserIs(userId)), ArchivedFilter(archived)];
    assert Holds(conditions[0], n) <==> n.userId == userId;
    assert n.archived.Some? ==> n.archived == Some(n.archived.value) && n.archived.value in {true, false};
    assert Holds(conditions[1], n) <==> (n.archived == Some(true) <==> archived);
  }

  function Skip<T>(n: nat, s: seq<T>): seq<T> {
    if n <= |s| then s[n..] else []
  }

  /** One page of the listed rows, from the token or else the offset. Any error of the query, also that
      of a token that names no document, is answered by an empty page that promises nothing. */
  function ListPage(rows: Notes, userId: string, archived: bool, token: Option<string>, offset: nat, limit: nat,
                    works: bool): Page
  {
    var documents :=
      if !works then None
      else if token.Some? && token.value != "" then List(rows, Listed(userId, archived), token, limit)
      else Some(Take(limit, Skip(offset, Select(rows, Listed(userId, archived)))));
    match documents
    case None => Page([], false, None)
    case Some(items) => PageOf(items, limit)
  }

  function PageOf(items: Notes, limit: nat): Page {
    var hasMore := |items| == limit;
    Page(items, hasMore, if hasMore && items != [] then Some(items[|items| - 1].id) else None)
  }

  function Archived(row: Row<Notification>, archived: bool): Row<Notification> {
    row.(data := row.data.(archived := Some(archived)))
  }

  /** Every row stays in its place; the named one has its flag set and the others are as they were. */
  function SetArchivedIn(rows: Notes, id: string, archived: bool): (r: Notes)
    ensures |r| == |rows|
    ensures forall i | 0 <= i < |rows| :: r[i] == if rows[i].id == id then Archived(rows[i], archived) else rows[i]
  {
    if rows == [] then []
    else
      [if rows[0].id == id then Archived(rows[0], archived) else rows[0]] + SetArchivedIn(rows[1..], id, archived)
  }

  /** The named row is gone. */
  function Without(rows: Notes, id: string): (r: Notes)
    ensures |r| <= |rows| && forall i | 0 <= i < |r| :: r[i].id != id
  {
    if rows == [] then []
    else if rows[0].id == id then Without(rows[1..], id)
    else [rows[0]] + Without(rows[1..], id)
  }

  ghost predicate Within(id: string, rows: Notes) {
    exists i | 0 <= i < |rows| :: rows[i].id == id
  }

  ghost predicate Apart(a: Notes, b: Notes) {
    forall i, j | 0 <= i < |a| && 0 <= j < |b| :: a[i].id != b[j].id
  }

  ghost predicate Covers(used: set<string>, rows: Notes) {
    forall i | 0 <= i < |rows| :: rows[i].id in used
  }

  ghost predicate Avoids(used: set<string>, rows: Notes) {
    forall i | 0 <= i < |rows| :: rows[i].id !in used
  }

  /** The stored notifications. */
  class NotificationStore {
    var rows: Notes

    constructor (initial: Notes)
      ensures rows == initial
    {
      rows := initial;
    }

    /** The place of a document, or None. */
    method IndexOf(id: string) returns (place: Option<nat>)
      ensures place.Some? ==> place.value < |rows| && rows[place.value].id == id
      ensures place == None ==> !Within(id, rows)
    {
      for i := 0 to |rows|
        invariant forall k | 0 <= k < i :: rows[k].id != id
      {
        if rows[i].id == id {
          return Some(i);
        }
      }
      place := None;
    }

    /** Null for a document that is not there and when the call fails. */
    method SetArchived(id: string, archived: bool, works: bool) returns (updated: Option<Row<Notification>>)
      requires ValidRows(rows)
      modifies this
      ensures rows == if works then SetArchivedIn(old(rows), id, archived) else old(rows)
      ensures updated.Some? <==> works && Within(id, old(rows))
      ensures updated.Some? ==> updated.value in rows && updated.value.id == id
                                && updated.value.data.archived == Some(archived)
    {
      var place := IndexOf(id);
      if !works || place == None {
        return None;
      }
      rows := rows[place.value := Archived(rows[place.value], archived)];
      updated := Some(rows[place.value]);
    }

    /** False for a document that is not there and when the call fails; otherwise the document is cut
        out and the others stay as they are. */
    method DeleteNotification(id: string, works: bool) returns (deleted: bool)
      requires ValidRows(rows)
      modifies this
      ensures rows == if works then Without(old(rows), id) else old(rows)
      ensures deleted <==> works && Within(id, old(rows))
      ensures !deleted ==> rows == old(rows)
      ensures deleted ==> exists i | 0 <= i < |old(rows)| ::
                old(rows)[i].id == id && rows == old(rows)[..i] + old(rows)[i + 1..]
    {
      var place := IndexOf(id);
      if !works || place == None {
        if place == None {
          WithoutAbsent(rows, id);
        }
        return false;
      }
      WithoutCuts(rows, place.value);
      rows := rows[..place.value] + rows[place.value + 1..];
      deleted := true;
    }

    /** getNotificationsByUser: the queries it pushes, and the page it makes of the response. */
    method GetNotificationsByUser(
      userId: string, limit: Option<nat>, maxItemCount: Option<nat>, offset: Option<nat>,
      continuationToken: Option<string>, archived: Option<bool>, works: bool)
      returns (page: Page)
      ensures page == ListPage(rows, userId, archived == Some(true), continuationToken,
                               if offset.Some? then offset.value else 0,
                               if limit.Some? then limit.value
                               else if maxItemCount.Some? then maxItemCount.value else 100, works)
    {
      var count := if limit.Some? then limit.value else if maxItemCount.Some? then maxItemCount.value else 100;
      var skip := if offset.Some? then offset.value else 0;
      var conditions := [That(UserIs(userId)), ArchivedFilter(archived == Some(true))];
      SameAnswer(rows, userId, archived == Some(true), continuationToken, count);
      PageCases(rows, userId, archived == Some(true), continuationToken, skip, count, works);
      hide *;
      if !works {
        return Page([], false, None);
      }
      var documents;
      if continuationToken.Some? && continuationToken.value != "" {
        var response := List(rows, AllHold(conditions), continuationToken, count);
        if response == None {
          return Page([], false, None);
        }
        documents := response.value;
      } else {
        documents := Take(count, Skip(skip, Select(rows, AllHold(conditions))));
      }
      var hasMore := |documents| == count;
      var token := None;
      if hasMore && |documents| > 0 {
        token := Some(documents[|documents| - 1].id);
      }
      page := Page(documents, hasMore, token);
    }
  }

  lemma PageCases(rows: Notes, userId: string, archived: bool, token: Option<string>, offset: nat, limit: nat,
                  works: bool)
    ensures var page := ListPage(rows, userId, archived, token, offset, limit, works);
            if !works then page == Page([], false, None)
            else
              var documents := if token.Some? && token.value != ""
                               then List(rows, Listed(userId, archived), token, limit)
                               else Some(Take(limit, Skip(offset, Select(rows, Listed(userId, archived)))));
              if documents == None then page == Page([], false, None)
              else
                var hasMore := |documents.value| == limit;
                page == Page(documents.value, hasMore,
                             if hasMore && |documents.value| > 0 then Some(documents.value[|documents.value| - 1].id)
                             else None)
  {
    hide Select, List, Listed, Take, Skip;
  }

  lemma SameAnswer(rows: Notes, userId: string, archived: bool, token: Option<string>, limit: nat)
    ensures var f := AllHold([That(UserIs(userId)), ArchivedFilter(archived)]);
            && List(rows, f, token, limit) == List(rows, Listed(userId, archived), token, limit)
            && Select(rows, f) == Select(rows, Listed(userId, archived))
  {
    var (f, g) := (AllHold([That(UserIs(userId)), ArchivedFilter(archived)]), Listed(userId, archived));
    forall n ensures f(n) == g(n) {
      FilterMeans(userId, archived, n);
    }
    hide Select, List, AllHold, Listed, ArchivedFilter;
    SameFilter(rows, f, g);
    SameList(rows, f, g, token, limit);
  }

  /** Without the row at a place: that row is cut out. */
  lemma {:induction false} WithoutCuts(rows: Notes, i: nat)
    requires ValidRows(rows) && i < |rows|
    ensures Without(rows, rows[i].id) == rows[..i] + rows[i + 1..]
  {
    assert forall k | 0 <= k < |rows| - 1 :: rows[1..][k] == rows[k + 1];
    if i == 0 {
      WithoutAbsent(rows[1..], rows[0].id);
    } else {
      WithoutCuts(rows[1..], i - 1);
      assert rows[i].id != rows[0].id;
      assert rows[..i] == [rows[0]] + rows[1..][..i - 1] && rows[1..][i..] == rows[i + 1..];
    }
  }

  // --- a client at work -----------------------------------------------------------------------

  /** The client loads pages, of which a load may fail, removes rows it holds, and new notifications
      arrive. */
  datatype Event =
    | Load(limit: nat, works: bool)
    | Archive(id: string)
    | Delete(id: string)
    | Arrive(newer: Notes)

  /** The stored rows, every id ever stored, the ids of the loaded rows the client still holds, all
      rows delivered to it, and whether the last page promised more. */
  datatype State = State(rows: Notes, used: set<string>, held: seq<string>, delivered: Notes, hasMore: bool)

  function Begin(rows: Notes): State {
    State(rows, set i | 0 <= i < |rows| :: rows[i].id, [], [], true)
  }

  ghost predicate Enabled(s: State, e: Event) {
    match e
    case Load(limit, _) => limit >= 1
    case Archive(id) => id in s.held
    case Delete(id) => id in s.held
    case Arrive(newer) => ValidRows(newer) && Avoids(s.used, newer)
  }

  function RowIds(rows: Notes): (ids: seq<string>)
    ensures |ids| == |rows| && forall i | 0 <= i < |rows| :: ids[i] == rows[i].id
  {
    seq(|rows|, i requires 0 <= i < |rows| => rows[i].id)
  }

  function Drop(held: seq<string>, id: string): seq<string> {
    if held == [] then []
    else if held[0] == id then Drop(held[1..], id)
    else [held[0]] + Drop(held[1..], id)
  }

  /** The client's cursor: the last row it still holds. */
  function Cursor(s: State): Option<string> {
    if s.held == [] then None else Some(s.held[|s.held| - 1])
  }

  function Step(s: State, userId: string, e: Event): State {
    match e
    case Load(limit, works) =>
      var page := ListPage(s.rows, userId, false, Cursor(s), 0, limit, works);
      s.(held := s.held + RowIds(page.items), delivered := s.delivered + page.items, hasMore := page.hasMore)
    case Archive(id) => s.(rows := SetArchivedIn(s.rows, id, true), held := Drop(s.held, id))
    case Delete(id) => s.(rows := Without(s.rows, id), held := Drop(s.held, id))
    case Arrive(newer) =>
      s.(rows := newer + s.rows, used := s.used + set i | 0 <= i < |newer| :: newer[i].id)
  }

  function Run(s: State, userId: string, events: seq<Event>): State
    decreases |events|
  {
    if events == [] then s else Run(Step(s, userId, events[0]), userId, events[1..])
  }

  ghost predicate EnabledRun(s: State, userId: string, events: seq<Event>)
    decreases |events|
  {
    events != [] ==> Enabled(s, events[0]) && EnabledRun(Step(s, userId, events[0]), userId, events[1..])
  }

  // --- what every step keeps ------------------------------------------------------------------

  /** How the active rows are laid out: arrivals not yet delivered in front, the held rows, further
      arrivals, and what is still to come of the rows active at the start. */
  datatype Layout = Layout(front: Notes, heldRows: Notes, pending: Notes, rest: Notes)
  {
    function All(): Notes {
      front + (heldRows + (pending + rest))
    }
  }

  ghost predicate Fits(s: State, userId: string, start: Notes, l: Layout) {
    && Select(s.rows, Listed(userId, false)) == l.All()
    && s.held == RowIds(l.heldRows)
    && |l.rest| <= |start| && l.rest == start[|start| - |l.rest|..]
  }

  /** Bookkeeping of ids: rows have distinct known ids, arrivals are not among the rows active at the
      start, and those are split into the delivered and the ones still to come. */
  ghost predicate Fresh(s: State, start: Notes, l: Layout) {
    && ValidRows(s.rows) && Covers(s.used, s.rows)
    && ValidRows(start) && Covers(s.used, start)
    && Apart(start, l.front + l.pending)
    && OfStart(s.delivered, start) + l.rest == start
  }

  /** The delivered rows that were active at the start. */
  ghost function OfStart(rows: Notes, start: Notes): Notes {
    if rows == [] then []
    else if Within(rows[0].id, start) then [rows[0]] + OfStart(rows[1..], start)
    else OfStart(rows[1..], start)
  }

  lemma {:induction false} OfStartAppend(a: Notes, b: Notes, start: Notes)
    ensures OfStart(a + b, start) == OfStart(a, start) + OfStart(b, start)
  {
    if a == [] {
      assert a + b == b;
    } else {
      OfStartAppend(a[1..], b, start);
      assert (a + b)[0] == a[0] && (a + b)[1..] == a[1..] + b;
      OfStartStep(a, start);
      OfStartStep(a + b, start);
      var (one, two) := (OfStart(a[1..], start), OfStart(b, start));
      hide OfStart, Within;
      Associate([a[0]], one, two);
    }
  }

  lemma OfStartStep(rows: Notes, start: Notes)
    requires rows != []
    ensures Within(rows[0].id, start) ==> OfStart(rows, start) == [rows[0]] + OfStart(rows[1..], start)
    ensures !Within(rows[0].id, start) ==> OfStart(rows, start) == OfStart(rows[1..], start)
  {
    hide Within;
  }

  lemma {:induction false} OfStartOthers(rows: Notes, start: Notes)
    requires Apart(start, rows)
    ensures OfStart(rows, start) == []
  {
    if rows != [] {
      OfStartOthers(rows[1..], start);
    }
  }

  lemma {:induction false} OfStartSlice(start: Notes, k: nat, n: nat)
    requires k <= n <= |start|
    ensures OfStart(start[k..n], start) == start[k..n]
    decreases n - k
  {
    if k < n {
      OfStartSlice(start, k + 1, n);
      assert start[k..n][1..] == start[k + 1..n] && start[k..n][0] == start[k];
      assert Within(start[k].id, start);
      OfStartStep(start[k..n], start);
    }
  }

  // --- removing a held row --------------------------------------------------------------------

  lemma {:induction false} SelectAfterArchive(rows: Notes, id: string, userId: string)
    ensures Select(SetArchivedIn(rows, id, true), Listed(userId, false))
            == Without(Select(rows, Listed(userId, false)), id)
  {
    if rows != [] {
      SelectAfterArchive(rows[1..], id, userId);
      SelectStep(rows, Listed(userId, false));
      SelectStep(SetArchivedIn(rows, id, true), Listed(userId, false));
      if Listed(userId, false)(rows[0].data) {
        WithoutStep(Select(rows, Listed(userId, false)), id);
      }
      assert SetArchivedIn(rows, id, true)[1..] == SetArchivedIn(rows[1..], id, true);
      hide Select, Without;
    }
  }

  lemma WithoutStep(rows: Notes, id: string)
    requires rows != []
    ensures rows[0].id == id ==> Without(rows, id) == Without(rows[1..], id)
    ensures rows[0].id != id ==> Without(rows, id) == [rows[0]] + Without(rows[1..], id)
  {
  }

  lemma {:induction false} SelectAfterDelete(rows: Notes, id: string, userId: string)
    ensures Select(Without(rows, id), Listed(userId, false)) == Without(Select(rows, Listed(userId, false)), id)
  {
    if rows != [] {
      var keep := Listed(userId, false);
      SelectAfterDelete(rows[1..], id, userId);
      SelectStep(rows, keep);
      WithoutStep(rows, id);
      if rows[0].id != id {
        SelectStep(Without(rows, id), keep);
      }
      if keep(rows[0].data) {
        WithoutStep(Select(rows, keep), id);
      }
      hide Select, Without;
    }
  }

  lemma {:induction false} WithoutAppend(a: Notes, b: Notes, id: string)
    ensures Without(a + b, id) == Without(a, id) + Without(b, id)
  {
    if a == [] {
      assert a + b == b;
    } else {
      WithoutAppend(a[1..], b, id);
      assert (a + b)[0] == a[0] && (a + b)[1..] == a[1..] + b;
      WithoutStep(a, id);
      WithoutStep(a + b, id);
      var (one, two) := (Without(a[1..], id), Without(b, id));
      hide Without;
      Associate([a[0]], one, two);
    }
  }

  lemma {:induction false} WithoutAbsent(rows: Notes, id: string)
    requires !Within(id, rows)
    ensures Without(rows, id) == rows
  {
    if rows != [] {
      assert rows[0].id != id;
      assert forall i | 0 <= i < |rows| - 1 :: rows[1..][i] == rows[i + 1];
      WithoutAbsent(rows[1..], id);
    }
  }

  lemma {:induction false} WithoutKeeps(rows: Notes, id: string)
    requires ValidRows(rows)
    ensures ValidRows(Without(rows, id))
    ensures forall row | row in Without(rows, id) :: row in rows
  {
    if rows != [] {
      WithoutKeeps(rows[1..], id);
      var rest := Without(rows[1..], id);
      forall i | 0 <= i < |rest| ensures rest[i].id != rows[0].id {
        assert rest[i] in rest;
        assert rest[i] in rows[1..];
      }
    }
  }

  lemma {:induction false} DropIds(rows: Notes, id: string)
    ensures Drop(RowIds(rows), id) == RowIds(Without(rows, id))
  {
    if rows != [] {
      DropIds(rows[1..], id);
      assert RowIds(rows)[1..] == RowIds(rows[1..]);
    }
  }

  /** Removing a held row takes it out of the held part of the layout and touches nothing else. */
  lemma LayoutWithout(l: Layout, id: string)
    requires ValidRows(l.All()) && id in RowIds(l.heldRows)
    ensures Without(l.All(), id) == l.(heldRows := Without(l.heldRows, id)).All()
  {
    hide Without;
    HeldOnly(l, id);
    WithoutAppend(l.front, l.heldRows + (l.pending + l.rest), id);
    WithoutAppend(l.heldRows, l.pending + l.rest, id);
    WithoutAbsent(l.front, id);
    WithoutAbsent(l.pending + l.rest, id);
  }

  lemma HeldOnly(l: Layout, id: string)
    requires ValidRows(l.All()) && id in RowIds(l.heldRows)
    ensures !Within(id, l.front) && !Within(id, l.pending + l.rest)
  {
    var k :| 0 <= k < |l.heldRows| && l.heldRows[k].id == id;
    var all := l.All();
    var n := |l.front|;
    assert all[n + k] == l.heldRows[k];
    forall i | 0 <= i < n ensures l.front[i].id != id {
      assert all[i] == l.front[i];
    }
    forall i | 0 <= i < |l.pending + l.rest| ensures (l.pending + l.rest)[i].id != id {
      assert all[n + |l.heldRows| + i] == (l.pending + l.rest)[i];
    }
  }

  lemma RemoveKeeps(s: State, userId: string, start: Notes, l: Layout, e: Event) returns (l': Layout)
    requires Fits(s, userId, start, l) && Fresh(s, start, l) && Enabled(s, e) && (e.Archive? || e.Delete?)
    ensures Fits(Step(s, userId, e), userId, start, l') && Fresh(Step(s, userId, e), start, l')
  {
    l' := l.(heldRows := Without(l.heldRows, e.id));
    SelectValid(s.rows, Listed(userId, false));
    LayoutWithout(l, e.id);
    DropIds(l.heldRows, e.id);
    if e.Archive? {
      SelectAfterArchive(s.rows, e.id, userId);
    } else {
      SelectAfterDelete(s.rows, e.id, userId);
      WithoutKeeps(s.rows, e.id);
      WithoutCovered(s.rows, e.id, s.used);
    }
    hide Select, Without, Listed, RowIds, OfStart, Drop;
  }

  lemma WithoutCovered(rows: Notes, id: string, used: set<string>)
    requires Covers(used, rows)
    ensures Covers(used, Without(rows, id))
  {
    if rows != [] {
      assert forall i | 0 <= i < |rows| - 1 :: rows[1..][i] == rows[i + 1];
      WithoutCovered(rows[1..], id, used);
    }
  }

  // --- arrivals -------------------------------------------------------------------------------

  lemma ArriveKeeps(s: State, userId: string, start: Notes, l: Layout, e: Event) returns (l': Layout)
    requires Fits(s, userId, start, l) && Fresh(s, start, l) && Enabled(s, e) && e.Arrive?
    ensures Fits(Step(s, userId, e), userId, start, l') && Fresh(Step(s, userId, e), start, l')
  {
    hide Select, Listed, OfStart, RowIds, ValidRows, Covers, Avoids, Apart;
    var added := Select(e.newer, Listed(userId, false));
    l' := l.(front := added + l.front);
    SelectAppend(e.newer, s.rows, Listed(userId, false));
    Associate(added, l.front, l.heldRows + (l.pending + l.rest));
    Associate(added, l.front, l.pending);
    SelectAvoids(e.newer, Listed(userId, false), s.used);
    ArrivalsAreFresh(s.rows, s.used, start, l.front + l.pending, e.newer, added);
  }

  lemma {:induction false} SelectAvoids(rows: Notes, keep: Notification -> bool, used: set<string>)
    requires Avoids(used, rows)
    ensures Avoids(used, Select(rows, keep))
  {
    if rows != [] {
      assert forall i | 0 <= i < |rows| - 1 :: rows[1..][i] == rows[i + 1];
      SelectAvoids(rows[1..], keep, used);
    }
  }

  lemma ArrivalsAreFresh(rows: Notes, used: set<string>, start: Notes, others: Notes, newer: Notes, added: Notes)
    requires ValidRows(rows) && Covers(used, rows) && Covers(used, start) && Apart(start, others)
    requires ValidRows(newer) && Avoids(used, newer) && Avoids(used, added)
    ensures ValidRows(newer + rows) && Apart(start, added + others)
    ensures var known := used + set i | 0 <= i < |newer| :: newer[i].id;
            Covers(known, newer + rows) && Covers(known, start)
  {
  }

  // --- loading a page -------------------------------------------------------------------------

  /** The next page is cut from what is still to come: everything in front as well, when the client
      holds no row to continue from. */
  lemma LoadedPage(s: State, userId: string, start: Notes, l: Layout, limit: nat)
    requires Fits(s, userId, start, l) && ValidRows(s.rows) && limit >= 1
    ensures var coming := (if s.held == [] then l.front + l.pending else l.pending) + l.rest;
            var page := ListPage(s.rows, userId, false, Cursor(s), 0, limit, true);
            page.items == Take(limit, coming) && page.hasMore == (|page.items| == limit)
  {
    var keep := Listed(userId, false);
    var kept := Select(s.rows, keep);
    hide Select, Listed;
    if s.held == [] {
      assert l.heldRows == [];
      assert kept == (l.front + l.pending) + l.rest;
      assert Skip(0, kept) == kept;
    } else {
      var k := |l.front| + |l.heldRows|;
      assert kept[k - 1] == l.heldRows[|l.heldRows| - 1];
      assert kept[k..] == l.pending + l.rest;
      SelectValid(s.rows, keep);
      PageIsSlice(s.rows, keep, Cursor(s), k, limit);
    }
  }

  /** The layout once a client that holds nothing starts again from the front. */
  function Restarted(s: State, l: Layout): Layout {
    if s.held == [] then Layout([], [], l.front + l.pending, l.rest) else l
  }

  /** The layout after the first `n` rows still to come have been delivered. */
  function Delivered(l: Layout, n: nat): Layout {
    var p := if n <= |l.pending| then n else |l.pending|;
    var r := if n - p <= |l.rest| then n - p else |l.rest|;
    Layout(l.front, l.heldRows + (l.pending[..p] + l.rest[..r]), l.pending[p..], l.rest[r..])
  }

  lemma LoadKeeps(s: State, userId: string, start: Notes, l: Layout, limit: nat) returns (l': Layout)
    requires Fits(s, userId, start, l) && Fresh(s, start, l) && limit >= 1
    ensures var s' := Step(s, userId, Load(limit, true));
            && Fits(s', userId, start, l') && Fresh(s', start, l')
            && (!s'.hasMore ==> l'.rest == [])
  {
    var again := Restarted(s, l);
    var page := ListPage(s.rows, userId, false, Cursor(s), 0, limit, true).items;
    LoadedPage(s, userId, start, l, limit);
    RestartFits(s, userId, start, l);
    hide Select, Listed, OfStart, Apart, ListPage, ValidRows, Covers, Layout.All, Fits;
    assert page == Take(limit, again.pending + again.rest);
    PageCut(again, limit);
    l' := Delivered(again, |page|);
    PageFits(s, userId, start, again, page);
    PageFresh(s, start, again, page);
  }

  lemma RestartFits(s: State, userId: string, start: Notes, l: Layout)
    requires Fits(s, userId, start, l)
    ensures var again := Restarted(s, l);
            && Fits(s, userId, start, again)
            && again.front + again.pending == l.front + l.pending && again.rest == l.rest
  {
    hide Select, Listed;
    if s.held == [] {
      assert l.heldRows == [];
      assert Restarted(s, l).All() == l.All();
    }
  }

  /** A page is what it takes from the pending rows and the rest; a short one takes everything. */
  lemma PageCut(l: Layout, limit: nat)
    ensures var page := Take(limit, l.pending + l.rest);
            && page + (Delivered(l, |page|).pending + Delivered(l, |page|).rest) == l.pending + l.rest
            && Delivered(l, |page|).heldRows == l.heldRows + page
            && (|page| < limit ==> Delivered(l, |page|).rest == [])
  {
    var page := Take(limit, l.pending + l.rest);
    var p := if |page| <= |l.pending| then |page| else |l.pending|;
    assert page == l.pending[..p] + l.rest[..|page| - p];
  }

  lemma PageFits(s: State, userId: string, start: Notes, l: Layout, page: Notes)
    requires Fits(s, userId, start, l)
    requires Delivered(l, |page|).heldRows == l.heldRows + page
    requires page + (Delivered(l, |page|).pending + Delivered(l, |page|).rest) == l.pending + l.rest
    ensures Fits(s.(held := s.held + RowIds(page)), userId, start, Delivered(l, |page|))
  {
    hide Select, Listed;
    var l' := Delivered(l, |page|);
    assert l'.All() == l.All() by {
      Associate(l.heldRows, page, l'.pending + l'.rest);
    }
    assert RowIds(l.heldRows + page) == RowIds(l.heldRows) + RowIds(page);
    assert l'.rest == start[|start| - |l'.rest|..];
  }

  lemma PageFresh(s: State, start: Notes, l: Layout, page: Notes)
    requires Fresh(s, start, l) && |l.rest| <= |start| && l.rest == start[|start| - |l.rest|..]
    requires Delivered(l, |page|).heldRows == l.heldRows + page
    ensures OfStart(s.delivered + page, start) + Delivered(l, |page|).rest == start
    ensures Apart(start, l.front + Delivered(l, |page|).pending)
  {
    hide OfStart, Apart, ValidRows, Covers, Delivered;
    var p, r := PageParts(l, page);
    var k := |start| - |l.rest|;
    ApartParts(start, l.front, l.pending, p);
    OfStartAppend(s.delivered, page, start);
    OfStartAppend(l.pending[..p], l.rest[..r], start);
    OfStartOthers(l.pending[..p], start);
    OfStartSlice(start, k, k + r);
    SliceOfSlice(start, k, r);
    Associate(OfStart(s.delivered, start), l.rest[..r], l.rest[r..]);
  }

  lemma PageParts(l: Layout, page: Notes) returns (p: nat, r: nat)
    requires Delivered(l, |page|).heldRows == l.heldRows + page
    ensures p <= |l.pending| && r <= |l.rest| && page == l.pending[..p] + l.rest[..r]
    ensures Delivered(l, |page|).pending == l.pending[p..] && Delivered(l, |page|).rest == l.rest[r..]
  {
    p := if |page| <= |l.pending| then |page| else |l.pending|;
    r := |page| - p;
    assert page == Delivered(l, |page|).heldRows[|l.heldRows|..];
  }

  lemma SliceOfSlice(start: Notes, k: nat, r: nat)
    requires k + r <= |start|
    ensures start[k..][..r] == start[k..k + r] && start[k..] == start[k..k + r] + start[k..][r..]
    ensures [] + start[k..k + r] == start[k..k + r]
  {
  }

  lemma ApartParts(start: Notes, front: Notes, pending: Notes, p: nat)
    requires Apart(start, front + pending) && p <= |pending|
    ensures Apart(start, pending[..p]) && Apart(start, front + pending[p..])
  {
    forall i | 0 <= i < |pending| ensures pending[i] == (front + pending)[|front| + i] {}
    forall i | 0 <= i < |front| ensures front[i] == (front + pending)[i] {}
  }

  // --- whole runs -----------------------------------------------------------------------------

  lemma StepKeeps(s: State, userId: string, start: Notes, l: Layout, e: Event) returns (l': Layout)
    requires Fits(s, userId, start, l) && Fresh(s, start, l) && Enabled(s, e)
    ensures Fits(Step(s, userId, e), userId, start, l') && Fresh(Step(s, userId, e), start, l')
    ensures e.Load? && e.works && !Step(s, userId, e).hasMore ==> l'.rest == []
  {
    match e {
      case Load(limit, works) =>
        if works {
          hide Fits, Fresh, Step;
          l' := LoadKeeps(s, userId, start, l, limit);
        } else {
          FailedLoad(s, userId, limit);
          hide Step, Select, OfStart, Listed;
          l' := l;
        }
      case Arrive(_) =>
        hide Fits, Fresh, Step;
        l' := ArriveKeeps(s, userId, start, l, e);
      case _ =>
        hide Fits, Fresh, Step;
        l' := RemoveKeeps(s, userId, start, l, e);
    }
  }

  /** A failed load delivers nothing and promises nothing. */
  lemma FailedLoad(s: State, userId: string, limit: nat)
    ensures Step(s, userId, Load(limit, false)) == s.(hasMore := false)
  {
    hide Select, List;
    assert s.held + [] == s.held && s.delivered + [] == s.delivered;
  }

  lemma {:induction false} RunKeeps(s: State, userId: string, start: Notes, l: Layout, events: seq<Event>)
    returns (l': Layout)
    requires Fits(s, userId, start, l) && Fresh(s, start, l) && EnabledRun(s, userId, events)
    ensures Fits(Run(s, userId, events), userId, start, l') && Fresh(Run(s, userId, events), start, l')
    ensures events != [] && LastLoadWorked(events) && !Run(s, userId, events).hasMore ==> l'.rest == []
    decreases |events|
  {
    hide Fits, Fresh, Step;
    if events == [] {
      l' := l;
    } else {
      var next := StepKeeps(s, userId, start, l, events[0]);
      if |events| == 1 {
        assert Run(Step(s, userId, events[0]), userId, events[1..]) == Step(s, userId, events[0]);
        l' := next;
      } else {
        l' := RunKeeps(Step(s, userId, events[0]), userId, start, next, events[1..]);
      }
    }
  }

  predicate LastLoadWorked(events: seq<Event>)
    requires events != []
  {
    var last := events[|events| - 1];
    last.Load? && last.works
  }

  lemma {:induction false} RunLast(s: State, userId: string, events: seq<Event>)
    requires events != []
    ensures Run(s, userId, events)
            == Step(Run(s, userId, events[..|events| - 1]), userId, events[|events| - 1])
    decreases |events|
  {
    hide Step;
    if |events| == 1 {
      assert events[1..] == [] && events[..0] == [];
    } else {
      RunLast(Step(s, userId, events[0]), userId, events[1..]);
      assert events[1..][..|events| - 2] == events[..|events| - 1][1..];
    }
  }

  /** A client that pages with the id of the last row it still holds, and removes only rows it has
      loaded, is delivered the rows active at the start in order and once each; new notifications may
      arrive at any time. What it has is always a prefix of them. Once a load says that there is no
      more, it has all of them exactly when that load worked or it had them all before. */
  lemma PagingDeliversAll(rows: Notes, userId: string, events: seq<Event>)
    requires ValidRows(rows) && EnabledRun(Begin(rows), userId, events)
    ensures var start := Select(rows, Listed(userId, false));
            var s := Run(Begin(rows), userId, events);
            && ValidRows(start)
            && OfStart(s.delivered, start) <= start
            && (events != [] && events[|events| - 1].Load? && !s.hasMore ==>
                  var before := Run(Begin(rows), userId, events[..|events| - 1]);
                  (OfStart(s.delivered, start) == start
                   <==> events[|events| - 1].works || OfStart(before.delivered, start) == start))
  {
    hide *;
    var start := Select(rows, Listed(userId, false));
    SelectValid(rows, Listed(userId, false));
    var l := StartFits(rows, userId);
    var l' := RunKeeps(Begin(rows), userId, start, l, events);
    DeliveredPart(Run(Begin(rows), userId, events), userId, start, l');
    if events != [] && events[|events| - 1].Load? {
      if events[|events| - 1].works {
        LoadWorked(events);
      } else {
        FailedLast(Begin(rows), userId, events);
      }
    }
  }

  lemma LoadWorked(events: seq<Event>)
    requires events != [] && events[|events| - 1].Load? && events[|events| - 1].works
    ensures LastLoadWorked(events)
  {
  }

  lemma StartFits(rows: Notes, userId: string) returns (l: Layout)
    requires ValidRows(rows)
    ensures var start := Select(rows, Listed(userId, false));
            Fits(Begin(rows), userId, start, l) && Fresh(Begin(rows), start, l)
  {
    var start := Select(rows, Listed(userId, false));
    SelectValid(rows, Listed(userId, false));
    StartCovered(rows, userId);
    hide Select, Listed;
    l := Layout([], [], [], start);
    assert l.All() == start;
    assert start[0..] == start && [] + start == start;
  }

  lemma DeliveredPart(s: State, userId: string, start: Notes, l: Layout)
    requires Fits(s, userId, start, l) && Fresh(s, start, l)
    ensures OfStart(s.delivered, start) <= start
    ensures l.rest == [] ==> OfStart(s.delivered, start) == start
  {
    hide OfStart, Select, Listed, ValidRows, Covers, Apart;
  }

  lemma FailedLast(s: State, userId: string, events: seq<Event>)
    requires events != [] && events[|events| - 1].Load? && !events[|events| - 1].works
    ensures Run(s, userId, events).delivered == Run(s, userId, events[..|events| - 1]).delivered
  {
    RunLast(s, userId, events);
    hide Run, Step;
    FailedLoad(Run(s, userId, events[..|events| - 1]), userId, events[|events| - 1].limit);
  }

  lemma StartCovered(rows: Notes, userId: string)
    ensures Covers(Begin(rows).used, Select(rows, Listed(userId, false)))
  {
    var start := Select(rows, Listed(userId, false));
    forall i | 0 <= i < |start| ensures start[i].id in Begin(rows).used {
      SelectMember(rows, Listed(userId, false), start[i]);
    }
  }
}

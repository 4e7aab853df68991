/** The audit log search and its cursor (src/repositories/audit-log-repository.ts). The collection
    lists entries newest first; new entries may arrive in front between any two reads. */
module AuditLog {
  import opened Text
  import opened Paging

  datatype AuditEntry = AuditEntry(
    userId: Option<string>, actorId: Option<string>, action: string, resourceType: string,
    resourceId: Option<string>, status: string, createdAt: int)

  type Entries = seq<Row<AuditEntry>>

  datatype SearchFilters = SearchFilters(
    actorId: Option<string>, userId: Option<string>, action: Option<string>, resourceType: Option<string>,
    resourceId: Option<string>, status: Option<string>, startDate: Option<int>, endDate: Option<int>,
    limit: Option<int>, cursor: Option<string>)

  datatype SearchResult = SearchResult(items: Entries, total: nat, hasMore: bool, nextCursor: Option<string>)

  /** One condition of a database query. */
  datatype Condition =
    | ActorIs(id: string)
    | UserIs(id: string)
    | ActionIs(name: string)
    | ResourceTypeIs(name: string)
    | ResourceIs(id: string)
    | StatusIs(name: string)
    | CreatedFrom(time: int)
    | CreatedUntil(time: int)

  predicate Holds(c: Condition, e: AuditEntry) {
    match c
    case ActorIs(id) => e.actorId == Some(id)
    case UserIs(id) => e.userId == Some(id)
    case ActionIs(name) => e.action == name
    case ResourceTypeIs(name) => e.resourceType == name
    case ResourceIs(id) => e.resourceId == Some(id)
    case StatusIs(name) => e.status == name
    case CreatedFrom(time) => e.createdAt >= time
    case CreatedUntil(time) => e.createdAt <= time
  }

  /** The filter a list of conditions denotes: all of them hold. */
  function AllHold(conditions: seq<Condition>): AuditEntry -> bool {
    (e: AuditEntry) => HoldsEach(conditions, e)
  }

  predicate HoldsEach(conditions: seq<Condition>, e: AuditEntry) {
    forall i | 0 <= i < |conditions| :: Holds(conditions[i], e)
  }

  predicate Given(filter: Option<string>) {
    filter.Some? && filter.value != ""
  }

  /** What a caller asks for: an absent or empty filter admits every entry. */
  predicate Wanted(f: SearchFilters, e: AuditEntry) {
    && (Given(f.actorId) ==> e.actorId == f.actorId)
    && (Given(f.userId) ==> e.userId == f.userId)
    && (Given(f.action) ==> e.action == f.action.value)
    && (Given(f.resourceType) ==> e.resourceType == f.resourceType.value)
    && (Given(f.resourceId) ==> e.resourceId == f.resourceId)
    && (Given(f.status) ==> e.status == f.status.value)
    && (f.startDate.Some? ==> f.startDate.value <= e.createdAt)
    && (f.endDate.Some? ==> e.createdAt <= f.endDate.value)
  }

  function Matches(f: SearchFilters): AuditEntry -> bool {
    (e: AuditEntry) => Wanted(f, e)
  }

  function Clamp(asked: int): (limit: nat)
    ensures 1 <= limit <= 100
  {
    if asked < 1 then 1 else if asked > 100 then 100 else asked
  }

  function PageLimit(f: SearchFilters): (limit: nat)
    ensures 1 <= limit <= 100
  {
    Clamp(if f.limit.Some? then f.limit.value else 20)
  }

  function StartCursor(f: SearchFilters): Option<string> {
    if Given(f.cursor) then f.cursor else None
  }

  /** What one search answers: the next entries after the cursor, and whether there are more. Any error
      of the query, also that of a cursor that names no entry, is answered by an empty last page. */
  function SearchPage(rows: Entries, f: SearchFilters, works: bool): SearchResult {
    var response := if works then List(rows, Matches(f), StartCursor(f), PageLimit(f) + 1) else None;
    match response
    case None => SearchResult([], 0, false, None)
    case Some(documents) =>
      var hasMore := |documents| > PageLimit(f);
      var items := if hasMore then documents[..PageLimit(f)] else documents;
      SearchResult(items, |Select(rows, Matches(f))|, hasMore,
                   if hasMore then Some(items[|items| - 1].id) else None)
  }

  /** queries.push(make(filter)) when the filter is given. */
  function Pushed<A>(queries: seq<Condition>, given: bool, filter: Option<A>, make: A -> Condition): seq<Condition>
    requires given ==> filter.Some?
  {
    if given then queries + [make(filter.value)] else queries
  }

  /** The conditions of a search, one per given filter: first who did what kind of thing. */
  function FirstConditions(f: SearchFilters): seq<Condition> {
    var byActor := Pushed([], Given(f.actorId), f.actorId, id => ActorIs(id));
    var byUser := Pushed(byActor, Given(f.userId), f.userId, id => UserIs(id));
    var byAction := Pushed(byUser, Given(f.action), f.action, name => ActionIs(name));
    Pushed(byAction, Given(f.resourceType), f.resourceType, name => ResourceTypeIs(name))
  }

  function Conditions(f: SearchFilters): seq<Condition> {
    var byType := FirstConditions(f);
    var byResource := Pushed(byType, Given(f.resourceId), f.resourceId, id => ResourceIs(id));
    var byStatus := Pushed(byResource, Given(f.status), f.status, name => StatusIs(name));
    var byStart := Pushed(byStatus, f.startDate.Some?, f.startDate, time => CreatedFrom(time));
    Pushed(byStart, f.endDate.Some?, f.endDate, time => CreatedUntil(time))
  }

  lemma PushedHolds<A>(queries: seq<Condition>, given: bool, filter: Option<A>, make: A -> Condition, e: AuditEntry)
    requires given ==> filter.Some?
    ensures HoldsEach(Pushed(queries, given, filter, make), e)
            <==> HoldsEach(queries, e) && (given ==> Holds(make(filter.value), e))
  {
    if given {
      var all := queries + [make(filter.value)];
      assert forall i | 0 <= i < |queries| :: all[i] == queries[i];
      assert all[|queries|] == make(filter.value);
      hide Holds;
    }
  }

  lemma FirstConditionsMean(f: SearchFilters, e: AuditEntry)
    ensures HoldsEach(FirstConditions(f), e) <==>
            && (Given(f.actorId) ==> e.actorId == f.actorId)
            && (Given(f.userId) ==> e.userId == f.userId)
            && (Given(f.action) ==> e.action == f.action.value)
            && (Given(f.resourceType) ==> e.resourceType == f.resourceType.value)
  {
    hide HoldsEach;
    NothingToHold(e);
    var byActor := Pushed([], Given(f.actorId), f.actorId, id => ActorIs(id));
    PushedHolds([], Given(f.actorId), f.actorId, id => ActorIs(id), e);
    var byUser := Pushed(byActor, Given(f.userId), f.userId, id => UserIs(id));
    PushedHolds(byActor, Given(f.userId), f.userId, id => UserIs(id), e);
    var byAction := Pushed(byUser, Given(f.action), f.action, name => ActionIs(name));
    PushedHolds(byUser, Given(f.action), f.action, name => ActionIs(name), e);
    PushedHolds(byAction, Given(f.resourceType), f.resourceType, name => ResourceTypeIs(name), e);
  }

  /** The pushed conditions together admit exactly the wanted entries. */
  lemma ConditionsMean(f: SearchFilters, e: AuditEntry)
    ensures HoldsEach(Conditions(f), e) <==> Wanted(f, e)
  {
    hide HoldsEach, FirstConditions;
    FirstConditionsMean(f, e);
    var byType := FirstConditions(f);
    var byResource := Pushed(byType, Given(f.resourceId), f.resourceId, id => ResourceIs(id));
    PushedHolds(byType, Given(f.resourceId), f.resourceId, id => ResourceIs(id), e);
    var byStatus := Pushed(byResource, Given(f.status), f.status, name => StatusIs(name));
    PushedHolds(byResource, Given(f.status), f.status, name => StatusIs(name), e);
    var byStart := Pushed(byStatus, f.startDate.Some?, f.startDate, time => CreatedFrom(time));
    PushedHolds(byStatus, f.startDate.Some?, f.startDate, time => CreatedFrom(time), e);
    PushedHolds(byStart, f.endDate.Some?, f.endDate, time => CreatedUntil(time), e);
  }

  lemma NothingToHold(e: AuditEntry)
    ensures HoldsEach([], e)
  {
  }

  /** search: push one query per given filter, read one row too many, and cut the page. */
  method Search(rows: Entries, filters: SearchFilters, works: bool) returns (result: SearchResult)
    ensures result == SearchPage(rows, filters, works)
  {
    var limit := Clamp(if filters.limit.Some? then filters.limit.value else 20);
    var queries: seq<Condition> := [];
    queries := Pushed(queries, Given(filters.actorId), filters.actorId, id => ActorIs(id));
    queries := Pushed(queries, Given(filters.userId), filters.userId, id => UserIs(id));
    queries := Pushed(queries, Given(filters.action), filters.action, name => ActionIs(name));
    queries := Pushed(queries, Given(filters.resourceType), filters.resourceType, name => ResourceTypeIs(name));
    queries := Pushed(queries, Given(filters.resourceId), filters.resourceId, id => ResourceIs(id));
    queries := Pushed(queries, Given(filters.status), filters.status, name => StatusIs(name));
    queries := Pushed(queries, filters.startDate.Some?, filters.startDate, time => CreatedFrom(time));
    queries := Pushed(queries, filters.endDate.Some?, filters.endDate, time => CreatedUntil(time));
    assert queries == Conditions(filters);
    SameAnswer(rows, filters, limit + 1);
    hide Conditions, Given, Wanted, List, Select;
    var response := if works then List(rows, AllHold(queries), StartCursor(filters), limit + 1) else None;
    if response.None? {
      return SearchResult([], 0, false, None);
    }
    var documents := response.value;
    var hasMore := |documents| > limit;
    var page := if hasMore then documents[..limit] else documents;
    result := SearchResult(page, |Select(rows, AllHold(queries))|, hasMore,
                           if hasMore then Some(page[|page| - 1].id) else None);
  }

  lemma SameAnswer(rows: Entries, f: SearchFilters, limit: nat)
    ensures List(rows, AllHold(Conditions(f)), StartCursor(f), limit) == List(rows, Matches(f), StartCursor(f), limit)
    ensures Select(rows, AllHold(Conditions(f))) == Select(rows, Matches(f))
  {
    var (g, h) := (AllHold(Conditions(f)), Matches(f));
    forall e ensures g(e) == h(e) {
      ConditionsMean(f, e);
    }
    hide Conditions, Wanted, Given, Select, List;
    SameFilter(rows, g, h);
    SameList(rows, g, h, StartCursor(f), limit);
  }

  // --- following the cursor while entries arrive ----------------------------------------------

  /** One page request: the entries that arrived since the previous one, the limit asked for, and
      whether the read succeeds. */
  datatype Request = Request(arrived: Entries, limit: Option<int>, works: bool)

  /** The collection once these requests have been made. */
  function RowsAfter(rows: Entries, requests: seq<Request>): Entries
    decreases |requests|
  {
    if requests == [] then rows else RowsAfter(requests[0].arrived + rows, requests[1..])
  }

  /** The pages a client gets by following nextCursor until it is null. */
  function Pages(rows: Entries, f: SearchFilters, cursor: Option<string>, requests: seq<Request>): seq<SearchResult>
    decreases |requests|
  {
    if requests == [] then []
    else
      var now := requests[0].arrived + rows;
      var page := SearchPage(now, f.(limit := requests[0].limit, cursor := cursor), requests[0].works);
      [page] + if page.nextCursor == None then [] else Pages(now, f, page.nextCursor, requests[1..])
  }

  function Items(pages: seq<SearchResult>): Entries {
    if pages == [] then [] else pages[0].items + Items(pages[1..])
  }

  /** Whether the client has seen a page without a next cursor. */
  predicate Finished(pages: seq<SearchResult>) {
    pages != [] && pages[|pages| - 1].nextCursor == None
  }

  /** A search from the k-th match answers the next matches, has more exactly when some remain, and
      points at its last item. */
  lemma SearchFrom(rows: Entries, f: SearchFilters, k: nat)
    requires ValidRows(rows) && k <= |Select(rows, Matches(f))|
    requires StartCursor(f) == if k == 0 then None else Some(Select(rows, Matches(f))[k - 1].id)
    ensures var (page, remaining) := (SearchPage(rows, f, true), Select(rows, Matches(f))[k..]);
            && page.items == Take(PageLimit(f), remaining)
            && page.hasMore == (|remaining| > PageLimit(f)) == page.nextCursor.Some?
            && (page.hasMore ==> page.nextCursor == Some(remaining[PageLimit(f) - 1].id))
  {
    hide Select, ValidRows, Matches;
    PageIsSlice(rows, Matches(f), StartCursor(f), k, PageLimit(f) + 1);
  }

  /** A search whose cursor names no entry, or that fails, is answered by an empty last page. */
  lemma BadSearch(rows: Entries, f: SearchFilters, works: bool)
    requires || !works
             || (f.cursor.Some? && f.cursor.value != "" && forall i | 0 <= i < |rows| :: rows[i].id != f.cursor.value)
    ensures SearchPage(rows, f, works) == SearchResult([], 0, false, None)
  {
    if works {
      UnknownCursor(rows, Matches(f), f.cursor.value, PageLimit(f) + 1);
    }
    hide List, Matches;
  }

  /** A page of a search from the start holds as many of the matches as asked for, between 1 and 100, and
      20 when nothing is asked. An empty cursor is none. */
  lemma PageSize(rows: Entries, f: SearchFilters)
    requires f.cursor == None || f.cursor == Some("")
    ensures var asked := if f.limit.Some? then f.limit.value else 20;
            var size := if asked < 1 then 1 else if asked > 100 then 100 else asked;
            var (page, matches) := (SearchPage(rows, f, true), |Select(rows, Matches(f))|);
            && |page.items| == (if matches <= size then matches else size)
            && page.total == matches && (page.hasMore <==> matches > size)
  {
    hide Select, Matches;
  }

  /** A filter that is the empty string asks for nothing. */
  lemma EmptyFilterAdmits(f: SearchFilters, e: AuditEntry)
    ensures Wanted(f.(actorId := Some("")), e) == Wanted(f.(actorId := None), e)
    ensures Wanted(f.(userId := Some("")), e) == Wanted(f.(userId := None), e)
    ensures Wanted(f.(action := Some("")), e) == Wanted(f.(action := None), e)
    ensures Wanted(f.(resourceType := Some("")), e) == Wanted(f.(resourceType := None), e)
    ensures Wanted(f.(resourceId := Some("")), e) == Wanted(f.(resourceId := None), e)
    ensures Wanted(f.(status := Some("")), e) == Wanted(f.(status := None), e)
  {
  }

  /** The limit and the cursor of a search do not take part in its filter. */
  lemma FilterIgnoresPaging(rows: Entries, f: SearchFilters, limit: Option<int>, cursor: Option<string>)
    ensures Select(rows, Matches(f.(limit := limit, cursor := cursor))) == Select(rows, Matches(f))
  {
    hide Select;
    SameFilter(rows, Matches(f.(limit := limit, cursor := cursor)), Matches(f));
  }

  lemma {:induction false} RowsAfterKeeps(rows: Entries, requests: seq<Request>)
    requires ValidRows(RowsAfter(rows, requests))
    ensures ValidRows(rows)
    decreases |requests|
  {
    if requests != [] {
      RowsAfterKeeps(requests[0].arrived + rows, requests[1..]);
      var now := requests[0].arrived + rows;
      assert forall i | 0 <= i < |rows| :: rows[i] == now[|requests[0].arrived| + i];
    }
  }

  lemma PagesStep(rows: Entries, f: SearchFilters, cursor: Option<string>, requests: seq<Request>)
    ensures requests == [] ==> Pages(rows, f, cursor, requests) == [] && Items([]) == [] && !Finished([])
    ensures requests != [] ==>
              var now := requests[0].arrived + rows;
              var page := SearchPage(now, f.(limit := requests[0].limit, cursor := cursor), requests[0].works);
              && Pages(rows, f, cursor, requests)
                 == [page] + (if page.nextCursor == None then [] else Pages(now, f, page.nextCursor, requests[1..]))
              && RowsAfter(rows, requests) == RowsAfter(now, requests[1..])
  {
    hide SearchPage;
  }

  /** The pages of these requests against what was to be delivered: always a prefix, and once a page
      has no next cursor the whole exactly when the last read worked or nothing was to be delivered;
      and that page comes, one entry per page at the least. */
  ghost predicate Delivers(pages: seq<SearchResult>, requests: seq<Request>, rest: Entries) {
    && |pages| <= |requests|
    && Items(pages) <= rest
    && (Finished(pages) ==> (Items(pages) == rest <==> requests[|pages| - 1].works || rest == []))
    && (|requests| > |rest| ==> Finished(pages))
  }

  /** From the k-th match on, the pages deliver the remaining matches in order. */
  lemma {:induction false} PagesDeliverRest(
    rows: Entries, f: SearchFilters, cursor: Option<string>, k: nat, requests: seq<Request>)
    requires ValidRows(RowsAfter(rows, requests)) && 0 < k <= |Select(rows, Matches(f))|
    requires cursor == Some(Select(rows, Matches(f))[k - 1].id) && cursor != Some("")
    ensures Delivers(Pages(rows, f, cursor, requests), requests, Select(rows, Matches(f))[k..])
    decreases |requests|
  {
    PagesStep(rows, f, cursor, requests);
    if requests == [] {
      hide Pages, Select;
    } else {
      hide *;
      var arrived := requests[0].arrived;
      var now := arrived + rows;
      var k' := |Select(arrived, Matches(f))| + k;
      RowsAfterKeeps(now, requests[1..]);
      CursorKeepsPlace(rows, arrived, Matches(f), k);
      NextPages(now, f, cursor, k', requests);
    }
  }

  /** The same after the arrivals of the first read have been counted in. */
  lemma {:induction false} NextPages(
    now: Entries, f: SearchFilters, cursor: Option<string>, k: nat, requests: seq<Request>)
    requires requests != [] && ValidRows(RowsAfter(now, requests[1..])) && ValidRows(now)
    requires k <= |Select(now, Matches(f))| && cursor != Some("")
    requires cursor == if k == 0 then None else Some(Select(now, Matches(f))[k - 1].id)
    ensures var page := SearchPage(now, f.(limit := requests[0].limit, cursor := cursor), requests[0].works);
            var pages := [page] + if page.nextCursor == None then [] else Pages(now, f, page.nextCursor, requests[1..]);
            Delivers(pages, requests, Select(now, Matches(f))[k..])
    decreases |requests|, 0
  {
    var kept := Select(now, Matches(f));
    var g := f.(limit := requests[0].limit, cursor := cursor);
    var page := SearchPage(now, g, requests[0].works);
    if !requests[0].works {
      LastPage(page, requests, kept[k..]);
    } else {
      FilterIgnoresPaging(now, f, requests[0].limit, cursor);
      SearchFrom(now, g, k);
      hide *;
      if page.hasMore {
        var next := k + PageLimit(g);
        SelectValid(now, Matches(f));
        MorePage(page, kept, k, next);
        PagesDeliverRest(now, f, page.nextCursor, next, requests[1..]);
        DeliversMore(page, Pages(now, f, page.nextCursor, requests[1..]), kept, k, next, requests);
      } else {
        WholePage(page, kept[k..], PageLimit(g));
        LastPage(page, requests, kept[k..]);
      }
    }
  }

  lemma MorePage(page: SearchResult, kept: Entries, k: nat, next: nat)
    requires k <= |kept| && k < next && page.items == Take(next - k, kept[k..]) && |kept[k..]| > next - k
    requires page.nextCursor == Some(kept[k..][next - k - 1].id) && ValidRows(kept)
    ensures next < |kept| && page.items == kept[k..next]
    ensures page.nextCursor == Some(kept[next - 1].id) && page.nextCursor != Some("")
  {
    assert kept[next - 1] == kept[k..][next - k - 1];
  }

  lemma WholePage(page: SearchResult, rest: Entries, limit: nat)
    requires page.items == Take(limit, rest) && |rest| <= limit
    ensures page.items == rest
  {
  }

  /** A page that ends the paging: everything that was left, or nothing after a failed read. */
  lemma LastPage(page: SearchResult, requests: seq<Request>, rest: Entries)
    requires requests != [] && page.nextCursor == None
    requires page.items == if requests[0].works then rest else []
    ensures Delivers([page] + [], requests, rest)
  {
    assert Items([page]) == page.items + [];
    assert [page] + [] == [page];
  }

  /** One page in front of pages that deliver the rest. */
  lemma DeliversMore(page: SearchResult, more: seq<SearchResult>, kept: Entries, k: nat, next: nat,
                     requests: seq<Request>)
    requires requests != [] && k < next < |kept| && page.items == kept[k..next] && page.nextCursor.Some?
    requires Delivers(more, requests[1..], kept[next..])
    ensures Delivers([page] + more, requests, kept[k..])
  {
    var pages := [page] + more;
    assert pages[1..] == more;
    assert Items(pages) == kept[k..next] + Items(more);
    hide Items;
    assert kept[k..] == kept[k..next] + kept[next..];
    assert Items(pages)[next - k..] == Items(more) && kept[k..][next - k..] == kept[next..];
    if more != [] {
      assert requests[1..][|more| - 1] == requests[|pages| - 1];
    }
  }

  /** Following nextCursor from the first page until it is null delivers the matching entries present at
      the first read, once each and in order, whatever arrives between the reads and whatever limits are
      asked for: all of them exactly when the last read worked, or nothing matched; a read that fails
      ends the paging early with a prefix. */
  lemma CursorDeliversAll(rows: Entries, f: SearchFilters, requests: seq<Request>)
    requires ValidRows(RowsAfter(rows, requests)) && requests != []
    ensures var present := Select(requests[0].arrived + rows, Matches(f));
            Delivers(Pages(rows, f, None, requests), requests, present) && ValidRows(present)
  {
    var now := requests[0].arrived + rows;
    PagesStep(rows, f, None, requests);
    hide *;
    RowsAfterKeeps(now, requests[1..]);
    SelectValid(now, Matches(f));
    NextPages(now, f, None, 0, requests);
    assert Select(now, Matches(f))[0..] == Select(now, Matches(f));
  }

  // --- reading a whole date range -------------------------------------------------------------

  function InRange(startDate: int, endDate: int): AuditEntry -> bool {
    (e: AuditEntry) => startDate <= e.createdAt <= endDate
  }

  /** The two conditions of the query. */
  function RangeConditions(startDate: int, endDate: int): seq<Condition> {
    [CreatedFrom(startDate), CreatedUntil(endDate)]
  }

  lemma RangeMeans(rows: Entries, startDate: int, endDate: int)
    ensures Select(rows, AllHold(RangeConditions(startDate, endDate))) == Select(rows, InRange(startDate, endDate))
  {
    var conditions := RangeConditions(startDate, endDate);
    forall e: AuditEntry ensures AllHold(conditions)(e) == InRange(startDate, endDate)(e) {
      assert HoldsEach(conditions, e) ==> Holds(conditions[0], e) && Holds(conditions[1], e);
    }
    hide Select;
    SameFilter(rows, AllHold(conditions), InRange(startDate, endDate));
  }

  /** The collection at the n-th page read, when `arrivals(i)` came in just before read i. */
  ghost function RowsAt(rows: Entries, arrivals: nat -> Entries, n: nat): Entries {
    if n == 0 then arrivals(0) + rows else arrivals(n) + RowsAt(rows, arrivals, n - 1)
  }

  ghost predicate AlwaysValid(rows: Entries, arrivals: nat -> Entries) {
    forall n: nat :: ValidRows(RowsAt(rows, arrivals, n))
  }

  lemma RowsAtStep(rows: Entries, arrivals: nat -> Entries, n: nat)
    requires AlwaysValid(rows, arrivals)
    ensures RowsAt(rows, arrivals, n) == arrivals(n) + if n == 0 then rows else RowsAt(rows, arrivals, n - 1)
    ensures ValidRows(RowsAt(rows, arrivals, n))
  {
    hide ValidRows;
  }

  /** listForRange: page through the range by cursor while entries keep arriving. `works` says which
      page reads succeed, `readCount` how many were made; a failed one is answered by an empty list. */
  method ListForRange(rows: Entries, arrivals: nat -> Entries, works: nat -> bool, startDate: int, endDate: int,
                      pageSize: nat)
    returns (allDocs: Entries, readCount: nat)
    requires pageSize >= 1 && AlwaysValid(rows, arrivals)
    ensures readCount >= 1 && forall n | 0 <= n < readCount - 1 :: works(n)
    ensures allDocs == if works(readCount - 1) then Select(arrivals(0) + rows, InRange(startDate, endDate)) else []
  {
    hide Select, List, RowsAt, ValidRows, AlwaysValid, InRange, Take, AllHold;
    var keep := AllHold(RangeConditions(startDate, endDate));
    RangeMeans(arrivals(0) + rows, startDate, endDate);
    readCount := 0;
    var current := arrivals(0) + rows;
    RowsAtStep(rows, arrivals, 0);
    ghost var present := Select(current, keep);
    ghost var k: nat := 0; // place of the cursor among the entries in range
    allDocs := [];
    var lastId: Option<string> := None;
    while true
      invariant current == RowsAt(rows, arrivals, readCount) && ValidRows(current)
      invariant k <= |Select(current, keep)|
      invariant lastId == if k == 0 then None else Some(Select(current, keep)[k - 1].id)
      invariant present == allDocs + Select(current, keep)[k..]
      invariant forall n | 0 <= n < readCount :: works(n)
      decreases |present| - |allDocs|
    {
      readCount := readCount + 1;
      if !works(readCount - 1) {
        return [], readCount;
      }
      ghost var kept := Select(current, keep);
      PageIsSlice(current, keep, lastId, k, pageSize);
      var documents := List(current, keep, lastId, pageSize).value;
      RangeStep(allDocs, kept, k, documents, pageSize);
      allDocs := allDocs + documents;
      if |documents| < pageSize {
        break;
      }
      lastId := Some(documents[|documents| - 1].id);
      hide *;
      RowsAtStep(rows, arrivals, readCount);
      CursorKeepsPlace(current, arrivals(readCount), keep, k + pageSize);
      k := |Select(arrivals(readCount), keep)| + (k + pageSize);
      current := arrivals(readCount) + current;
    }
  }

  /** One more page of what remains behind the cursor. */
  lemma RangeStep(allDocs: Entries, kept: Entries, k: nat, page: Entries, pageSize: nat)
    requires k <= |kept| && page == Take(pageSize, kept[k..])
    ensures |page| <= pageSize && k + |page| <= |kept|
    ensures allDocs + kept[k..] == (allDocs + page) + kept[k + |page|..]
    ensures |page| < pageSize ==> kept[k + |page|..] == [] && (allDocs + page) + [] == allDocs + page
    ensures |allDocs + page| + |kept[k + |page|..]| == |allDocs + kept[k..]|
    ensures page != [] ==> page[|page| - 1] == kept[k + |page| - 1]
  {
  }
}

/** Reading a collection in pages: the list query of the database with a limit and a cursor, and the
    batch loops built on it (src/repositories/base-repository.ts). */
module Paging {
  import opened Common
  import opened Text

  /** A stored document: its id and its contents. A collection lists its rows in query order. */
  datatype Row<T> = Row(id: string, data: T)

  ghost predicate ValidRows<T>(rows: seq<Row<T>>) {
    && (forall i | 0 <= i < |rows| :: rows[i].id != "")
    && (forall i, j | 0 <= i < j < |rows| :: rows[i].id != rows[j].id)
  }

  /** The rows a filter keeps, in order. */
  function Select<T>(rows: seq<Row<T>>, keep: T -> bool): (r: seq<Row<T>>)
    ensures |r| <= |rows|
  {
    if rows == [] then []
    else if keep(rows[0].data) then [rows[0]] + Select(rows[1..], keep)
    else Select(rows[1..], keep)
  }

  /** The rows after the one the cursor names; None when there is no such row. */
  function After<T>(rows: seq<Row<T>>, cursor: string): Option<seq<Row<T>>> {
    if rows == [] then None
    else if rows[0].id == cursor then Some(rows[1..])
    else After(rows[1..], cursor)
  }

  function Take<T>(n: nat, s: seq<T>): seq<T> {
    if n <= |s| then s[..n] else s
  }

  /** listDocuments: at most `limit` rows kept by the filter, after the cursor; None is the error
      of a cursor that names no document. */
  function List<T>(rows: seq<Row<T>>, keep: T -> bool, cursor: Option<string>, limit: nat): Option<seq<Row<T>>> {
    match cursor
    case None => Some(Take(limit, Select(rows, keep)))
    case Some(id) =>
      match After(rows, id)
      case None => None
      case Some(rest) => Some(Take(limit, Select(rest, keep)))
  }

  function Flatten<T>(batches: seq<seq<T>>): seq<T> {
    if batches == [] then [] else Flatten(batches[..|batches| - 1]) + batches[|batches| - 1]
  }

  // --- filters and cursors --------------------------------------------------------------------

  lemma {:induction false} SelectAppend<T>(a: seq<Row<T>>, b: seq<Row<T>>, keep: T -> bool)
    ensures Select(a + b, keep) == Select(a, keep) + Select(b, keep)
  {
    if a == [] {
      assert a + b == b;
    } else {
      SelectAppend(a[1..], b, keep);
      assert (a + b)[0] == a[0] && (a + b)[1..] == a[1..] + b;
      SelectStep(a, keep);
      SelectStep(a + b, keep);
      var (one, two) := (Select(a[1..], keep), Select(b, keep));
      hide Select;
      Associate([a[0]], one, two);
    }
  }

  lemma Associate<R>(a: seq<R>, b: seq<R>, c: seq<R>)
    ensures a + (b + c) == (a + b) + c
  {
  }

  lemma SelectStep<T>(rows: seq<Row<T>>, keep: T -> bool)
    requires rows != []
    ensures keep(rows[0].data) ==> Select(rows, keep) == [rows[0]] + Select(rows[1..], keep)
    ensures !keep(rows[0].data) ==> Select(rows, keep) == Select(rows[1..], keep)
  {
  }

  lemma {:induction false} SelectMember<T>(rows: seq<Row<T>>, keep: T -> bool, row: Row<T>)
    ensures row in Select(rows, keep) <==> row in rows && keep(row.data)
  {
    if rows != [] {
      SelectMember(rows[1..], keep, row);
      assert rows == [rows[0]] + rows[1..];
    }
  }

  lemma {:induction false} SelectValid<T>(rows: seq<Row<T>>, keep: T -> bool)
    requires ValidRows(rows)
    ensures ValidRows(Select(rows, keep))
  {
    if rows != [] {
      SelectValid(rows[1..], keep);
      var rest := Select(rows[1..], keep);
      forall i | 0 <= i < |rest| ensures rest[i].id != rows[0].id {
        SelectMember(rows[1..], keep, rest[i]);
      }
      hide Select;
    }
  }

  /** Filters that agree give the same answers. */
  lemma {:induction false} SameFilter<T(!new)>(rows: seq<Row<T>>, f: T -> bool, g: T -> bool)
    requires forall data :: f(data) == g(data)
    ensures Select(rows, f) == Select(rows, g)
  {
    if rows != [] {
      SameFilter(rows[1..], f, g);
    }
  }

  lemma SameList<T(!new)>(rows: seq<Row<T>>, f: T -> bool, g: T -> bool, cursor: Option<string>, limit: nat)
    requires forall data :: f(data) == g(data)
    ensures List(rows, f, cursor, limit) == List(rows, g, cursor, limit)
  {
    SameFilter(rows, f, g);
    hide Select;
    if cursor.Some? && After(rows, cursor.value).Some? {
      SameFilter(After(rows, cursor.value).value, f, g);
    }
  }

  /** The cursor of the k-th kept row resumes the kept rows right behind it. */
  lemma {:induction false} CursorResumes<T>(rows: seq<Row<T>>, keep: T -> bool, k: nat)
    requires ValidRows(rows) && k < |Select(rows, keep)|
    ensures var rest := After(rows, Select(rows, keep)[k].id);
            rest.Some? && Select(rest.value, keep) == Select(rows, keep)[k + 1..]
  {
    var (kept, tail) := (Select(rows, keep), Select(rows[1..], keep));
    SelectStep(rows, keep);
    hide Select, ValidRows;
    if !keep(rows[0].data) {
      SelectMember(rows[1..], keep, tail[k]);
      LaterRow(rows, tail[k]);
      CursorResumes(rows[1..], keep, k);
    } else if k > 0 {
      assert kept[k] == tail[k - 1] && kept[k + 1..] == tail[k..];
      SelectMember(rows[1..], keep, tail[k - 1]);
      LaterRow(rows, tail[k - 1]);
      CursorResumes(rows[1..], keep, k - 1);
    } else {
      assert kept[1..] == tail;
      assert After(rows, rows[0].id) == Some(rows[1..]);
    }
  }

  lemma LaterRow<T>(rows: seq<Row<T>>, row: Row<T>)
    requires ValidRows(rows) && rows != [] && row in rows[1..]
    ensures ValidRows(rows[1..]) && After(rows, row.id) == After(rows[1..], row.id)
  {
    var i :| 0 <= i < |rows| - 1 && rows[1..][i] == row;
    assert rows[i + 1].id != rows[0].id;
    hide ValidRows;
  }

  /** A cursor is an error exactly when it names no row. */
  lemma {:induction false} UnknownCursor<T>(rows: seq<Row<T>>, keep: T -> bool, cursor: string, limit: nat)
    ensures List(rows, keep, Some(cursor), limit) == None <==> forall i | 0 <= i < |rows| :: rows[i].id != cursor
  {
    hide Select, Take;
    if rows != [] && rows[0].id != cursor {
      UnknownCursor(rows[1..], keep, cursor, limit);
      assert forall i | 0 < i < |rows| :: rows[i] == rows[1..][i - 1];
    }
  }

  /** A page read from the cursor of row k - 1, or from the start, is the next slice of the kept rows. */
  lemma PageIsSlice<T>(rows: seq<Row<T>>, keep: T -> bool, cursor: Option<string>, k: nat, limit: nat)
    requires ValidRows(rows) && k <= |Select(rows, keep)|
    requires if k == 0 then cursor == None else cursor == Some(Select(rows, keep)[k - 1].id)
    ensures List(rows, keep, cursor, limit) == Some(Take(limit, Select(rows, keep)[k..]))
  {
    if k > 0 {
      CursorResumes(rows, keep, k - 1);
    }
  }

  /** Rows added in front do not disturb a cursor: the kept rows go on behind it. */
  lemma CursorKeepsPlace<T>(rows: seq<Row<T>>, added: seq<Row<T>>, keep: T -> bool, k: nat)
    requires 0 < k <= |Select(rows, keep)|
    ensures var now := Select(added + rows, keep);
            var k' := |Select(added, keep)| + k;
            && k' <= |now| && now[k' - 1] == Select(rows, keep)[k - 1]
            && now[k'..] == Select(rows, keep)[k..]
  {
    hide Select;
    SelectAppend(added, rows, keep);
  }

  // --- the batch loop -------------------------------------------------------------------------

  lemma EnoughPages(n: nat, d: nat, pages: nat)
    requires d > 0 && pages * d <= n
    ensures pages <= n / d
  {
    if pages > n / d {
      MoreTimes(n / d + 1, pages, d);
    }
  }

  lemma QuotientIs(n: nat, d: nat, q: nat, r: nat)
    requires d > 0 && r < d && n == q * d + r
    ensures n / d == q
  {
    EnoughPages(n, d, q);
    if n / d > q {
      MoreTimes(q + 1, n / d, d);
    }
  }

  /** Full pages after each of which the callback asked for more. */
  ghost predicate WentOn<T>(batches: seq<seq<Row<T>>>, pageSize: nat, goesOn: seq<seq<Row<T>>> -> bool) {
    batches != [] ==>
      && |batches[|batches| - 1]| == pageSize && goesOn(batches)
      && WentOn(batches[..|batches| - 1], pageSize, goesOn)
  }

  lemma FlattenStep<T>(batches: seq<seq<T>>, page: seq<T>)
    ensures Flatten(batches + [page]) == Flatten(batches) + page
  {
    assert (batches + [page])[..|batches|] == batches;
  }

  lemma WentOnStep<T>(batches: seq<seq<Row<T>>>, page: seq<Row<T>>, pageSize: nat, goesOn: seq<seq<Row<T>>> -> bool)
    requires WentOn(batches, pageSize, goesOn) && |page| == pageSize && goesOn(batches + [page])
    ensures WentOn(batches + [page], pageSize, goesOn)
  {
    assert (batches + [page])[..|batches|] == batches;
  }

  /** fetchInBatches over a collection that does not change: pages of `pageSize`, each handed to the
      callback, until the callback answers false or a page is short. `goesOn` is the callback's
      answer once it has seen these batches, `works` says which queries succeed; `ok` is false when
      a query fails, whose error the caller gets. */
  method FetchInBatches<T>(rows: seq<Row<T>>, keep: T -> bool, pageSize: nat, goesOn: seq<seq<Row<T>>> -> bool,
                           works: nat -> bool)
    returns (ok: bool, batches: seq<seq<Row<T>>>)
    requires ValidRows(rows) && pageSize >= 1
    ensures Flatten(batches) <= Select(rows, keep)
    ensures forall q | 0 <= q < |batches| :: works(q)
    ensures |batches| <= |Select(rows, keep)| / pageSize + if ok then 1 else 0
    ensures !ok ==> !works(|batches|) && WentOn(batches, pageSize, goesOn)
    ensures ok ==> batches != [] && WentOn(batches[..|batches| - 1], pageSize, goesOn)
    ensures ok && goesOn(batches) ==>
              Flatten(batches) == Select(rows, keep) && |batches| == |Select(rows, keep)| / pageSize + 1
  {
    ghost var kept := Select(rows, keep);
    var lastId: Option<string> := None;
    batches := [];
    ghost var read := 0;
    while true
      invariant read == |batches| * pageSize <= |kept|
      invariant Flatten(batches) == kept[..read]
      invariant if read == 0 then lastId == None else lastId == Some(kept[read - 1].id)
      invariant WentOn(batches, pageSize, goesOn)
      invariant forall q | 0 <= q < |batches| :: works(q)
      decreases |kept| - read
    {
      hide *;
      PageIsSlice(rows, keep, lastId, read, pageSize);
      if !works(|batches|) {
        EnoughPages(|kept|, pageSize, |batches|);
        return false, batches;
      }
      var response := List(rows, keep, lastId, pageSize);
      var documents := response.value;
      PageEnds(kept, read, |batches|, pageSize, documents);
      FlattenStep(batches, documents);
      ghost var earlier := batches;
      batches := batches + [documents];
      assert batches[..|batches| - 1] == earlier;
      if !goesOn(batches) {
        break;
      }
      if |documents| < pageSize {
        break;
      }
      WentOnStep(earlier, documents, pageSize, goesOn);
      lastId := Some(documents[|documents| - 1].id);
      read := read + pageSize;
    }
    ok := true;
  }

  /** What one more page, read after `pages` full ones, adds up to. */
  lemma PageEnds<T>(kept: seq<T>, read: nat, pages: nat, pageSize: nat, page: seq<T>)
    requires pageSize >= 1 && read == pages * pageSize <= |kept|
    requires page == Take(pageSize, kept[read..])
    ensures read + |page| <= |kept| && kept[..read] + page == kept[..read + |page|]
    ensures |page| <= pageSize && pages <= |kept| / pageSize
    ensures |page| < pageSize ==> read + |page| == |kept| && |kept| / pageSize == pages
    ensures |page| == pageSize ==> read + pageSize == (pages + 1) * pageSize && pages + 1 <= |kept| / pageSize
  {
    EnoughPages(|kept|, pageSize, pages);
    if |page| < pageSize {
      QuotientIs(|kept|, pageSize, pages, |page|);
    } else {
      EnoughPages(|kept|, pageSize, pages + 1);
    }
  }

  /** The queries that reading everything takes all succeed. */
  ghost predicate AllWork(n: nat, pageSize: nat, works: nat -> bool)
    requires pageSize >= 1
  {
    forall q | 0 <= q <= n / pageSize :: works(q)
  }

  /** fetchAll: every kept row, in order, whatever the page size; None when one of its queries fails. */
  method FetchAll<T>(rows: seq<Row<T>>, keep: T -> bool, pageSize: nat, works: nat -> bool)
    returns (documents: Option<seq<Row<T>>>)
    requires ValidRows(rows) && pageSize >= 1
    ensures documents
            == if AllWork(|Select(rows, keep)|, pageSize, works) then Some(Select(rows, keep)) else None
  {
    var ok, batches := FetchInBatches(rows, keep, pageSize, _ => true, works);
    if !ok {
      return None;
    }
    var allDocs := [];
    for i := 0 to |batches|
      invariant allDocs == Flatten(batches[..i])
    {
      hide Select, WentOn;
      assert batches[..i + 1][..i] == batches[..i];
      allDocs := allDocs + batches[i];
    }
    assert batches[..|batches|] == batches;
    documents := Some(allDocs);
  }
}

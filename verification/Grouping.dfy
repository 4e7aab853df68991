/** Reading the documents of many owners, a hundred owners a query, and grouping them by owner:
    findAllByFreelancers in src/repositories/contract-repository.ts and findByContractIds in
    src/repositories/payment-repository.ts. */
module Grouping {
  import opened Text
  import opened Paging
  import opened Chunks

  /** A document that belongs to an owner: a contract to its freelancer, a payment to its contract. */
  datatype Owned<T> = Owned(owner: string, data: T)

  type Groups<T> = map<string, seq<Row<Owned<T>>>>

  function OfAny<T>(ids: seq<string>): Owned<T> -> bool {
    (c: Owned<T>) => c.owner in ids
  }

  function Of<T>(id: string): Owned<T> -> bool {
    (c: Owned<T>) => c.owner == id
  }

  function Group<T>(groups: Groups<T>, id: string): seq<Row<Owned<T>>> {
    if id in groups then groups[id] else []
  }

  function Times<T>(n: nat, s: seq<T>): seq<T> {
    if n == 0 then [] else Times(n - 1, s) + s
  }

  /** How many of the chunks of the list below n contain the id. */
  function ChunksWith(ids: seq<string>, n: nat, id: string): nat
    decreases n
  {
    if n == 0 || ids == [] then 0
    else
      var start := (Min(n, |ids|) - 1) / CHUNK_SIZE * CHUNK_SIZE;
      ChunksWith(ids, start, id) + if id in Chunk(ids, start) then 1 else 0
  }

  /** Grouping the rows of a batch by owner keeps each owner's rows, in order. */
  method AddRows<T>(groups: Groups<T>, rows: seq<Row<Owned<T>>>) returns (r: Groups<T>)
    ensures forall id :: Group(r, id) == Group(groups, id) + Select(rows, Of(id))
  {
    r := groups;
    for k := 0 to |rows|
      invariant forall id :: Group(r, id) == Group(groups, id) + Select(rows[..k], Of(id))
    {
      hide Select;
      ghost var before := r;
      var row := rows[k];
      var ownerRows := if row.data.owner in r then r[row.data.owner] else [];
      ownerRows := ownerRows + [row];
      r := r[row.data.owner := ownerRows];
      assert rows[..k + 1] == rows[..k] + [row];
      forall id ensures Group(r, id) == Group(groups, id) + Select(rows[..k + 1], Of(id)) {
        SelectLast(rows[..k], row, Of(id));
        Associate(Group(groups, id), Select(rows[..k], Of(id)), if id == row.data.owner then [row] else []);
      }
    }
    assert rows[..|rows|] == rows;
  }

  lemma SelectLast<T>(rows: seq<Row<T>>, row: Row<T>, keep: T -> bool)
    ensures Select(rows + [row], keep) == Select(rows, keep) + if keep(row.data) then [row] else []
  {
    SelectAppend(rows, [row], keep);
    assert [row][1..] == [];
  }

  lemma {:induction false} SelectOfAny<T>(rows: seq<Row<Owned<T>>>, ids: seq<string>, id: string)
    ensures Select(Select(rows, OfAny(ids)), Of(id)) == if id in ids then Select(rows, Of(id)) else []
  {
    if rows != [] {
      SelectOfAny(rows[1..], ids, id);
      SelectStep(rows, OfAny(ids));
      SelectStep(rows, Of(id));
      if OfAny(ids)(rows[0].data) {
        SelectStep([rows[0]] + Select(rows[1..], OfAny(ids)), Of(id));
      }
      hide Select;
    }
  }

  lemma ChunkStart(i: nat, n: nat)
    requires i < n <= i + CHUNK_SIZE && i % CHUNK_SIZE == 0
    ensures (n - 1) / CHUNK_SIZE * CHUNK_SIZE == i
  {
  }

  lemma LastChunk(ids: seq<string>, n: nat, id: string)
    requires n > 0 && ids != []
    ensures var start := (Min(n, |ids|) - 1) / CHUNK_SIZE * CHUNK_SIZE;
            ChunksWith(ids, n, id) == ChunksWith(ids, start, id) + if id in Chunk(ids, start) then 1 else 0
  {
    hide Chunk;
  }

  lemma ChunkCounted(ids: seq<string>, i: nat, id: string)
    requires i < |ids| && i % CHUNK_SIZE == 0
    ensures ChunksWith(ids, i + CHUNK_SIZE, id) == ChunksWith(ids, i, id) + if id in Chunk(ids, i) then 1 else 0
  {
    hide ChunksWith, Chunk;
    ChunkStart(i, Min(i + CHUNK_SIZE, |ids|));
    LastChunk(ids, i + CHUNK_SIZE, id);
  }

  lemma TimesNext<T>(n: nat, s: seq<T>)
    ensures Times(n + 1, s) == Times(n, s) + s && Times(n, s) + [] == Times(n, s)
  {
  }

  /** The groups after the chunks below n. */
  ghost predicate Grouped<T>(rows: seq<Row<Owned<T>>>, ids: seq<string>, n: nat, groups: Groups<T>) {
    forall id :: Group(groups, id) == Times(ChunksWith(ids, n, id), Select(rows, Of(id)))
  }

  lemma ChunkGrouped<T>(rows: seq<Row<Owned<T>>>, ids: seq<string>, i: nat, groups: Groups<T>, after: Groups<T>)
    requires i < |ids| && i % CHUNK_SIZE == 0 && Grouped(rows, ids, i, groups)
    requires forall id :: Group(after, id) == Group(groups, id) + Select(Select(rows, OfAny(Chunk(ids, i))), Of(id))
    ensures Grouped(rows, ids, i + CHUNK_SIZE, after)
  {
    hide Select, ChunksWith, Times, Group, Chunk;
    forall id ensures Group(after, id) == Times(ChunksWith(ids, i + CHUNK_SIZE, id), Select(rows, Of(id))) {
      SelectOfAny(rows, Chunk(ids, i), id);
      ChunkCounted(ids, i, id);
      TimesNext(ChunksWith(ids, i, id), Select(rows, Of(id)));
    }
  }

  lemma PastTheEnd(ids: seq<string>, n: nat, id: string)
    requires n >= |ids|
    ensures ChunksWith(ids, n, id) == ChunksWith(ids, |ids|, id)
  {
    if ids != [] {
      LastChunk(ids, n, id);
      LastChunk(ids, |ids|, id);
      assert Min(n, |ids|) == Min(|ids|, |ids|);
      hide *;
    }
  }

  lemma NoneGrouped<T>(rows: seq<Row<Owned<T>>>, ids: seq<string>)
    ensures Grouped(rows, ids, 0, map[])
  {
    hide Select;
  }

  lemma AllGrouped<T>(rows: seq<Row<Owned<T>>>, ids: seq<string>, n: nat, groups: Groups<T>)
    requires n >= |ids| && Grouped(rows, ids, n, groups)
    ensures Grouped(rows, ids, |ids|, groups)
  {
    hide Select, Times, Group, ChunksWith;
    forall id ensures ChunksWith(ids, n, id) == ChunksWith(ids, |ids|, id) {
      PastTheEnd(ids, n, id);
    }
  }

  /** `works(c, q)` says whether query q of chunk c succeeds. */
  function ChunkWorks(works: (nat, nat) -> bool, c: nat): nat -> bool {
    (q: nat) => works(c, q)
  }

  /** All queries that reading a chunk in full takes succeed. */
  ghost predicate ChunkSucceeds<T>(rows: seq<Row<Owned<T>>>, ids: seq<string>, works: (nat, nat) -> bool, c: nat)
    requires c * CHUNK_SIZE <= |ids|
  {
    forall q: nat | q <= |Select(rows, OfAny<T>(Chunk(ids, c * CHUNK_SIZE)))| / 100 :: works(c, q)
  }

  lemma SucceedsWhen(n: nat, works: (nat, nat) -> bool, c: nat)
    ensures (forall q: nat | q <= n / 100 :: works(c, q)) <==> AllWork(n, 100, ChunkWorks(works, c))
  {
    if AllWork(n, 100, ChunkWorks(works, c)) {
      forall q: nat | q <= n / 100 ensures works(c, q) {
        assert ChunkWorks(works, c)(q);
      }
    }
  }

  ghost predicate AllSucceed<T>(rows: seq<Row<Owned<T>>>, ids: seq<string>, works: (nat, nat) -> bool) {
    forall c: nat | c * CHUNK_SIZE < |ids| :: ChunkSucceeds(rows, ids, works, c)
  }

  /** The loop of findAllByFreelancers: each chunk of the list is read in full and grouped, so an owner
      gets all of their documents once per chunk that names them. None is the error of a query that one
      of the chunks takes. */
  method GroupInChunks<T>(rows: seq<Row<Owned<T>>>, ownerIds: seq<string>, works: (nat, nat) -> bool)
    returns (result: Option<Groups<T>>)
    requires ValidRows(rows)
    ensures result.Some? <==> AllSucceed(rows, ownerIds, works)
    ensures result.Some? ==> forall id ::
              Group(result.value, id) == Times(ChunksWith(ownerIds, |ownerIds|, id), Select(rows, Of(id)))
  {
    var groups: Groups<T> := map[];
    NoneGrouped(rows, ownerIds);
    var i := 0;
    ghost var c: nat := 0;
    while i < |ownerIds|
      invariant i == c * CHUNK_SIZE
      invariant Grouped(rows, ownerIds, i, groups)
      invariant forall d: nat | d < c && d * CHUNK_SIZE < |ownerIds| :: ChunkSucceeds(rows, ownerIds, works, d)
    {
      var chunk := Chunk(ownerIds, i);
      var chunkWorks := ChunkWorks(works, i / CHUNK_SIZE);
      Multiple(i, c);
      SucceedsWhen(|Select(rows, OfAny<T>(chunk))|, works, c);
      assert ChunkSucceeds(rows, ownerIds, works, c) == AllWork(|Select(rows, OfAny<T>(chunk))|, 100, chunkWorks);
      hide *;
      ghost var before := groups;
      var documents := FetchAll(rows, OfAny(chunk), 100, chunkWorks);
      if documents == None {
        SomeFails(rows, ownerIds, works, c);
        return None;
      }
      groups := AddRows(groups, documents.value);
      ChunkGrouped(rows, ownerIds, i, before, groups);
      i := i + CHUNK_SIZE;
      c := c + 1;
    }
    AllGrouped(rows, ownerIds, i, groups);
    hide Select, Times, Group, ChunksWith, ChunkSucceeds;
    result := Some(groups);
  }

  lemma Multiple(i: nat, c: nat)
    requires i == c * CHUNK_SIZE
    ensures i / CHUNK_SIZE == c && i % CHUNK_SIZE == 0
    ensures i + CHUNK_SIZE == (c + 1) * CHUNK_SIZE
  {
  }

  lemma SomeFails<T>(rows: seq<Row<Owned<T>>>, ids: seq<string>, works: (nat, nat) -> bool, c: nat)
    requires c * CHUNK_SIZE < |ids| && !ChunkSucceeds(rows, ids, works, c)
    ensures !AllSucceed(rows, ids, works)
  {
    hide ChunkSucceeds;
  }

  lemma {:induction false} TimesLength<T>(n: nat, s: seq<T>)
    ensures |Times(n, s)| == n * |s|
  {
    if n > 0 {
      TimesLength(n - 1, s);
    }
  }

  lemma TimesItself<T>(n: nat, s: seq<T>)
    ensures Times(n, s) == s <==> s == [] || n == 1
  {
    TimesLength(n, s);
    if n == 1 {
      assert Times(0, s) == [] && Times(1, s) == Times(0, s) + s;
    }
    hide Times;
    if s != [] && n > 1 {
      assert n * |s| >= 2 * |s|;
    }
  }

  /** So an owner's group is right exactly when one chunk names them, or they have no documents. */
  lemma GroupRight<T>(rows: seq<Row<Owned<T>>>, ownerIds: seq<string>, id: string)
    ensures var all := Select(rows, Of(id));
            var chunks := ChunksWith(ownerIds, |ownerIds|, id);
            Times(chunks, all) == all <==> all == [] || chunks == 1
  {
    hide *;
    TimesItself(ChunksWith(ownerIds, |ownerIds|, id), Select(rows, Of(id)));
  }

  lemma ExtendsBy(ids: seq<string>, i: nat, id: string)
    requires Distinct(ids) && i <= |ids|
    ensures id in ids[..Min(i + CHUNK_SIZE, |ids|)] <==> id in ids[..i] || id in Chunk(ids, i)
    ensures id !in ids[..i] || id !in Chunk(ids, i)
  {
    ChunkExtends(ids, i);
  }

  lemma ChunkBounds(ids: seq<string>, c: nat)
    requires c > 0 && CHUNK_SIZE * (c - 1) < |ids|
    ensures var start := CHUNK_SIZE * (c - 1);
            && start % CHUNK_SIZE == 0 && start + CHUNK_SIZE == CHUNK_SIZE * c
            && Min(start, |ids|) == start && (c == 1 || CHUNK_SIZE * (c - 2) < |ids|)
  {
  }

  lemma {:induction false} DistinctInOneChunk(ids: seq<string>, c: nat, id: string)
    requires Distinct(ids) && (c == 0 || CHUNK_SIZE * (c - 1) < |ids|)
    ensures ChunksWith(ids, CHUNK_SIZE * c, id) == if id in ids[..Min(CHUNK_SIZE * c, |ids|)] then 1 else 0
  {
    if c > 0 {
      hide *;
      var start := CHUNK_SIZE * (c - 1);
      ChunkBounds(ids, c);
      DistinctInOneChunk(ids, c - 1, id);
      ExtendsBy(ids, start, id);
      ChunkCounted(ids, start, id);
    }
  }

  /** A list that names nobody twice is safe. */
  lemma DistinctSafe(ids: seq<string>, id: string)
    requires Distinct(ids)
    ensures ChunksWith(ids, |ids|, id) == if id in ids then 1 else 0
  {
    var c := (|ids| + CHUNK_SIZE - 1) / CHUNK_SIZE;
    DistinctInOneChunk(ids, c, id);
    assert ids[..|ids|] == ids;
    PastTheEnd(ids, CHUNK_SIZE * c, id);
    hide ChunksWith;
  }

  /** findByContractIds names every contract once, so each group is that contract's documents. */
  method FindByContractIds<T>(rows: seq<Row<Owned<T>>>, contractIds: seq<string>, works: (nat, nat) -> bool)
    returns (result: Option<Groups<T>>)
    requires ValidRows(rows)
    ensures result.Some? <==> AllSucceed(rows, Dedupe(contractIds), works)
    ensures result.Some? ==> forall id ::
              Group(result.value, id) == if id in contractIds then Select(rows, Of(id)) else []
  {
    var uniqueIds := Dedupe(contractIds);
    DedupeKeeps(contractIds);
    result := GroupInChunks(rows, uniqueIds, works);
    hide *;
    if result.Some? {
      forall id ensures Group(result.value, id) == if id in contractIds then Select(rows, Of(id)) else [] {
        DistinctSafe(uniqueIds, id);
        TimesFew(Select(rows, Of(id)));
      }
    }
  }

  lemma TimesFew<T>(s: seq<T>)
    ensures Times(0, s) == [] && Times(1, s) == s
  {
    assert Times(1, s) == Times(0, s) + s;
  }

  /** Two ids a hundred places apart are not. */
  lemma RepeatedAcrossChunks(ids: seq<string>)
    requires |ids| == 101 && ids[0] == ids[100]
    ensures ChunksWith(ids, |ids|, ids[0]) == 2
  {
    ChunkCounted(ids, 0, ids[0]);
    ChunkCounted(ids, 100, ids[0]);
    assert Chunk(ids, 0)[0] == ids[0] && Chunk(ids, 100)[0] == ids[100];
  }
}

/** Which users are entitled to Pro (getProUserIds in src/repositories/subscription-repository.ts). */
module Entitlements {
  import opened Text
  import opened Paging
  import opened Chunks
  import S = Subscriptions

  /** A subscription document; its id is the user id. */
  datatype Subscription = Subscription(user: string, plan: string, status: string)

  const ENTITLED_STATUSES := {"active", "trialing", "past_due"}

  ghost predicate ValidSubscriptions(rows: seq<Row<Subscription>>) {
    ValidRows(rows) && forall i | 0 <= i < |rows| :: rows[i].id == rows[i].data.user
  }

  predicate Entitles(s: Subscription, user: string) {
    s.user == user && s.status in ENTITLED_STATUSES
  }

  ghost predicate IsPro(rows: seq<Row<Subscription>>, user: string) {
    exists row | row in rows ::
      row.data.user == user && row.data.plan == "pro" && row.data.status in {"active", "trialing", "past_due"}
  }

  function ProInChunk(chunk: seq<string>): Subscription -> bool {
    (s: Subscription) => s.user in chunk && s.plan == "pro"
  }

  /** The limit of the query, the length of the chunk, never cuts its result short. */
  lemma ChunkLimitSuffices(rows: seq<Row<Subscription>>, chunk: seq<string>)
    requires ValidSubscriptions(rows)
    ensures |Select(rows, ProInChunk(chunk))| <= |chunk|
  {
    var kept := Select(rows, ProInChunk(chunk));
    SelectValid(rows, ProInChunk(chunk));
    hide Select;
    var ids := seq(|kept|, i requires 0 <= i < |kept| => kept[i].id);
    forall i | 0 <= i < |ids| ensures ids[i] in chunk {
      SelectMember(rows, ProInChunk(chunk), kept[i]);
    }
    assert Distinct(ids);
    DistinctWithin(ids, chunk);
  }

  /** A Pro user among the first n distinct ids, in a chunk whose query works. */
  ghost predicate Found(rows: seq<Row<Subscription>>, unique: seq<string>, n: nat, works: nat -> bool, user: string) {
    exists k | 0 <= k < |unique| && k < n :: unique[k] == user && works(k / CHUNK_SIZE) && IsPro(rows, user)
  }

  lemma FoundInChunk(rows: seq<Row<Subscription>>, unique: seq<string>, i: nat, works: nat -> bool, user: string)
    requires i % CHUNK_SIZE == 0 && i <= |unique|
    ensures Found(rows, unique, i + CHUNK_SIZE, works, user)
            <==> || Found(rows, unique, i, works, user)
                 || (works(i / CHUNK_SIZE) && user in Chunk(unique, i) && IsPro(rows, user))
  {
    hide IsPro;
    var chunk := Chunk(unique, i);
    if works(i / CHUNK_SIZE) && user in chunk && IsPro(rows, user) {
      var k :| 0 <= k < |chunk| && chunk[k] == user;
      assert unique[i + k] == user && (i + k) / CHUNK_SIZE == i / CHUNK_SIZE;
    }
    if Found(rows, unique, i + CHUNK_SIZE, works, user) {
      var k :| 0 <= k < |unique| && k < i + CHUNK_SIZE && unique[k] == user && works(k / CHUNK_SIZE)
          && IsPro(rows, user);
      if k >= i {
        assert chunk[k - i] == user && k / CHUNK_SIZE == i / CHUNK_SIZE;
      }
    }
  }

  /** Chunks whose query fails contribute nobody; `works` says which chunks succeed. */
  method GetProUserIds(rows: seq<Row<Subscription>>, userIds: seq<string>, works: nat -> bool)
    returns (pro: set<string>)
    requires ValidSubscriptions(rows)
    ensures forall user :: user in pro <==> Found(rows, Dedupe(userIds), |Dedupe(userIds)|, works, user)
    ensures (forall c :: works(c)) ==> forall user :: user in pro <==> user in userIds && IsPro(rows, user)
  {
    var unique := Dedupe(userIds);
    DedupeKeeps(userIds);
    pro := {};
    var i := 0;
    while i < |unique|
      invariant i % CHUNK_SIZE == 0
      invariant forall user :: user in pro <==> Found(rows, unique, i, works, user)
    {
      hide IsPro, Dedupe, Found;
      ghost var before := pro;
      var chunk := Chunk(unique, i);
      if works(i / CHUNK_SIZE) {
        ChunkLimitSuffices(rows, chunk);
        var documents := Take(|chunk|, Select(rows, ProInChunk(chunk)));
        pro := AddEntitled(pro, documents);
      }
      forall user ensures user in pro <==> Found(rows, unique, i + CHUNK_SIZE, works, user) {
        EntitledInChunk(rows, chunk, user);
        FoundInChunk(rows, unique, i, works, user);
      }
      i := i + CHUNK_SIZE;
    }
    hide IsPro, Dedupe;
  }

  lemma EntitledInChunk(rows: seq<Row<Subscription>>, chunk: seq<string>, user: string)
    ensures (exists row :: row in Select(rows, ProInChunk(chunk)) && Entitles(row.data, user))
            <==> user in chunk && IsPro(rows, user)
  {
    forall row ensures row in Select(rows, ProInChunk(chunk)) <==> row in rows && ProInChunk(chunk)(row.data) {
      SelectMember(rows, ProInChunk(chunk), row);
    }
  }

  method AddEntitled(pro: set<string>, documents: seq<Row<Subscription>>) returns (r: set<string>)
    ensures forall user :: user in r <==>
              user in pro || exists row :: row in documents && Entitles(row.data, user)
  {
    r := pro;
    for d := 0 to |documents|
      invariant forall user :: user in r <==>
                  user in pro || exists k | 0 <= k < d :: Entitles(documents[k].data, user)
    {
      if documents[d].data.status in ENTITLED_STATUSES {
        r := r + {documents[d].data.user};
      }
    }
  }

  // --- where a Pro subscription comes from ------------------------------------------------------

  /** The rows show the documents that the upserts have left. */
  ghost predicate Shows(rows: seq<Row<Subscription>>, docs: S.Docs) {
    forall row | row in rows ::
      && S.FieldOf(docs, row.id, "plan") == Some(S.Words(row.data.plan))
      && S.FieldOf(docs, row.id, "status") == Some(S.Words(row.data.status))
  }

  /** Nobody is Pro whom their own writes have not put on the plan and given an entitled status. */
  lemma ProHasSource(rows: seq<Row<Subscription>>, log: seq<S.Commit>, user: string)
    requires ValidSubscriptions(rows) && Shows(rows, S.Replay(log)) && IsPro(rows, user)
    ensures S.SetsTo(log, user, "plan", S.Words("pro"))
    ensures exists status | status in {"active", "trialing", "past_due"} ::
              S.SetsTo(log, user, "status", S.Words(status))
  {
    var row :| row in rows && row.data.user == user && row.data.plan == "pro"
               && row.data.status in {"active", "trialing", "past_due"};
    var i :| 0 <= i < |rows| && rows[i] == row;
    S.FieldHasSource(log, user, "plan", S.Words("pro"));
    S.FieldHasSource(log, user, "status", S.Words(row.data.status));
    hide S.Replay, S.FieldOf, S.SetsTo;
  }
}

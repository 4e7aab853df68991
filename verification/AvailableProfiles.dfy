/** The available freelancers, one profile per user (getAvailableProfiles in
    src/repositories/freelancer-profile-repository.ts). */
module AvailableProfiles {
  import opened Text
  import opened Paging

  datatype Profile = Profile(user: string, available: bool, createdAt: int)

  /** Who a profile belongs to: its user id, or its own id when it has none. */
  function Key(row: Row<Profile>): string {
    if row.data.user != "" then row.data.user else row.id
  }

  function IsAvailable(): Profile -> bool {
    (p: Profile) => p.available
  }

  predicate HasKey(rows: seq<Row<Profile>>, key: string) {
    exists i | 0 <= i < |rows| :: Key(rows[i]) == key
  }

  lemma HasKeyAppend(rows: seq<Row<Profile>>, row: Row<Profile>, key: string)
    ensures HasKey(rows + [row], key) <==> HasKey(rows, key) || Key(row) == key
  {
    hide Key;
    var all := rows + [row];
    assert all[|rows|] == row;
    if HasKey(rows, key) {
      var i :| 0 <= i < |rows| && Key(rows[i]) == key;
      assert Key(all[i]) == key;
    }
  }

  function FirstPerUser(rows: seq<Row<Profile>>): seq<Row<Profile>> {
    if rows == [] then []
    else
      var (init, last) := (rows[..|rows| - 1], rows[|rows| - 1]);
      if HasKey(init, Key(last)) then FirstPerUser(init) else FirstPerUser(init) + [last]
  }

  /** The batches of the query, read with any page size, and the callback run on each; an error of
      one of the queries is answered by an empty list. */
  method GetAvailableProfiles(rows: seq<Row<Profile>>, pageSize: nat, works: nat -> bool)
    returns (uniqueProfiles: seq<Row<Profile>>)
    requires ValidRows(rows) && pageSize >= 1
    ensures var available := Select(rows, IsAvailable());
            uniqueProfiles == if AllWork(|available|, pageSize, works) then FirstPerUser(available) else []
  {
    var ok, batches := FetchInBatches(rows, IsAvailable(), pageSize, _ => true, works);
    if !ok {
      return [];
    }
    var seen := {};
    uniqueProfiles := [];
    ghost var read: seq<Row<Profile>> := [];
    for i := 0 to |batches|
      invariant read == Flatten(batches[..i])
      invariant uniqueProfiles == FirstPerUser(read)
      invariant Seen(read, seen)
    {
      hide Select, WentOn, FirstPerUser, Seen;
      assert batches[..i + 1][..i] == batches[..i];
      seen, uniqueProfiles := Collect(read, batches[i], seen, uniqueProfiles);
      read := read + batches[i];
    }
    assert batches[..|batches|] == batches;
  }

  ghost predicate Seen(rows: seq<Row<Profile>>, seen: set<string>) {
    forall key :: key in seen <==> HasKey(rows, key)
  }

  /** The callback on one batch, after the rows read before it. */
  method Collect(ghost read: seq<Row<Profile>>, batch: seq<Row<Profile>>, seen: set<string>,
                 profiles: seq<Row<Profile>>)
    returns (seen': set<string>, profiles': seq<Row<Profile>>)
    requires profiles == FirstPerUser(read) && Seen(read, seen)
    ensures profiles' == FirstPerUser(read + batch) && Seen(read + batch, seen')
  {
    hide FirstPerUser, Key, Seen, HasKey;
    seen', profiles' := seen, profiles;
    assert read + batch[..0] == read;
    for j := 0 to |batch|
      invariant profiles' == FirstPerUser(read + batch[..j])
      invariant Seen(read + batch[..j], seen')
    {
      assert read + batch[..j + 1] == (read + batch[..j]) + [batch[j]];
      var key := Key(batch[j]);
      FirstPerUserStep(read + batch[..j], batch[j]);
      SeenStep(read + batch[..j], batch[j], seen');
      if key !in seen' {
        seen' := seen' + {key};
        profiles' := profiles' + [batch[j]];
      }
    }
    assert batch[..|batch|] == batch;
  }

  lemma FirstPerUserStep(rows: seq<Row<Profile>>, row: Row<Profile>)
    ensures FirstPerUser(rows + [row])
            == if HasKey(rows, Key(row)) then FirstPerUser(rows) else FirstPerUser(rows) + [row]
  {
    hide Key, HasKey;
    var all := rows + [row];
    assert all[..|all| - 1] == rows;
  }

  lemma SeenStep(rows: seq<Row<Profile>>, row: Row<Profile>, seen: set<string>)
    requires Seen(rows, seen)
    ensures Key(row) in seen <==> HasKey(rows, Key(row))
    ensures Key(row) in seen ==> Seen(rows + [row], seen)
    ensures Key(row) !in seen ==> Seen(rows + [row], seen + {Key(row)})
  {
    hide HasKey, Key;
    forall key ensures HasKey(rows + [row], key) <==> HasKey(rows, key) || Key(row) == key {
      HasKeyAppend(rows, row, key);
    }
  }

  ghost predicate NewestFirst(rows: seq<Row<Profile>>) {
    forall i, j | 0 <= i < j < |rows| :: rows[i].data.createdAt >= rows[j].data.createdAt
  }

  ghost predicate OnePerUser(rows: seq<Row<Profile>>) {
    forall i, j | 0 <= i < j < |rows| :: Key(rows[i]) != Key(rows[j])
  }

  /** What is kept was read, nobody is kept twice, and nobody who was read is lost. */
  lemma {:induction false} FirstPerUserIsFair(rows: seq<Row<Profile>>)
    ensures var r := FirstPerUser(rows);
            && (forall x | x in r :: x in rows)
            && OnePerUser(r)
            && (forall key :: HasKey(r, key) <==> HasKey(rows, key))
  {
    if rows != [] {
      var (init, last) := (rows[..|rows| - 1], rows[|rows| - 1]);
      FirstPerUserIsFair(init);
      FirstPerUserStep(init, last);
      assert rows == init + [last];
      hide FirstPerUser, Key;
      FairStep(init, last, FirstPerUser(init));
    }
  }

  lemma FairStep(init: seq<Row<Profile>>, last: Row<Profile>, r: seq<Row<Profile>>)
    requires OnePerUser(r) && forall key :: HasKey(r, key) <==> HasKey(init, key)
    requires forall x | x in r :: x in init
    ensures var r' := if HasKey(init, Key(last)) then r else r + [last];
            && (forall x | x in r' :: x in init + [last])
            && OnePerUser(r')
            && (forall key :: HasKey(r', key) <==> HasKey(init + [last], key))
  {
    hide Key;
    assert !HasKey(init, Key(last)) ==> forall i | 0 <= i < |r| :: Key(r[i]) != Key(last) by {
      assert !HasKey(init, Key(last)) ==> !HasKey(r, Key(last));
    }
    hide HasKey;
    forall key
      ensures HasKey(init + [last], key) <==> HasKey(init, key) || Key(last) == key
      ensures HasKey(r + [last], key) <==> HasKey(r, key) || Key(last) == key
    {
      HasKeyAppend(init, last, key);
      HasKeyAppend(r, last, key);
    }
  }

  /** The profiles kept stay in the order of the rows. */
  lemma {:induction false} KeptInOrder(rows: seq<Row<Profile>>)
    requires NewestFirst(rows)
    ensures NewestFirst(FirstPerUser(rows))
  {
    if rows != [] {
      var (init, last) := (rows[..|rows| - 1], rows[|rows| - 1]);
      KeptInOrder(init);
      FirstPerUserIsFair(init);
      FirstPerUserStep(init, last);
      assert rows == init + [last];
      var r := FirstPerUser(init);
      hide FirstPerUser, Key, HasKey;
      forall i | 0 <= i < |r| ensures r[i].data.createdAt >= last.data.createdAt {
        assert r[i] in r;
        var k :| 0 <= k < |init| && init[k] == r[i];
        assert rows[k] == r[i] && rows[|init|] == last;
      }
    }
  }

  lemma LastIsOldest(rows: seq<Row<Profile>>, x: Row<Profile>)
    requires NewestFirst(rows) && rows != [] && x in rows[..|rows| - 1]
    ensures x.data.createdAt >= rows[|rows| - 1].data.createdAt
  {
  }

  lemma HasKeyOf(rows: seq<Row<Profile>>, x: Row<Profile>)
    requires x in rows
    ensures HasKey(rows, Key(x))
  {
    hide Key;
    var i :| 0 <= i < |rows| && rows[i] == x;
  }

  /** The profile kept for a user is the newest of that user's. */
  lemma {:induction false} KeptIsNewest(rows: seq<Row<Profile>>, kept: Row<Profile>, other: Row<Profile>)
    requires NewestFirst(rows) && kept in FirstPerUser(rows)
    requires other in rows && Key(other) == Key(kept)
    ensures kept.data.createdAt >= other.data.createdAt
  {
    var (init, last) := (rows[..|rows| - 1], rows[|rows| - 1]);
    assert rows == init + [last] && NewestFirst(init);
    hide *;
    FirstPerUserStep(init, last);
    FirstPerUserIsFair(init);
    if kept in FirstPerUser(init) {
      if other in init {
        KeptIsNewest(init, kept, other);
      } else {
        LastIsOldest(rows, kept);
      }
    } else if other in init {
      HasKeyOf(init, other);
    }
  }

  /** In plain words: no two listed profiles have the same user, every available user is listed, if only by
      a profile without a user whose own id is that user's, and a profile without a user is listed itself
      unless its id is that of another. */
  lemma ListedUsers(rows: seq<Row<Profile>>, row: Row<Profile>)
    requires row in rows
    ensures var r := FirstPerUser(rows);
            && (forall i, j | 0 <= i < j < |r| && r[i].data.user != "" :: r[j].data.user != r[i].data.user)
            && (row.data.user != "" ==>
                  exists x | x in r ::
                    x.data.user == row.data.user || (x.data.user == "" && x.id == row.data.user))
            && (row.data.user == "" && (forall x | x in rows && x != row :: x.id != row.id && x.data.user != row.id) ==>
                  row in r)
  {
    var r := FirstPerUser(rows);
    FirstPerUserIsFair(rows);
    HasKeyOf(rows, row);
    hide FirstPerUser;
    forall i, j | 0 <= i < j < |r| && r[i].data.user != "" ensures r[j].data.user != r[i].data.user {
      assert Key(r[i]) != Key(r[j]);
    }
    assert HasKey(r, Key(row));
    var i :| 0 <= i < |r| && Key(r[i]) == Key(row);
    assert r[i] in r && r[i] in rows;
  }
}

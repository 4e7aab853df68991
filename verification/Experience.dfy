/** Work history of a freelancer profile: every entry gets an id of its own
    (src/repositories/freelancer-profile-repository.ts). */
module Experience {
  import opened Text

  /** A property of a parsed object. */
  datatype Loose = Missing | Null | Words(s: string) | Other

  /** An element of the stored array; whatever is not an object is junk. */
  datatype Candidate =
    | Junk
    | Entry(id: Loose, experienceId: Loose, experience_id: Loose, title: Loose, company: Loose, description: Loose,
            start_date: Loose, startDate: Loose, end_date: Loose, endDate: Loose)

  datatype Job = Job(id: string, title: string, company: string, description: string, start: string,
                     end: Option<string>)

  function StringValue(value: Loose): string {
    if value.Words? then value.s else ""
  }

  /** nullableStringValue of two values. */
  function NullableString(first: Loose, second: Loose): Option<string> {
    if first.Words? then Some(first.s)
    else if first.Null? then None
    else if second.Words? then Some(second.s)
    else None
  }

  function OrElse(first: Loose, second: Loose): Loose {
    if first.Missing? || first.Null? then second else first
  }

  function UsableId(value: Loose): string {
    if value.Words? then Trim(value.s) else ""
  }

  /** The id the entry was stored with: the first of its three fields that is not blank. */
  function Stored(c: Candidate): string
    requires c.Entry?
  {
    if UsableId(c.id) != "" then UsableId(c.id)
    else if UsableId(c.experienceId) != "" then UsableId(c.experienceId)
    else UsableId(c.experience_id)
  }

  /** The names tried for the entry at an index: the base name, then with suffixes 1, 2, ... */
  function Name(index: nat, n: nat): string {
    "legacy-experience-" + NatText(index) + if n == 0 then "" else "-" + NatText(n)
  }

  lemma NamesDiffer(index: nat, m: nat, n: nat)
    requires Name(index, m) == Name(index, n)
    ensures m == n
  {
    var base := "legacy-experience-" + NatText(index);
    if m > 0 && n > 0 {
      assert Name(index, m)[|base| + 1..] == NatText(m) && Name(index, n)[|base| + 1..] == NatText(n);
      NatTextInjective(m, n);
    } else {
      assert m > 0 ==> |Name(index, m)| > |base|;
      assert n > 0 ==> |Name(index, n)| > |base|;
    }
  }

  /** The first name from the n-th on that is not taken. */
  function FirstFree(index: nat, n: nat, taken: set<string>): string
    decreases |taken|
  {
    if Name(index, n) in taken then FirstFree(index, n + 1, taken - {Name(index, n)}) else Name(index, n)
  }

  function ChosenId(c: Candidate, index: nat, used: set<string>): string
    requires c.Entry?
  {
    if Stored(c) != "" && Stored(c) !in used then Stored(c) else FirstFree(index, 0, used)
  }

  /** It is a name that is not taken, and all earlier ones are. */
  lemma {:induction false} FirstFreeIsFirst(index: nat, n: nat, taken: set<string>) returns (k: nat)
    ensures n <= k && FirstFree(index, n, taken) == Name(index, k) && Name(index, k) !in taken
    ensures forall m | n <= m < k :: Name(index, m) in taken
    decreases |taken|
  {
    if Name(index, n) in taken {
      k := FirstFreeIsFirst(index, n + 1, taken - {Name(index, n)});
      if Name(index, k) == Name(index, n) {
        NamesDiffer(index, k, n);
      }
    } else {
      k := n;
    }
  }

  /** uniqueExperienceId; `usedIds` is the set it adds to. The loop ends because each name it finds
      taken is another member of that finite set. */
  method UniqueExperienceId(experience: Candidate, index: nat, usedIds: set<string>)
    returns (id: string, used: set<string>)
    requires experience.Entry?
    ensures id == ChosenId(experience, index, usedIds)
    ensures used == usedIds + {id}
  {
    id := Stored(experience);
    if id == "" || id in usedIds {
      id := Name(index, 0);
      ghost var n := 0;
      ghost var left := usedIds;
      var suffix := 1;
      while id in usedIds
        invariant id == Name(index, n) && suffix == n + 1
        invariant left <= usedIds && forall m | m >= n :: Name(index, m) in usedIds ==> Name(index, m) in left
        invariant FirstFree(index, n, left) == FirstFree(index, 0, usedIds)
        decreases |left|
      {
        ghost var before := left;
        left := left - {id};
        forall m | m >= n + 1 && Name(index, m) in usedIds ensures Name(index, m) in left {
          if Name(index, m) == id {
            NamesDiffer(index, m, n);
          }
        }
        assert before == left + {id} && |before| == |left| + 1;
        id := Name(index, suffix);
        n := n + 1;
        suffix := suffix + 1;
      }
    }
    used := usedIds + {id};
  }

  // --- the whole list -------------------------------------------------------------------------

  function Ids(jobs: seq<Job>): set<string> {
    set i | 0 <= i < |jobs| :: jobs[i].id
  }

  lemma IdsAppend(jobs: seq<Job>, j: Job)
    ensures Ids(jobs + [j]) == Ids(jobs) + {j.id}
  {
    var all := jobs + [j];
    assert all[|jobs|] == j;
    forall id ensures id in Ids(all) <==> id in Ids(jobs) || id == j.id {
      if id in Ids(jobs) {
        var i :| 0 <= i < |jobs| && jobs[i].id == id;
        assert all[i].id == id;
      }
    }
  }

  function Normalized(c: Candidate, index: nat, used: set<string>): Job
    requires c.Entry?
  {
    Job(ChosenId(c, index, used), StringValue(c.title), StringValue(c.company), StringValue(c.description),
        StringValue(OrElse(c.start_date, c.startDate)), NullableString(c.end_date, c.endDate))
  }

  function Normalize(values: seq<Candidate>): seq<Job> {
    if values == [] then []
    else
      var (jobs, last) := (Normalize(values[..|values| - 1]), values[|values| - 1]);
      if last.Junk? then jobs else jobs + [Normalized(last, |values| - 1, Ids(jobs))]
  }

  /** normalizeExperience */
  method NormalizeExperience(values: seq<Candidate>) returns (jobs: seq<Job>)
    ensures jobs == Normalize(values)
  {
    var usedIds := {};
    jobs := [];
    for index := 0 to |values|
      invariant jobs == Normalize(values[..index]) && usedIds == Ids(jobs)
    {
      hide ChosenId;
      assert values[..index + 1][..index] == values[..index];
      var experience := values[index];
      if experience.Junk? {
        continue;
      }
      var id;
      id, usedIds := UniqueExperienceId(experience, index, usedIds);
      var job := Job(id, StringValue(experience.title), StringValue(experience.company),
                     StringValue(experience.description),
                     StringValue(OrElse(experience.start_date, experience.startDate)),
                     NullableString(experience.end_date, experience.endDate));
      IdsAppend(jobs, job);
      jobs := jobs + [job];
    }
    assert values[..|values|] == values;
  }

  /** A text that is not blank. */
  predicate HasText(value: Loose) {
    value.Words? && Trim(value.s) != ""
  }

  /** An entry is stored with an id exactly when one of its three fields is a text that is not blank, and
      then with the first such text, trimmed. */
  lemma StoredMeans(c: Candidate)
    requires c.Entry?
    ensures Stored(c) != "" <==> HasText(c.id) || HasText(c.experienceId) || HasText(c.experience_id)
    ensures HasText(c.id) ==> Stored(c) == Trim(c.id.s)
    ensures !HasText(c.id) && HasText(c.experienceId) ==> Stored(c) == Trim(c.experienceId.s)
    ensures !HasText(c.id) && !HasText(c.experienceId) && HasText(c.experience_id) ==>
              Stored(c) == Trim(c.experience_id.s)
  {
    hide Trim;
  }

  /** The other fields of an entry: a text that is not one is empty; the start is the newer field's unless
      that is absent or null; the end is the first of the two fields that is a text or null, and none
      when neither is. */
  lemma FieldsMean(c: Candidate, index: nat, used: set<string>)
    requires c.Entry?
    ensures var job := Normalized(c, index, used);
            && job.title == (match c.title case Words(s) => s case _ => "")
            && job.company == (match c.company case Words(s) => s case _ => "")
            && job.description == (match c.description case Words(s) => s case _ => "")
            && job.start == (match c.start_date
                             case Words(s) => s
                             case Other => ""
                             case _ => match c.startDate case Words(s) => s case _ => "")
            && job.end == (match c.end_date
                           case Words(s) => Some(s)
                           case Null => None
                           case _ => match c.endDate case Words(s) => Some(s) case _ => None)
  {
    hide ChosenId;
  }

  ghost predicate DistinctIds(jobs: seq<Job>) {
    forall i, j | 0 <= i < j < |jobs| :: jobs[i].id != jobs[j].id
  }

  lemma ChosenIsUnused(c: Candidate, index: nat, used: set<string>)
    requires c.Entry?
    ensures ChosenId(c, index, used) !in used && ChosenId(c, index, used) != ""
  {
    var k := FirstFreeIsFirst(index, 0, used);
  }

  /** No two entries end up with the same id. */
  lemma {:induction false} IdsAreDistinct(values: seq<Candidate>)
    ensures DistinctIds(Normalize(values))
  {
    if values != [] {
      var (jobs, last) := (Normalize(values[..|values| - 1]), values[|values| - 1]);
      IdsAreDistinct(values[..|values| - 1]);
      if last.Entry? {
        ChosenIsUnused(last, |values| - 1, Ids(jobs));
        hide ChosenId;
        forall i | 0 <= i < |jobs| ensures jobs[i].id in Ids(jobs) {
        }
      }
    }
  }

  /** Entries keep their order and their contents: what an entry becomes depends on the entries
      before it, and later ones do not change it. */
  lemma {:induction false} OrderKept(values: seq<Candidate>, k: nat)
    requires k < |values| && values[k].Entry?
    ensures var before := Normalize(values[..k]);
            && |before| < |Normalize(values)|
            && Normalize(values)[..|before|] == before
            && Normalize(values)[|before|] == Normalized(values[k], k, Ids(before))
  {
    var init := values[..|values| - 1];
    if k < |init| {
      OrderKept(init, k);
      assert init[..k] == values[..k];
    }
    hide Normalized, Ids;
  }

  /** An earlier entry is stored with the id. */
  ghost predicate StoredBefore(values: seq<Candidate>, k: nat, id: string)
    requires k <= |values|
  {
    exists j | 0 <= j < k :: values[j].Entry? && Stored(values[j]) == id
  }

  /** Entry j goes through generated names and gets as far as its n-th: it has no stored id that is
      free, and the names before are taken. */
  ghost predicate Tries(values: seq<Candidate>, j: nat, n: nat)
    requires j < |values|
  {
    var used := Ids(Normalize(values[..j]));
    && values[j].Entry?
    && (Stored(values[j]) == "" || Stored(values[j]) in used)
    && forall m | 0 <= m < n :: Name(j, m) in used
  }

  /** An earlier entry gets as far as trying the id as a generated name. */
  ghost predicate TriedBefore(values: seq<Candidate>, k: nat, id: string)
    requires k <= |values|
  {
    exists j: nat, n: nat | j < k :: Tries(values, j, n) && Name(j, n) == id
  }

  lemma ChosenIsUsed(values: seq<Candidate>, j: nat, k: nat)
    requires j < k <= |values| && values[j].Entry?
    ensures ChosenId(values[j], j, Ids(Normalize(values[..j]))) in Ids(Normalize(values[..k]))
    ensures Ids(Normalize(values[..j])) <= Ids(Normalize(values[..k]))
  {
    OrderKept(values[..k], j);
    var (before, after) := (Normalize(values[..j]), Normalize(values[..k]));
    assert values[..k][..j] == values[..j];
    assert after[|before|].id in Ids(after);
    forall id | id in Ids(before) ensures id in Ids(after) {
      var i :| 0 <= i < |before| && before[i].id == id;
      assert after[..|before|][i] == after[i];
    }
    hide Normalize, ChosenId, Ids;
  }

  lemma TriedIsUsed(values: seq<Candidate>, k: nat, j: nat, n: nat)
    requires j < k <= |values| && Tries(values, j, n)
    ensures Name(j, n) in Ids(Normalize(values[..k]))
  {
    var used := Ids(Normalize(values[..j]));
    ChosenIsUsed(values, j, k);
    if Name(j, n) !in used {
      var f := FirstFreeIsFirst(j, 0, used);
      assert f >= n;
      assert f <= n;
    }
    hide Normalize, Ids, Name, FirstFree;
  }

  lemma StoredIsUsed(values: seq<Candidate>, k: nat, j: nat)
    requires j < k <= |values| && values[j].Entry? && Stored(values[j]) != ""
    ensures Stored(values[j]) in Ids(Normalize(values[..k]))
  {
    ChosenIsUsed(values, j, k);
    hide Normalize, Ids, Stored, FirstFree;
  }

  /** Where a used id comes from. */
  lemma {:induction false} UsedComesFrom(values: seq<Candidate>, k: nat, id: string)
    requires k <= |values| && id in Ids(Normalize(values[..k]))
    ensures StoredBefore(values, k, id) || TriedBefore(values, k, id)
    decreases k
  {
    var (before, c) := (values[..k][..k - 1], values[k - 1]);
    assert before == values[..k - 1];
    var (jobs, used) := (Normalize(before), Ids(Normalize(before)));
    if id in used {
      UsedComesFrom(values, k - 1, id);
    } else {
      NewIdChosen(values[..k], id);
      if Stored(c) == "" || Stored(c) in used {
        var n := FirstFreeIsFirst(k - 1, 0, used);
        assert Tries(values, k - 1, n) && Name(k - 1, n) == id;
      }
    }
  }

  lemma NewIdChosen(values: seq<Candidate>, id: string)
    requires values != [] && id in Ids(Normalize(values))
    requires id !in Ids(Normalize(values[..|values| - 1]))
    ensures values[|values| - 1].Entry?
    ensures id == ChosenId(values[|values| - 1], |values| - 1, Ids(Normalize(values[..|values| - 1])))
  {
    hide ChosenId;
  }

  /** An entry stored with an id loses it exactly when an earlier entry is stored with the same id, or
      an earlier entry gets as far as trying it as a generated name. */
  lemma StoredIdLostExactly(values: seq<Candidate>, k: nat)
    requires k < |values| && values[k].Entry? && Stored(values[k]) != ""
    ensures var (p, id) := (|Normalize(values[..k])|, Stored(values[k]));
            && p < |Normalize(values)|
            && (Normalize(values)[p].id != id <==> StoredBefore(values, k, id) || TriedBefore(values, k, id))
  {
    var (used, id) := (Ids(Normalize(values[..k])), Stored(values[k]));
    OrderKept(values, k);
    ChosenIsUnused(values[k], k, used);
    assert Normalize(values)[|Normalize(values[..k])|].id != id <==> id in used;
    hide Normalize, Ids, Stored, ChosenId, Name;
    if id in used {
      UsedComesFrom(values, k, id);
    }
    if StoredBefore(values, k, id) {
      var j :| 0 <= j < k && values[j].Entry? && Stored(values[j]) == id;
      StoredIsUsed(values, k, j);
    }
    if TriedBefore(values, k, id) {
      var j: nat, n: nat :| j < k && Tries(values, j, n) && Name(j, n) == id;
      TriedIsUsed(values, k, j, n);
    }
  }

  /** The first entry stored with an id keeps it, if no generated name looks like it. */
  lemma FirstStoredKept(values: seq<Candidate>, k: nat)
    requires k < |values| && values[k].Entry? && Stored(values[k]) != ""
    requires forall j | 0 <= j < k && values[j].Entry? :: Stored(values[j]) != Stored(values[k])
    requires forall i: nat, n: nat :: Name(i, n) != Stored(values[k])
    ensures var p := |Normalize(values[..k])|;
            p < |Normalize(values)| && Normalize(values)[p].id == Stored(values[k])
  {
    hide Normalize, Stored, Name, Tries;
    StoredIdLostExactly(values, k);
  }

  const Blank := Entry(Missing, Missing, Missing, Missing, Missing, Missing, Missing, Missing, Missing, Missing)

  /** An entry without an id takes the first generated name, and an entry stored with that very name
      loses it although nobody else was stored with it. */
  lemma StoredIdLostExample()
    ensures var values := [Blank, Blank.(id := Words(Name(0, 0)))];
            && Stored(values[1]) == Name(0, 0) && !StoredBefore(values, 1, Name(0, 0))
            && |Normalize(values)| == 2 && Normalize(values)[1].id != Stored(values[1])
  {
    var values := [Blank, Blank.(id := Words(Name(0, 0)))];
    NameTrimmed(0, 0);
    assert Stored(values[0]) == "" && Stored(values[1]) == Name(0, 0);
    assert values[..0] == [] && Normalize(values[..0]) == [];
    assert values[..1][..0] == [] && |Normalize(values[..1])| == 1 && |Normalize(values)| == 2;
    hide Normalize, Name, Stored;
    assert Tries(values, 0, 0) && Name(0, 0) == Stored(values[1]);
    assert TriedBefore(values, 1, Name(0, 0));
    StoredIdLostExactly(values, 1);
  }

  /** An entry as it is when the normalized list is read again. */
  function Reread(j: Job): Candidate {
    Entry(Words(j.id), Missing, Missing, Words(j.title), Words(j.company), Words(j.description), Words(j.start),
          Missing,
          if j.end.Some? then Words(j.end.value) else Null, Missing)
  }

  function RereadAll(jobs: seq<Job>): (r: seq<Candidate>)
    ensures |r| == |jobs| && forall i | 0 <= i < |jobs| :: r[i] == Reread(jobs[i])
  {
    if jobs == [] then [] else RereadAll(jobs[..|jobs| - 1]) + [Reread(jobs[|jobs| - 1])]
  }

  ghost predicate TrimmedIds(jobs: seq<Job>) {
    forall i | 0 <= i < |jobs| :: jobs[i].id != "" && Trim(jobs[i].id) == jobs[i].id
  }

  lemma NameTrimmed(index: nat, n: nat)
    ensures Name(index, n) != "" && Trim(Name(index, n)) == Name(index, n)
  {
    var name := Name(index, n);
    assert name[0] == 'l';
    assert IsDigit(name[|name| - 1]);
    TrimFixed(name);
  }

  lemma TrimTwice(s: string)
    ensures Trim(Trim(s)) == Trim(s)
  {
    TrimFixed(Trim(s));
  }

  lemma {:induction false} IdsTrimmed(values: seq<Candidate>)
    ensures TrimmedIds(Normalize(values))
  {
    if values != [] {
      var (jobs, last) := (Normalize(values[..|values| - 1]), values[|values| - 1]);
      IdsTrimmed(values[..|values| - 1]);
      if last.Entry? {
        ChosenTrimmed(last, |values| - 1, Ids(jobs));
        hide ChosenId, Trim, Ids;
      }
    }
  }

  lemma ChosenTrimmed(c: Candidate, index: nat, used: set<string>)
    requires c.Entry?
    ensures var id := ChosenId(c, index, used); id != "" && Trim(id) == id
  {
    var k := FirstFreeIsFirst(index, 0, used);
    NameTrimmed(index, k);
    hide Trim, Name, FirstFree;
    if c.id.Words? { TrimTwice(c.id.s); }
    if c.experienceId.Words? { TrimTwice(c.experienceId.s); }
    if c.experience_id.Words? { TrimTwice(c.experience_id.s); }
  }

  lemma RereadOne(j: Job, index: nat, used: set<string>)
    requires j.id != "" && Trim(j.id) == j.id && j.id !in used
    ensures Reread(j).Entry? && Normalized(Reread(j), index, used) == j
  {
    hide Trim, FirstFree;
  }

  lemma NormalizeLast(values: seq<Candidate>, c: Candidate)
    requires c.Entry?
    ensures Normalize(values + [c]) == Normalize(values) + [Normalized(c, |values|, Ids(Normalize(values)))]
  {
    assert (values + [c])[..|values + [c]| - 1] == values;
    hide Normalized, Ids;
  }

  lemma RereadLast(jobs: seq<Job>, j: Job)
    ensures RereadAll(jobs + [j]) == RereadAll(jobs) + [Reread(j)]
  {
    assert (jobs + [j])[..|jobs + [j]| - 1] == jobs;
    hide Reread;
  }

  lemma DistinctLast(jobs: seq<Job>)
    requires DistinctIds(jobs) && TrimmedIds(jobs) && jobs != []
    ensures var (init, last) := (jobs[..|jobs| - 1], jobs[|jobs| - 1]);
            && DistinctIds(init) && TrimmedIds(init) && jobs == init + [last]
            && last.id != "" && Trim(last.id) == last.id && last.id !in Ids(init)
  {
    hide Trim;
  }

  /** A list whose ids are distinct and trimmed is normalized already. */
  lemma {:induction false} RereadUnchanged(jobs: seq<Job>)
    requires DistinctIds(jobs) && TrimmedIds(jobs)
    ensures Normalize(RereadAll(jobs)) == jobs
  {
    if jobs != [] {
      hide *;
      var (init, last) := (jobs[..|jobs| - 1], jobs[|jobs| - 1]);
      DistinctLast(jobs);
      RereadUnchanged(init);
      RereadLast(init, last);
      RereadOne(last, |init|, Ids(init));
      NormalizeLast(RereadAll(init), Reread(last));
    }
  }

  /** Normalizing again changes nothing. */
  lemma NormalizeIdempotent(values: seq<Candidate>)
    ensures Normalize(RereadAll(Normalize(values))) == Normalize(values)
  {
    IdsAreDistinct(values);
    IdsTrimmed(values);
    RereadUnchanged(Normalize(values));
  }
}

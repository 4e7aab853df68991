/** A user's contracts over both roles (src/repositories/contract-repository.ts): one page of each
    role's list, merged by creation time. */
module Contracts {
  import opened Chunks
  import opened Paging

  datatype Contract = Contract(id: string, createdAt: int)

  datatype Page = Page(items: seq<Contract>, hasMore: bool, total: nat)

  // --- getUserContracts -------------------------------------------------------------------------

  function Drop<T>(n: nat, s: seq<T>): seq<T> {
    if n <= |s| then s[n..] else []
  }

  /** paginatedWithQueries: a page of one role's list, newest first; an error reads as an empty list. */
  function RolePage(list: seq<Contract>, works: bool, limit: nat, offset: nat): Page {
    if !works then Page([], false, 0)
    else
      var items := Take(limit, Drop(offset, list));
      Page(items, offset + |items| < |list|, |list|)
  }

  /** A page of one role's list is the stretch from the offset, and promises more exactly when the list
      goes on behind it. */
  lemma RolePageMeans(list: seq<Contract>, works: bool, limit: nat, offset: nat)
    ensures var page := RolePage(list, works, limit, offset);
            if !works then page == Page([], false, 0)
            else if offset >= |list| then page == Page([], false, |list|)
            else
              && page.items == list[offset..Min(offset + limit, |list|)]
              && page.total == |list| && (page.hasMore <==> offset + limit < |list|)
  {
  }

  /** Where a contract goes in a list sorted newest first: behind those not older than it. */
  function Insert(sorted: seq<Contract>, c: Contract): seq<Contract> {
    if sorted == [] || sorted[|sorted| - 1].createdAt >= c.createdAt then sorted + [c]
    else Insert(sorted[..|sorted| - 1], c) + [sorted[|sorted| - 1]]
  }

  /** Array.prototype.sort with the source's comparison; the sort is stable. */
  function SortNewestFirst(s: seq<Contract>): seq<Contract> {
    if s == [] then [] else Insert(SortNewestFirst(s[..|s| - 1]), s[|s| - 1])
  }

  function UserContracts(freelancer: seq<Contract>, employer: seq<Contract>, limit: nat, offset: nat,
                         freelancerWorks: bool, employerWorks: bool): Page
  {
    var asFreelancer := RolePage(freelancer, freelancerWorks, limit, offset);
    var asEmployer := RolePage(employer, employerWorks, limit, offset);
    var items := Take(limit, SortNewestFirst(asFreelancer.items + asEmployer.items));
    var total := asFreelancer.total + asEmployer.total;
    Page(items, offset + |items| < total, total)
  }

  // --- what the sort is -----------------------------------------------------------------------

  ghost predicate NewestFirst(s: seq<Contract>) {
    forall i, j | 0 <= i < j < |s| :: s[i].createdAt >= s[j].createdAt
  }

  /** The contracts of one instant, in order. */
  function At(s: seq<Contract>, time: int): seq<Contract> {
    if s == [] then []
    else At(s[..|s| - 1], time) + if s[|s| - 1].createdAt == time then [s[|s| - 1]] else []
  }

  /** Sorted, with the same contracts, and those of one instant in their old order. */
  ghost predicate StablySorted(r: seq<Contract>, s: seq<Contract>) {
    NewestFirst(r) && forall time :: At(r, time) == At(s, time)
  }

  function AtOne(c: Contract, time: int): seq<Contract> {
    if c.createdAt == time then [c] else []
  }

  lemma AtLast(s: seq<Contract>, c: Contract, time: int)
    ensures At(s + [c], time) == At(s, time) + AtOne(c, time)
  {
    assert (s + [c])[..|s + [c]| - 1] == s;
  }

  lemma {:induction false} AtAppend(a: seq<Contract>, b: seq<Contract>, time: int)
    ensures At(a + b, time) == At(a, time) + At(b, time)
  {
    if b == [] {
      assert a + b == a;
    } else {
      var (init, last) := (b[..|b| - 1], b[|b| - 1]);
      assert b == init + [last] && a + b == (a + init) + [last];
      hide *;
      AtAppend(a, init, time);
      AtLast(a + init, last, time);
      AtLast(init, last, time);
      Associate(At(a, time), At(init, time), AtOne(last, time));
    }
  }

  lemma {:induction false} AtEmpty(s: seq<Contract>, time: int)
    ensures At(s, time) == [] <==> forall i | 0 <= i < |s| :: s[i].createdAt != time
  {
    if s != [] {
      AtEmpty(s[..|s| - 1], time);
    }
  }

  lemma SwapOne<T>(s: seq<T>, x: seq<T>, y: seq<T>)
    requires x == [] || y == []
    ensures (s + x) + y == (s + y) + x
  {
  }

  lemma {:induction false} InsertKeepsOrder(sorted: seq<Contract>, c: Contract, time: int)
    ensures At(Insert(sorted, c), time) == At(sorted, time) + AtOne(c, time)
  {
    hide At;
    if sorted == [] || sorted[|sorted| - 1].createdAt >= c.createdAt {
      AtLast(sorted, c, time);
    } else {
      var (init, last) := (sorted[..|sorted| - 1], sorted[|sorted| - 1]);
      assert Insert(sorted, c) == Insert(init, c) + [last] && sorted == init + [last];
      assert AtOne(c, time) == [] || AtOne(last, time) == [];
      hide *;
      InsertKeepsOrder(init, c, time);
      AtLast(Insert(init, c), last, time);
      AtLast(init, last, time);
      SwapOne(At(init, time), AtOne(c, time), AtOne(last, time));
    }
  }

  lemma {:induction false} InsertSorts(sorted: seq<Contract>, c: Contract)
    requires NewestFirst(sorted)
    ensures NewestFirst(Insert(sorted, c))
    ensures forall x | x in Insert(sorted, c) :: x in sorted || x == c
  {
    if sorted != [] && sorted[|sorted| - 1].createdAt < c.createdAt {
      var (init, last) := (sorted[..|sorted| - 1], sorted[|sorted| - 1]);
      InsertSorts(init, c);
      var r := Insert(init, c);
      forall i | 0 <= i < |r| ensures r[i].createdAt >= last.createdAt {
        assert r[i] in r;
        if r[i] != c {
          var k :| 0 <= k < |init| && init[k] == r[i];
          assert sorted[k].createdAt >= last.createdAt;
        }
      }
    }
  }

  lemma SortLast(s: seq<Contract>, c: Contract)
    ensures SortNewestFirst(s + [c]) == Insert(SortNewestFirst(s), c)
  {
    assert (s + [c])[..|s + [c]| - 1] == s;
    hide Insert;
  }

  lemma {:induction false} SortIsStable(s: seq<Contract>)
    ensures StablySorted(SortNewestFirst(s), s)
  {
    if s != [] {
      hide SortNewestFirst, Insert, At, NewestFirst;
      var (init, last) := (s[..|s| - 1], s[|s| - 1]);
      assert s == init + [last];
      SortIsStable(init);
      SortLast(init, last);
      InsertSorts(SortNewestFirst(init), last);
      forall time ensures At(SortNewestFirst(s), time) == At(s, time) {
        InsertKeepsOrder(SortNewestFirst(init), last, time);
        AtLast(init, last, time);
      }
    }
  }

  /** There is only one stable sort, so any implementation gives the same list. */
  lemma {:induction false} StableSortUnique(a: seq<Contract>, b: seq<Contract>)
    requires NewestFirst(a) && NewestFirst(b) && forall time :: At(a, time) == At(b, time)
    ensures a == b
    decreases |a|
  {
    if a != [] && b != [] {
      SameLast(a, b);
      var (initA, initB, last) := (a[..|a| - 1], b[..|b| - 1], a[|a| - 1]);
      assert a == initA + [last] && b == initB + [last];
      hide At;
      forall time ensures At(initA, time) == At(initB, time) {
        AtLast(initA, last, time);
        AtLast(initB, last, time);
        Cancel(At(initA, time), At(initB, time), AtOne(last, time));
      }
      StableSortUnique(initA, initB);
    } else {
      hide At;
      BothEmpty(a, b);
      BothEmpty(b, a);
    }
  }

  lemma Cancel<T>(a: seq<T>, b: seq<T>, c: seq<T>)
    requires a + c == b + c
    ensures a == b
  {
    assert |a + c| == |b + c|;
    assert (a + c)[..|a|] == a && (b + c)[..|b|] == b;
  }

  lemma BothEmpty(a: seq<Contract>, b: seq<Contract>)
    requires forall time :: At(a, time) == At(b, time)
    ensures a != [] ==> b != []
  {
    if a != [] {
      AtEmpty(a, a[0].createdAt);
      AtEmpty(b, a[0].createdAt);
      hide At;
    }
  }

  lemma LastOfAt(s: seq<Contract>)
    requires s != []
    ensures var (c, at) := (s[|s| - 1], At(s, s[|s| - 1].createdAt)); at != [] && at[|at| - 1] == c
  {
  }

  lemma LastIsOldest(s: seq<Contract>, time: int)
    requires NewestFirst(s) && s != [] && At(s, time) != []
    ensures time >= s[|s| - 1].createdAt
  {
    AtEmpty(s, time);
    hide At;
  }

  lemma LastsAgree(a: seq<Contract>, b: seq<Contract>, x: Contract, y: Contract)
    requires a != [] && b != [] && x == a[|a| - 1] && y == b[|b| - 1]
    requires NewestFirst(a) && NewestFirst(b)
    requires At(a, x.createdAt) == At(b, x.createdAt) && At(a, y.createdAt) == At(b, y.createdAt)
    ensures x == y
  {
    hide *;
    LastOfAt(a);
    LastOfAt(b);
    LastIsOldest(a, y.createdAt);
    LastIsOldest(b, x.createdAt);
  }

  lemma SameLast(a: seq<Contract>, b: seq<Contract>)
    requires a != [] && b != []
    requires NewestFirst(a) && NewestFirst(b) && forall time :: At(a, time) == At(b, time)
    ensures a[|a| - 1] == b[|b| - 1]
  {
    hide *;
    LastsAgree(a, b, a[|a| - 1], b[|b| - 1]);
  }

  // --- sorting two sorted lists is merging them --------------------------------------------------

  function Merge(a: seq<Contract>, b: seq<Contract>): (r: seq<Contract>)
    ensures |r| == |a| + |b|
    decreases |a| + |b|
  {
    if a == [] then b
    else if b == [] then a
    else if a[0].createdAt >= b[0].createdAt then [a[0]] + Merge(a[1..], b)
    else [b[0]] + Merge(a, b[1..])
  }

  lemma {:induction false} MergeMember(a: seq<Contract>, b: seq<Contract>, c: Contract)
    ensures c in Merge(a, b) <==> c in a || c in b
    decreases |a| + |b|
  {
    if a != [] && b != [] {
      if a[0].createdAt >= b[0].createdAt {
        MergeMember(a[1..], b, c);
        assert a == [a[0]] + a[1..];
      } else {
        MergeMember(a, b[1..], c);
        assert b == [b[0]] + b[1..];
      }
    }
  }

  lemma TailNewestFirst(s: seq<Contract>)
    requires NewestFirst(s) && s != []
    ensures NewestFirst(s[1..]) && forall c | c in s[1..] :: c.createdAt <= s[0].createdAt
  {
  }

  lemma ConsNewestFirst(c: Contract, s: seq<Contract>)
    requires NewestFirst(s) && forall x | x in s :: x.createdAt <= c.createdAt
    ensures NewestFirst([c] + s)
  {
    var r := [c] + s;
    forall i, j | 0 <= i < j < |r| ensures r[i].createdAt >= r[j].createdAt {
      assert r[j] == s[j - 1] && s[j - 1] in s;
    }
  }

  lemma {:induction false} MergeSorted(a: seq<Contract>, b: seq<Contract>)
    requires NewestFirst(a) && NewestFirst(b)
    ensures NewestFirst(Merge(a, b))
    decreases |a| + |b|
  {
    if a != [] && b != [] {
      TailNewestFirst(a);
      TailNewestFirst(b);
      if a[0].createdAt >= b[0].createdAt {
        MergeSorted(a[1..], b);
        forall x | x in Merge(a[1..], b) ensures x.createdAt <= a[0].createdAt {
          MergeMember(a[1..], b, x);
        }
        ConsNewestFirst(a[0], Merge(a[1..], b));
      } else {
        MergeSorted(a, b[1..]);
        forall x | x in Merge(a, b[1..]) ensures x.createdAt <= b[0].createdAt {
          MergeMember(a, b[1..], x);
        }
        ConsNewestFirst(b[0], Merge(a, b[1..]));
      }
      hide Merge, NewestFirst;
    }
  }

  lemma AtFirst(s: seq<Contract>, time: int)
    requires s != []
    ensures At(s, time) == AtOne(s[0], time) + At(s[1..], time)
  {
    assert s == [s[0]] + s[1..];
    AtAppend([s[0]], s[1..], time);
    AtLast([], s[0], time);
    assert [] + [s[0]] == [s[0]];
  }

  lemma MergeFirst(a: seq<Contract>, b: seq<Contract>)
    requires a != [] && b != []
    ensures var fromA := a[0].createdAt >= b[0].createdAt;
            var m := Merge(a, b);
            && m != [] && m[0] == (if fromA then a[0] else b[0])
            && m[1..] == if fromA then Merge(a[1..], b) else Merge(a, b[1..])
  {
  }

  lemma MergeWithNone(a: seq<Contract>, b: seq<Contract>, time: int)
    requires a == [] || b == []
    ensures At(Merge(a, b), time) == At(a, time) + At(b, time)
  {
    assert At([], time) == [];
    assert Merge(a, b) == if a == [] then b else a;
    hide Merge, At;
  }

  lemma NoneAtNewer(s: seq<Contract>, time: int)
    requires NewestFirst(s) && s != [] && s[0].createdAt < time
    ensures At(s, time) == []
  {
    AtEmpty(s, time);
    hide At;
  }

  lemma {:induction false} MergeKeepsOrder(a: seq<Contract>, b: seq<Contract>, time: int)
    requires NewestFirst(a) && NewestFirst(b)
    ensures At(Merge(a, b), time) == At(a, time) + At(b, time)
    decreases |a| + |b|
  {
    hide At, Merge, NewestFirst;
    if a == [] || b == [] {
      MergeWithNone(a, b, time);
    } else {
      MergeFirst(a, b);
      AtFirst(a, time);
      AtFirst(b, time);
      AtFirst(Merge(a, b), time);
      TailNewestFirst(a);
      TailNewestFirst(b);
      if a[0].createdAt >= b[0].createdAt {
        MergeKeepsOrder(a[1..], b, time);
        hide *;
        Associate(AtOne(a[0], time), At(a[1..], time), At(b, time));
      } else {
        MergeKeepsOrder(a, b[1..], time);
        if b[0].createdAt == time {
          NoneAtNewer(a, time);
        }
        assert AtOne(b[0], time) == [] || At(a, time) == [];
        hide *;
      }
    }
  }

  /** Sorting the concatenation of two newest-first lists merges them, the first list first among
      equals. */
  lemma SortIsMerge(a: seq<Contract>, b: seq<Contract>)
    requires NewestFirst(a) && NewestFirst(b)
    ensures SortNewestFirst(a + b) == Merge(a, b)
  {
    SortIsStable(a + b);
    MergeSorted(a, b);
    forall time ensures At(Merge(a, b), time) == At(a + b, time) {
      MergeKeepsOrder(a, b, time);
      AtAppend(a, b, time);
    }
    hide SortNewestFirst, Merge, At;
    StableSortUnique(SortNewestFirst(a + b), Merge(a, b));
  }

  // --- the first page -------------------------------------------------------------------------

  lemma TakeFirst<T>(n: nat, s: seq<T>)
    requires n > 0 && s != []
    ensures Take(n, s) == [s[0]] + Take(n - 1, s[1..])
    ensures Take(n, s) != [] && Take(n, s)[0] == s[0] && Take(n, s)[1..] == Take(n - 1, s[1..])
  {
  }

  lemma TakeTake<T>(n: nat, p: nat, s: seq<T>)
    requires n <= p
    ensures Take(n, Take(p, s)) == Take(n, s)
  {
  }

  lemma SameTake<T>(n: nat, s: seq<T>, t: seq<T>)
    requires n > 0 && s != [] && t != [] && s[0] == t[0] && Take(n - 1, s[1..]) == Take(n - 1, t[1..])
    ensures Take(n, s) == Take(n, t)
  {
    TakeFirst(n, s);
    TakeFirst(n, t);
  }

  lemma MergeFirstOfFirsts(a: seq<Contract>, b: seq<Contract>, p: nat, q: nat)
    requires a != [] && b != [] && p > 0 && q > 0
    ensures var m := Merge(Take(p, a), Take(q, b));
            && m != [] && m[0] == Merge(a, b)[0]
            && m[1..] == if a[0].createdAt >= b[0].createdAt then Merge(Take(p - 1, a[1..]), Take(q, b))
                         else Merge(Take(p, a), Take(q - 1, b[1..]))
  {
    TakeFirst(p, a);
    TakeFirst(q, b);
    MergeFirst(a, b);
    MergeFirst(Take(p, a), Take(q, b));
    hide Merge, Take;
  }

  lemma OneEmpty(a: seq<Contract>, b: seq<Contract>, p: nat, q: nat, n: nat)
    requires n <= p && n <= q && (n == 0 || a == [] || b == [])
    ensures Take(n, Merge(Take(p, a), Take(q, b))) == Take(n, Merge(a, b))
  {
    assert a == [] ==> Take(p, a) == [];
    assert b == [] ==> Take(q, b) == [];
    assert a == [] || b == [] ==> Merge(a, b) == if a == [] then b else a;
    assert a == [] || b == [] ==> Merge(Take(p, a), Take(q, b)) == if a == [] then Take(q, b) else Take(p, a);
    hide Merge;
    TakeTake(n, p, a);
    TakeTake(n, q, b);
  }

  /** The first n of the merge need only the first n of each list. */
  lemma {:induction false} MergeOfFirsts(a: seq<Contract>, b: seq<Contract>, p: nat, q: nat, n: nat)
    requires n <= p && n <= q
    ensures Take(n, Merge(Take(p, a), Take(q, b))) == Take(n, Merge(a, b))
    decreases n
  {
    hide *;
    if n == 0 || a == [] || b == [] {
      OneEmpty(a, b, p, q, n);
    } else {
      MergeFirst(a, b);
      MergeFirstOfFirsts(a, b, p, q);
      if a[0].createdAt >= b[0].createdAt {
        MergeOfFirsts(a[1..], b, p - 1, q, n - 1);
      } else {
        MergeOfFirsts(a, b[1..], p, q - 1, n - 1);
      }
      SameTake(n, Merge(Take(p, a), Take(q, b)), Merge(a, b));
    }
  }

  /** The whole list the pages are cut from: both roles, newest first. */
  function Whole(freelancer: seq<Contract>, employer: seq<Contract>): seq<Contract> {
    SortNewestFirst(freelancer + employer)
  }

  lemma TakeSorted(n: nat, s: seq<Contract>)
    requires NewestFirst(s)
    ensures NewestFirst(Take(n, s)) && NewestFirst(Drop(n, s))
  {
  }

  lemma PageIsMerge(freelancer: seq<Contract>, employer: seq<Contract>, limit: nat, offset: nat)
    requires NewestFirst(freelancer) && NewestFirst(employer)
    ensures UserContracts(freelancer, employer, limit, offset, true, true).items
            == Take(limit, Merge(Drop(offset, freelancer), Drop(offset, employer)))
    ensures Whole(freelancer, employer) == Merge(freelancer, employer)
  {
    var (f, e) := (Drop(offset, freelancer), Drop(offset, employer));
    TakeSorted(offset, freelancer);
    TakeSorted(offset, employer);
    TakeSorted(limit, f);
    TakeSorted(limit, e);
    SortIsMerge(freelancer, employer);
    SortIsMerge(Take(limit, f), Take(limit, e));
    MergeOfFirsts(f, e, limit, limit, limit);
    hide SortNewestFirst, Merge, NewestFirst, Take, Drop;
  }

  /** What a page sees of a role's list: a failed query is answered like an empty list. */
  function Seen(list: seq<Contract>, works: bool): seq<Contract> {
    if works then list else []
  }

  lemma FailedReadsEmpty(freelancer: seq<Contract>, employer: seq<Contract>, limit: nat, offset: nat,
                         freelancerWorks: bool, employerWorks: bool)
    ensures UserContracts(freelancer, employer, limit, offset, freelancerWorks, employerWorks)
            == UserContracts(Seen(freelancer, freelancerWorks), Seen(employer, employerWorks), limit, offset,
                             true, true)
  {
    hide SortNewestFirst;
  }

  lemma SeenPage(freelancer: seq<Contract>, employer: seq<Contract>, limit: nat, offset: nat,
                 freelancerWorks: bool, employerWorks: bool)
    requires NewestFirst(freelancer) && NewestFirst(employer)
    ensures UserContracts(freelancer, employer, limit, offset, freelancerWorks, employerWorks).items
            == Take(limit, Merge(Drop(offset, Seen(freelancer, freelancerWorks)),
                                 Drop(offset, Seen(employer, employerWorks))))
  {
    FailedReadsEmpty(freelancer, employer, limit, offset, freelancerWorks, employerWorks);
    assert NewestFirst([]);
    hide UserContracts, NewestFirst, Merge, Take, Drop;
    PageIsMerge(Seen(freelancer, freelancerWorks), Seen(employer, employerWorks), limit, offset);
  }

  // --- which pages are right --------------------------------------------------------------------

  /** Everything up to the end of the page comes from one role. */
  predicate OnlyFreelancer(freelancer: seq<Contract>, employer: seq<Contract>, end: nat) {
    end <= |freelancer| && (employer == [] || end == 0 || freelancer[end - 1].createdAt >= employer[0].createdAt)
  }

  predicate OnlyEmployer(freelancer: seq<Contract>, employer: seq<Contract>, end: nat) {
    end <= |employer| && (freelancer == [] || end == 0 || employer[end - 1].createdAt > freelancer[0].createdAt)
  }

  /** The same offset is applied to both lists, so a later page is right only when it is so. */
  predicate OneSided(freelancer: seq<Contract>, employer: seq<Contract>, end: nat) {
    OnlyFreelancer(freelancer, employer, end) || OnlyEmployer(freelancer, employer, end)
  }

  lemma SplitFirst<T>(s: seq<T>, n: nat)
    requires 0 < n <= |s|
    ensures s[..n] == [s[0]] + s[1..][..n - 1] && s[n..] == s[1..][n - 1..]
  {
  }

  /** A stretch of one list that is not interrupted by the other comes first in the merge. */
  lemma {:induction false} FirstListOnly(a: seq<Contract>, b: seq<Contract>, n: nat)
    requires NewestFirst(a) && n <= |a|
    requires b == [] || n == 0 || a[n - 1].createdAt >= b[0].createdAt
    ensures Merge(a, b) == a[..n] + Merge(a[n..], b)
    decreases n
  {
    if n > 0 && b != [] {
      assert a[0].createdAt >= a[n - 1].createdAt;
      assert Merge(a, b) == [a[0]] + Merge(a[1..], b);
      TailNewestFirst(a);
      hide Merge, NewestFirst;
      SplitFirst(a, n);
      assert n > 1 ==> a[1..][n - 2] == a[n - 1];
      FirstListOnly(a[1..], b, n - 1);
      Associate([a[0]], a[1..][..n - 1], Merge(a[n..], b));
    } else if n > 0 {
      assert a == a[..n] + a[n..];
    } else {
      assert a[0..] == a;
    }
  }

  lemma {:induction false} SecondListOnly(a: seq<Contract>, b: seq<Contract>, n: nat)
    requires NewestFirst(b) && n <= |b|
    requires a == [] || n == 0 || b[n - 1].createdAt > a[0].createdAt
    ensures Merge(a, b) == b[..n] + Merge(a, b[n..])
    decreases n
  {
    if n > 0 && a != [] {
      assert b[0].createdAt >= b[n - 1].createdAt;
      assert Merge(a, b) == [b[0]] + Merge(a, b[1..]);
      TailNewestFirst(b);
      hide Merge, NewestFirst;
      SplitFirst(b, n);
      assert n > 1 ==> b[1..][n - 2] == b[n - 1];
      SecondListOnly(a, b[1..], n - 1);
      Associate([b[0]], b[1..][..n - 1], Merge(a, b[n..]));
    } else if n > 0 {
      assert b == b[..n] + b[n..];
    } else {
      assert b[0..] == b;
    }
  }

  /** Otherwise the head of the other list is among the first n. */
  lemma {:induction false} SecondAppears(a: seq<Contract>, b: seq<Contract>, n: nat)
    requires b != [] && 0 < n <= |a| + |b|
    requires n > |a| || a[n - 1].createdAt < b[0].createdAt
    ensures b[0] in Take(n, Merge(a, b))
  {
    TakeFirst(n, Merge(a, b));
    if a != [] {
      MergeFirst(a, b);
      hide Merge, Take;
      if a[0].createdAt >= b[0].createdAt {
        SecondAppears(a[1..], b, n - 1);
      }
    }
  }

  lemma {:induction false} FirstAppears(a: seq<Contract>, b: seq<Contract>, n: nat)
    requires a != [] && 0 < n <= |a| + |b|
    requires n > |b| || b[n - 1].createdAt <= a[0].createdAt
    ensures a[0] in Take(n, Merge(a, b))
  {
    TakeFirst(n, Merge(a, b));
    if b != [] {
      MergeFirst(a, b);
      hide Merge, Take;
      if a[0].createdAt < b[0].createdAt {
        FirstAppears(a, b[1..], n - 1);
      }
    }
  }

  lemma MergeSplitsEnd(a: seq<Contract>, b: seq<Contract>, n: nat) returns (i: nat)
    requires n <= |a| + |b| && (n == 0 || a == [] || b == [])
    ensures i <= |a| && i <= n && n - i <= |b| && Merge(a, b)[n..] == Merge(a[i..], b[n - i..])
  {
    if n == 0 {
      i := 0;
      assert a[0..] == a && b[0..] == b && Merge(a, b)[0..] == Merge(a, b);
      hide Merge;
    } else if a == [] {
      i := 0;
      assert a[0..] == [];
    } else {
      i := n;
      assert b[0..] == [];
    }
  }

  lemma FirstListStep(a: seq<Contract>, b: seq<Contract>, m: seq<Contract>, n: nat, k: nat)
    requires a != [] && 0 < n <= |m| && k <= |a| - 1 && k <= n - 1 && n - 1 - k <= |b|
    requires m[1..][n - 1..] == Merge(a[1..][k..], b[n - 1 - k..])
    ensures m[n..] == Merge(a[k + 1..], b[n - (k + 1)..])
  {
    hide *;
    SplitFirst(m, n);
    SplitFirst(a, k + 1);
  }

  lemma SecondListStep(a: seq<Contract>, b: seq<Contract>, m: seq<Contract>, n: nat, i: nat)
    requires b != [] && 0 < n <= |m| && i <= |a| && i <= n - 1 && n - 1 - i <= |b| - 1
    requires m[1..][n - 1..] == Merge(a[i..], b[1..][n - 1 - i..])
    ensures m[n..] == Merge(a[i..], b[n - i..])
  {
    hide *;
    SplitFirst(m, n);
    SplitFirst(b, n - i);
  }

  /** The first n of the merge are the first i of one list and the first n - i of the other. */
  lemma {:induction false} MergeSplits(a: seq<Contract>, b: seq<Contract>, n: nat) returns (i: nat)
    requires n <= |a| + |b|
    ensures i <= |a| && i <= n && n - i <= |b| && Merge(a, b)[n..] == Merge(a[i..], b[n - i..])
    decreases n
  {
    hide *;
    if n == 0 || a == [] || b == [] {
      i := MergeSplitsEnd(a, b, n);
    } else {
      MergeFirst(a, b);
      if a[0].createdAt >= b[0].createdAt {
        var k := MergeSplits(a[1..], b, n - 1);
        FirstListStep(a, b, Merge(a, b), n, k);
        i := k + 1;
      } else {
        i := MergeSplits(a, b[1..], n - 1);
        SecondListStep(a, b, Merge(a, b), n, i);
      }
    }
  }

  /** A contract before the offset in its own list is not on the page. */
  lemma NotOnPage(freelancer: seq<Contract>, employer: seq<Contract>, limit: nat, offset: nat, c: Contract)
    requires Distinct(freelancer + employer)
    requires c in Take(offset, freelancer) || c in Take(offset, employer)
    ensures c !in Take(limit, Merge(Drop(offset, freelancer), Drop(offset, employer)))
  {
    MergeMember(Drop(offset, freelancer), Drop(offset, employer), c);
    var i := InTakes(freelancer, employer, offset, c);
    hide Merge, Drop;
    if c in Drop(offset, freelancer) || c in Drop(offset, employer) {
      var j := InDrops(freelancer, employer, offset, c);
    }
  }

  lemma InTakes(a: seq<Contract>, b: seq<Contract>, n: nat, c: Contract) returns (i: nat)
    requires c in Take(n, a) || c in Take(n, b)
    ensures i < |a + b| && (a + b)[i] == c && (if i < |a| then i < n else i - |a| < n)
  {
    if c in Take(n, a) {
      i :| 0 <= i < |Take(n, a)| && Take(n, a)[i] == c;
    } else {
      var k :| 0 <= k < |Take(n, b)| && Take(n, b)[k] == c;
      i := |a| + k;
    }
  }

  lemma InDrops(a: seq<Contract>, b: seq<Contract>, n: nat, c: Contract) returns (j: nat)
    requires c in Drop(n, a) || c in Drop(n, b)
    ensures j < |a + b| && (a + b)[j] == c && (if j < |a| then j >= n else j - |a| >= n)
  {
    if c in Drop(n, a) {
      var k :| 0 <= k < |Drop(n, a)| && Drop(n, a)[k] == c;
      j := n + k;
    } else {
      var k :| 0 <= k < |Drop(n, b)| && Drop(n, b)[k] == c;
      j := |a| + n + k;
    }
  }

  lemma SameWindow<T>(s: seq<T>, x: seq<T>, y: seq<T>, n: nat)
    requires |s| == n || x == y
    ensures Take(n, s + x) == Take(n, s + y)
  {
    if |s| == n {
      assert (s + x)[..n] == s && (s + y)[..n] == s;
    }
  }

  lemma DropFromFirst<T>(s: seq<T>, t: seq<T>, n: nat)
    requires n <= |s|
    ensures (s + t)[n..] == s[n..] + t
  {
  }

  lemma HeadIsNewest(s: seq<Contract>, n: nat)
    requires NewestFirst(s)
    ensures NewestFirst(Drop(n, s))
    ensures s == [] || Drop(n, s) == [] || Drop(n, s)[0].createdAt <= s[0].createdAt
    ensures s == [] ==> Drop(n, s) == []
  {
  }

  lemma SliceOfDrop<T>(s: seq<T>, m: nat, n: nat)
    requires m <= n <= |s|
    ensures |Drop(m, s)| == |s| - m && Drop(m, s)[..n - m] == s[m..n] && Drop(m, s)[n - m..] == s[n..]
    ensures n > m ==> Drop(m, s)[n - m - 1] == s[n - 1]
  {
  }

  lemma FirstListRest(a: seq<Contract>, b: seq<Contract>, offset: nat, end: nat)
    requires NewestFirst(a) && offset <= end <= |a| && (b == [] || end == 0 || a[end - 1].createdAt >= b[0].createdAt)
    ensures Merge(a, b)[offset..] == a[offset..end] + Merge(a[end..], b)
  {
    FirstListOnly(a, b, end);
    assert a[..end][offset..] == a[offset..end];
    hide *;
    DropFromFirst(a[..end], Merge(a[end..], b), offset);
  }

  lemma FirstListPage(a: seq<Contract>, b: seq<Contract>, offset: nat, end: nat)
    requires NewestFirst(a) && NewestFirst(b) && offset <= end <= |a|
            && (b == [] || end == 0 || a[end - 1].createdAt >= b[0].createdAt)
    ensures Merge(Drop(offset, a), Drop(offset, b)) == a[offset..end] + Merge(a[end..], Drop(offset, b))
  {
    hide *;
    HeadIsNewest(a, offset);
    HeadIsNewest(b, offset);
    SliceOfDrop(a, offset, end);
    FirstListOnly(Drop(offset, a), Drop(offset, b), end - offset);
  }

  lemma FirstListWindow(a: seq<Contract>, b: seq<Contract>, limit: nat, offset: nat, end: nat)
    requires NewestFirst(a) && NewestFirst(b)
    requires offset <= end <= |a| && (end == offset + limit || end == |a| + |b|)
    requires b == [] || end == 0 || a[end - 1].createdAt >= b[0].createdAt
    ensures Take(limit, Merge(Drop(offset, a), Drop(offset, b))) == Take(limit, Merge(a, b)[offset..])
  {
    FirstListRest(a, b, offset, end);
    FirstListPage(a, b, offset, end);
    assert |Drop(offset, b)| <= |b|;
    hide *;
    SameWindow(a[offset..end], Merge(a[end..], b), Merge(a[end..], Drop(offset, b)), limit);
  }

  lemma SecondListRest(a: seq<Contract>, b: seq<Contract>, offset: nat, end: nat)
    requires NewestFirst(b) && offset <= end <= |b| && (a == [] || end == 0 || b[end - 1].createdAt > a[0].createdAt)
    ensures Merge(a, b)[offset..] == b[offset..end] + Merge(a, b[end..])
  {
    SecondListOnly(a, b, end);
    assert b[..end][offset..] == b[offset..end];
    hide *;
    DropFromFirst(b[..end], Merge(a, b[end..]), offset);
  }

  lemma SecondListPage(a: seq<Contract>, b: seq<Contract>, offset: nat, end: nat)
    requires NewestFirst(a) && NewestFirst(b) && offset <= end <= |b|
            && (a == [] || end == 0 || b[end - 1].createdAt > a[0].createdAt)
    ensures Merge(Drop(offset, a), Drop(offset, b)) == b[offset..end] + Merge(Drop(offset, a), b[end..])
  {
    hide *;
    HeadIsNewest(b, offset);
    HeadIsNewest(a, offset);
    SliceOfDrop(b, offset, end);
    SecondListOnly(Drop(offset, a), Drop(offset, b), end - offset);
  }

  lemma SecondListWindow(a: seq<Contract>, b: seq<Contract>, limit: nat, offset: nat, end: nat)
    requires NewestFirst(a) && NewestFirst(b)
    requires offset <= end <= |b| && (end == offset + limit || end == |a| + |b|)
    requires a == [] || end == 0 || b[end - 1].createdAt > a[0].createdAt
    ensures Take(limit, Merge(Drop(offset, a), Drop(offset, b))) == Take(limit, Merge(a, b)[offset..])
  {
    SecondListRest(a, b, offset, end);
    SecondListPage(a, b, offset, end);
    assert |Drop(offset, a)| <= |a|;
    hide *;
    SameWindow(b[offset..end], Merge(a, b[end..]), Merge(Drop(offset, a), b[end..]), limit);
  }

  lemma MergeHead(a: seq<Contract>, b: seq<Contract>)
    requires a != [] || b != []
    ensures (a != [] && Merge(a, b)[0] == a[0]) || (b != [] && Merge(a, b)[0] == b[0])
  {
  }

  lemma TakeHas<T>(n: nat, s: seq<T>, k: nat)
    requires k < n && k < |s|
    ensures s[k] in Take(n, s)
  {
    assert Take(n, s)[k] == s[k];
  }

  lemma TakeWithin<T>(m: nat, n: nat, s: seq<T>, x: T)
    requires m <= n && x in Take(m, s)
    ensures x in Take(n, s)
  {
    var k :| 0 <= k < |Take(m, s)| && Take(m, s)[k] == x;
    TakeHas(n, s, k);
  }

  lemma BothAppear(freelancer: seq<Contract>, employer: seq<Contract>, end: nat)
    requires 0 < end <= |freelancer| + |employer| && !OneSided(freelancer, employer, end)
    ensures freelancer != [] && employer != []
    ensures end > |freelancer| || freelancer[end - 1].createdAt < employer[0].createdAt
    ensures end > |employer| || employer[end - 1].createdAt <= freelancer[0].createdAt
  {
  }

  /** When both roles appear up to the page's end, a contract that belongs on the page is before the
      offset in its own list. */
  lemma Skipped(freelancer: seq<Contract>, employer: seq<Contract>, limit: nat, offset: nat) returns (c: Contract)
    requires 0 < limit && 0 < offset < |freelancer| + |employer|
    requires !OneSided(freelancer, employer, Min(offset + limit, |freelancer| + |employer|))
    ensures c in Take(limit, Merge(freelancer, employer)[offset..])
    ensures c in Take(offset, freelancer) || c in Take(offset, employer)
  {
    var end := Min(offset + limit, |freelancer| + |employer|);
    assert offset < end <= offset + limit && end <= |freelancer| + |employer|;
    hide *;
    BothAppear(freelancer, employer, end);
    var i := MergeSplits(freelancer, employer, offset);
    if i == offset {
      c := employer[0];
      SecondMissed(freelancer, employer, limit, offset, end);
      TakeHas(offset, employer, 0);
    } else if i == 0 {
      c := freelancer[0];
      FirstMissed(freelancer, employer, limit, offset, end);
      TakeHas(offset, freelancer, 0);
    } else {
      c := NextSkipped(freelancer, employer, limit, offset, i);
    }
  }

  lemma SecondMissed(f: seq<Contract>, e: seq<Contract>, limit: nat, offset: nat, end: nat)
    requires offset < end <= offset + limit && end <= |f| + |e| && offset <= |f| && e != []
    requires Merge(f, e)[offset..] == Merge(f[offset..], e[0..])
    requires end > |f| || f[end - 1].createdAt < e[0].createdAt
    ensures e[0] in Take(limit, Merge(f, e)[offset..])
  {
    assert e[0..] == e && (end <= |f| ==> f[offset..][end - offset - 1] == f[end - 1]);
    hide *;
    SecondAppears(f[offset..], e, end - offset);
    TakeWithin(end - offset, limit, Merge(f[offset..], e), e[0]);
  }

  lemma FirstMissed(f: seq<Contract>, e: seq<Contract>, limit: nat, offset: nat, end: nat)
    requires offset < end <= offset + limit && end <= |f| + |e| && offset <= |e| && f != []
    requires Merge(f, e)[offset..] == Merge(f[0..], e[offset..])
    requires end > |e| || e[end - 1].createdAt <= f[0].createdAt
    ensures f[0] in Take(limit, Merge(f, e)[offset..])
  {
    assert f[0..] == f && (end <= |e| ==> e[offset..][end - offset - 1] == e[end - 1]);
    hide *;
    FirstAppears(f, e[offset..], end - offset);
    TakeWithin(end - offset, limit, Merge(f, e[offset..]), f[0]);
  }

  lemma NextSkipped(f: seq<Contract>, e: seq<Contract>, limit: nat, offset: nat, i: nat) returns (c: Contract)
    requires 0 < i < offset < |f| + |e| && 0 < limit && i <= |f| && offset - i <= |e|
    requires Merge(f, e)[offset..] == Merge(f[i..], e[offset - i..])
    ensures c in Take(limit, Merge(f, e)[offset..]) && (c in Take(offset, f) || c in Take(offset, e))
  {
    hide *;
    MergeHead(f[i..], e[offset - i..]);
    c := Merge(f[i..], e[offset - i..])[0];
    TakeHas(limit, Merge(f[i..], e[offset - i..]), 0);
    if f[i..] != [] && c == f[i..][0] {
      TakeHas(offset, f, i);
    } else {
      TakeHas(offset, e, offset - i);
    }
  }

  lemma ZeroOffset(f: seq<Contract>, e: seq<Contract>)
    ensures Merge(Drop(0, f), Drop(0, e)) == Merge(f, e)[0..]
  {
    assert Drop(0, f) == f && Drop(0, e) == e && Merge(f, e)[0..] == Merge(f, e);
    hide Merge, Drop;
  }

  lemma OneSidedPage(f: seq<Contract>, e: seq<Contract>, limit: nat, offset: nat, end: nat)
    requires NewestFirst(f) && NewestFirst(e) && offset <= end && OneSided(f, e, end)
    requires end == offset + limit || end == |f| + |e|
    ensures Take(limit, Merge(Drop(offset, f), Drop(offset, e))) == Take(limit, Merge(f, e)[offset..])
  {
    if OnlyFreelancer(f, e, end) {
      hide *;
      FirstListWindow(f, e, limit, offset, end);
    } else {
      assert end <= |e| && (f == [] || end == 0 || e[end - 1].createdAt > f[0].createdAt);
      hide *;
      SecondListWindow(f, e, limit, offset, end);
    }
  }

  // --- a page of one role alone, the other's query having failed

  lemma MergeNone(a: seq<Contract>, b: seq<Contract>)
    ensures Merge(a, []) == a && Merge([], b) == b
  {
  }

  lemma EmployerAlone(f: seq<Contract>, e: seq<Contract>, limit: nat, offset: nat, end: nat)
    requires NewestFirst(e) && offset <= end && OnlyEmployer(f, e, end)
    requires end == offset + limit || end == |f| + |e|
    ensures Take(limit, Drop(offset, e)) == Take(limit, Merge(f, e)[offset..])
  {
    assert Drop(offset, e) == e[offset..end] + e[end..];
    assert end != offset + limit ==> f == [];
    SecondListRest(f, e, offset, end);
    MergeNone(f, e[end..]);
    hide *;
    SameWindow(e[offset..end], e[end..], Merge(f, e[end..]), limit);
  }

  lemma FreelancerAlone(f: seq<Contract>, e: seq<Contract>, limit: nat, offset: nat, end: nat)
    requires NewestFirst(f) && offset <= end && OnlyFreelancer(f, e, end)
    requires end == offset + limit || end == |f| + |e|
    ensures Take(limit, Drop(offset, f)) == Take(limit, Merge(f, e)[offset..])
  {
    assert Drop(offset, f) == f[offset..end] + f[end..];
    assert end != offset + limit ==> e == [];
    FirstListRest(f, e, offset, end);
    MergeNone(f[end..], e);
    hide *;
    SameWindow(f[offset..end], f[end..], Merge(f[end..], e), limit);
  }

  /** Otherwise a contract of the other role belongs on the page, or one of the same role from before
      the offset. */
  lemma FreelancerMissed(f: seq<Contract>, e: seq<Contract>, limit: nat, offset: nat, end: nat) returns (c: Contract)
    requires offset < end <= offset + limit && end <= |f| + |e| && !OnlyEmployer(f, e, end)
    ensures c in Take(limit, Merge(f, e)[offset..]) && (c in f || c in Take(offset, e))
  {
    var i := MergeSplits(f, e, offset);
    if i == 0 {
      c := f[0];
      FirstMissed(f, e, limit, offset, end);
    } else {
      hide *;
      MergeHead(f[i..], e[offset - i..]);
      c := Merge(f[i..], e[offset - i..])[0];
      TakeHas(limit, Merge(f[i..], e[offset - i..]), 0);
      if f[i..] != [] && c == f[i..][0] {
        assert c == f[i];
      } else {
        TakeHas(offset, e, offset - i);
      }
    }
  }

  lemma EmployerMissed(f: seq<Contract>, e: seq<Contract>, limit: nat, offset: nat, end: nat) returns (c: Contract)
    requires offset < end <= offset + limit && end <= |f| + |e| && !OnlyFreelancer(f, e, end)
    ensures c in Take(limit, Merge(f, e)[offset..]) && (c in e || c in Take(offset, f))
  {
    var i := MergeSplits(f, e, offset);
    if i == offset {
      c := e[0];
      SecondMissed(f, e, limit, offset, end);
    } else {
      hide *;
      MergeHead(f[i..], e[offset - i..]);
      c := Merge(f[i..], e[offset - i..])[0];
      TakeHas(limit, Merge(f[i..], e[offset - i..]), 0);
      if e[offset - i..] != [] && c == e[offset - i..][0] {
        assert c == e[offset - i];
      } else {
        TakeHas(offset, f, i);
      }
    }
  }

  lemma NotOnOtherPage(own: seq<Contract>, other: seq<Contract>, limit: nat, offset: nat, c: Contract)
    requires Distinct(own) && forall x | x in own :: x !in other
    requires c in other || c in Take(offset, own)
    ensures c !in Take(limit, Drop(offset, own))
  {
    forall j | 0 <= j < |Take(limit, Drop(offset, own))| ensures Take(limit, Drop(offset, own))[j] != c {
      assert Take(limit, Drop(offset, own))[j] == own[offset + j] && own[offset + j] in own;
    }
  }

  lemma DistinctParts(a: seq<Contract>, b: seq<Contract>)
    requires Distinct(a + b)
    ensures Distinct(a) && Distinct(b) && forall x | x in a :: x !in b
  {
    var s := a + b;
    forall i, j | 0 <= i < j < |a| ensures a[i] != a[j] {
      assert s[i] == a[i] && s[j] == a[j];
    }
    forall i, j | 0 <= i < j < |b| ensures b[i] != b[j] {
      assert s[|a| + i] == b[i] && s[|a| + j] == b[j];
    }
    forall x | x in a ensures x !in b {
      var i :| 0 <= i < |a| && a[i] == x;
      forall j | 0 <= j < |b| ensures b[j] != x {
        assert s[i] == x && s[|a| + j] == b[j];
      }
    }
  }

  lemma EmptyWindow<T>(s: seq<T>, limit: nat, offset: nat)
    ensures Take(limit, Drop(offset, s)) == [] <==> limit == 0 || offset >= |s|
    ensures offset >= |s| ==> Drop(offset, s) == []
    ensures limit == 0 ==> forall t: seq<T> :: Take(limit, t) == []
  {
  }

  lemma EmployerOnlyExact(f: seq<Contract>, e: seq<Contract>, limit: nat, offset: nat, end: nat)
    requires NewestFirst(e) && Distinct(f + e) && limit > 0 && offset < |f| + |e|
    requires end == Min(offset + limit, |f| + |e|)
    ensures Take(limit, Drop(offset, e)) == Take(limit, Merge(f, e)[offset..]) <==> OnlyEmployer(f, e, end)
  {
    DistinctParts(f, e);
    hide *;
    if OnlyEmployer(f, e, end) {
      EmployerAlone(f, e, limit, offset, end);
    } else {
      var c := FreelancerMissed(f, e, limit, offset, end);
      NotOnOtherPage(e, f, limit, offset, c);
    }
  }

  lemma FreelancerOnlyExact(f: seq<Contract>, e: seq<Contract>, limit: nat, offset: nat, end: nat)
    requires NewestFirst(f) && Distinct(f + e) && limit > 0 && offset < |f| + |e|
    requires end == Min(offset + limit, |f| + |e|)
    ensures Take(limit, Drop(offset, f)) == Take(limit, Merge(f, e)[offset..]) <==> OnlyFreelancer(f, e, end)
  {
    DistinctParts(f, e);
    hide *;
    if OnlyFreelancer(f, e, end) {
      FreelancerAlone(f, e, limit, offset, end);
    } else {
      var c := EmployerMissed(f, e, limit, offset, end);
      NotOnOtherPage(f, e, limit, offset, c);
    }
  }

  lemma BothWorkExact(f: seq<Contract>, e: seq<Contract>, limit: nat, offset: nat, end: nat)
    requires NewestFirst(f) && NewestFirst(e) && Distinct(f + e) && limit > 0 && offset < |f| + |e|
    requires end == Min(offset + limit, |f| + |e|)
    ensures Take(limit, Merge(Drop(offset, f), Drop(offset, e))) == Take(limit, Merge(f, e)[offset..])
            <==> offset == 0 || OneSided(f, e, end)
  {
    if offset == 0 {
      ZeroOffset(f, e);
    } else {
      hide *;
      if OneSided(f, e, end) {
        OneSidedPage(f, e, limit, offset, end);
      } else {
        var c := Skipped(f, e, limit, offset);
        NotOnPage(f, e, limit, offset, c);
      }
    }
  }

  /** When the pages are right, for every outcome of the two queries: nothing is asked for, nothing is
      left, or what the failed queries leave is enough. */
  predicate PageRight(freelancer: seq<Contract>, employer: seq<Contract>, limit: nat, offset: nat,
                      freelancerWorks: bool, employerWorks: bool)
  {
    var end := Min(offset + limit, |freelancer| + |employer|);
    || limit == 0
    || offset >= |freelancer| + |employer|
    || (freelancerWorks && OnlyFreelancer(freelancer, employer, end))
    || (employerWorks && OnlyEmployer(freelancer, employer, end))
    || (freelancerWorks && employerWorks && offset == 0)
  }

  lemma SeenExact(f: seq<Contract>, e: seq<Contract>, limit: nat, offset: nat, fWorks: bool, eWorks: bool)
    requires NewestFirst(f) && NewestFirst(e) && Distinct(f + e)
    ensures Take(limit, Merge(Drop(offset, Seen(f, fWorks)), Drop(offset, Seen(e, eWorks))))
            == Take(limit, Drop(offset, Merge(f, e)))
            <==> PageRight(f, e, limit, offset, fWorks, eWorks)
  {
    var end := Min(offset + limit, |f| + |e|);
    MergeNone(Drop(offset, f), Drop(offset, e));
    EmptyWindow(Merge(f, e), limit, offset);
    DropNone(f, e, offset);
    assert Seen(f, fWorks) == (if fWorks then f else []) && Seen(e, eWorks) == (if eWorks then e else []);
    PageRightWhen(f, e, limit, offset, fWorks, eWorks);
    hide *;
    if limit == 0 || offset >= |f| + |e| {
      NothingToShow(f, e, limit, offset, fWorks, eWorks);
    } else if fWorks && eWorks {
      BothWorkExact(f, e, limit, offset, end);
    } else if eWorks {
      EmployerOnlyExact(f, e, limit, offset, end);
    } else if fWorks {
      FreelancerOnlyExact(f, e, limit, offset, end);
    } else {
      EmptyWindow<Contract>([], limit, offset);
    }
  }

  lemma DropNone(f: seq<Contract>, e: seq<Contract>, offset: nat)
    ensures Drop<Contract>(offset, []) == []
    ensures offset <= |f| + |e| ==> Drop(offset, Merge(f, e)) == Merge(f, e)[offset..]
  {
    hide Merge;
  }

  lemma NothingToShow(f: seq<Contract>, e: seq<Contract>, limit: nat, offset: nat, fWorks: bool, eWorks: bool)
    requires limit == 0 || offset >= |f| + |e|
    ensures Take(limit, Merge(Drop(offset, Seen(f, fWorks)), Drop(offset, Seen(e, eWorks)))) == []
  {
    EmptyWindow(f, limit, offset);
    EmptyWindow(e, limit, offset);
    EmptyWindow<Contract>([], limit, offset);
    MergeNone([], []);
    hide Merge, Drop, Take;
  }

  lemma PageRightWhen(f: seq<Contract>, e: seq<Contract>, limit: nat, offset: nat, fWorks: bool, eWorks: bool)
    ensures var end := Min(offset + limit, |f| + |e|);
            PageRight(f, e, limit, offset, fWorks, eWorks)
            <==> if limit == 0 || offset >= |f| + |e| then true
                 else if fWorks && eWorks then offset == 0 || OneSided(f, e, end)
                 else if eWorks then OnlyEmployer(f, e, end)
                 else fWorks && OnlyFreelancer(f, e, end)
  {
    hide OnlyEmployer, OnlyFreelancer;
  }

  /** A page is the right slice of the whole list exactly when nothing is asked for, nothing is left,
      everything up to the page's end comes from one role whose query works, or the page is the first
      and both work. */
  lemma LaterPageExact(freelancer: seq<Contract>, employer: seq<Contract>, limit: nat, offset: nat,
                       freelancerWorks: bool, employerWorks: bool)
    requires NewestFirst(freelancer) && NewestFirst(employer)
    requires Distinct(freelancer + employer)
    ensures UserContracts(freelancer, employer, limit, offset, freelancerWorks, employerWorks).items
            == Take(limit, Drop(offset, Whole(freelancer, employer)))
            <==> PageRight(freelancer, employer, limit, offset, freelancerWorks, employerWorks)
  {
    hide *;
    SeenPage(freelancer, employer, limit, offset, freelancerWorks, employerWorks);
    PageIsMerge(freelancer, employer, limit, offset);
    SeenExact(freelancer, employer, limit, offset, freelancerWorks, employerWorks);
  }

  // --- whether there is more -------------------------------------------------------------------

  function Max(a: nat, b: nat): nat {
    if a >= b then a else b
  }

  /** How many contracts a page shows, and what it says of the rest. */
  lemma PageLength(freelancer: seq<Contract>, employer: seq<Contract>, limit: nat, offset: nat,
                   freelancerWorks: bool, employerWorks: bool)
    requires NewestFirst(freelancer) && NewestFirst(employer)
    ensures var (f, e) := (Seen(freelancer, freelancerWorks), Seen(employer, employerWorks));
            var page := UserContracts(freelancer, employer, limit, offset, freelancerWorks, employerWorks);
            && |page.items| == Min(limit, |Drop(offset, f)| + |Drop(offset, e)|)
            && page.total == |f| + |e|
            && (page.hasMore <==> offset + |page.items| < |f| + |e|)
  {
    var (f, e) := (Seen(freelancer, freelancerWorks), Seen(employer, employerWorks));
    TotalOfPage(freelancer, employer, limit, offset, freelancerWorks, employerWorks);
    hide *;
    SeenPage(freelancer, employer, limit, offset, freelancerWorks, employerWorks);
    TakeLength(limit, Merge(Drop(offset, f), Drop(offset, e)));
  }

  lemma TakeLength<T>(n: nat, s: seq<T>)
    ensures |Take(n, s)| == Min(n, |s|)
  {
  }

  lemma TotalOfPage(freelancer: seq<Contract>, employer: seq<Contract>, limit: nat, offset: nat,
                    freelancerWorks: bool, employerWorks: bool)
    ensures var page := UserContracts(freelancer, employer, limit, offset, freelancerWorks, employerWorks);
            && page.total == |Seen(freelancer, freelancerWorks)| + |Seen(employer, employerWorks)|
            && (page.hasMore <==> offset + |page.items| < page.total)
  {
    hide SortNewestFirst, Take, Drop;
  }

  lemma FirstPageCounts(f: seq<Contract>, e: seq<Contract>, limit: nat, freelancerWorks: bool, employerWorks: bool)
    requires NewestFirst(f) && NewestFirst(e)
    ensures var page := UserContracts(f, e, limit, 0, freelancerWorks, employerWorks);
            var seen := |Seen(f, freelancerWorks)| + |Seen(e, employerWorks)|;
            var allSeen := (freelancerWorks || f == []) && (employerWorks || e == []);
            && |Whole(f, e)| == |f| + |e|
            && (page.total == |Whole(f, e)| <==> allSeen)
            && ((page.hasMore <==> |page.items| < |Whole(f, e)|) <==> limit < seen || allSeen)
  {
    PageIsMerge(f, e, limit, 0);
    PageLength(f, e, limit, 0, freelancerWorks, employerWorks);
    DropLength(0, Seen(f, freelancerWorks));
    DropLength(0, Seen(e, employerWorks));
    hide UserContracts, Whole, Merge, NewestFirst, Drop;
  }

  lemma FirstPageAllSeen(f: seq<Contract>, e: seq<Contract>, limit: nat, freelancerWorks: bool, employerWorks: bool)
    requires NewestFirst(f) && NewestFirst(e)
    ensures (freelancerWorks || f == []) && (employerWorks || e == []) ==>
              UserContracts(f, e, limit, 0, freelancerWorks, employerWorks).items == Take(limit, Whole(f, e))
  {
    FailedReadsEmpty(f, e, limit, 0, freelancerWorks, employerWorks);
    PageIsMerge(f, e, limit, 0);
    assert Drop(0, f) == f && Drop(0, e) == e;
    hide UserContracts, Whole, Merge, NewestFirst, Take, Drop;
  }

  lemma FirstPageItems(f: seq<Contract>, e: seq<Contract>, limit: nat, freelancerWorks: bool, employerWorks: bool)
    requires NewestFirst(f) && NewestFirst(e) && Distinct(f + e)
    ensures UserContracts(f, e, limit, 0, freelancerWorks, employerWorks).items == Take(limit, Whole(f, e))
            <==> || limit == 0
                 || ((freelancerWorks || f == []) && (employerWorks || e == []))
                 || (employerWorks && limit <= |e| && e[limit - 1].createdAt > f[0].createdAt)
                 || (freelancerWorks && limit <= |f| && f[limit - 1].createdAt >= e[0].createdAt)
  {
    assert Drop(0, Whole(f, e)) == Whole(f, e);
    hide *;
    LaterPageExact(f, e, limit, 0, freelancerWorks, employerWorks);
    FirstPageRight(f, e, limit, freelancerWorks, employerWorks);
  }

  lemma FirstPageRight(f: seq<Contract>, e: seq<Contract>, limit: nat, freelancerWorks: bool, employerWorks: bool)
    ensures PageRight(f, e, limit, 0, freelancerWorks, employerWorks)
            <==> || limit == 0
                 || ((freelancerWorks || f == []) && (employerWorks || e == []))
                 || (employerWorks && limit <= |e| && e[limit - 1].createdAt > f[0].createdAt)
                 || (freelancerWorks && limit <= |f| && f[limit - 1].createdAt >= e[0].createdAt)
  {
  }

  /** The first page when a query may fail: the first `limit` of what the working queries see. That is
      the first `limit` of the whole exactly when the failed role is empty or its newest contract comes
      behind the page. The total is that of the working roles, so it is right exactly when the failed
      ones are empty; hasMore is wrong exactly when the page shows all that is seen and not the whole. */
  lemma FirstPageExact(freelancer: seq<Contract>, employer: seq<Contract>, limit: nat,
                       freelancerWorks: bool, employerWorks: bool)
    requires NewestFirst(freelancer) && NewestFirst(employer)
    ensures var (f, e, whole) := (freelancer, employer, Whole(freelancer, employer));
            var page := UserContracts(f, e, limit, 0, freelancerWorks, employerWorks);
            var seen := |Seen(f, freelancerWorks)| + |Seen(e, employerWorks)|;
            var allSeen := (freelancerWorks || f == []) && (employerWorks || e == []);
            && |whole| == |f| + |e|
            && (allSeen ==> page.items == Take(limit, whole))
            && (Distinct(f + e) ==>
                  (page.items == Take(limit, whole)
                   <==> || limit == 0 || allSeen
                        || (employerWorks && limit <= |e| && e[limit - 1].createdAt > f[0].createdAt)
                        || (freelancerWorks && limit <= |f| && f[limit - 1].createdAt >= e[0].createdAt)))
            && (page.total == |whole| <==> allSeen)
            && ((page.hasMore <==> |page.items| < |whole|) <==> limit < seen || allSeen)
  {
    hide *;
    FirstPageCounts(freelancer, employer, limit, freelancerWorks, employerWorks);
    FirstPageAllSeen(freelancer, employer, limit, freelancerWorks, employerWorks);
    if Distinct(freelancer + employer) {
      FirstPageItems(freelancer, employer, limit, freelancerWorks, employerWorks);
    }
  }

  /** The page at the next offset shows something exactly when it starts inside the longer list its own
      queries see. Then hasMore is true, unless the page's own queries fail where the next page's work.
      It is true for nothing exactly when both lists end before the next offset, and still not as many
      contracts lie before the end of this page as there are. */
  lemma HasMoreExactly(freelancer: seq<Contract>, employer: seq<Contract>, limit: nat, offset: nat,
                       freelancerWorks: bool, employerWorks: bool, freelancerNext: bool, employerNext: bool)
    requires NewestFirst(freelancer) && NewestFirst(employer) && limit > 0
    ensures var (f, e) := (Seen(freelancer, freelancerWorks), Seen(employer, employerWorks));
            var page := UserContracts(freelancer, employer, limit, offset, freelancerWorks, employerWorks);
            var next := UserContracts(freelancer, employer, limit, offset + limit, freelancerNext, employerNext);
            var longer := Max(|Seen(freelancer, freelancerNext)|, |Seen(employer, employerNext)|);
            && (next.items != [] <==> offset + limit < longer)
            && ((freelancerNext ==> freelancerWorks) && (employerNext ==> employerWorks) && next.items != [] ==>
                  page.hasMore)
            && (page.hasMore && next.items == [] <==>
                  longer <= offset + limit
                  && offset + Min(limit, |Drop(offset, f)| + |Drop(offset, e)|) < |f| + |e|)
  {
    var (f, e) := (Seen(freelancer, freelancerWorks), Seen(employer, employerWorks));
    var (nextF, nextE) := (Seen(freelancer, freelancerNext), Seen(employer, employerNext));
    var page := UserContracts(freelancer, employer, limit, offset, freelancerWorks, employerWorks);
    var next := UserContracts(freelancer, employer, limit, offset + limit, freelancerNext, employerNext);
    SeenMore(freelancer, freelancerWorks, freelancerNext);
    SeenMore(employer, employerWorks, employerNext);
    hide *;
    PageLength(freelancer, employer, limit, offset, freelancerWorks, employerWorks);
    PageLength(freelancer, employer, limit, offset + limit, freelancerNext, employerNext);
    DropLength(offset + limit, nextF);
    DropLength(offset + limit, nextE);
    WhatIsLeft(f, e, nextF, nextE, limit, offset, |page.items|, |next.items|, page.hasMore);
  }

  lemma SeenMore(list: seq<Contract>, works: bool, next: bool)
    ensures (next ==> works) ==> |Seen(list, next)| <= |Seen(list, works)|
  {
  }

  function Left(n: nat, offset: nat): nat {
    if offset <= n then n - offset else 0
  }

  lemma DropLength<T>(n: nat, s: seq<T>)
    ensures |Drop(n, s)| == Left(|s|, n)
  {
  }

  lemma WhatIsLeft(f: seq<Contract>, e: seq<Contract>, nextF: seq<Contract>, nextE: seq<Contract>,
                   limit: nat, offset: nat, shown: nat, shownNext: nat, hasMore: bool)
    requires limit > 0
    requires shown == Min(limit, |Drop(offset, f)| + |Drop(offset, e)|)
    requires shownNext == Min(limit, Left(|nextF|, offset + limit) + Left(|nextE|, offset + limit))
    requires hasMore <==> offset + shown < |f| + |e|
    ensures shownNext > 0 <==> offset + limit < Max(|nextF|, |nextE|)
    ensures |nextF| <= |f| && |nextE| <= |e| && shownNext > 0 ==> hasMore
  {
    DropLength(offset, f);
    DropLength(offset, e);
    hide Drop;
  }

  /** A page that is empty and yet promises more, so that a client that goes on behind what it was
      shown asks for it for ever: exactly from the end of the longer list to the sum of both. */
  lemma EmptyPromise(freelancer: seq<Contract>, employer: seq<Contract>, limit: nat, offset: nat,
                     freelancerWorks: bool, employerWorks: bool)
    requires NewestFirst(freelancer) && NewestFirst(employer) && limit > 0
    ensures var (f, e) := (Seen(freelancer, freelancerWorks), Seen(employer, employerWorks));
            var page := UserContracts(freelancer, employer, limit, offset, freelancerWorks, employerWorks);
            page.items == [] && page.hasMore <==> Max(|f|, |e|) <= offset < |f| + |e|
  {
    var (f, e) := (Seen(freelancer, freelancerWorks), Seen(employer, employerWorks));
    PageLength(freelancer, employer, limit, offset, freelancerWorks, employerWorks);
    DropLength(offset, f);
    DropLength(offset, e);
    hide UserContracts, Drop, NewestFirst;
  }

  /** With the freelancer query failing, the employer's newest contract is the whole first page, nothing
      is said to be left, and the newest contract of all is missing. */
  lemma FailedRoleExample(a: Contract, b: Contract)
    requires a.createdAt > b.createdAt
    ensures Whole([a], [b]) == [a, b]
    ensures UserContracts([a], [b], 1, 0, false, true) == Page([b], false, 1)
  {
    PageIsMerge([a], [b], 1, 0);
    FailedReadsEmpty([a], [b], 1, 0, false, true);
    PageIsMerge([], [b], 1, 0);
    PageLength([a], [b], 1, 0, false, true);
    MergeNone([], [b]);
    assert Drop(0, [b]) == [b] && Drop<Contract>(0, []) == [] && [a][1..] == [];
    assert Merge([a], [b]) == [a] + Merge([], [b]);
    hide Merge, SortNewestFirst, UserContracts;
  }

  /** The second newest contract is on neither of the first two pages of one contract each. */
  lemma SkippedExample(a: Contract, b: Contract, c: Contract)
    requires a.createdAt > b.createdAt > c.createdAt
    ensures Whole([a, c], [b]) == [a, b, c]
    ensures UserContracts([a, c], [b], 1, 0, true, true).items == [a]
    ensures UserContracts([a, c], [b], 1, 1, true, true).items == [c]
    ensures UserContracts([a, c], [b], 1, 2, true, true) == Page([], true, 3)
  {
    PageIsMerge([a, c], [b], 1, 0);
    PageIsMerge([a, c], [b], 1, 1);
    PageIsMerge([a, c], [b], 1, 2);
    assert Drop(0, [a, c]) == [a, c] && Drop(0, [b]) == [b];
    assert Drop(1, [a, c]) == [c] && Drop(1, [b]) == [] && Drop(2, [a, c]) == [] && Drop(2, [b]) == [];
    assert Merge([c], []) == [c] && Merge([c], [b]) == [b] + Merge([c], []) && [a, c][1..] == [c];
    assert Merge([a, c], [b]) == [a] + Merge([c], [b]);
    assert Merge([a, c], [b]) == [a, b, c];
    hide Merge, Drop, SortNewestFirst, UserContracts;
  }
}

/** Counting proposals for many projects (src/repositories/proposal-repository.ts): distinct project
    ids in chunks of 100, each chunk read page by page. */
module Proposals {
  import opened Text
  import opened Paging
  import opened Chunks

  datatype Proposal = Proposal(project: Option<string>, status: string)

  const PAGE_SIZE := 100

  /** The two variants: what is counted are the proposals not withdrawn, or the accepted ones. */
  function NotWithdrawn(): string -> bool {
    status => status != "withdrawn"
  }

  function Accepted(): string -> bool {
    status => status == "accepted"
  }

  /** The query for one chunk of project ids. */
  function InChunk(chunk: seq<string>, wanted: string -> bool): Proposal -> bool {
    (p: Proposal) => p.project.Some? && p.project.value in chunk && wanted(p.status)
  }

  function OfProject(id: string, wanted: string -> bool): Proposal -> bool {
    (p: Proposal) => p.project == Some(id) && wanted(p.status)
  }

  /** How many wanted proposals a project has. */
  function Total(rows: seq<Row<Proposal>>, id: string, wanted: string -> bool): nat {
    |Select(rows, OfProject(id, wanted))|
  }

  function Count(documents: seq<Row<Proposal>>, id: string): nat {
    if documents == [] then 0
    else Count(documents[..|documents| - 1], id) + if documents[|documents| - 1].data.project == Some(id) then 1 else 0
  }

  lemma {:induction false} CountAppend(a: seq<Row<Proposal>>, b: seq<Row<Proposal>>, id: string)
    ensures Count(a + b, id) == Count(a, id) + Count(b, id)
  {
    if b == [] {
      assert a + b == a;
    } else {
      CountAppend(a, b[..|b| - 1], id);
      assert (a + b)[..|a + b| - 1] == a + b[..|b| - 1];
    }
  }

  /** A chunk's rows hold every wanted proposal of its projects, and none of another project. */
  lemma {:induction false} ChunkCounts(rows: seq<Row<Proposal>>, chunk: seq<string>, wanted: string -> bool, id: string)
    ensures Count(Select(rows, InChunk(chunk, wanted)), id) == if id in chunk then Total(rows, id, wanted) else 0
  {
    if rows != [] {
      ChunkCounts(rows[1..], chunk, wanted, id);
      var (one, rest) := ([rows[0]], Select(rows[1..], InChunk(chunk, wanted)));
      SelectStep(rows, InChunk(chunk, wanted));
      SelectStep(rows, OfProject(id, wanted));
      CountAppend(one, rest, id);
      assert one[..0] == [] && Count(one, id) == if rows[0].data.project == Some(id) then 1 else 0;
      hide Select, Count;
    }
  }

  /** The counts of all projects asked for, after a failure. */
  function Zeros(ids: seq<string>): map<string, nat> {
    map id | id in ids :: 0
  }

  /** getProposalCountsByProjects and getAcceptedProposalCountsByProjects. `works` says which of the
      queries succeed; `asked` are the id lists of the queries made. */
  method CountsByProjects(rows: seq<Row<Proposal>>, projectIds: seq<string>, wanted: string -> bool, works: nat -> bool)
    returns (counts: map<string, nat>, asked: seq<seq<string>>)
    requires ValidRows(rows)
    ensures counts.Keys == set id | id in projectIds
    ensures (forall q | 0 <= q < |asked| :: works(q)) ==>
              forall id | id in projectIds :: counts[id] == Total(rows, id, wanted)
    ensures (exists q | 0 <= q < |asked| :: !works(q)) ==> forall id | id in projectIds :: counts[id] == 0
    ensures forall q | 0 <= q < |asked| :: |asked[q]| <= CHUNK_SIZE
  {
    var unique := Dedupe(projectIds);
    DedupeKeeps(projectIds);
    counts := Zeros(unique);
    asked := [];
    var i := 0;
    while i < |unique|
      invariant 0 <= i
      invariant counts.Keys == set id | id in unique
      invariant forall id | id in unique ::
                  counts[id] == if id in unique[..Min(i, |unique|)] then Total(rows, id, wanted) else 0
      invariant forall q | 0 <= q < |asked| :: works(q) && |asked[q]| <= CHUNK_SIZE
    {
      hide Total, Dedupe;
      var chunk := Chunk(unique, i);
      ChunkExtends(unique, i);
      hide Chunk;
      var done;
      done, counts, asked := CountChunk(rows, chunk, wanted, works, counts, asked);
      if !done {
        return Zeros(unique), asked;
      }
      i := i + CHUNK_SIZE;
    }
  }

  /** The counts after some documents. */
  ghost predicate Counted(before: map<string, nat>, documents: seq<Row<Proposal>>, counts: map<string, nat>) {
    counts.Keys == before.Keys && forall id | id in before :: counts[id] == before[id] + Count(documents, id)
  }

  lemma CountedMore(before: map<string, nat>, documents: seq<Row<Proposal>>, counts: map<string, nat>,
                    page: seq<Row<Proposal>>, after: map<string, nat>)
    requires Counted(before, documents, counts) && Counted(counts, page, after)
    ensures Counted(before, documents + page, after)
  {
    hide Count;
    forall id | id in before ensures after[id] == before[id] + Count(documents + page, id) {
      CountAppend(documents, page, id);
    }
  }

  lemma CountedNone(before: map<string, nat>)
    ensures Counted(before, [], before)
  {
  }

  lemma CountedAll(rows: seq<Row<Proposal>>, chunk: seq<string>, wanted: string -> bool, before: map<string, nat>,
                   counts: map<string, nat>)
    requires Counted(before, Select(rows, InChunk(chunk, wanted)), counts)
    ensures counts.Keys == before.Keys
    ensures forall id | id in before :: counts[id] == before[id] + if id in chunk then Total(rows, id, wanted) else 0
  {
    hide Count, Total, Select;
    forall id | id in before ensures counts[id] == before[id] + if id in chunk then Total(rows, id, wanted) else 0 {
      ChunkCounts(rows, chunk, wanted, id);
    }
  }

  lemma DocumentsWanted(rows: seq<Row<Proposal>>, chunk: seq<string>, wanted: string -> bool, read: nat,
                        page: seq<Row<Proposal>>)
    requires var kept := Select(rows, InChunk(chunk, wanted)); read <= |kept| && page == Take(PAGE_SIZE, kept[read..])
    ensures forall d | 0 <= d < |page| :: page[d].data.project.Some? && wanted(page[d].data.status)
    ensures var kept := Select(rows, InChunk(chunk, wanted));
            read + |page| <= |kept| && kept[..read] + page == kept[..read + |page|] && |page| <= PAGE_SIZE
            && (|page| < PAGE_SIZE ==> kept[..read + |page|] == kept)
            && (page != [] ==> page[|page| - 1] == kept[read + |page| - 1])
  {
    var kept := Select(rows, InChunk(chunk, wanted));
    hide Select;
    forall d | 0 <= d < |page| ensures page[d].data.project.Some? && wanted(page[d].data.status) {
      assert page[d] == kept[read + d];
      SelectMember(rows, InChunk(chunk, wanted), page[d]);
    }
  }

  /** The pages of one chunk. */
  method CountChunk(rows: seq<Row<Proposal>>, chunk: seq<string>, wanted: string -> bool, works: nat -> bool,
                    before: map<string, nat>, askedBefore: seq<seq<string>>)
    returns (done: bool, counts: map<string, nat>, asked: seq<seq<string>>)
    requires ValidRows(rows) && |chunk| <= CHUNK_SIZE
    requires forall q | 0 <= q < |askedBefore| :: works(q) && |askedBefore[q]| <= CHUNK_SIZE
    ensures counts.Keys == before.Keys
    ensures done ==> forall id | id in before ::
              counts[id] == before[id] + if id in chunk then Total(rows, id, wanted) else 0
    ensures forall q | 0 <= q < |asked| :: |asked[q]| <= CHUNK_SIZE
    ensures done <==> forall q | 0 <= q < |asked| :: works(q)
  {
    hide Count, Total, Select, List, Counted, Take, ValidRows;
    ghost var kept := Select(rows, InChunk(chunk, wanted));
    ghost var read: nat := 0;
    var lastId: Option<string> := None;
    counts, asked := before, askedBefore;
    CountedNone(before);
    assert kept[..0] == [];
    while true
      invariant 0 <= read <= |kept|
      invariant if read == 0 then lastId == None else lastId == Some(kept[read - 1].id)
      invariant counts.Keys == before.Keys && Counted(before, kept[..read], counts)
      invariant forall q | 0 <= q < |asked| :: works(q) && |asked[q]| <= CHUNK_SIZE
      decreases |kept| - read
    {
      PageIsSlice(rows, InChunk(chunk, wanted), lastId, read, PAGE_SIZE);
      asked := asked + [chunk];
      if !works(|asked| - 1) {
        return false, counts, asked;
      }
      var documents := List(rows, InChunk(chunk, wanted), lastId, PAGE_SIZE).value;
      DocumentsWanted(rows, chunk, wanted, read, documents);
      ghost var earlier := counts;
      counts := AddCounts(counts, documents, wanted);
      CountedMore(before, kept[..read], earlier, documents, counts);
      read := read + |documents|;
      if |documents| < PAGE_SIZE {
        CountedAll(rows, chunk, wanted, before, counts);
        return true, counts, asked;
      }
      lastId := Some(documents[|documents| - 1].id);
    }
  }

  /** The counts after the documents of one page. */
  method AddCounts(counts: map<string, nat>, documents: seq<Row<Proposal>>, wanted: string -> bool)
    returns (r: map<string, nat>)
    requires forall d | 0 <= d < |documents| :: documents[d].data.project.Some? && wanted(documents[d].data.status)
    ensures Counted(counts, documents, r) && r.Keys == counts.Keys
  {
    r := counts;
    for d := 0 to |documents|
      invariant r.Keys == counts.Keys
      invariant forall id | id in counts :: r[id] == counts[id] + Count(documents[..d], id)
    {
      var Proposal(project, status) := documents[d].data;
      assert documents[..d + 1][..d] == documents[..d];
      if wanted(status) && project.Some? && project.value in r {
        r := r[project.value := r[project.value] + 1];
      }
    }
    assert documents[..|documents|] == documents;
  }

  // --- the two variants -----------------------------------------------------------------------

  /** getProposalCountsByProjects: the proposals of each project that are not withdrawn. */
  method GetProposalCountsByProjects(rows: seq<Row<Proposal>>, projectIds: seq<string>, works: nat -> bool)
    returns (counts: map<string, nat>, asked: seq<seq<string>>)
    requires ValidRows(rows)
    ensures counts.Keys == set id | id in projectIds
    ensures (forall q | 0 <= q < |asked| :: works(q)) ==>
              forall id | id in projectIds :: counts[id] == Total(rows, id, NotWithdrawn())
    ensures (exists q | 0 <= q < |asked| :: !works(q)) ==> forall id | id in projectIds :: counts[id] == 0
  {
    hide *;
    counts, asked := CountsByProjects(rows, projectIds, NotWithdrawn(), works);
  }

  /** getAcceptedProposalCountsByProjects: the accepted ones. */
  method GetAcceptedProposalCountsByProjects(rows: seq<Row<Proposal>>, projectIds: seq<string>, works: nat -> bool)
    returns (counts: map<string, nat>, asked: seq<seq<string>>)
    requires ValidRows(rows)
    ensures counts.Keys == set id | id in projectIds
    ensures (forall q | 0 <= q < |asked| :: works(q)) ==>
              forall id | id in projectIds :: counts[id] == Total(rows, id, Accepted())
    ensures (exists q | 0 <= q < |asked| :: !works(q)) ==> forall id | id in projectIds :: counts[id] == 0
  {
    hide *;
    counts, asked := CountsByProjects(rows, projectIds, Accepted(), works);
  }

  /** A project's accepted proposals are among those not withdrawn, and as many as they exactly when
      every proposal of it is one or the other. */
  lemma {:induction false} AcceptedAmongCounted(rows: seq<Row<Proposal>>, id: string)
    ensures Total(rows, id, Accepted()) <= Total(rows, id, NotWithdrawn())
    ensures Total(rows, id, Accepted()) == Total(rows, id, NotWithdrawn())
            <==> forall i | 0 <= i < |rows| && rows[i].data.project == Some(id) ::
                   rows[i].data.status in {"accepted", "withdrawn"}
  {
    if rows != [] {
      AcceptedAmongCounted(rows[1..], id);
      SelectStep(rows, OfProject(id, Accepted()));
      SelectStep(rows, OfProject(id, NotWithdrawn()));
      assert "accepted" != "withdrawn";
      assert forall i | 0 < i < |rows| :: rows[i] == rows[1..][i - 1];
      hide Select;
    }
  }
}

/** Lists of ids sent to the database in chunks: it takes at most 100 values in one query. */
module Chunks {

  const CHUNK_SIZE := 100

  function Min(a: int, b: int): int {
    if a <= b then a else b
  }

  /** slice(i, i + 100) */
  function Chunk<T>(s: seq<T>, i: nat): (r: seq<T>)
    requires i <= |s|
    ensures |r| <= CHUNK_SIZE
  {
    s[i..Min(i + CHUNK_SIZE, |s|)]
  }

  ghost predicate Distinct<T>(s: seq<T>) {
    forall i, j | 0 <= i < j < |s| :: s[i] != s[j]
  }

  /** [...new Set(s)]: the first occurrence of each value, in order. */
  function Dedupe<T(==)>(s: seq<T>): seq<T> {
    if s == [] then []
    else
      var r := Dedupe(s[..|s| - 1]);
      if s[|s| - 1] in s[..|s| - 1] then r else r + [s[|s| - 1]]
  }

  lemma {:induction false} DedupeKeeps<T>(s: seq<T>)
    ensures Distinct(Dedupe(s))
    ensures forall x :: x in Dedupe(s) <==> x in s
  {
    if s != [] {
      DedupeKeeps(s[..|s| - 1]);
      assert s == s[..|s| - 1] + [s[|s| - 1]];
    }
  }

  /** In a list of distinct values the prefix up to the next chunk is the prefix before it and the chunk,
      which share no value. */
  lemma ChunkExtends<T>(s: seq<T>, i: nat)
    requires Distinct(s) && i <= |s|
    ensures forall x :: x in s[..Min(i + CHUNK_SIZE, |s|)] <==> x in s[..i] || x in Chunk(s, i)
    ensures forall x | x in Chunk(s, i) :: x !in s[..i]
  {
    assert s[..Min(i + CHUNK_SIZE, |s|)] == s[..i] + Chunk(s, i);
  }

  /** Distinct values taken from a list are no more than the list. */
  lemma {:induction false} DistinctWithin<T>(s: seq<T>, all: seq<T>)
    requires Distinct(s) && forall i | 0 <= i < |s| :: s[i] in all
    ensures |s| <= |all|
  {
    if s != [] {
      var last := s[|s| - 1];
      var k :| 0 <= k < |all| && all[k] == last;
      var rest := all[..k] + all[k + 1..];
      forall i | 0 <= i < |s| - 1 ensures s[i] in rest {
        var j :| 0 <= j < |all| && all[j] == s[i];
        assert s[i] != last;
        assert if j < k then rest[j] == s[i] else rest[j - 1] == s[i];
      }
      DistinctWithin(s[..|s| - 1], rest);
    }
  }
}

/** Counting who asked for a skill (recordSuggestionRequest in
    src/repositories/user-custom-skill-repository.ts): a read and a write under a lock. */
module Suggestions {
  import opened Chunks
  import opened Common
  import opened Text

  datatype Suggestion = Suggestion(requesters: seq<string>, times: int)

  /** A request recorded: a user who has asked before changes nothing. */
  function Recorded(s: Suggestion, user: string): Suggestion {
    if user in s.requesters then s else Suggestion(s.requesters + [user], s.times + 1)
  }

  class SuggestionStore {
    var docs: map<string, Suggestion>

    constructor ()
      ensures docs == map[]
    {
      docs := map[];
    }

    /** The callback under the lock, with nobody else at work on the suggestion; `read` and `write`
        say how its two database calls fare. */
    method RecordSuggestionRequest(id: string, user: string, read: Fault, write: Fault) returns (r: Option<Suggestion>)
      modifies this
      ensures docs == if id in old(docs) && read == Works && write != FailsBefore
                      then old(docs)[id := Recorded(old(docs)[id], user)] else old(docs)
      ensures r == if id in old(docs) && read == Works && (write == Works || user in old(docs)[id].requesters)
                   then Some(docs[id]) else None
    {
      if read != Works || id !in docs {
        return None;
      }
      var existing := docs[id];
      if user in existing.requesters {
        assert docs == docs[id := existing];
        return Some(existing);
      }
      if write == FailsBefore {
        return None;
      }
      docs := docs[id := Suggestion(existing.requesters + [user], existing.times + 1)];
      r := if write == Works then Some(docs[id]) else None;
    }
  }

  // --- any number of calls at once on one suggestion -----------------------------------------------

  /** Where a call stands: waiting for the lock, inside before its read, inside before its write, or
      returned. */
  datatype Phase = Waiting | Entered | HasRead(seen: Suggestion) | Returned(result: Option<Suggestion>)

  datatype Call = Call(user: string, phase: Phase)

  datatype State = State(doc: Option<Suggestion>, inside: set<nat>, calls: map<nat, Call>)

  datatype Event = Begin(call: nat, user: string) | Acquire(call: nat) | Proceed(call: nat, fault: Fault)

  function Leave(s: State, c: nat, user: string, result: Option<Suggestion>): State {
    s.(inside := s.inside - {c}, calls := s.calls[c := Call(user, Returned(result))])
  }

  /** One step; with `exclusive` the lock lets one call in at a time. */
  function Step(s: State, e: Event, exclusive: bool): State {
    match e
    case Begin(c, user) => if c in s.calls then s else s.(calls := s.calls[c := Call(user, Waiting)])
    case Acquire(c) =>
      if c in s.calls && s.calls[c].phase.Waiting? && (exclusive ==> s.inside == {}) then
        s.(inside := s.inside + {c}, calls := s.calls[c := Call(s.calls[c].user, Entered)])
      else s
    case Proceed(c, fault) =>
      if c !in s.calls then s
      else
        var Call(user, phase) := s.calls[c];
        match phase
        case Waiting => s
        case Returned(_) => s
        case Entered =>
          if fault != Works || s.doc.None? then Leave(s, c, user, None)
          else if user in s.doc.value.requesters then Leave(s, c, user, s.doc)
          else s.(calls := s.calls[c := Call(user, HasRead(s.doc.value))])
        case HasRead(seen) =>
          if fault == FailsBefore || s.doc.None? then Leave(s, c, user, None)
          else
            var written := Some(Suggestion(seen.requesters + [user], seen.times + 1));
            Leave(s.(doc := written), c, user, if fault == Works then written else None)
  }

  function Run(doc: Option<Suggestion>, events: seq<Event>, exclusive: bool): State {
    if events == [] then State(doc, {}, map[])
    else Step(Run(doc, events[..|events| - 1], exclusive), events[|events| - 1], exclusive)
  }

  /** With the lock: at most one call is inside, and what it has read is still what is stored. */
  ghost predicate Locked(s: State) {
    && (forall c, d | c in s.inside && d in s.inside :: c == d)
    && (forall c | c in s.calls && (s.calls[c].phase.Entered? || s.calls[c].phase.HasRead?) :: c in s.inside)
    && (forall c | c in s.calls && s.calls[c].phase.HasRead? ::
          s.doc == Some(s.calls[c].phase.seen) && s.calls[c].user !in s.calls[c].phase.seen.requesters)
  }

  lemma StepKeepsLocked(s: State, e: Event)
    requires Locked(s)
    ensures Locked(Step(s, e, true))
  {
  }

  /** What a locked step does to the suggestion: nothing, or it records one caller. */
  lemma StepRecords(s: State, e: Event)
    requires Locked(s)
    ensures var t := Step(s, e, true);
            t.doc == s.doc
            || (e.Proceed? && e.call in s.calls && s.doc.Some? && s.calls[e.call].user !in s.doc.value.requesters
                && t.doc == Some(Recorded(s.doc.value, s.calls[e.call].user)))
  {
  }

  lemma {:induction false} RunLocked(doc: Option<Suggestion>, events: seq<Event>)
    ensures Locked(Run(doc, events, true))
  {
    if events != [] {
      RunLocked(doc, events[..|events| - 1]);
      StepKeepsLocked(Run(doc, events[..|events| - 1], true), events[|events| - 1]);
      hide Locked, Step;
    }
  }

  /** In every interleaving under the lock: nobody is listed twice, nobody is taken off the list, and
      the counter has risen by the number of users newly listed. */
  lemma {:induction false} CounterExact(doc: Suggestion, events: seq<Event>)
    requires Distinct(doc.requesters)
    ensures var now := Run(Some(doc), events, true).doc;
            && now.Some?
            && doc.requesters <= now.value.requesters
            && Distinct(now.value.requesters)
            && now.value.times - doc.times == |now.value.requesters| - |doc.requesters|
  {
    if events != [] {
      var earlier := events[..|events| - 1];
      CounterExact(doc, earlier);
      RunLocked(Some(doc), earlier);
      StepRecords(Run(Some(doc), earlier, true), events[|events| - 1]);
      hide Step, Locked;
    }
  }

  lemma StepAnswers(s: State, e: Event, c: nat)
    requires Locked(s) && c in s.calls
    ensures var t := Step(s, e, true);
            && c in t.calls && t.calls[c].user == s.calls[c].user
            && (t.calls[c].phase.Returned? && t.calls[c].phase != s.calls[c].phase && t.calls[c].phase.result.Some? ==>
                  t.doc.Some? && t.calls[c].user in t.doc.value.requesters)
            && (s.calls[c].phase.Returned? ==> t.calls[c] == s.calls[c])
  {
  }

  /** A caller who was given the suggestion is on its list for good. */
  lemma {:induction false} AnsweredAreListed(doc: Suggestion, events: seq<Event>, c: nat)
    requires c in Run(Some(doc), events, true).calls
    requires var phase := Run(Some(doc), events, true).calls[c].phase; phase.Returned? && phase.result.Some?
    ensures var s := Run(Some(doc), events, true); s.doc.Some? && s.calls[c].user in s.doc.value.requesters
  {
    var (earlier, e) := (events[..|events| - 1], events[|events| - 1]);
    var s := Run(Some(doc), earlier, true);
    RunLocked(Some(doc), earlier);
    if c in s.calls {
      StepAnswers(s, e, c);
      StepRecords(s, e);
      if s.calls[c].phase.Returned? {
        AnsweredAreListed(doc, earlier, c);
      }
      hide Step, Locked;
    }
  }

  /** Every user newly listed is one who asked. */
  lemma {:induction false} OnlyCallersListed(doc: Suggestion, events: seq<Event>, user: string)
    requires var s := Run(Some(doc), events, true); s.doc.Some? && user in s.doc.value.requesters
    requires user !in doc.requesters
    ensures exists c :: c in Run(Some(doc), events, true).calls && Run(Some(doc), events, true).calls[c].user == user
  {
    var (earlier, e) := (events[..|events| - 1], events[|events| - 1]);
    var s := Run(Some(doc), earlier, true);
    RunLocked(Some(doc), earlier);
    StepRecords(s, e);
    var c;
    if s.doc.Some? && user in s.doc.value.requesters {
      OnlyCallersListed(doc, earlier, user);
      c :| c in s.calls && s.calls[c].user == user;
    } else {
      c := e.call;
    }
    StepAnswers(s, e, c);
    hide Step, Locked;
  }

  /** Two calls that both enter before either reads. */
  function BothInside(doc: Suggestion, a: string, b: string): State {
    State(Some(doc), {0, 1}, map[0 := Call(a, Entered), 1 := Call(b, Entered)])
  }

  lemma BothEnter(doc: Suggestion, a: string, b: string)
    ensures var s1 := Step(State(Some(doc), {}, map[]), Begin(0, a), false);
            var s2 := Step(s1, Begin(1, b), false);
            var s3 := Step(s2, Acquire(0), false);
            Step(s3, Acquire(1), false) == BothInside(doc, a, b)
  {
    var s1 := Step(State(Some(doc), {}, map[]), Begin(0, a), false);
    assert s1 == State(Some(doc), {}, map[0 := Call(a, Waiting)]);
    var s2 := Step(s1, Begin(1, b), false);
    assert s2 == State(Some(doc), {}, map[0 := Call(a, Waiting), 1 := Call(b, Waiting)]);
    var s3 := Step(s2, Acquire(0), false);
    assert s3 == State(Some(doc), {0}, map[0 := Call(a, Entered), 1 := Call(b, Waiting)]);
    var s4 := Step(s3, Acquire(1), false);
    assert s4.calls == map[0 := Call(a, Entered), 1 := Call(b, Entered)];
  }

  lemma BothRead(doc: Suggestion, a: string, b: string)
    requires a != b && a !in doc.requesters && b !in doc.requesters
    ensures var s5 := Step(BothInside(doc, a, b), Proceed(0, Works), false);
            Step(s5, Proceed(1, Works), false)
            == State(Some(doc), {0, 1}, map[0 := Call(a, HasRead(doc)), 1 := Call(b, HasRead(doc))])
  {
    var s5 := Step(BothInside(doc, a, b), Proceed(0, Works), false);
    assert s5 == State(Some(doc), {0, 1}, map[0 := Call(a, HasRead(doc)), 1 := Call(b, Entered)]);
    var s6 := Step(s5, Proceed(1, Works), false);
    assert s6.calls == map[0 := Call(a, HasRead(doc)), 1 := Call(b, HasRead(doc))];
  }

  lemma BothWrite(doc: Suggestion, a: string, b: string)
    requires a != b && a !in doc.requesters && b !in doc.requesters
    ensures var s6 := State(Some(doc), {0, 1}, map[0 := Call(a, HasRead(doc)), 1 := Call(b, HasRead(doc))]);
            var s8 := Step(Step(s6, Proceed(0, Works), false), Proceed(1, Works), false);
            && 0 in s8.calls && s8.calls[0] == Call(a, Returned(Some(Suggestion(doc.requesters + [a], doc.times + 1))))
            && s8.doc == Some(Suggestion(doc.requesters + [b], doc.times + 1))
            && a !in s8.doc.value.requesters
  {
  }

  /** Without the lock a caller can be told of a request that the list then loses. */
  lemma LostWithoutLock(doc: Suggestion, a: string, b: string)
    requires a != b && a !in doc.requesters && b !in doc.requesters
    ensures var events := [Begin(0, a), Begin(1, b), Acquire(0), Acquire(1), Proceed(0, Works), Proceed(1, Works),
                           Proceed(0, Works), Proceed(1, Works)];
            var s := Run(Some(doc), events, false);
            && 0 in s.calls && s.calls[0] == Call(a, Returned(Some(Suggestion(doc.requesters + [a], doc.times + 1))))
            && s.doc == Some(Suggestion(doc.requesters + [b], doc.times + 1))
            && a !in s.doc.value.requesters
  {
    var events := [Begin(0, a), Begin(1, b), Acquire(0), Acquire(1), Proceed(0, Works), Proceed(1, Works),
                   Proceed(0, Works), Proceed(1, Works)];
    hide *;
    BothEnter(doc, a, b);
    BothRead(doc, a, b);
    BothWrite(doc, a, b);
    RunOf(doc, events, 1);
    RunOf(doc, events, 2);
    RunOf(doc, events, 3);
    RunOf(doc, events, 4);
    RunOf(doc, events, 5);
    RunOf(doc, events, 6);
    RunOf(doc, events, 7);
    RunOf(doc, events, 8);
    assert events[..8] == events;
  }

  lemma RunOf(doc: Suggestion, events: seq<Event>, n: nat)
    requires 0 < n <= |events|
    ensures Run(Some(doc), events[..n], false) == Step(Run(Some(doc), events[..n - 1], false), events[n - 1], false)
    ensures Run(Some(doc), events[..0], false) == State(Some(doc), {}, map[])
  {
    assert events[..n][..n - 1] == events[..n - 1];
    hide Step;
  }
}

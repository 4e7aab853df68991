/** upsertForUser (src/repositories/subscription-repository.ts): read, then create or update, falling
    back to an update when the create fails. Any number of callers interleave, and each database
    call may fail before or after the database has acted on it. */
module Subscriptions {
  import opened Common
  import opened Text

  datatype Value = Null | Flag(b: bool) | Number(n: int) | Words(s: string)

  type Fields = map<string, Value>

  /** What a caller passes: a field may be present with the value undefined (None). */
  type Updates = map<string, Option<Value>>

  /** The collection: the document id is the user id. */
  type Docs = map<string, Fields>

  datatype Write = Write(user: string, updates: Updates)
  {
    /** The type of `updates` leaves out the id, the user id and the timestamps. */
    predicate Valid() {
      updates.Keys !! {"id", "user_id", "created_at", "updated_at"}
    }
  }

  // --- one call -------------------------------------------------------------------------------

  const Defaults: Fields := map[
    "plan" := Words("free"),
    "status" := Words("none"),
    "cancel_at_period_end" := Flag(false),
    "trial_used" := Flag(false),
    "last_event_created" := Number(0)
  ]

  /** The attributes an update sends: what is not undefined. */
  function Defined(updates: Updates): Fields {
    map key | key in updates && updates[key].Some? :: updates[key].value
  }

  /** The attributes a create sends: the defaults overridden by the updates, an explicit undefined
      included, and then without what is undefined. */
  function CreateAttrs(w: Write): Fields {
    var item := (map key | key in Defaults :: Some(Defaults[key]))["user_id" := Some(Words(w.user))] + w.updates;
    Defined(item)
  }

  /** What an upsert amounts to when it runs alone. */
  function Applied(docs: Docs, w: Write): (r: Docs)
    ensures r.Keys == docs.Keys + {w.user}
  {
    docs[w.user := if w.user in docs then docs[w.user] + Defined(w.updates) else CreateAttrs(w)]
  }

  function AppliedAll(docs: Docs, writes: seq<Write>): (r: Docs)
    ensures docs.Keys <= r.Keys
  {
    if writes == [] then docs
    else Applied(AppliedAll(docs, writes[..|writes| - 1]), writes[|writes| - 1])
  }

  /** Where a call stands: before its read, its create or its update, or returned. */
  datatype Phase = Reading | Creating | Updating | Returned(result: Option<Fields>)

  /** The next database call of an upsert: does it write, and where does the upsert stand then? */
  function Writes(docs: Docs, w: Write, phase: Phase, fault: Fault): bool {
    fault != FailsBefore && ((phase.Creating? && w.user !in docs) || (phase.Updating? && w.user in docs))
  }

  function DocsAfter(docs: Docs, w: Write, phase: Phase, fault: Fault): (r: Docs)
    ensures docs.Keys <= r.Keys
  {
    if Writes(docs, w, phase, fault) then Applied(docs, w) else docs
  }

  function PhaseAfter(docs: Docs, w: Write, phase: Phase, fault: Fault): Phase {
    match phase
    case Reading => if fault == Works && w.user in docs then Updating else Creating
    case Creating =>
      if fault == Works && w.user !in docs then Returned(Some(Applied(docs, w)[w.user])) else Updating
    case Updating =>
      if fault == Works && w.user in docs then Returned(Some(Applied(docs, w)[w.user])) else Returned(None)
    case Returned(_) => phase
  }

  /** Between two database calls of an upsert others may write; then the next call runs. */
  datatype Turn = Turn(others: seq<Write>, fault: Fault)

  function CallRun(docs: Docs, w: Write, phase: Phase, turns: seq<Turn>): (Docs, Phase)
    decreases |turns|
  {
    if turns == [] || phase.Returned? then (docs, phase)
    else
      var now := AppliedAll(docs, turns[0].others);
      CallRun(DocsAfter(now, w, phase, turns[0].fault), w, PhaseAfter(now, w, phase, turns[0].fault), turns[1..])
  }

  lemma CallRunTurn(docs: Docs, w: Write, phase: Phase, turns: seq<Turn>)
    requires turns != [] && !phase.Returned?
    ensures var (now, fault) := (AppliedAll(docs, turns[0].others), turns[0].fault);
            CallRun(docs, w, phase, turns)
            == CallRun(DocsAfter(now, w, phase, fault), w, PhaseAfter(now, w, phase, fault), turns[1..])
  {
  }

  lemma CallRunEnds(docs: Docs, w: Write, phase: Phase, turns: seq<Turn>)
    requires phase.Returned? || turns == []
    ensures CallRun(docs, w, phase, turns) == (docs, phase)
  {
  }

  /** The documents when the n-th database call of an upsert runs, as far as others have written. */
  function Before(docs: Docs, turns: seq<Turn>, n: nat): (r: Docs)
    requires n <= |turns|
    ensures docs.Keys <= r.Keys
  {
    if n == 0 then docs else AppliedAll(Before(docs, turns, n - 1), turns[n - 1].others)
  }

  /** One upsert whose writes go through, whatever others write while it waits and even if its read
      fails: it writes exactly once, at its second or third database call, right behind what the
      others have written by then, and returns the document it wrote. It needs the third call
      exactly when it found no document and one has appeared since. */
  lemma UpsertWritesOnce(docs: Docs, w: Write, turns: seq<Turn>)
    requires |turns| == 3 && turns[1].fault == Works && turns[2].fault == Works
    ensures var found := turns[0].fault == Works && w.user in Before(docs, turns, 1);
            var raced := !found && w.user in Before(docs, turns, 2);
            var after := Applied(Before(docs, turns, if raced then 3 else 2), w);
            CallRun(docs, w, Reading, turns) == (after, Returned(Some(after[w.user])))
  {
    var d1 := Before(docs, turns, 1);
    assert Before(docs, turns, 0) == docs && d1 == AppliedAll(docs, turns[0].others);
    assert Before(docs, turns, 2) == AppliedAll(d1, turns[1].others);
    CallRunTurn(docs, w, Reading, turns);
    hide CallRun, Applied, AppliedAll, Before;
    WritesAfterReading(d1, w, turns[0].fault == Works && w.user in d1, turns[1..]);
    assert turns[1..][0] == turns[1] && turns[1..][1] == turns[2];
  }

  /** getById reads every error as null. That is harmless: when nobody else writes, an upsert does the
      same whether its read works or fails. */
  lemma FailedReadHarmless(docs: Docs, w: Write, turns: seq<Turn>)
    requires |turns| == 3 && turns[1].fault == Works && turns[2].fault == Works
    requires forall i | 0 <= i < 3 :: turns[i].others == []
    ensures CallRun(docs, w, Reading, turns) == (Applied(docs, w), Returned(Some(Applied(docs, w)[w.user])))
  {
    assert AppliedAll(docs, []) == docs;
    assert Before(docs, turns, 0) == docs && Before(docs, turns, 1) == docs;
    assert Before(docs, turns, 2) == docs && Before(docs, turns, 3) == docs;
    hide *;
    UpsertWritesOnce(docs, w, turns);
  }

  lemma WritesAfterReading(docs: Docs, w: Write, found: bool, turns: seq<Turn>)
    requires |turns| == 2 && turns[0].fault == Works && turns[1].fault == Works
    requires found ==> w.user in docs
    ensures var d := AppliedAll(docs, turns[0].others);
            var after := Applied(if !found && w.user in d then AppliedAll(d, turns[1].others) else d, w);
            CallRun(docs, w, if found then Updating else Creating, turns) == (after, Returned(Some(after[w.user])))
  {
    var d := AppliedAll(docs, turns[0].others);
    CallRunTurn(docs, w, if found then Updating else Creating, turns);
    hide CallRun, Applied, AppliedAll;
    if !found && w.user in d {
      var after := Applied(AppliedAll(d, turns[1].others), w);
      CallRunTurn(d, w, Updating, turns[1..]);
      CallRunEnds(after, w, Returned(Some(after[w.user])), turns[1..][1..]);
    } else {
      CallRunEnds(Applied(d, w), w, Returned(Some(Applied(d, w)[w.user])), turns[1..]);
    }
  }

  class SubscriptionRepository {
    var docs: Docs

    constructor ()
      ensures docs == map[]
    {
      docs := map[];
    }

    /** The other callers' writes while this one waits for the database. */
    method Await(others: seq<Write>)
      modifies this
      ensures docs == AppliedAll(old(docs), others)
    {
      for i := 0 to |others|
        invariant docs == AppliedAll(old(docs), others[..i])
      {
        assert others[..i + 1][..i] == others[..i];
        docs := Applied(docs, others[i]);
      }
      assert others[..|others|] == others;
    }

    /** create: None stands for the error it throws. */
    method Create(w: Write, fault: Fault) returns (r: Option<Fields>)
      modifies this
      ensures docs == DocsAfter(old(docs), w, Creating, fault)
      ensures r == if fault == Works && w.user !in old(docs) then Some(docs[w.user]) else None
    {
      if fault == FailsBefore || w.user in docs {
        return None;
      }
      docs := docs[w.user := CreateAttrs(w)];
      r := if fault == Works then Some(docs[w.user]) else None;
    }

    /** getById: every error reads as null. */
    method GetById(id: string, fault: Fault) returns (r: Option<Fields>)
      ensures r == if fault == Works && id in docs then Some(docs[id]) else None
    {
      r := if fault == Works && id in docs then Some(docs[id]) else None;
    }

    /** update: null when it fails, also for a document that is not there. */
    method Update(w: Write, fault: Fault) returns (r: Option<Fields>)
      modifies this
      ensures docs == DocsAfter(old(docs), w, Updating, fault)
      ensures r == if fault == Works && w.user in old(docs) then Some(docs[w.user]) else None
    {
      if fault == FailsBefore || w.user !in docs {
        return None;
      }
      docs := docs[w.user := docs[w.user] + Defined(w.updates)];
      r := if fault == Works then Some(docs[w.user]) else None;
    }

    method UpsertForUser(w: Write, turns: seq<Turn>) returns (r: Option<Fields>)
      requires |turns| == 3
      modifies this
      ensures CallRun(old(docs), w, Reading, turns) == (docs, Returned(r))
    {
      hide CallRun, Applied, AppliedAll, CreateAttrs, Defined;
      CallRunTurn(docs, w, Reading, turns);
      Await(turns[0].others);
      var existing := GetById(w.user, turns[0].fault);
      CallRunTurn(docs, w, if existing.Some? then Updating else Creating, turns[1..]);
      Await(turns[1].others);
      if existing.Some? {
        r := Update(w, turns[1].fault);
        CallRunEnds(docs, w, Returned(r), turns[1..][1..]);
        return;
      }
      var created := Create(w, turns[1].fault);
      if created.Some? {
        CallRunEnds(docs, w, Returned(created), turns[1..][1..]);
        return created;
      }
      CallRunTurn(docs, w, Updating, turns[1..][1..]);
      Await(turns[2].others);
      r := Update(w, turns[2].fault);
      CallRunEnds(docs, w, Returned(r), turns[1..][1..][1..]);
    }
  }

  // --- any number of calls at once ---------------------------------------------------------------

  datatype Call = Call(write: Write, phase: Phase)

  datatype Commit = Commit(call: nat, write: Write)

  /** The log lists the writes that reached the database, in the order they did. */
  datatype State = State(docs: Docs, calls: map<nat, Call>, log: seq<Commit>)

  /** A new call begins, or the next database call of a call runs. */
  datatype Event = Begin(call: nat, write: Write) | Proceed(call: nat, fault: Fault)

  const Initial := State(map[], map[], [])

  function Step(s: State, e: Event): State {
    match e
    case Begin(c, w) => if c in s.calls then s else s.(calls := s.calls[c := Call(w, Reading)])
    case Proceed(c, fault) =>
      if c !in s.calls then s
      else
        var Call(w, phase) := s.calls[c];
        State(
          DocsAfter(s.docs, w, phase, fault),
          s.calls[c := Call(w, PhaseAfter(s.docs, w, phase, fault))],
          if Writes(s.docs, w, phase, fault) then s.log + [Commit(c, w)] else s.log)
  }

  function Run(events: seq<Event>): State {
    if events == [] then Initial else Step(Run(events[..|events| - 1]), events[|events| - 1])
  }

  function Replay(log: seq<Commit>): (r: Docs)
    ensures forall i | 0 <= i < |log| :: log[i].write.user in r
  {
    if log == [] then map[] else Applied(Replay(log[..|log| - 1]), log[|log| - 1].write)
  }

  /** The database is what the logged writes, applied one after another, make of an empty one. */
  lemma {:induction false} DocsAreReplay(events: seq<Event>)
    ensures Run(events).docs == Replay(Run(events).log)
  {
    if events != [] {
      DocsAreReplay(events[..|events| - 1]);
      var (s, t) := (Run(events[..|events| - 1]), Run(events));
      hide Applied, Run;
      assert t.log == s.log || t.log[..|t.log| - 1] == s.log;
    }
  }

  // --- linearizability ------------------------------------------------------------------------

  predicate HasCommit(log: seq<Commit>, c: nat) {
    exists i | 0 <= i < |log| :: log[i].call == c
  }

  /** The i-th log entry is the last write of call c, and `result` is the document it left. */
  ghost predicate AnsweredAt(log: seq<Commit>, i: nat, c: nat, w: Write, result: Fields) {
    && i < |log| && log[i] == Commit(c, w)
    && (forall j | i < j < |log| :: log[j].call != c)
    && result == Replay(log[..i + 1])[w.user]
  }

  /** What holds of a call, whatever fails: log entries under its name are its own write, and a
      document it has returned is the one its last write left. */
  ghost predicate CallSound(log: seq<Commit>, c: nat, call: Call) {
    && (forall i | 0 <= i < |log| && log[i].call == c :: log[i].write == call.write)
    && (call.phase.Returned? && call.phase.result.Some? ==>
          exists i: nat :: AnsweredAt(log, i, c, call.write, call.phase.result.value))
  }

  /** What a step does to the calls: a call's own write never changes, a returned call stays as it
      is, and a new log entry comes from the call that proceeds and is that call's write. */
  lemma StepShape(s: State, e: Event)
    ensures var t := Step(s, e);
            && s.log <= t.log && |t.log| <= |s.log| + 1
            && s.calls.Keys <= t.calls.Keys
            && (forall c | c in s.calls :: t.calls[c].write == s.calls[c].write)
            && (forall c | c in s.calls && s.calls[c].phase.Returned? :: t.calls[c] == s.calls[c])
            && (|t.log| > |s.log| ==>
                  && e.Proceed? && e.call in s.calls && !s.calls[e.call].phase.Returned?
                  && t.log == s.log + [Commit(e.call, s.calls[e.call].write)])
  {
    hide Applied, Defined, CreateAttrs;
  }

  lemma {:induction false} OnlyBegunCommit(events: seq<Event>, c: nat)
    requires c !in Run(events).calls
    ensures !HasCommit(Run(events).log, c)
  {
    if events != [] {
      StepShape(Run(events[..|events| - 1]), events[|events| - 1]);
      hide Step;
      OnlyBegunCommit(events[..|events| - 1], c);
    }
  }

  /** Whatever fails, and however the calls interleave. */
  lemma {:induction false} EveryCallSound(events: seq<Event>, c: nat)
    requires c in Run(events).calls
    ensures CallSound(Run(events).log, c, Run(events).calls[c])
  {
    var (earlier, e) := (events[..|events| - 1], events[|events| - 1]);
    var (s, t) := (Run(earlier), Run(events));
    StepShape(s, e);
    if c !in s.calls {
      OnlyBegunCommit(earlier, c);
      hide Run;
    } else {
      EveryCallSound(earlier, c);
      DocsAreReplay(earlier);
      hide Run;
      SoundStep(s, e, c);
    }
  }

  /** A call that has just got a document has just written it. */
  lemma StepAnswers(s: State, e: Event, c: nat)
    requires c in s.calls && !s.calls[c].phase.Returned?
    requires var phase := Step(s, e).calls[c].phase; phase.Returned? && phase.result.Some?
    ensures var w := s.calls[c].write;
            && Step(s, e).log == s.log + [Commit(c, w)]
            && Step(s, e).calls[c].phase.result.value == Applied(s.docs, w)[w.user]
  {
    hide Applied, Defined, CreateAttrs;
  }

  lemma AnswerKept(log: seq<Commit>, more: seq<Commit>, i: nat, c: nat, w: Write, result: Fields)
    requires AnsweredAt(log, i, c, w, result) && log <= more
    requires forall j | |log| <= j < |more| :: more[j].call != c
    ensures AnsweredAt(more, i, c, w, result)
  {
    hide Replay;
    assert more[..i + 1] == log[..i + 1];
  }

  lemma ReplayLast(log: seq<Commit>, last: Commit)
    ensures Replay(log + [last]) == Applied(Replay(log), last.write)
  {
    assert (log + [last])[..|log + [last]| - 1] == log;
    hide Applied;
  }

  lemma AnswerNew(log: seq<Commit>, docs: Docs, c: nat, w: Write)
    requires docs == Replay(log)
    ensures AnsweredAt(log + [Commit(c, w)], |log|, c, w, Applied(docs, w)[w.user])
  {
    ReplayLast(log, Commit(c, w));
    hide Replay, Applied;
    var all := log + [Commit(c, w)];
    assert all[..|log| + 1] == all;
  }

  lemma SoundStep(s: State, e: Event, c: nat)
    requires c in s.calls && CallSound(s.log, c, s.calls[c]) && s.docs == Replay(s.log)
    ensures CallSound(Step(s, e).log, c, Step(s, e).calls[c])
  {
    var t := Step(s, e);
    StepShape(s, e);
    var call := t.calls[c];
    if call.phase.Returned? && call.phase.result.Some? {
      var result := call.phase.result.value;
      if s.calls[c].phase.Returned? {
        hide Step, Replay, Applied, AnsweredAt;
        var i: nat :| AnsweredAt(s.log, i, c, call.write, result);
        AnswerKept(s.log, t.log, i, c, call.write, result);
      } else {
        StepAnswers(s, e, c);
        AnswerNew(s.log, s.docs, c, call.write);
        hide Step, Applied, Replay, AnsweredAt;
      }
    } else {
      hide Step, Replay, Applied, AnsweredAt;
    }
  }

  // --- while the writes go through ---------------------------------------------------------------

  /** Reads may fail, creates and updates do not, except that a create finds the id taken. */
  ghost predicate WritesWork(events: seq<Event>) {
    events == [] ||
    var (s, e) := (Run(events[..|events| - 1]), events[|events| - 1]);
    && WritesWork(events[..|events| - 1])
    && (e.Proceed? && e.call in s.calls && !s.calls[e.call].phase.Reading? ==> e.fault == Works)
  }

  /** The one log entry of a call. */
  ghost predicate CommittedOnceAt(log: seq<Commit>, i: nat, c: nat) {
    i < |log| && (forall j | 0 <= j < |log| :: log[j].call == c <==> j == i)
  }

  ghost predicate InOrder(s: State, c: nat) {
    c in s.calls ==>
      match s.calls[c].phase
      case Returned(result) => result.Some? && exists i: nat :: CommittedOnceAt(s.log, i, c)
      case Updating => s.calls[c].write.user in s.docs && !HasCommit(s.log, c)
      case _ => !HasCommit(s.log, c)
  }

  lemma InOrderStep(s: State, e: Event, c: nat)
    requires c in s.calls && InOrder(s, c)
    requires e.Proceed? && e.call in s.calls && !s.calls[e.call].phase.Reading? ==> e.fault == Works
    ensures InOrder(Step(s, e), c)
  {
    var t := Step(s, e);
    StepShape(s, e);
    hide Applied, Defined, CreateAttrs;
    if s.calls[c].phase.Returned? {
      hide Step;
      var i: nat :| CommittedOnceAt(s.log, i, c);
      assert CommittedOnceAt(t.log, i, c);
    } else if t.calls[c].phase.Returned? {
      assert CommittedOnceAt(t.log, |s.log|, c);
    }
  }

  lemma {:induction false} CallsInOrder(events: seq<Event>, c: nat)
    requires WritesWork(events)
    ensures InOrder(Run(events), c)
  {
    if events != [] {
      var (earlier, e) := (events[..|events| - 1], events[|events| - 1]);
      CallsInOrder(earlier, c);
      if c in Run(earlier).calls {
        InOrderStep(Run(earlier), e, c);
      } else {
        OnlyBegunCommit(earlier, c);
        hide Run;
      }
    }
  }

  /** While the writes go through, concurrent upserts are linearizable: a call that has returned has
      written exactly once, and its result is the document that its write left when all the logged
      writes ran one after another, each alone. */
  lemma Linearizable(events: seq<Event>, c: nat)
    requires WritesWork(events)
    requires c in Run(events).calls && Run(events).calls[c].phase.Returned?
    ensures var (log, call) := (Run(events).log, Run(events).calls[c]);
            && Run(events).docs == Replay(log)
            && call.phase.result.Some?
            && exists i: nat :: CommittedOnceAt(log, i, c) && AnsweredAt(log, i, c, call.write, call.phase.result.value)
  {
    DocsAreReplay(events);
    CallsInOrder(events, c);
    EveryCallSound(events, c);
    hide Run, Replay, Step;
    var (log, call) := (Run(events).log, Run(events).calls[c]);
    var i: nat :| CommittedOnceAt(log, i, c);
    var k: nat :| AnsweredAt(log, k, c, call.write, call.phase.result.value);
    assert log[k].call == c;
  }

  /** The order of the log is the order in which callers see the calls happen: a call that returned
      before another began has written before it. */
  lemma {:induction false} RealTimeOrder(events: seq<Event>, n: nat, a: nat, b: nat)
    requires n <= |events|
    requires a in Run(events[..n]).calls && Run(events[..n]).calls[a].phase.Returned?
    requires b !in Run(events[..n]).calls
    ensures var log := Run(events).log;
            forall i, j | 0 <= i < |log| && 0 <= j < |log| && log[i].call == a && log[j].call == b :: i < j
    ensures a in Run(events).calls && Run(events).calls[a] == Run(events[..n]).calls[a]
  {
    if n == |events| {
      assert events[..n] == events;
      OnlyBegunCommit(events, b);
      hide Run;
    } else {
      var earlier := events[..|events| - 1];
      assert earlier[..n] == events[..n];
      RealTimeOrder(earlier, n, a, b);
      StepShape(Run(earlier), events[|events| - 1]);
      hide Step;
    }
  }

  // --- what the document holds ------------------------------------------------------------------

  /** A create is the default document with the updates applied, exactly when no update field is
      undefined on purpose where the default document has a value. */
  lemma CreateIsUpdateOfDefaults(w: Write)
    requires w.Valid()
    ensures CreateAttrs(w) == Defaults["user_id" := Words(w.user)] + Defined(w.updates)
            <==> (forall key | key in Defaults && key in w.updates :: w.updates[key].Some?)
  {
    var (a, b) := (CreateAttrs(w), Defaults["user_id" := Words(w.user)] + Defined(w.updates));
    if key :| key in Defaults && key in w.updates && w.updates[key] == None {
      assert key !in a && key in b;
    } else {
      assert a.Keys == b.Keys;
    }
  }

  predicate HasWrite(log: seq<Commit>, user: string) {
    log != [] && (log[|log| - 1].write.user == user || HasWrite(log[..|log| - 1], user))
  }

  /** What a create gives a field that its updates do not define. */
  function DefaultField(w: Write, field: string): Option<Value> {
    if field in w.updates then None
    else if field == "user_id" then Some(Words(w.user))
    else if field in Defaults then Some(Defaults[field])
    else None
  }

  /** The value the newest write of a user's calls gives a field; a field nobody has written keeps
      what the create gave it. */
  function LastWritten(log: seq<Commit>, user: string, field: string): Option<Value> {
    if log == [] then None
    else
      var (earlier, w) := (log[..|log| - 1], log[|log| - 1].write);
      if w.user != user then LastWritten(earlier, user, field)
      else if field in w.updates && w.updates[field].Some? then w.updates[field]
      else if HasWrite(earlier, user) then LastWritten(earlier, user, field)
      else DefaultField(w, field)
  }

  function FieldOf(docs: Docs, user: string, field: string): Option<Value> {
    if user in docs && field in docs[user] then Some(docs[user][field]) else None
  }

  lemma FieldStep(docs: Docs, w: Write, user: string, field: string)
    ensures FieldOf(Applied(docs, w), user, field) ==
            if w.user != user then FieldOf(docs, user, field)
            else if field in w.updates && w.updates[field].Some? then w.updates[field]
            else if user in docs then FieldOf(docs, user, field)
            else DefaultField(w, field)
  {
  }

  /** Every field of a user's document holds what the last write that defines it says. */
  lemma {:induction false} FieldIsLastWritten(log: seq<Commit>, user: string, field: string)
    ensures user in Replay(log) <==> HasWrite(log, user)
    ensures FieldOf(Replay(log), user, field) == LastWritten(log, user, field)
  {
    if log != [] {
      var (earlier, w) := (log[..|log| - 1], log[|log| - 1].write);
      FieldIsLastWritten(earlier, user, field);
      FieldStep(Replay(earlier), w, user, field);
      assert Replay(log) == Applied(Replay(earlier), w);
      hide Replay, Applied, FieldOf, DefaultField;
    }
  }

  /** A write of the user's that sets the field to the value. */
  predicate SetsTo(log: seq<Commit>, user: string, field: string, v: Value) {
    exists i | 0 <= i < |log| ::
      log[i].write.user == user && field in log[i].write.updates && log[i].write.updates[field] == Some(v)
  }

  /** What a new document has without being told. */
  predicate Initially(user: string, field: string, v: Value) {
    || (field == "user_id" && v == Words(user))
    || (field == "plan" && v == Words("free"))
    || (field == "status" && v == Words("none"))
    || (field == "cancel_at_period_end" && v == Flag(false))
    || (field == "trial_used" && v == Flag(false))
    || (field == "last_event_created" && v == Number(0))
  }

  /** Nothing in a document comes from nowhere: every field was set so by one of the user's own writes, or
      is as a new free subscription has it. */
  lemma {:induction false} FieldHasSource(log: seq<Commit>, user: string, field: string, v: Value)
    requires FieldOf(Replay(log), user, field) == Some(v)
    ensures SetsTo(log, user, field, v) || Initially(user, field, v)
  {
    if log != [] {
      var (earlier, w) := (log[..|log| - 1], log[|log| - 1].write);
      FieldStep(Replay(earlier), w, user, field);
      assert Replay(log) == Applied(Replay(earlier), w);
      if FieldOf(Replay(earlier), user, field) == Some(v) {
        FieldHasSource(earlier, user, field, v);
        assert forall i | 0 <= i < |earlier| :: earlier[i] == log[i];
      }
      hide Replay, Applied, FieldOf;
    }
  }

  /** So nobody is on plan "pro" whom no write put there. */
  lemma ProOnlyWhenWritten(log: seq<Commit>, user: string)
    ensures FieldOf(Replay(log), user, "plan") == Some(Words("pro")) ==> SetsTo(log, user, "plan", Words("pro"))
  {
    if FieldOf(Replay(log), user, "plan") == Some(Words("pro")) {
      FieldHasSource(log, user, "plan", Words("pro"));
    }
    hide FieldOf, Replay;
  }

  /** None of the user's writes mentions the field. */
  ghost predicate LeftOut(log: seq<Commit>, user: string, field: string) {
    forall i | 0 <= i < |log| && log[i].write.user == user :: field !in log[i].write.updates
  }

  /** A field that the user's writes leave out is as a new free subscription has it. */
  lemma {:induction false} UntouchedField(log: seq<Commit>, user: string, field: string, v: Value)
    requires user in Replay(log) && Initially(user, field, v) && LeftOut(log, user, field)
    ensures FieldOf(Replay(log), user, field) == Some(v)
  {
    var (earlier, w) := (log[..|log| - 1], log[|log| - 1].write);
    FieldStep(Replay(earlier), w, user, field);
    assert Replay(log) == Applied(Replay(earlier), w);
    if user in Replay(earlier) {
      UntouchedField(earlier, user, field, v);
    }
    hide Replay, Applied, FieldOf;
  }

  /** A document whose writes leave out what a new one has by itself is a free subscription that is not
      active. */
  lemma UntouchedIsFree(log: seq<Commit>, user: string)
    requires user in Replay(log)
    requires LeftOut(log, user, "plan") && LeftOut(log, user, "status") && LeftOut(log, user, "cancel_at_period_end")
    requires LeftOut(log, user, "trial_used") && LeftOut(log, user, "last_event_created")
    ensures var docs := Replay(log);
            && FieldOf(docs, user, "plan") == Some(Words("free"))
            && FieldOf(docs, user, "status") == Some(Words("none"))
            && FieldOf(docs, user, "cancel_at_period_end") == Some(Flag(false))
            && FieldOf(docs, user, "trial_used") == Some(Flag(false))
            && FieldOf(docs, user, "last_event_created") == Some(Number(0))
  {
    assert Initially(user, "plan", Words("free")) && Initially(user, "status", Words("none"));
    assert Initially(user, "cancel_at_period_end", Flag(false)) && Initially(user, "trial_used", Flag(false));
    assert Initially(user, "last_event_created", Number(0));
    hide *;
    UntouchedField(log, user, "plan", Words("free"));
    UntouchedField(log, user, "status", Words("none"));
    UntouchedField(log, user, "cancel_at_period_end", Flag(false));
    UntouchedField(log, user, "trial_used", Flag(false));
    UntouchedField(log, user, "last_event_created", Number(0));
  }

  /** Every document carries its own id as its user id. */
  lemma {:induction false} UserIdIsDocumentId(log: seq<Commit>, user: string)
    requires forall i | 0 <= i < |log| :: log[i].write.Valid()
    requires user in Replay(log)
    ensures "user_id" in Replay(log)[user] && Replay(log)[user]["user_id"] == Words(user)
  {
    if user in Replay(log[..|log| - 1]) {
      UserIdIsDocumentId(log[..|log| - 1], user);
    }
  }
}

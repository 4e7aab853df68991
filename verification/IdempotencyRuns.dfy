/** Runs of the idempotency protocol: any number of requests whose arrivals, responses, aborted
    connections, evictions and clock ticks interleave. */
module IdempotencyRuns {
  import opened Text
  import opened Json
  import opened Idempotency

  /** An admitted request. `ended` says that its response was sent, `aborted` that its connection
      closed before, `evicted` that the cache dropped its entry. */
  datatype Request = Request(key: string, startedAt: int, ttl: nat, ended: bool, aborted: bool, evicted: bool)

  datatype State = State(now: int, entries: Entries, requests: map<nat, Request>, answers: map<nat, Outcome>)

  datatype Event =
    | Arrive(id: nat, key: string, ttl: nat)
    | Respond(id: nat, statusCode: int, body: Option<Value>)
    | EndWithoutBody(id: nat)
    | Close(id: nat)
    | Evict(key: string)
    | Tick(ms: nat)

  const INITIAL := State(0, map[], map[], map[])

  predicate Enabled(s: State, e: Event) {
    match e
    case Arrive(id, _, _) => id !in s.requests && id !in s.answers
    case Respond(id, _, _) => id in s.requests && !s.requests[id].ended
    case EndWithoutBody(id) => id in s.requests && !s.requests[id].ended
    case Close(id) => id in s.requests
    case _ => true
  }

  /** The events: a request passing the middleware, the first json() or send() of its handler, an
      end() that bypasses both, the close listener, the cache dropping an entry, and the clock. */
  function Step(s: State, e: Event): State
    requires Enabled(s, e)
  {
    match e
    case Arrive(id, key, ttl) =>
      var outcome := Meet(s.entries, key, s.now);
      if outcome.Admitted? then
        s.(entries := s.entries[key := Stored(InProgress, s.now + IN_PROGRESS_TTL_MS)],
           requests := s.requests[id := Request(key, s.now, ttl, false, false, false)],
           answers := s.answers[id := outcome])
      else s.(answers := s.answers[id := outcome])
    case Respond(id, statusCode, body) =>
      var r := s.requests[id];
      s.(entries := Committed(s.entries, r.key, statusCode, body, r.ttl, s.now),
         requests := s.requests[id := r.(ended := true)])
    case EndWithoutBody(id) => s.(requests := s.requests[id := s.requests[id].(ended := true)])
    case Close(id) =>
      var r := s.requests[id];
      if r.ended then s
      else s.(entries := s.entries - {r.key}, requests := s.requests[id := r.(aborted := true)])
    case Evict(key) =>
      s.(entries := s.entries - {key},
         requests := map id | id in s.requests ::
           var r := s.requests[id]; if r.key == key then r.(evicted := true) else r)
    case Tick(ms) => s.(now := s.now + ms)
  }

  ghost predicate EnabledRun(s: State, events: seq<Event>)
    decreases |events|
  {
    events != [] ==> Enabled(s, events[0]) && EnabledRun(Step(s, events[0]), events[1..])
  }

  ghost function Run(s: State, events: seq<Event>): State
    requires EnabledRun(s, events)
    decreases |events|
  {
    if events == [] then s else Run(Step(s, events[0]), events[1..])
  }

  // --- one handler at a time ------------------------------------------------------------------

  predicate Running(s: State, id: nat, key: string) {
    id in s.requests && s.requests[id].key == key && !s.requests[id].ended
  }

  /** A running request whose entry no longer guards it: it overran the in-progress time, its client
      went away, or the cache dropped the entry. */
  predicate Lapsed(s: State, id: nat)
    requires id in s.requests
  {
    var r := s.requests[id];
    s.now > r.startedAt + IN_PROGRESS_TTL_MS || r.aborted || r.evicted
  }

  ghost predicate OneRunning(s: State, key: string) {
    forall i, j | Running(s, i, key) && Running(s, j, key) :: i == j
  }

  /** A request arrives on the key while a running one has lapsed. */
  ghost predicate Overlaps(s: State, e: Event, key: string) {
    e.Arrive? && e.key == key && exists id | Running(s, id, key) :: Lapsed(s, id)
  }

  /** The entry of a key with a running request: in progress until it lapses, and nothing after. */
  ghost predicate Guarded(s: State, key: string) {
    forall id | Running(s, id, key) ::
      && s.requests[id].startedAt <= s.now
      && if Lapsed(s, id) then Lookup(s.entries, key, s.now) == None
         else key in s.entries
              && s.entries[key] == Stored(InProgress, s.requests[id].startedAt + IN_PROGRESS_TTL_MS)
  }

  /** From a state with one running request at most, an event keeps it so exactly when it is not an
      arrival that meets a lapsed one. */
  lemma StepOneRunning(s: State, e: Event, key: string)
    requires Enabled(s, e) && OneRunning(s, key) && Guarded(s, key)
    ensures OneRunning(Step(s, e), key) <==> !Overlaps(s, e, key)
    ensures OneRunning(Step(s, e), key) ==> Guarded(Step(s, e), key)
  {
    match e {
      case Arrive(id, k, ttl) => ArriveOneRunning(s, id, k, ttl, key);
      case Tick(ms) => TickOneRunning(s, ms, key);
      case Evict(k) => EvictOneRunning(s, k, key);
      case _ => EndOneRunning(s, e, key);
    }
  }

  lemma ArriveOneRunning(s: State, id: nat, k: string, ttl: nat, key: string)
    requires Enabled(s, Arrive(id, k, ttl)) && OneRunning(s, key) && Guarded(s, key)
    ensures var e := Arrive(id, k, ttl);
            && (OneRunning(Step(s, e), key) <==> !Overlaps(s, e, key))
            && (OneRunning(Step(s, e), key) ==> Guarded(Step(s, e), key))
  {
    var s' := Step(s, Arrive(id, k, ttl));
    assert forall i | i != id :: Running(s', i, key) == Running(s, i, key);
    if k == key && Meet(s.entries, key, s.now).Admitted? {
      assert Running(s', id, key);
      if i :| Running(s, i, key) {
        assert Lapsed(s, i) && i != id && Running(s', i, key);
      }
    }
  }

  lemma TickOneRunning(s: State, ms: nat, key: string)
    requires OneRunning(s, key) && Guarded(s, key)
    ensures OneRunning(Step(s, Tick(ms)), key) && Guarded(Step(s, Tick(ms)), key)
  {
    var s' := Step(s, Tick(ms));
    assert forall i :: Running(s', i, key) == Running(s, i, key);
  }

  lemma EvictOneRunning(s: State, k: string, key: string)
    requires OneRunning(s, key) && Guarded(s, key)
    ensures OneRunning(Step(s, Evict(k)), key) && Guarded(Step(s, Evict(k)), key)
  {
    var s' := Step(s, Evict(k));
    assert forall i :: Running(s', i, key) == Running(s, i, key);
  }

  lemma EndOneRunning(s: State, e: Event, key: string)
    requires Enabled(s, e) && (e.Respond? || e.EndWithoutBody? || e.Close?)
    requires OneRunning(s, key) && Guarded(s, key)
    ensures OneRunning(Step(s, e), key) && Guarded(Step(s, e), key)
  {
    var s' := Step(s, e);
    assert forall i | i != e.id :: Running(s', i, key) == Running(s, i, key);
    assert Running(s', e.id, key) ==> Running(s, e.id, key);
    forall i | Running(s', i, key) && i != e.id
      ensures s'.requests[i] == s.requests[i] && (key in s'.entries <==> key in s.entries)
      ensures key in s.entries ==> s'.entries[key] == s.entries[key]
    {
      assert Running(s, i, key);
      assert s.requests[e.id].key == key ==> !Running(s, e.id, key);
    }
  }

  /** In a whole run, the handlers of a key never overlap if and only if no request arrives on the
      key while a running one has overrun its time, lost its client or lost its entry. */
  lemma {:induction false} MutualExclusionFrom(s: State, events: seq<Event>, key: string)
    requires EnabledRun(s, events) && OneRunning(s, key) && Guarded(s, key)
    ensures AlwaysOneRunning(s, events, key) <==> NeverOverlaps(s, events, key)
    ensures AlwaysOneRunning(s, events, key) ==> Guarded(Run(s, events), key) && OneRunning(Run(s, events), key)
    decreases |events|
  {
    hide OneRunning, Guarded, Overlaps, Step, Enabled;
    if events != [] {
      StepOneRunning(s, events[0], key);
      if OneRunning(Step(s, events[0]), key) {
        MutualExclusionFrom(Step(s, events[0]), events[1..], key);
      }
    }
  }

  ghost predicate AlwaysOneRunning(s: State, events: seq<Event>, key: string)
    requires EnabledRun(s, events)
    decreases |events|
  {
    OneRunning(s, key) && (events != [] ==> AlwaysOneRunning(Step(s, events[0]), events[1..], key))
  }

  ghost predicate NeverOverlaps(s: State, events: seq<Event>, key: string)
    requires EnabledRun(s, events)
    decreases |events|
  {
    events != [] ==> !Overlaps(s, events[0], key) && NeverOverlaps(Step(s, events[0]), events[1..], key)
  }

  lemma MutualExclusion(events: seq<Event>, key: string)
    requires EnabledRun(INITIAL, events)
    ensures AlwaysOneRunning(INITIAL, events, key) <==> NeverOverlaps(INITIAL, events, key)
  {
    MutualExclusionFrom(INITIAL, events, key);
  }

  /** An aborted connection is enough for two handlers to run at once, although neither is slow. */
  lemma AbortedClientExample()
    ensures var events := [Arrive(0, "k", 1), Close(0), Arrive(1, "k", 1)];
            EnabledRun(INITIAL, events) && !OneRunning(Run(INITIAL, events), "k")
  {
    var s1 := Step(INITIAL, Arrive(0, "k", 1));
    var s2 := Step(s1, Close(0));
    var s3 := Step(s2, Arrive(1, "k", 1));
    RunThree(INITIAL, Arrive(0, "k", 1), Close(0), Arrive(1, "k", 1));
    assert Running(s3, 0, "k") && Running(s3, 1, "k");
  }

  lemma RunThree(s: State, a: Event, b: Event, c: Event)
    requires Enabled(s, a) && Enabled(Step(s, a), b) && Enabled(Step(Step(s, a), b), c)
    ensures EnabledRun(s, [a, b, c]) && Run(s, [a, b, c]) == Step(Step(Step(s, a), b), c)
  {
    hide Step, Enabled;
    assert [a, b, c][1..] == [b, c] && [b, c][1..] == [c] && [c][1..] == [];
    assert EnabledRun(Step(s, a), [b, c]) && Run(Step(s, a), [b, c]) == Step(Step(Step(s, a), b), c) by {
      assert EnabledRun(Step(Step(s, a), b), [c]);
      assert Run(Step(Step(s, a), b), [c]) == Step(Step(Step(s, a), b), c);
    }
  }

  // --- what a request gets that meets another ---------------------------------------------------

  /** In a run whose requests have not overlapped on the key, a request that meets a running one is told
      of the conflict and nothing else changes, unless that one has lapsed: then it is admitted. */
  lemma RunningMeansConflict(events: seq<Event>, key: string, i: nat, id: nat, ttl: nat)
    requires EnabledRun(INITIAL, events) && NeverOverlaps(INITIAL, events, key)
    requires Running(Run(INITIAL, events), i, key) && Enabled(Run(INITIAL, events), Arrive(id, key, ttl))
    ensures var s := Run(INITIAL, events);
            var t := Step(s, Arrive(id, key, ttl));
            if Lapsed(s, i) then t.answers[id] == Admitted(key)
            else t == s.(answers := s.answers[id := Conflict])
  {
    assert OneRunning(INITIAL, key) && Guarded(INITIAL, key);
    hide NeverOverlaps, AlwaysOneRunning, EnabledRun, OneRunning, Lookup;
    MutualExclusion(events, key);
    MutualExclusionFrom(INITIAL, events, key);
    hide Run;
  }

  /** When the request last admitted on a key arrived; None once its entry was replaced or dropped: a
      request of the key has been answered, an unanswered one has lost its client, or the cache has
      dropped the entry. */
  ghost function HeldSince(s: State, events: seq<Event>, key: string, held: Option<int>): Option<int>
    requires EnabledRun(s, events)
    decreases |events|
  {
    if events == [] then held else HeldSince(Step(s, events[0]), events[1..], key, Hold(s, events[0], key, held))
  }

  function Hold(s: State, e: Event, key: string, held: Option<int>): Option<int>
    requires Enabled(s, e)
  {
    match e
    case Arrive(id, k, _) => if k == key && id in Step(s, e).requests then Some(s.now) else held
    case Respond(id, _, _) => if s.requests[id].key == key then None else held
    case Close(id) => if s.requests[id].key == key && !s.requests[id].ended then None else held
    case Evict(k) => if k == key then None else held
    case _ => held
  }

  ghost predicate HeldEntry(s: State, key: string, held: Option<int>) {
    match held
    case Some(since) => key in s.entries && s.entries[key] == Stored(InProgress, since + 60_000)
    case None => key in s.entries ==> s.entries[key].entry.Completed?
  }

  lemma {:induction false} HeldFrom(s: State, events: seq<Event>, key: string, held: Option<int>)
    requires EnabledRun(s, events) && HeldEntry(s, key, held)
    ensures HeldEntry(Run(s, events), key, HeldSince(s, events, key, held))
    decreases |events|
  {
    if events != [] {
      HoldStep(s, events[0], key, held);
      hide Step, Enabled, Hold, HeldEntry;
      HeldFrom(Step(s, events[0]), events[1..], key, Hold(s, events[0], key, held));
    }
  }

  lemma HoldStep(s: State, e: Event, key: string, held: Option<int>)
    requires Enabled(s, e) && HeldEntry(s, key, held)
    ensures HeldEntry(Step(s, e), key, Hold(s, e, key, held))
  {
  }

  /** In every run, whatever overlaps: a request is told of a conflict if and only if the request last
      admitted on its key arrived at most a minute ago and its entry was not replaced or dropped since;
      nothing else changes then. Otherwise it is admitted or gets a committed response, and it never
      passes unguarded. */
  lemma ConflictExactly(events: seq<Event>, key: string, id: nat, ttl: nat)
    requires EnabledRun(INITIAL, events) && Enabled(Run(INITIAL, events), Arrive(id, key, ttl))
    ensures var (s, held) := (Run(INITIAL, events), HeldSince(INITIAL, events, key, None));
            var t := Step(s, Arrive(id, key, ttl));
            && (t.answers[id] == Conflict <==> held.Some? && s.now <= held.value + 60_000)
            && (t.answers[id] == Conflict || t.answers[id].Replay? || t.answers[id] == Admitted(key))
            && (id in t.requests <==> t.answers[id].Admitted?)
            && (!t.answers[id].Admitted? ==> t == s.(answers := s.answers[id := t.answers[id]]))
  {
    assert HeldEntry(INITIAL, key, None);
    HeldFrom(INITIAL, events, key, None);
    hide Run, HeldSince, EnabledRun;
  }

  /** After an overlap a request can meet a running one that has not lapsed and get a response: that of
      the request whose client went away. */
  lemma OverlapExample()
    ensures var events := [Arrive(0, "k", 1), Close(0), Arrive(1, "k", 1), Respond(0, 200, None)];
            && EnabledRun(INITIAL, events)
            && var s := Run(INITIAL, events);
               && Running(s, 1, "k") && !Lapsed(s, 1)
               && Step(s, Arrive(2, "k", 1)).answers[2] == Replay(200, None)
  {
    var (a, b, c, d) := (Arrive(0, "k", 1), Close(0), Arrive(1, "k", 1), Respond(0, 200, None));
    var s1 := Step(INITIAL, a);
    var s3 := Step(Step(s1, b), c);
    assert Enabled(s3, d);
    assert [a, b, c, d][1..] == [b, c, d];
    RunThree(s1, b, c, d);
    assert Run(INITIAL, [a, b, c, d]) == Step(s3, d);
  }

  // --- replaying a committed response ---------------------------------------------------------

  /** The key holds a committed response until a time, and no handler runs on it. */
  ghost predicate Settled(s: State, key: string, response: Entry, until: int) {
    && key in s.entries && s.entries[key] == Stored(response, until)
    && forall id :: !Running(s, id, key)
  }

  /** A response below 500 from the one running request settles its key for the response's lifetime. */
  lemma ResponseSettles(s: State, id: nat, statusCode: int, body: Option<Value>)
    requires Enabled(s, Respond(id, statusCode, body)) && statusCode < 500
    requires OneRunning(s, s.requests[id].key)
    ensures var r := s.requests[id];
            Settled(Step(s, Respond(id, statusCode, body)), r.key, Completed(statusCode, body), s.now + r.ttl)
  {
    var s' := Step(s, Respond(id, statusCode, body));
    var key := s.requests[id].key;
    assert Running(s, id, key);
    forall i ensures !Running(s', i, key) {
      assert i != id ==> Running(s', i, key) == Running(s, i, key);
    }
  }

  /** A server error frees the key: the next request on it is handled anew. */
  lemma ServerErrorFreesKey(s: State, id: nat, statusCode: int, body: Option<Value>, next: nat, ttl: nat)
    requires Enabled(s, Respond(id, statusCode, body)) && statusCode >= 500
    requires next !in s.requests && next !in s.answers
    ensures var (s', key) := (Step(s, Respond(id, statusCode, body)), s.requests[id].key);
            Step(s', Arrive(next, key, ttl)).answers[next] == Admitted(key)
  {
  }

  lemma StepSettled(s: State, e: Event, key: string, response: Entry, until: int)
    requires Enabled(s, e) && Settled(s, key, response, until) && e != Evict(key) && response.Completed?
    requires s.now <= until
    ensures Settled(Step(s, e), key, response, until)
    ensures e.Arrive? && e.key == key ==>
              Step(s, e).answers[e.id] == Replay(response.statusCode, response.body)
  {
    var s' := Step(s, e);
    match e {
      case Arrive(id, k, _) =>
        assert forall i | i != id :: Running(s', i, key) == Running(s, i, key);
        assert !Running(s', id, key);
      case Evict(_) => assert forall i :: Running(s', i, key) == Running(s, i, key);
      case Tick(_) => assert forall i :: Running(s', i, key) == Running(s, i, key);
      case _ =>
        assert forall i | i != e.id :: Running(s', i, key) == Running(s, i, key);
        assert !Running(s, e.id, key) && !Running(s', e.id, key);
    }
  }

  /** Every arrival on the key is answered by this replay. */
  ghost predicate AllReplayed(s: State, events: seq<Event>, key: string, response: Entry)
    requires EnabledRun(s, events) && response.Completed?
    decreases |events|
  {
    events != [] ==>
      && (events[0].Arrive? && events[0].key == key ==>
            Step(s, events[0]).answers[events[0].id] == Replay(response.statusCode, response.body))
      && AllReplayed(Step(s, events[0]), events[1..], key, response)
  }

  lemma {:induction false} ClockOnlyAdvances(s: State, events: seq<Event>)
    requires EnabledRun(s, events)
    ensures s.now <= Run(s, events).now
    decreases |events|
  {
    if events != [] {
      assert s.now <= Step(s, events[0]).now;
      ClockOnlyAdvances(Step(s, events[0]), events[1..]);
    }
  }

  /** While a settled key has not expired and is not evicted, every request on it is answered with the
      committed status and body and no handler runs, whatever else happens. */
  lemma {:induction false} SettledUntilExpiry(s: State, events: seq<Event>, key: string, response: Entry, until: int)
    requires EnabledRun(s, events) && Settled(s, key, response, until) && response.Completed?
    requires Evict(key) !in events && Run(s, events).now <= until
    ensures AllReplayed(s, events, key, response) && Settled(Run(s, events), key, response, until)
    decreases |events|
  {
    hide Step, Enabled, Settled;
    if events != [] {
      ClockOnlyAdvances(s, events);
      ClockOnlyAdvances(Step(s, events[0]), events[1..]);
      StepSettled(s, events[0], key, response, until);
      SettledUntilExpiry(Step(s, events[0]), events[1..], key, response, until);
    }
  }

  /** The protocol end to end: if no request overlapped a lapsed one on the key, then from a response
      below 500 until its lifetime ends every request on the key gets that response again. */
  lemma CommittedResponseIsReplayed(
    before: seq<Event>, id: nat, statusCode: int, body: Option<Value>, after: seq<Event>, key: string)
    requires EnabledRun(INITIAL, before) && NeverOverlaps(INITIAL, before, key)
    requires var s := Run(INITIAL, before);
             && Enabled(s, Respond(id, statusCode, body)) && statusCode < 500 && s.requests[id].key == key
             && EnabledRun(Step(s, Respond(id, statusCode, body)), after)
             && Evict(key) !in after
             && Run(Step(s, Respond(id, statusCode, body)), after).now <= s.now + s.requests[id].ttl
    ensures var s' := Step(Run(INITIAL, before), Respond(id, statusCode, body));
            && AllReplayed(s', after, key, Completed(statusCode, body))
            && forall i :: !Running(Run(s', after), i, key)
  {
    MutualExclusion(before, key);
    assert OneRunning(INITIAL, key) && Guarded(INITIAL, key);
    hide NeverOverlaps, AlwaysOneRunning, EnabledRun, OneRunning, Guarded, AllReplayed, Lookup, Committed, Meet;
    MutualExclusionFrom(INITIAL, before, key);
    var s := Run(INITIAL, before);
    ResponseSettles(s, id, statusCode, body);
    SettledUntilExpiry(Step(s, Respond(id, statusCode, body)), after, key, Completed(statusCode, body),
                       s.now + s.requests[id].ttl);
  }
}

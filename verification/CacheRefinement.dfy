/** The cache of the idempotency protocol is the LRU cache of src/utils/cache.ts: seen as a map from keys
    to entries, its operations are the protocol's, except that a write may evict another key first. */
module CacheRefinement {
  import opened Text
  import Json
  import opened LruCache
  import I = Idempotency
  import R = IdempotencyRuns

  type Slots = seq<Slot<I.Entry>>

  function KeysIn(slots: Slots): set<string> {
    set i | 0 <= i < |slots| :: slots[i].key
  }

  function Seen(slot: Slot<I.Entry>): I.Stored {
    I.Stored(slot.value, slot.expiresAt)
  }

  /** The map the slots stand for. */
  function EntriesOf(slots: Slots): I.Entries {
    map key | key in KeysIn(slots) && Find(slots, key).Some? :: Seen(Find(slots, key).value)
  }

  lemma EntryAt(slots: Slots, key: string)
    ensures key in EntriesOf(slots) <==> Find(slots, key).Some?
    ensures Find(slots, key).Some? ==> EntriesOf(slots)[key] == Seen(Find(slots, key).value)
  {
    if Find(slots, key).Some? {
      var i :| 0 <= i < |slots| && slots[i].key == key;
      assert key in KeysIn(slots);
    }
  }

  lemma {:induction false} FindRemoved(slots: Slots, key: string, other: string)
    requires DistinctKeys(slots)
    ensures Find(Remove(slots, key), other) == if other == key then None else Find(slots, other)
  {
    if other == key {
      RemoveKeeps(slots, key);
    } else if slots != [] && slots[0].key != key {
      FindRemoved(slots[1..], key, other);
    }
  }

  lemma {:induction false} FindAppended(slots: Slots, slot: Slot<I.Entry>, other: string)
    requires !HasKey(slots, slot.key)
    ensures Find(slots + [slot], other) == if other == slot.key then Some(slot) else Find(slots, other)
  {
    if slots == [] {
      assert slots + [slot] == [slot] && [slot][1..] == [];
    } else {
      assert (slots + [slot])[0] == slots[0] && (slots + [slot])[1..] == slots[1..] + [slot];
      assert forall i | 0 <= i < |slots| - 1 :: slots[1..][i] == slots[i + 1];
      assert slots[0].key != slot.key;
      FindAppended(slots[1..], slot, other);
    }
  }

  /** delete() is the protocol's delete. */
  lemma DeleteRefines(slots: Slots, key: string)
    requires DistinctKeys(slots)
    ensures EntriesOf(Remove(slots, key)) == EntriesOf(slots) - {key}
  {
    forall other ensures other in EntriesOf(Remove(slots, key)) <==> other in EntriesOf(slots) - {key}
      ensures other in EntriesOf(Remove(slots, key)) ==>
                EntriesOf(Remove(slots, key))[other] == EntriesOf(slots)[other]
    {
      EntryAt(slots, other);
      EntryAt(Remove(slots, key), other);
      FindRemoved(slots, key, other);
    }
  }

  lemma AppendRefines(slots: Slots, slot: Slot<I.Entry>)
    requires !HasKey(slots, slot.key)
    ensures EntriesOf(slots + [slot]) == EntriesOf(slots)[slot.key := Seen(slot)]
  {
    forall other
      ensures other in EntriesOf(slots + [slot]) <==> other in EntriesOf(slots)[slot.key := Seen(slot)]
      ensures other in EntriesOf(slots + [slot]) ==>
                EntriesOf(slots + [slot])[other] == EntriesOf(slots)[slot.key := Seen(slot)][other]
    {
      EntryAt(slots, other);
      EntryAt(slots + [slot], other);
      FindAppended(slots, slot, other);
    }
  }

  lemma PutBack(m: I.Entries, key: string, stored: I.Stored)
    ensures (m - {key})[key := stored] == m[key := stored]
    ensures key in m && m[key] == stored ==> m[key := stored] == m
    ensures key !in m ==> m - {key} == m
  {
  }

  /** get() answers what the protocol looks up, and drops an expired entry. */
  lemma GetRefines(slots: Slots, key: string, now: int)
    requires DistinctKeys(slots)
    ensures Served(slots, key, now) == I.Lookup(EntriesOf(slots), key, now)
    ensures EntriesOf(AfterGet(slots, key, now))
            == if Served(slots, key, now) == None then EntriesOf(slots) - {key} else EntriesOf(slots)
  {
    var found := Find(slots, key);
    EntryAt(slots, key);
    hide DistinctKeys, Remove, EntriesOf, HasKey, Find;
    DeleteRefines(slots, key);
    if found == None {
      PutBack(EntriesOf(slots), key, I.Stored(I.InProgress, 0));
    } else if now <= found.value.expiresAt {
      RemoveKeeps(slots, key);
      AppendRefines(Remove(slots, key), found.value);
      PutBack(EntriesOf(slots), key, Seen(found.value));
    }
  }

  lemma EvictRefines(slots: Slots)
    requires DistinctKeys(slots) && slots != []
    ensures EntriesOf(slots[1..]) == EntriesOf(slots) - {slots[0].key}
    ensures forall key | !HasKey(slots, key) :: !HasKey(slots[1..], key)
  {
    DeleteRefines(slots, slots[0].key);
    hide EntriesOf, DistinctKeys;
    assert Remove(slots, slots[0].key) == slots[1..];
    assert forall i | 0 <= i < |slots| - 1 :: slots[1..][i] == slots[i + 1];
  }

  /** The key that a write drops: the one used longest ago, when its own is new and the cache is full. */
  function Dropped(slots: Slots, maxSize: nat, key: string): Option<string> {
    if !HasKey(slots, key) && |slots| >= maxSize && slots != [] then Some(slots[0].key) else None
  }

  function Without(entries: I.Entries, key: Option<string>): I.Entries {
    if key.Some? then entries - {key.value} else entries
  }

  /** set() is the protocol's write, after the eviction of the key used longest ago when the key is
      new and the cache is full. */
  lemma SetRefines(slots: Slots, maxSize: nat, slot: Slot<I.Entry>)
    requires DistinctKeys(slots)
    ensures var dropped := Dropped(slots, maxSize, slot.key);
            && EntriesOf(AfterSet(slots, maxSize, slot)) == Without(EntriesOf(slots), dropped)[slot.key := Seen(slot)]
            && dropped != Some(slot.key)
  {
    hide DistinctKeys, Remove, EntriesOf, HasKey, Seen;
    if HasKey(slots, slot.key) {
      DeleteRefines(slots, slot.key);
      RemoveKeeps(slots, slot.key);
      AppendRefines(Remove(slots, slot.key), slot);
      PutBack(EntriesOf(slots), slot.key, Seen(slot));
    } else if |slots| >= maxSize && slots != [] {
      EvictRefines(slots);
      FirstHasKey(slots);
      AppendRefines(slots[1..], slot);
    } else {
      AppendRefines(slots, slot);
    }
  }

  lemma FirstHasKey(slots: Slots)
    requires slots != []
    ensures HasKey(slots, slots[0].key)
  {
  }

  // --- runs of the protocol on the LRU cache ------------------------------------------------------

  /** The protocol with the cache's own slots. A handler does not know whether its entry was dropped. */
  datatype Machine = Machine(slots: Slots, now: int, requests: map<nat, R.Request>, answers: map<nat, I.Outcome>)

  const EMPTY := Machine([], 0, map[], map[])

  function AsState(m: Machine): R.State {
    R.State(m.now, EntriesOf(m.slots), m.requests, m.answers)
  }

  /** Nothing but a write drops entries here. */
  predicate Enabled(m: Machine, e: R.Event) {
    !e.Evict? && R.Enabled(AsState(m), e)
  }

  /** commitCache: a set() below 500, else a delete(). */
  function AfterResponse(slots: Slots, maxSize: nat, key: string, statusCode: int, body: Option<Json.Value>,
                         ttl: nat, now: int): Slots
  {
    if statusCode < 500 then AfterSet(slots, maxSize, Slot(key, I.Completed(statusCode, body), now + ttl))
    else Remove(slots, key)
  }

  /** The events of the protocol, by get(), set() and delete(). */
  function Step(m: Machine, maxSize: nat, e: R.Event): Machine
    requires Enabled(m, e)
  {
    match e
    case Arrive(id, key, ttl) =>
      var outcome := I.Met(Served(m.slots, key, m.now), key);
      var read := m.(slots := AfterGet(m.slots, key, m.now), answers := m.answers[id := outcome]);
      if outcome.Admitted? then
        read.(slots := AfterSet(read.slots, maxSize, Slot(key, I.InProgress, m.now + I.IN_PROGRESS_TTL_MS)),
              requests := m.requests[id := R.Request(key, m.now, ttl, false, false, false)])
      else read
    case Respond(id, statusCode, body) =>
      var r := m.requests[id];
      m.(slots := AfterResponse(m.slots, maxSize, r.key, statusCode, body, r.ttl, m.now),
         requests := m.requests[id := r.(ended := true)])
    case EndWithoutBody(id) => m.(requests := m.requests[id := m.requests[id].(ended := true)])
    case Close(id) =>
      var r := m.requests[id];
      if r.ended then m
      else m.(slots := Remove(m.slots, r.key), requests := m.requests[id := r.(aborted := true)])
    case Tick(ms) => m.(now := m.now + ms)
  }

  ghost predicate EnabledRun(m: Machine, maxSize: nat, events: seq<R.Event>)
    decreases |events|
  {
    events != [] ==> Enabled(m, events[0]) && EnabledRun(Step(m, maxSize, events[0]), maxSize, events[1..])
  }

  ghost function Run(m: Machine, maxSize: nat, events: seq<R.Event>): Machine
    requires EnabledRun(m, maxSize, events)
    decreases |events|
  {
    if events == [] then m else Run(Step(m, maxSize, events[0]), maxSize, events[1..])
  }

  /** The protocol's state is the machine's, and knows besides which entries were dropped. */
  ghost predicate Related(s: R.State, m: Machine) {
    && DistinctKeys(m.slots)
    && s.now == m.now && s.entries == EntriesOf(m.slots) && s.answers == m.answers
    && SameRequests(s.requests, m.requests)
  }

  ghost predicate SameRequests(a: map<nat, R.Request>, b: map<nat, R.Request>) {
    && (forall id :: id in a <==> id in b)
    && (forall id | id in a :: a[id] == b[id].(evicted := a[id].evicted))
  }

  /** The protocol's events without the evictions. */
  function WithoutEvictions(events: seq<R.Event>): seq<R.Event> {
    if events == [] then []
    else if events[0].Evict? then WithoutEvictions(events[1..])
    else [events[0]] + WithoutEvictions(events[1..])
  }

  /** The key a step writes, if any. */
  function Writes(m: Machine, e: R.Event): Option<string>
    requires Enabled(m, e)
  {
    match e
    case Arrive(_, key, _) => if Served(m.slots, key, m.now) == None then Some(key) else None
    case Respond(id, statusCode, _) => if statusCode < 500 then Some(m.requests[id].key) else None
    case _ => None
  }

  /** The slots that a step writes to. */
  function Before(m: Machine, e: R.Event): Slots {
    if e.Arrive? then AfterGet(m.slots, e.key, m.now) else m.slots
  }

  /** The key that a step drops, when it writes a new one to the full cache. */
  function DroppedBy(m: Machine, maxSize: nat, e: R.Event): Option<string>
    requires Enabled(m, e)
  {
    var written := Writes(m, e);
    if written.Some? then Dropped(Before(m, e), maxSize, written.value) else None
  }

  /** The protocol's state once a step's eviction has happened. */
  function Evicted(s: R.State, key: Option<string>): R.State {
    if key.Some? then R.Step(s, R.Evict(key.value)) else s
  }

  lemma EvictedSame(s: R.State, key: Option<string>, requests: map<nat, R.Request>)
    requires SameRequests(s.requests, requests)
    ensures var s1 := Evicted(s, key);
            && SameRequests(s1.requests, requests) && s1.now == s.now && s1.answers == s.answers
            && s1.entries == Without(s.entries, key)
  {
    assert forall id | id in s.requests ::
        Evicted(s, key).requests[id] == s.requests[id].(evicted := Evicted(s, key).requests[id].evicted);
  }

  lemma UpdatedSame(a: map<nat, R.Request>, b: map<nat, R.Request>, id: nat, x: R.Request, y: R.Request)
    requires SameRequests(a, b) && x == y.(evicted := x.evicted)
    ensures SameRequests(a[id := x], b[id := y])
  {
  }

  lemma SameElsewhere(a: I.Entries, b: I.Entries, key: string, dropped: Option<string>, stored: I.Stored)
    requires a - {key} == b - {key}
    ensures Without(a, dropped)[key := stored] == Without(b, dropped)[key := stored]
  {
    forall k | k != key ensures k in a <==> k in b
      ensures k in a ==> a[k] == b[k]
    {
      assert k in a <==> k in a - {key};
      assert k in b <==> k in b - {key};
    }
  }

  lemma WriteRefines(entries: I.Entries, slots: Slots, maxSize: nat, slot: Slot<I.Entry>)
    requires DistinctKeys(slots) && entries - {slot.key} == EntriesOf(slots) - {slot.key}
    ensures var dropped := Dropped(slots, maxSize, slot.key);
            && EntriesOf(AfterSet(slots, maxSize, slot)) == Without(entries, dropped)[slot.key := Seen(slot)]
            && DistinctKeys(AfterSet(slots, maxSize, slot))
            && dropped != Some(slot.key)
  {
    ApplyKeeps(slots, maxSize, Set(slot));
    hide EntriesOf, DistinctKeys, Seen, Dropped, Without, AfterSet;
    SetRefines(slots, maxSize, slot);
    SameElsewhere(entries, EntriesOf(slots), slot.key, Dropped(slots, maxSize, slot.key), Seen(slot));
  }

  lemma LookupWithout(entries: I.Entries, dropped: Option<string>, key: string, now: int)
    requires dropped != Some(key)
    ensures I.Lookup(Without(entries, dropped), key, now) == I.Lookup(entries, key, now)
  {
  }

  lemma AdmitStep(s: R.State, e: R.Event)
    requires e.Arrive? && R.Enabled(s, e) && I.Lookup(s.entries, e.key, s.now) == None
    ensures R.Step(s, e)
            == R.State(s.now, s.entries[e.key := I.Stored(I.InProgress, s.now + I.IN_PROGRESS_TTL_MS)],
                       s.requests[e.id := R.Request(e.key, s.now, e.ttl, false, false, false)],
                       s.answers[e.id := I.Admitted(e.key)])
  {
    hide I.Lookup;
  }

  lemma AdmitMachine(m: Machine, maxSize: nat, e: R.Event)
    requires e.Arrive? && Enabled(m, e) && Served(m.slots, e.key, m.now) == None
    ensures var slots := AfterGet(m.slots, e.key, m.now);
            && DroppedBy(m, maxSize, e) == Dropped(slots, maxSize, e.key)
            && Step(m, maxSize, e)
               == Machine(AfterSet(slots, maxSize, Slot(e.key, I.InProgress, m.now + I.IN_PROGRESS_TTL_MS)), m.now,
                          m.requests[e.id := R.Request(e.key, m.now, e.ttl, false, false, false)],
                          m.answers[e.id := I.Admitted(e.key)])
  {
    hide Served, AfterGet, AfterSet, Dropped, EntriesOf;
  }

  lemma AdmitRefines(s: R.State, m: Machine, maxSize: nat, e: R.Event)
    requires Related(s, m) && Enabled(m, e) && e.Arrive? && Served(m.slots, e.key, m.now) == None
    ensures var s1 := Evicted(s, DroppedBy(m, maxSize, e));
            R.Enabled(s1, e) && Related(R.Step(s1, e), Step(m, maxSize, e))
  {
    var dropped := DroppedBy(m, maxSize, e);
    var s1 := Evicted(s, dropped);
    EvictedSame(s, dropped, m.requests);
    SameKeys(s1.requests, m.requests, e.id);
    hide DroppedBy, Step, EntriesOf, DistinctKeys, Evicted, Without, SameRequests, Served, R.Step;
    AdmitRelated(s, s1, m, maxSize, e);
  }

  /** What admitting a request leaves in the cache. */
  lemma AdmitEntries(entries: I.Entries, slots: Slots, maxSize: nat, key: string, now: int)
    requires DistinctKeys(slots) && entries == EntriesOf(slots) && Served(slots, key, now) == None
    ensures var read := AfterGet(slots, key, now);
            var (dropped, until) := (Dropped(read, maxSize, key), now + I.IN_PROGRESS_TTL_MS);
            var written := AfterSet(read, maxSize, Slot(key, I.InProgress, until));
            && DistinctKeys(written)
            && EntriesOf(written) == Without(entries, dropped)[key := I.Stored(I.InProgress, until)]
            && I.Lookup(Without(entries, dropped), key, now) == None
  {
    var read := AfterGet(slots, key, now);
    var slot := Slot(key, I.InProgress, now + I.IN_PROGRESS_TTL_MS);
    assert Seen(slot) == I.Stored(slot.value, slot.expiresAt);
    hide *;
    GetRefines(slots, key, now);
    GetKeepsKeys(slots, key, now);
    DropTwice(entries, key);
    WriteRefines(entries, read, maxSize, slot);
    LookupWithout(entries, Dropped(read, maxSize, key), key, now);
  }

  lemma AdmitRelated(s: R.State, s1: R.State, m: Machine, maxSize: nat, e: R.Event)
    requires Related(s, m) && R.Enabled(s1, e) && Enabled(m, e) && e.Arrive? && Served(m.slots, e.key, m.now) == None
    requires SameRequests(s1.requests, m.requests) && s1.now == s.now && s1.answers == s.answers
    requires s1.entries == Without(s.entries, DroppedBy(m, maxSize, e))
    ensures Related(R.Step(s1, e), Step(m, maxSize, e))
  {
    var admitted := R.Request(e.key, m.now, e.ttl, false, false, false);
    assert s.entries == EntriesOf(m.slots) && s.now == m.now && s.answers == m.answers && DistinctKeys(m.slots);
    hide *;
    AdmitMachine(m, maxSize, e);
    AdmitEntries(s.entries, m.slots, maxSize, e.key, m.now);
    AdmitStep(s1, e);
    UpdatedSame(s1.requests, m.requests, e.id, admitted, admitted);
    RelatedWhen(R.Step(s1, e), Step(m, maxSize, e));
  }

  lemma GetKeepsKeys(slots: Slots, key: string, now: int)
    requires DistinctKeys(slots)
    ensures DistinctKeys(AfterGet(slots, key, now))
  {
    ApplyKeeps<I.Entry>(slots, 0, Get(key, now));
    hide AfterGet, DistinctKeys;
  }

  lemma DropTwice(entries: I.Entries, key: string)
    ensures (entries - {key}) - {key} == entries - {key}
  {
  }

  lemma SameKeys(a: map<nat, R.Request>, b: map<nat, R.Request>, id: nat)
    requires SameRequests(a, b)
    ensures id in a <==> id in b
    ensures id in a ==> a[id] == b[id].(evicted := a[id].evicted)
  {
  }

  lemma AnswerRefines(s: R.State, m: Machine, maxSize: nat, e: R.Event)
    requires Related(s, m) && Enabled(m, e) && e.Arrive? && Served(m.slots, e.key, m.now).Some?
    ensures DroppedBy(m, maxSize, e) == None
    ensures R.Enabled(s, e) && Related(R.Step(s, e), Step(m, maxSize, e))
  {
    GetRefines(m.slots, e.key, m.now);
    GetKeepsKeys(m.slots, e.key, m.now);
    SameKeys(s.requests, m.requests, e.id);
    hide EntriesOf, DistinctKeys, HasKey, Find, Served, AfterGet, SameRequests, I.Lookup;
  }

  lemma RespondStep(s: R.State, e: R.Event)
    requires e.Respond? && R.Enabled(s, e)
    ensures var r := s.requests[e.id];
            R.Step(s, e)
            == s.(entries := I.Committed(s.entries, r.key, e.statusCode, e.body, r.ttl, s.now),
                  requests := s.requests[e.id := r.(ended := true)])
  {
    hide I.Committed;
  }

  lemma RespondMachine(m: Machine, maxSize: nat, e: R.Event)
    requires e.Respond? && Enabled(m, e)
    ensures var r := m.requests[e.id];
            && DroppedBy(m, maxSize, e) == DroppedByResponse(m.slots, maxSize, r.key, e.statusCode)
            && Step(m, maxSize, e)
               == m.(slots := AfterResponse(m.slots, maxSize, r.key, e.statusCode, e.body, r.ttl, m.now),
                     requests := m.requests[e.id := r.(ended := true)])
  {
    hide AfterResponse, Dropped, EntriesOf;
  }

  function DroppedByResponse(slots: Slots, maxSize: nat, key: string, statusCode: int): Option<string> {
    if statusCode < 500 then Dropped(slots, maxSize, key) else None
  }

  lemma RelatedWhen(s: R.State, m: Machine)
    requires DistinctKeys(m.slots) && s.now == m.now && s.entries == EntriesOf(m.slots) && s.answers == m.answers
    requires SameRequests(s.requests, m.requests)
    ensures Related(s, m)
  {
  }

  lemma CommitRefines(entries: I.Entries, slots: Slots, maxSize: nat, key: string, statusCode: int,
                      body: Option<Json.Value>, ttl: nat, now: int)
    requires DistinctKeys(slots) && entries == EntriesOf(slots)
    ensures var slots' := AfterResponse(slots, maxSize, key, statusCode, body, ttl, now);
            && EntriesOf(slots')
               == I.Committed(Without(entries, DroppedByResponse(slots, maxSize, key, statusCode)), key, statusCode,
                              body, ttl, now)
            && DistinctKeys(slots')
  {
    hide EntriesOf, DistinctKeys, Dropped, Remove, AfterSet;
    if statusCode < 500 {
      WriteRefines(entries, slots, maxSize, Slot(key, I.Completed(statusCode, body), now + ttl));
    } else {
      DeleteRefines(slots, key);
      RemoveKeeps(slots, key);
    }
  }

  lemma RespondRefines(s: R.State, m: Machine, maxSize: nat, e: R.Event)
    requires Related(s, m) && Enabled(m, e) && e.Respond?
    ensures var s1 := Evicted(s, DroppedBy(m, maxSize, e));
            R.Enabled(s1, e) && Related(R.Step(s1, e), Step(m, maxSize, e))
  {
    var dropped := DroppedBy(m, maxSize, e);
    var s1 := Evicted(s, dropped);
    EvictedSame(s, dropped, m.requests);
    SameKeys(s1.requests, m.requests, e.id);
    hide DroppedBy, Step, EntriesOf, DistinctKeys, Evicted, Without, SameRequests, R.Step;
    RespondRelated(s, s1, m, maxSize, e);
  }

  lemma RespondRelated(s: R.State, s1: R.State, m: Machine, maxSize: nat, e: R.Event)
    requires Related(s, m) && e.Respond? && R.Enabled(s1, e) && Enabled(m, e)
    requires SameRequests(s1.requests, m.requests) && s1.now == s.now && s1.answers == s.answers
    requires s1.entries == Without(s.entries, DroppedBy(m, maxSize, e))
    ensures Related(R.Step(s1, e), Step(m, maxSize, e))
  {
    SameKeys(s1.requests, m.requests, e.id);
    var (r, r1) := (m.requests[e.id], s1.requests[e.id]);
    assert s.entries == EntriesOf(m.slots) && s.now == m.now && s.answers == m.answers && DistinctKeys(m.slots);
    hide *;
    RespondStep(s1, e);
    RespondMachine(m, maxSize, e);
    CommitRefines(s.entries, m.slots, maxSize, r.key, e.statusCode, e.body, r.ttl, m.now);
    UpdatedSame(s1.requests, m.requests, e.id, r1.(ended := true), r.(ended := true));
    RelatedWhen(R.Step(s1, e), Step(m, maxSize, e));
  }

  lemma EndRefines(s: R.State, m: Machine, maxSize: nat, e: R.Event)
    requires Related(s, m) && Enabled(m, e) && (e.EndWithoutBody? || e.Close? || e.Tick?)
    ensures R.Enabled(s, e) && Related(R.Step(s, e), Step(m, maxSize, e))
  {
    if e.Close? {
      DeleteRefines(m.slots, m.requests[e.id].key);
      RemoveKeeps(m.slots, m.requests[e.id].key);
    }
    hide DistinctKeys, EntriesOf, Remove;
  }

  /** A step of the machine is the protocol's step, behind its eviction. */
  lemma StepRefines(s: R.State, m: Machine, maxSize: nat, e: R.Event)
    requires Related(s, m) && Enabled(m, e)
    ensures var s1 := Evicted(s, DroppedBy(m, maxSize, e));
            R.Enabled(s1, e) && Related(R.Step(s1, e), Step(m, maxSize, e))
  {
    hide Related, Step, R.Step, R.Enabled, Served, Dropped;
    if e.Arrive? && Served(m.slots, e.key, m.now) == None {
      AdmitRefines(s, m, maxSize, e);
    } else if e.Arrive? {
      AnswerRefines(s, m, maxSize, e);
    } else if e.Respond? {
      RespondRefines(s, m, maxSize, e);
    } else {
      EndRefines(s, m, maxSize, e);
    }
  }

  lemma RunFrom(s: R.State, e: R.Event, rest: seq<R.Event>)
    requires R.Enabled(s, e) && R.EnabledRun(R.Step(s, e), rest)
    ensures R.EnabledRun(s, [e] + rest) && R.Run(s, [e] + rest) == R.Run(R.Step(s, e), rest)
    ensures WithoutEvictions([e] + rest) == (if e.Evict? then [] else [e]) + WithoutEvictions(rest)
  {
    assert ([e] + rest)[1..] == rest;
  }

  lemma {:induction false} RunRefinesFrom(s: R.State, m: Machine, maxSize: nat, events: seq<R.Event>)
    returns (all: seq<R.Event>)
    requires Related(s, m) && EnabledRun(m, maxSize, events)
    ensures WithoutEvictions(all) == events && R.EnabledRun(s, all)
    ensures Related(R.Run(s, all), Run(m, maxSize, events))
    decreases |events|
  {
    if events == [] {
      all := [];
    } else {
      var e := events[0];
      var dropped := DroppedBy(m, maxSize, e);
      assert !e.Evict? && events == [e] + events[1..];
      assert Run(m, maxSize, events) == Run(Step(m, maxSize, e), maxSize, events[1..]);
      StepRefines(s, m, maxSize, e);
      var s1 := Evicted(s, dropped);
      assert dropped.Some? ==> R.Enabled(s, R.Evict(dropped.value)) && s1 == R.Step(s, R.Evict(dropped.value));
      hide Related, Enabled, Step, DroppedBy, R.Step, R.Enabled, R.Run, R.EnabledRun;
      var rest := RunRefinesFrom(R.Step(s1, e), Step(m, maxSize, e), maxSize, events[1..]);
      RunFrom(s1, e, rest);
      all := [e] + rest;
      if dropped.Some? {
        RunFrom(s, R.Evict(dropped.value), all);
        all := [R.Evict(dropped.value)] + all;
      }
    }
  }

  /** Every run on the LRU cache is a run of the protocol with some evictions added: the answers to all
      requests are the same, the entries are, and so is every handler. */
  lemma RunRefines(maxSize: nat, events: seq<R.Event>) returns (all: seq<R.Event>)
    requires EnabledRun(EMPTY, maxSize, events)
    ensures WithoutEvictions(all) == events && R.EnabledRun(R.INITIAL, all)
    ensures Related(R.Run(R.INITIAL, all), Run(EMPTY, maxSize, events))
  {
    assert Related(R.INITIAL, EMPTY);
    hide *;
    all := RunRefinesFrom(R.INITIAL, EMPTY, maxSize, events);
  }
}

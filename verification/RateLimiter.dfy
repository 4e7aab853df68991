/** The fixed-window rate limiter (src/middleware/rate-limiter.ts): a Redis counter per limiter,
    client address and aligned window, incremented and expired by one atomic script. */
module RateLimiter {
  import opened Common

  datatype Config = Config(name: string, windowMs: int, maxRequests: nat, failOpen: bool)
  {
    predicate Valid() {
      windowMs > 0
    }
  }

  datatype BucketKey = BucketKey(name: string, ip: string, window: int)

  type Count = n: int | n > 0 witness 1

  datatype Counter = Counter(count: Count, expiresAt: int)

  type Counters = map<BucketKey, Counter>

  datatype Decision = Next | TooMany(retryAfter: int)

  /** A request: who sends it, when it arrives and picks its window, when its script runs or its call
      fails, and how the call fares. Between the two times it waits for Redis. */
  datatype Hit = Hit(ip: string, arrived: int, ran: int, fault: Fault)

  /** One run of the script. */
  datatype Script = Script(key: BucketKey, windowMs: int, now: int)

  function Ceil(n: int, d: int): int
    requires d > 0
  {
    (n + d - 1) / d
  }

  function Window(cfg: Config, now: int): int
    requires cfg.Valid()
  {
    now / cfg.windowMs
  }

  function WindowEnd(cfg: Config, window: int): int {
    (window + 1) * cfg.windowMs
  }

  function Bucket(cfg: Config, h: Hit): BucketKey
    requires cfg.Valid()
  {
    BucketKey(cfg.name, h.ip, Window(cfg, h.arrived))
  }

  /** The counters Redis still has at a time. */
  function Unexpired(counters: Counters, now: int): Counters {
    map key | key in counters && now <= counters[key].expiresAt :: counters[key]
  }

  /** The script: INCR, and PEXPIRE when the counter is new. */
  function Incremented(counters: Counters, key: BucketKey, windowMs: int, now: int): (r: Counters)
    ensures key in r
  {
    var live := Unexpired(counters, now);
    live[key := if key in live then live[key].(count := live[key].count + 1) else Counter(1, now + windowMs)]
  }

  function AfterScripts(counters: Counters, scripts: seq<Script>): Counters {
    if scripts == [] then counters
    else
      var s := scripts[|scripts| - 1];
      Incremented(AfterScripts(counters, scripts[..|scripts| - 1]), s.key, s.windowMs, s.now)
  }

  function CountersAfter(counters: Counters, cfg: Config, h: Hit): Counters
    requires cfg.Valid()
  {
    if h.fault == FailsBefore then counters
    else Incremented(counters, Bucket(cfg, h), cfg.windowMs, h.ran)
  }

  function Decide(counters: Counters, cfg: Config, h: Hit): Decision
    requires cfg.Valid()
  {
    var counter := Incremented(counters, Bucket(cfg, h), cfg.windowMs, h.ran)[Bucket(cfg, h)];
    if h.fault == Works then
      if counter.count > cfg.maxRequests then TooMany(Ceil(counter.expiresAt - h.ran, 1000)) else Next
    else if cfg.failOpen then Next
    else TooMany(Ceil(cfg.windowMs, 1000))
  }

  class Redis {
    var counters: Counters

    constructor ()
      ensures counters == map[]
    {
      counters := map[];
    }

    /** rateLimitScript: returns the count and the remaining time to live. */
    method Eval(key: BucketKey, windowMs: int, now: int) returns (current: Count, ttlMs: int)
      modifies this
      ensures counters == Incremented(old(counters), key, windowMs, now)
      ensures current == counters[key].count && ttlMs == counters[key].expiresAt - now
    {
      var live := Unexpired(counters, now);
      current := if key in live then live[key].count + 1 else 1;
      counters := live[key := if key in live then live[key].(count := current) else Counter(current, now)];
      if current == 1 {
        counters := counters[key := Counter(current, now + windowMs)];
      }
      ttlMs := counters[key].expiresAt - now;
    }

    /** Scripts of other requests that run while one waits. */
    method RunAll(scripts: seq<Script>)
      modifies this
      ensures counters == AfterScripts(old(counters), scripts)
    {
      var i := 0;
      while i < |scripts|
        invariant 0 <= i <= |scripts|
        invariant counters == AfterScripts(old(counters), scripts[..i])
      {
        var _, _ := Eval(scripts[i].key, scripts[i].windowMs, scripts[i].now);
        assert scripts[..i + 1][..i] == scripts[..i];
        i := i + 1;
      }
      assert scripts[..|scripts|] == scripts;
    }
  }

  class Limiter {
    const cfg: Config
    const redis: Redis

    constructor (cfg: Config, redis: Redis)
      ensures this.cfg == cfg && this.redis == redis
    {
      this.cfg, this.redis := cfg, redis;
    }

    /** The middleware for one request; `meanwhile` are the scripts that Redis runs between its arrival
        and its own script. */
    method Handle(h: Hit, meanwhile: seq<Script>) returns (d: Decision)
      requires cfg.Valid()
      modifies redis
      ensures d == Decide(AfterScripts(old(redis.counters), meanwhile), cfg, h)
      ensures redis.counters == CountersAfter(AfterScripts(old(redis.counters), meanwhile), cfg, h)
    {
      var windowStart := h.arrived / cfg.windowMs;
      var key := BucketKey(cfg.name, h.ip, windowStart);
      redis.RunAll(meanwhile);
      if h.fault != FailsBefore {
        var current, ttlMs := redis.Eval(key, cfg.windowMs, h.ran);
        if h.fault == Works {
          if current > cfg.maxRequests {
            return TooMany(Ceil(ttlMs, 1000));
          }
          return Next;
        }
      }
      if !cfg.failOpen {
        return TooMany(Ceil(cfg.windowMs, 1000));
      }
      d := Next;
    }
  }

  // --- whole runs -----------------------------------------------------------------------------

  /** Requests in the order in which Redis runs their scripts, on one clock that never goes back. */
  ghost predicate Ordered(hits: seq<Hit>) {
    && (forall i | 0 <= i < |hits| :: hits[i].arrived <= hits[i].ran)
    && (forall i, j | 0 <= i < j < |hits| :: hits[i].ran <= hits[j].ran)
  }

  /** The counters after a run of requests on an empty Redis. */
  function CountersOf(cfg: Config, hits: seq<Hit>): Counters
    requires cfg.Valid()
  {
    if hits == [] then map[]
    else CountersAfter(CountersOf(cfg, hits[..|hits| - 1]), cfg, hits[|hits| - 1])
  }

  /** The decision on the last of these requests. */
  function LastDecision(cfg: Config, hits: seq<Hit>): Decision
    requires cfg.Valid() && hits != []
  {
    Decide(CountersOf(cfg, hits[..|hits| - 1]), cfg, hits[|hits| - 1])
  }

  /** How many requests of a client that arrive in [from, to) are let through. */
  function Passed(cfg: Config, hits: seq<Hit>, ip: string, from: int, to: int): nat
    requires cfg.Valid()
  {
    if hits == [] then 0
    else
      var h := hits[|hits| - 1];
      Passed(cfg, hits[..|hits| - 1], ip, from, to)
      + if h.ip == ip && from <= h.arrived < to && LastDecision(cfg, hits) == Next then 1 else 0
  }

  /** How many requests of a client that arrive in [from, to) satisfy a condition. */
  function Arrived(hits: seq<Hit>, ip: string, from: int, to: int, ofInterest: Hit -> bool): nat {
    if hits == [] then 0
    else
      var h := hits[|hits| - 1];
      Arrived(hits[..|hits| - 1], ip, from, to, ofInterest)
      + if h.ip == ip && from <= h.arrived < to && ofInterest(h) then 1 else 0
  }

  function Faulty(h: Hit): bool {
    h.fault != Works
  }

  /** A request that runs the script on this counter. */
  predicate RunsOn(cfg: Config, h: Hit, key: BucketKey)
    requires cfg.Valid()
  {
    Bucket(cfg, h) == key && h.fault != FailsBefore
  }

  /** How many scripts have run on a counter. */
  function Scripts(cfg: Config, hits: seq<Hit>, key: BucketKey): nat
    requires cfg.Valid()
  {
    if hits == [] then 0
    else Scripts(cfg, hits[..|hits| - 1], key) + if RunsOn(cfg, hits[|hits| - 1], key) then 1 else 0
  }

  /** How many of them found the counter expired and started it again. */
  function Restarts(cfg: Config, hits: seq<Hit>, key: BucketKey): nat
    requires cfg.Valid()
  {
    if hits == [] then 0
    else
      var (earlier, h) := (hits[..|hits| - 1], hits[|hits| - 1]);
      Restarts(cfg, earlier, key)
      + if RunsOn(cfg, h, key) && Scripts(cfg, earlier, key) > 0 && key !in Unexpired(CountersOf(cfg, earlier), h.ran)
        then 1 else 0
  }

  // --- what the middleware decides in a run -------------------------------------------------------

  /** The scripts that a run of requests makes Redis run. */
  function ScriptsOf(cfg: Config, hits: seq<Hit>): seq<Script>
    requires cfg.Valid()
  {
    if hits == [] then []
    else
      var h := hits[|hits| - 1];
      ScriptsOf(cfg, hits[..|hits| - 1])
      + if h.fault == FailsBefore then [] else [Script(Bucket(cfg, h), cfg.windowMs, h.ran)]
  }

  lemma LastScript(counters: Counters, scripts: seq<Script>, last: Script)
    ensures AfterScripts(counters, scripts + [last])
            == Incremented(AfterScripts(counters, scripts), last.key, last.windowMs, last.now)
  {
    assert (scripts + [last])[..|scripts + [last]| - 1] == scripts;
    hide Incremented;
  }

  /** Letting Redis run the scripts of more requests is what those requests do to a run's counters. */
  lemma {:induction false} ScriptsContinueRun(cfg: Config, hits: seq<Hit>, later: seq<Hit>)
    requires cfg.Valid()
    ensures AfterScripts(CountersOf(cfg, hits), ScriptsOf(cfg, later)) == CountersOf(cfg, hits + later)
  {
    if later == [] {
      assert hits + later == hits;
    } else {
      var (init, h) := (later[..|later| - 1], later[|later| - 1]);
      ScriptsContinueRun(cfg, hits, init);
      assert hits + later == (hits + init) + [h];
      CountersOfStep(cfg, hits + later);
      assert (hits + later)[..|hits + later| - 1] == hits + init;
      LastScript(CountersOf(cfg, hits), ScriptsOf(cfg, init), Script(Bucket(cfg, h), cfg.windowMs, h.ran));
      assert ScriptsOf(cfg, init) + [] == ScriptsOf(cfg, init);
      hide CountersOf, AfterScripts, Incremented, Bucket;
    }
  }

  /** What Handle answers a request, and the counters it leaves, when the run so far made the counters and
      the scripts of later requests run while it waits: its decision as the last of the run. So the
      theorems about runs are about Handle. */
  lemma HandleDecides(cfg: Config, hits: seq<Hit>, later: seq<Hit>, h: Hit)
    requires cfg.Valid()
    ensures var (run, counters) := (hits + later + [h], AfterScripts(CountersOf(cfg, hits), ScriptsOf(cfg, later)));
            && Decide(counters, cfg, h) == LastDecision(cfg, run)
            && CountersAfter(counters, cfg, h) == CountersOf(cfg, run)
  {
    ScriptsContinueRun(cfg, hits, later);
    var run := hits + later + [h];
    assert run[..|run| - 1] == hits + later;
    CountersOfStep(cfg, run);
    hide CountersOf, AfterScripts, Decide, CountersAfter;
  }

  /** The counters of one limiter that are live at a time, and how they stand. */
  ghost predicate SameFor(name: string, now: int, a: Counters, b: Counters) {
    forall key: BucketKey | key.name == name ::
      && (key in Unexpired(a, now) <==> key in Unexpired(b, now))
      && (key in Unexpired(a, now) ==> a[key] == b[key])
  }

  /** The scripts of one limiter among those of all. */
  function Own(name: string, scripts: seq<Script>): (own: seq<Script>)
    ensures forall s | s in own :: s.key.name == name
  {
    if scripts == [] then []
    else
      var s := scripts[|scripts| - 1];
      Own(name, scripts[..|scripts| - 1]) + if s.key.name == name then [s] else []
  }

  lemma SameForStep(name: string, a: Counters, b: Counters, s: Script, now: int)
    requires s.now <= now && SameFor(name, s.now, a, b)
    ensures SameFor(name, now, Incremented(a, s.key, s.windowMs, s.now), Incremented(b, s.key, s.windowMs, s.now))
    ensures s.key.name != name ==> SameFor(name, now, Incremented(a, s.key, s.windowMs, s.now), b)
  {
  }

  lemma {:induction false} OwnScripts(name: string, counters: Counters, scripts: seq<Script>, now: int)
    requires forall i | 0 <= i < |scripts| :: scripts[i].now <= now
    requires forall i, j | 0 <= i < j < |scripts| :: scripts[i].now <= scripts[j].now
    ensures SameFor(name, now, AfterScripts(counters, scripts), AfterScripts(counters, Own(name, scripts)))
  {
    if scripts != [] {
      var (init, s) := (scripts[..|scripts| - 1], scripts[|scripts| - 1]);
      OwnScripts(name, counters, init, s.now);
      assert AfterScripts(counters, scripts) == Incremented(AfterScripts(counters, init), s.key, s.windowMs, s.now);
      LastScript(counters, Own(name, init), s);
      assert Own(name, init) + [] == Own(name, init);
      hide AfterScripts, Incremented, SameFor;
      SameForStep(name, AfterScripts(counters, init), AfterScripts(counters, Own(name, init)), s, now);
    }
  }

  /** Limiters do not disturb one another: the scripts of others, run before a request's own script, change
      nothing for its decision. */
  lemma OthersDoNotDisturb(cfg: Config, counters: Counters, scripts: seq<Script>, h: Hit)
    requires cfg.Valid()
    requires forall i | 0 <= i < |scripts| :: scripts[i].now <= h.ran
    requires forall i, j | 0 <= i < j < |scripts| :: scripts[i].now <= scripts[j].now
    ensures Decide(AfterScripts(counters, scripts), cfg, h)
            == Decide(AfterScripts(counters, Own(cfg.name, scripts)), cfg, h)
  {
    OwnScripts(cfg.name, counters, scripts, h.ran);
    hide AfterScripts, Own, Window, Ceil;
  }

  lemma WindowSpan(cfg: Config, now: int, window: int)
    requires cfg.Valid()
    ensures Window(cfg, now) == window <==> WindowEnd(cfg, window - 1) <= now < WindowEnd(cfg, window)
  {
    var (w, d) := (Window(cfg, now), cfg.windowMs);
    assert w * d <= now < (w + 1) * d;
    if w < window {
      MoreTimes(w + 1, window, d);
    } else if w > window {
      MoreTimes(window + 1, w, d);
    }
  }

  lemma WindowEndsGrow(cfg: Config, window: int)
    requires cfg.Valid()
    ensures WindowEnd(cfg, window) == WindowEnd(cfg, window - 1) + cfg.windowMs
  {
  }

  lemma WindowMonotone(cfg: Config, a: int, b: int)
    requires cfg.Valid() && a <= b
    ensures Window(cfg, a) <= Window(cfg, b)
  {
    var d := cfg.windowMs;
    if a / d > b / d {
      MoreTimes(b / d + 1, a / d, d);
    }
  }

  lemma CountersOfStep(cfg: Config, hits: seq<Hit>)
    requires cfg.Valid() && hits != []
    ensures CountersOf(cfg, hits) == CountersAfter(CountersOf(cfg, hits[..|hits| - 1]), cfg, hits[|hits| - 1])
  {
  }

  lemma OrderedInit(hits: seq<Hit>)
    requires Ordered(hits) && hits != []
    ensures Ordered(hits[..|hits| - 1]) && hits[|hits| - 1].arrived <= hits[|hits| - 1].ran
    ensures |hits| > 1 ==> hits[|hits| - 2].ran <= hits[|hits| - 1].ran
  {
  }

  /** A counter outlives its window: a script that runs within the window finds it. */
  ghost predicate Outlives(cfg: Config, counters: Counters) {
    forall key | key in counters && key.name == cfg.name ::
      counters[key].expiresAt >= WindowEnd(cfg, key.window)
  }

  lemma {:induction false} CountersOutlive(cfg: Config, hits: seq<Hit>)
    requires cfg.Valid() && Ordered(hits)
    ensures Outlives(cfg, CountersOf(cfg, hits))
  {
    if hits != [] {
      var h := hits[|hits| - 1];
      OrderedInit(hits);
      CountersOutlive(cfg, hits[..|hits| - 1]);
      WindowSpan(cfg, h.arrived, Window(cfg, h.arrived));
      WindowEndsGrow(cfg, Window(cfg, h.arrived));
      hide CountersOf, Window, WindowEnd;
      OutlivesStep(cfg, CountersOf(cfg, hits[..|hits| - 1]), h);
      CountersOfStep(cfg, hits);
    }
  }

  lemma OutlivesStep(cfg: Config, counters: Counters, h: Hit)
    requires cfg.Valid() && Outlives(cfg, counters)
    requires h.ran + cfg.windowMs >= WindowEnd(cfg, Window(cfg, h.arrived))
    ensures Outlives(cfg, CountersAfter(counters, cfg, h))
  {
    hide Window, WindowEnd;
  }

  // --- the bound of a window --------------------------------------------------------------------

  function CountOf(counters: Counters, key: BucketKey): nat {
    if key in counters then counters[key].count else 0
  }

  /** What one request does to a counter. */
  lemma CounterStep(cfg: Config, hits: seq<Hit>, key: BucketKey)
    requires cfg.Valid() && hits != []
    ensures var (earlier, h) := (hits[..|hits| - 1], hits[|hits| - 1]);
            var (before, after) := (CountersOf(cfg, earlier), CountersOf(cfg, hits));
            var live := key in Unexpired(before, h.ran);
            && Scripts(cfg, hits, key) == Scripts(cfg, earlier, key) + (if RunsOn(cfg, h, key) then 1 else 0)
            && Restarts(cfg, hits, key)
               == Restarts(cfg, earlier, key)
                  + (if RunsOn(cfg, h, key) && Scripts(cfg, earlier, key) > 0 && !live then 1 else 0)
            && (live ==> key in before && h.ran <= before[key].expiresAt)
            && (key in before && !live ==> h.ran > before[key].expiresAt)
            && (RunsOn(cfg, h, key) ==>
                  && key in after
                  && after[key] == (if live then Counter(before[key].count + 1, before[key].expiresAt)
                                    else Counter(1, h.ran + cfg.windowMs))
                  && (h.fault == Works ==> (LastDecision(cfg, hits) == Next <==> after[key].count <= cfg.maxRequests)))
            && (!RunsOn(cfg, h, key) && key in after ==> key in before && after[key] == before[key])
            && (!RunsOn(cfg, h, key) && key in before && key !in after ==> !live)
  {
    CountersOfStep(cfg, hits);
    hide CountersOf, Window, Ceil;
  }

  lemma FaultedDecision(cfg: Config, hits: seq<Hit>)
    requires cfg.Valid() && hits != [] && hits[|hits| - 1].fault != Works
    ensures LastDecision(cfg, hits) == Next <==> cfg.failOpen
  {
  }

  lemma KeyOfArrival(cfg: Config, h: Hit, ip: string, window: int)
    requires cfg.Valid()
    ensures Bucket(cfg, h) == BucketKey(cfg.name, ip, window)
            <==> h.ip == ip && WindowEnd(cfg, window - 1) <= h.arrived < WindowEnd(cfg, window)
  {
    WindowSpan(cfg, h.arrived, window);
    hide Window, WindowEnd;
  }

  lemma {:induction false} CountWithin(cfg: Config, hits: seq<Hit>, key: BucketKey)
    requires cfg.Valid()
    ensures CountOf(CountersOf(cfg, hits), key) <= Scripts(cfg, hits, key)
    ensures Restarts(cfg, hits, key) > 0 ==> CountOf(CountersOf(cfg, hits), key) < Scripts(cfg, hits, key)
  {
    if hits != [] {
      CountWithin(cfg, hits[..|hits| - 1], key);
      CounterStep(cfg, hits, key);
      hide CountersOf, Scripts, Restarts, RunsOn, LastDecision, Unexpired;
    }
  }

  /** What a counter lets through in rounds of the limit: a round for every start of it. */
  function Allowance(restarts: nat, scripts: nat, count: nat, limit: nat): nat {
    if count > 0 then restarts * limit + (if count <= limit then count else limit)
    else if scripts == 0 then 0
    else (restarts + 1) * limit
  }

  function AllowanceOf(cfg: Config, hits: seq<Hit>, key: BucketKey): nat
    requires cfg.Valid()
  {
    Allowance(Restarts(cfg, hits, key), Scripts(cfg, hits, key), CountOf(CountersOf(cfg, hits), key), cfg.maxRequests)
  }

  lemma NextRound(restarts: nat, limit: nat)
    ensures (restarts + 1) * limit == restarts * limit + limit
  {
  }

  lemma AllowanceStep(cfg: Config, hits: seq<Hit>, key: BucketKey)
    requires cfg.Valid() && hits != []
    ensures AllowanceOf(cfg, hits, key)
            >= AllowanceOf(cfg, hits[..|hits| - 1], key)
               + if RunsOn(cfg, hits[|hits| - 1], key) && hits[|hits| - 1].fault == Works
                    && LastDecision(cfg, hits) == Next then 1 else 0
  {
    var earlier := hits[..|hits| - 1];
    CountWithin(cfg, earlier, key);
    CounterStep(cfg, hits, key);
    NextRound(Restarts(cfg, earlier, key), cfg.maxRequests);
    NextRound(Restarts(cfg, hits, key), cfg.maxRequests);
    hide CountersOf, Scripts, Restarts, RunsOn, LastDecision, Unexpired;
  }

  lemma {:induction false} PassedWithin(cfg: Config, hits: seq<Hit>, ip: string, window: int)
    requires cfg.Valid()
    ensures var (from, to) := (WindowEnd(cfg, window - 1), WindowEnd(cfg, window));
            Passed(cfg, hits, ip, from, to)
            <= AllowanceOf(cfg, hits, BucketKey(cfg.name, ip, window))
               + if cfg.failOpen then Arrived(hits, ip, from, to, Faulty) else 0
  {
    if hits != [] {
      var h := hits[|hits| - 1];
      PassedWithin(cfg, hits[..|hits| - 1], ip, window);
      KeyOfArrival(cfg, h, ip, window);
      AllowanceStep(cfg, hits, BucketKey(cfg.name, ip, window));
      if h.fault != Works {
        FaultedDecision(cfg, hits);
      }
      hide AllowanceOf, WindowEnd, LastDecision, Bucket;
    }
  }

  /** No script of the counter runs more than a window length after another. */
  ghost predicate InTime(cfg: Config, hits: seq<Hit>, key: BucketKey)
    requires cfg.Valid()
  {
    forall i, j | 0 <= i < j < |hits| && RunsOn(cfg, hits[i], key) && RunsOn(cfg, hits[j], key) ::
      hits[j].ran <= hits[i].ran + cfg.windowMs
  }

  /** The first script of the counter. */
  function First(cfg: Config, hits: seq<Hit>, key: BucketKey): (i: nat)
    requires cfg.Valid() && Scripts(cfg, hits, key) > 0
    ensures i < |hits| && RunsOn(cfg, hits[i], key) && forall j | 0 <= j < i :: !RunsOn(cfg, hits[j], key)
  {
    if Scripts(cfg, hits[..|hits| - 1], key) > 0 then First(cfg, hits[..|hits| - 1], key)
    else NoScripts(cfg, hits[..|hits| - 1], key); |hits| - 1
  }

  lemma {:induction false} NoScripts(cfg: Config, hits: seq<Hit>, key: BucketKey)
    requires cfg.Valid()
    ensures Scripts(cfg, hits, key) == 0 <==> forall j | 0 <= j < |hits| :: !RunsOn(cfg, hits[j], key)
  {
    if hits != [] {
      NoScripts(cfg, hits[..|hits| - 1], key);
      hide RunsOn;
    }
  }

  /** While it was never restarted, a counter runs until one window length after its first script. */
  lemma {:induction false} FirstExpiry(cfg: Config, hits: seq<Hit>, key: BucketKey)
    requires cfg.Valid() && Ordered(hits) && Restarts(cfg, hits, key) == 0 && Scripts(cfg, hits, key) > 0
    ensures var (until, counters) := (hits[First(cfg, hits, key)].ran + cfg.windowMs, CountersOf(cfg, hits));
            if key in counters then counters[key].expiresAt == until else until < hits[|hits| - 1].ran
  {
    var (earlier, h) := (hits[..|hits| - 1], hits[|hits| - 1]);
    OrderedInit(hits);
    CounterStep(cfg, hits, key);
    if Scripts(cfg, earlier, key) > 0 {
      assert First(cfg, hits, key) == First(cfg, earlier, key);
      FirstExpiry(cfg, earlier, key);
    } else {
      CountWithin(cfg, earlier, key);
      assert First(cfg, hits, key) == |hits| - 1;
    }
    hide CountersOf, Scripts, RunsOn, LastDecision, First, Ordered;
  }

  /** A counter is never restarted exactly when no script of it comes after its expiry. */
  lemma {:induction false} RestartsExactly(cfg: Config, hits: seq<Hit>, key: BucketKey)
    requires cfg.Valid() && Ordered(hits)
    ensures Restarts(cfg, hits, key) == 0 <==> InTime(cfg, hits, key)
  {
    if hits != [] {
      var (earlier, h) := (hits[..|hits| - 1], hits[|hits| - 1]);
      OrderedInit(hits);
      RestartsExactly(cfg, earlier, key);
      CounterStep(cfg, hits, key);
      InTimeStep(cfg, hits, key);
      if Restarts(cfg, earlier, key) == 0 && Scripts(cfg, earlier, key) > 0 {
        FirstExpiry(cfg, earlier, key);
      }
      hide CountersOf, Scripts, RunsOn, LastDecision, First, Ordered, InTime, Unexpired, Restarts;
    }
  }

  lemma InTimeStep(cfg: Config, hits: seq<Hit>, key: BucketKey)
    requires cfg.Valid() && Ordered(hits) && hits != []
    ensures var (earlier, h) := (hits[..|hits| - 1], hits[|hits| - 1]);
            InTime(cfg, hits, key)
            <==> && InTime(cfg, earlier, key)
                 && (RunsOn(cfg, h, key) && Scripts(cfg, earlier, key) > 0 ==>
                       h.ran <= earlier[First(cfg, earlier, key)].ran + cfg.windowMs)
  {
    var (earlier, h) := (hits[..|hits| - 1], hits[|hits| - 1]);
    NoScripts(cfg, earlier, key);
    if Scripts(cfg, earlier, key) > 0 {
      var first := First(cfg, earlier, key);
      assert RunsOn(cfg, hits[first], key) && hits[first] == earlier[first];
      forall i | 0 <= i < |earlier| && RunsOn(cfg, hits[i], key) ensures hits[first].ran <= hits[i].ran {
        assert earlier[i] == hits[i];
      }
    }
    hide RunsOn, First, Scripts;
  }

  /** In particular when all its scripts run while the window lasts. */
  lemma PromptInTime(cfg: Config, hits: seq<Hit>, ip: string, window: int)
    requires cfg.Valid() && Ordered(hits)
    requires forall i | 0 <= i < |hits| && Bucket(cfg, hits[i]) == BucketKey(cfg.name, ip, window) ::
               hits[i].ran <= WindowEnd(cfg, window)
    ensures InTime(cfg, hits, BucketKey(cfg.name, ip, window))
  {
    var key := BucketKey(cfg.name, ip, window);
    WindowEndsGrow(cfg, window);
    forall i, j | 0 <= i < j < |hits| && RunsOn(cfg, hits[i], key) && RunsOn(cfg, hits[j], key)
      ensures hits[j].ran <= hits[i].ran + cfg.windowMs
    {
      KeyOfArrival(cfg, hits[i], ip, window);
      KeyOfArrival(cfg, hits[j], ip, window);
    }
  }

  /** A window lets through at most maxRequests for every start of its counter, and the counter is
      started once exactly when no script of it runs after it has expired; failing open adds the faulted
      requests of the window. */
  lemma WindowBound(cfg: Config, hits: seq<Hit>, ip: string, window: int)
    requires cfg.Valid() && Ordered(hits)
    ensures var (from, to) := (WindowEnd(cfg, window - 1), WindowEnd(cfg, window));
            var key := BucketKey(cfg.name, ip, window);
            var faults := if cfg.failOpen then Arrived(hits, ip, from, to, Faulty) else 0;
            && Passed(cfg, hits, ip, from, to) <= (Restarts(cfg, hits, key) + 1) * cfg.maxRequests + faults
            && (Restarts(cfg, hits, key) == 0 <==> InTime(cfg, hits, key))
            && (InTime(cfg, hits, key) ==> Passed(cfg, hits, ip, from, to) <= cfg.maxRequests + faults)
  {
    var key := BucketKey(cfg.name, ip, window);
    PassedWithin(cfg, hits, ip, window);
    RestartsExactly(cfg, hits, key);
    NextRound(Restarts(cfg, hits, key), cfg.maxRequests);
    AllowanceAtMost(Restarts(cfg, hits, key), Scripts(cfg, hits, key), CountOf(CountersOf(cfg, hits), key),
                    cfg.maxRequests);
    hide WindowEnd, Restarts, InTime, Passed, Allowance, Scripts, CountOf, CountersOf;
  }

  lemma AllowanceAtMost(restarts: nat, scripts: nat, count: nat, limit: nat)
    ensures Allowance(restarts, scripts, count, limit) <= (restarts + 1) * limit
  {
    NextRound(restarts, limit);
  }

  /** A request of the window that waits for Redis until its counter has expired is let through once
      more: with a limit of one, two pass. */
  lemma LateScriptExample(cfg: Config, ip: string)
    requires cfg.Valid() && cfg.maxRequests == 1
    ensures var hits := [Hit(ip, 0, 0, Works), Hit(ip, cfg.windowMs - 1, cfg.windowMs + 1, Works)];
            Ordered(hits) && Passed(cfg, hits, ip, 0, cfg.windowMs) == 2
  {
    var d := cfg.windowMs;
    var (a, b) := (Hit(ip, 0, 0, Works), Hit(ip, d - 1, d + 1, Works));
    var key := BucketKey(cfg.name, ip, 0);
    assert [a, b][..1] == [a] && [a][..0] == [];
    KeyOfArrival(cfg, a, ip, 0);
    KeyOfArrival(cfg, b, ip, 0);
    CounterStep(cfg, [a], key);
    CounterStep(cfg, [a, b], key);
    assert Passed(cfg, [], ip, 0, d) == 0;
    assert Passed(cfg, [a], ip, 0, d) == Passed(cfg, [], ip, 0, d) + 1;
    assert Passed(cfg, [a, b], ip, 0, d) == Passed(cfg, [a], ip, 0, d) + 1;
    hide Bucket, LastDecision;
  }

  // --- any interval as long as a window -------------------------------------------------------

  lemma {:induction false} PassedSplits(cfg: Config, hits: seq<Hit>, ip: string, from: int, mid: int, to: int)
    requires cfg.Valid() && from <= mid <= to
    ensures Passed(cfg, hits, ip, from, to) == Passed(cfg, hits, ip, from, mid) + Passed(cfg, hits, ip, mid, to)
  {
    if hits != [] {
      PassedSplits(cfg, hits[..|hits| - 1], ip, from, mid, to);
      hide LastDecision;
    }
  }

  lemma PassedInTwo(cfg: Config, hits: seq<Hit>, ip: string, start: int)
    requires cfg.Valid()
    ensures var window := Window(cfg, start);
            Passed(cfg, hits, ip, start, start + cfg.windowMs)
            <= Passed(cfg, hits, ip, WindowEnd(cfg, window - 1), WindowEnd(cfg, window))
               + Passed(cfg, hits, ip, WindowEnd(cfg, window + 1 - 1), WindowEnd(cfg, window + 1))
  {
    var window := Window(cfg, start);
    var (low, mid, high) := (WindowEnd(cfg, window - 1), WindowEnd(cfg, window), WindowEnd(cfg, window + 1));
    var end := start + cfg.windowMs;
    WindowSpan(cfg, start, window);
    WindowEndsGrow(cfg, window);
    WindowEndsGrow(cfg, window + 1);
    hide *;
    PassedSplits(cfg, hits, ip, low, start, mid);
    PassedSplits(cfg, hits, ip, start, mid, end);
    PassedSplits(cfg, hits, ip, mid, end, high);
  }

  /** An interval of one window length touches two windows, so while no script comes late it lets through
      at most twice the limit, and otherwise once more for every restart of a counter; failing open adds
      the faulted requests of those two windows. */
  lemma IntervalBound(cfg: Config, hits: seq<Hit>, ip: string, start: int)
    requires cfg.Valid() && Ordered(hits)
    ensures var window := Window(cfg, start);
            var (key, nextKey) := (BucketKey(cfg.name, ip, window), BucketKey(cfg.name, ip, window + 1));
            var faults := if cfg.failOpen then
                            Arrived(hits, ip, WindowEnd(cfg, window - 1), WindowEnd(cfg, window), Faulty)
                            + Arrived(hits, ip, WindowEnd(cfg, window), WindowEnd(cfg, window + 1), Faulty)
                          else 0;
            && Passed(cfg, hits, ip, start, start + cfg.windowMs)
               <= (Restarts(cfg, hits, key) + 1) * cfg.maxRequests
                  + (Restarts(cfg, hits, nextKey) + 1) * cfg.maxRequests + faults
            && (InTime(cfg, hits, key) && InTime(cfg, hits, nextKey) ==>
                  Passed(cfg, hits, ip, start, start + cfg.windowMs) <= 2 * cfg.maxRequests + faults)
  {
    hide *;
    PassedInTwo(cfg, hits, ip, start);
    WindowBound(cfg, hits, ip, Window(cfg, start));
    WindowBound(cfg, hits, ip, Window(cfg, start) + 1);
  }

  // --- while Redis answers -------------------------------------------------------------------------

  ghost predicate AllWork(hits: seq<Hit>) {
    forall i | 0 <= i < |hits| :: hits[i].fault == Works
  }

  function Anyone(h: Hit): bool {
    true
  }

  /** What has passed, by the number of arrivals: before a restart as many as the limit allows, and
      after one more than the limit as soon as more have arrived. */
  predicate PassedBy(passed: nat, arrived: nat, restarts: nat, count: nat, limit: nat) {
    && passed <= arrived
    && count <= arrived
    && (restarts == 0 ==> passed == if arrived <= limit then arrived else limit)
    && (restarts > 0 && limit > 0 ==> count < arrived && passed >= if arrived <= limit + 1 then arrived else limit + 1)
    && (limit == 0 ==> passed == 0)
  }

  lemma {:induction false} PassedStep(cfg: Config, hits: seq<Hit>, ip: string, window: int)
    requires cfg.Valid() && AllWork(hits)
    ensures var (from, to) := (WindowEnd(cfg, window - 1), WindowEnd(cfg, window));
            var key := BucketKey(cfg.name, ip, window);
            var (arrived, count) := (Arrived(hits, ip, from, to, Anyone), CountOf(CountersOf(cfg, hits), key));
            && arrived == Scripts(cfg, hits, key)
            && PassedBy(Passed(cfg, hits, ip, from, to), arrived, Restarts(cfg, hits, key), count, cfg.maxRequests)
            && (Restarts(cfg, hits, key) == 0 && key in CountersOf(cfg, hits) ==> count == arrived)
  {
    if hits != [] {
      PassedStep(cfg, hits[..|hits| - 1], ip, window);
      KeyOfArrival(cfg, hits[|hits| - 1], ip, window);
      CounterStep(cfg, hits, BucketKey(cfg.name, ip, window));
      hide CountersOf, Scripts, Restarts, LastDecision, Unexpired, WindowEnd, Bucket;
    }
  }

  /** With no faults a window lets through as many requests as arrive in it, up to the limit, exactly
      when no script comes after the expiry, no more arrive than the limit, or the limit is zero. */
  lemma WindowExact(cfg: Config, hits: seq<Hit>, ip: string, window: int)
    requires cfg.Valid() && Ordered(hits) && AllWork(hits)
    ensures var (from, to) := (WindowEnd(cfg, window - 1), WindowEnd(cfg, window));
            var key := BucketKey(cfg.name, ip, window);
            var arrived := Arrived(hits, ip, from, to, Anyone);
            && (Passed(cfg, hits, ip, from, to) == (if arrived <= cfg.maxRequests then arrived else cfg.maxRequests)
                <==> InTime(cfg, hits, key) || arrived <= cfg.maxRequests || cfg.maxRequests == 0)
            && (Passed(cfg, hits, ip, from, to) > cfg.maxRequests
                <==> !InTime(cfg, hits, key) && arrived > cfg.maxRequests > 0)
  {
    PassedStep(cfg, hits, ip, window);
    RestartsExactly(cfg, hits, BucketKey(cfg.name, ip, window));
    hide Passed, CountersOf, Scripts, Restarts, InTime, WindowEnd, Arrived;
  }

  /** `n` requests alike, after the earlier ones. */
  function Burst(earlier: seq<Hit>, h: Hit, n: nat): seq<Hit> {
    if n == 0 then earlier else Burst(earlier, h, n - 1) + [h]
  }

  lemma {:induction false} BurstRun(earlier: seq<Hit>, h: Hit, n: nat)
    requires Ordered(earlier) && AllWork(earlier) && h.fault == Works && h.arrived <= h.ran
    requires earlier == [] || earlier[|earlier| - 1].ran <= h.ran
    ensures var hits := Burst(earlier, h, n);
            && Ordered(hits) && AllWork(hits)
            && (hits == [] || hits[|hits| - 1].ran <= h.ran)
  {
    if n > 0 {
      BurstRun(earlier, h, n - 1);
    }
  }

  lemma {:induction false} BurstArrived(earlier: seq<Hit>, h: Hit, n: nat, from: int, to: int)
    ensures Arrived(Burst(earlier, h, n), h.ip, from, to, Anyone)
            == Arrived(earlier, h.ip, from, to, Anyone) + if from <= h.arrived < to then n else 0
  {
    if n > 0 {
      BurstArrived(earlier, h, n - 1, from, to);
      assert Burst(earlier, h, n)[..|Burst(earlier, h, n)| - 1] == Burst(earlier, h, n - 1);
    }
  }

  lemma {:induction false} PassedHaveArrived(cfg: Config, hits: seq<Hit>, ip: string, from: int, to: int)
    requires cfg.Valid()
    ensures Passed(cfg, hits, ip, from, to) <= Arrived(hits, ip, from, to, Anyone)
  {
    if hits != [] {
      PassedHaveArrived(cfg, hits[..|hits| - 1], ip, from, to);
      hide LastDecision;
    }
  }

  /** A request whose script runs at once. */
  function Prompt(ip: string, now: int): Hit {
    Hit(ip, now, now, Works)
  }

  /** The limit's worth of requests in the last millisecond of one window and as many in the first
      of the next. */
  function DoubleBurst(cfg: Config, ip: string): seq<Hit>
    requires cfg.Valid()
  {
    Burst(Burst([], Prompt(ip, cfg.windowMs - 1), cfg.maxRequests), Prompt(ip, cfg.windowMs), cfg.maxRequests)
  }

  lemma DoubleBurstRuns(cfg: Config, ip: string)
    requires cfg.Valid()
    ensures Ordered(DoubleBurst(cfg, ip)) && AllWork(DoubleBurst(cfg, ip))
  {
    var (last, first) := (Prompt(ip, cfg.windowMs - 1), Prompt(ip, cfg.windowMs));
    assert Ordered([]) && AllWork([]);
    BurstRun([], last, cfg.maxRequests);
    hide Burst, Ordered, AllWork;
    BurstRun(Burst([], last, cfg.maxRequests), first, cfg.maxRequests);
  }

  /** The bound of IntervalBound is reached without any delay, for every limiter whose window can be
      straddled. */
  lemma IntervalBoundTight(cfg: Config, ip: string)
    requires cfg.Valid() && cfg.windowMs >= 2
    ensures Ordered(DoubleBurst(cfg, ip)) && AllWork(DoubleBurst(cfg, ip))
    ensures Passed(cfg, DoubleBurst(cfg, ip), ip, cfg.windowMs - 1, 2 * cfg.windowMs - 1) == 2 * cfg.maxRequests
  {
    var (d, hits) := (cfg.windowMs, DoubleBurst(cfg, ip));
    assert WindowEnd(cfg, -1) == 0 && WindowEnd(cfg, 0) == d && WindowEnd(cfg, 1) == 2 * d;
    DoubleBurstRuns(cfg, ip);
    hide *;
    WindowExact(cfg, hits, ip, 0);
    WindowExact(cfg, hits, ip, 1);
    BurstIn(cfg, ip, 0, d);
    BurstIn(cfg, ip, d, 2 * d);
    BurstIn(cfg, ip, 0, d - 1);
    BurstIn(cfg, ip, 2 * d - 1, 2 * d);
    PassedSplits(cfg, hits, ip, 0, d, 2 * d);
    PassedSplits(cfg, hits, ip, 0, d - 1, 2 * d);
    PassedSplits(cfg, hits, ip, d - 1, 2 * d - 1, 2 * d);
    PassedHaveArrived(cfg, hits, ip, 0, d - 1);
    PassedHaveArrived(cfg, hits, ip, 2 * d - 1, 2 * d);
  }

  lemma BurstIn(cfg: Config, ip: string, from: int, to: int)
    requires cfg.Valid()
    ensures Arrived(DoubleBurst(cfg, ip), ip, from, to, Anyone)
            == (if from <= cfg.windowMs - 1 < to then cfg.maxRequests else 0)
               + (if from <= cfg.windowMs < to then cfg.maxRequests else 0)
  {
    var (last, first) := (Prompt(ip, cfg.windowMs - 1), Prompt(ip, cfg.windowMs));
    BurstArrived([], last, cfg.maxRequests, from, to);
    BurstArrived(Burst([], last, cfg.maxRequests), first, cfg.maxRequests, from, to);
  }

  // --- Retry-After ----------------------------------------------------------------------------

  /** No counter lives longer than one window from now. */
  ghost predicate ExpiresWithin(cfg: Config, counters: Counters, now: int) {
    forall key | key in counters :: counters[key].expiresAt <= now + cfg.windowMs
  }

  lemma {:induction false} CountersExpire(cfg: Config, hits: seq<Hit>, now: int)
    requires cfg.Valid() && Ordered(hits)
    requires hits == [] || hits[|hits| - 1].ran <= now
    ensures ExpiresWithin(cfg, CountersOf(cfg, hits), now)
  {
    if hits != [] {
      OrderedInit(hits);
      CountersExpire(cfg, hits[..|hits| - 1], now);
      CountersOfStep(cfg, hits);
      hide CountersOf, Ordered;
    }
  }

  lemma CeilSeconds(ms: int)
    ensures 1000 * Ceil(ms, 1000) - 1000 < ms <= 1000 * Ceil(ms, 1000)
  {
  }

  /** When the counter of a request's window expires, its own script included. */
  function Expiry(cfg: Config, hits: seq<Hit>): int
    requires cfg.Valid() && hits != []
  {
    var h := hits[|hits| - 1];
    Incremented(CountersOf(cfg, hits[..|hits| - 1]), Bucket(cfg, h), cfg.windowMs, h.ran)[Bucket(cfg, h)].expiresAt
  }

  /** A refused client is told a number of seconds, at most one window rounded up, after which it is past
      the window that refused it. The number is zero exactly when the script runs in the very millisecond
      of the expiry, and then the window is over already. */
  lemma RetryAfterLeavesWindow(cfg: Config, hits: seq<Hit>, later: int)
    requires cfg.Valid() && Ordered(hits) && hits != []
    requires LastDecision(cfg, hits).TooMany?
    requires later >= hits[|hits| - 1].ran + 1000 * LastDecision(cfg, hits).retryAfter
    ensures Window(cfg, later) > Window(cfg, hits[|hits| - 1].arrived)
    ensures var (h, retryAfter) := (hits[|hits| - 1], LastDecision(cfg, hits).retryAfter);
            && 0 <= 1000 * retryAfter < cfg.windowMs + 1000
            && (retryAfter == 0 <==> h.fault == Works && h.ran == Expiry(cfg, hits))
            && (retryAfter == 0 ==> h.ran >= WindowEnd(cfg, Window(cfg, h.arrived)))
  {
    var h := hits[|hits| - 1];
    var window := Window(cfg, h.arrived);
    var until := RefusedUntil(cfg, hits);
    CeilSeconds(until - h.ran);
    OrderedInit(hits);
    hide LastDecision, Expiry;
    WindowSpan(cfg, h.arrived, window);
    WindowMonotone(cfg, h.arrived, later);
    WindowSpan(cfg, later, window);
    hide Window, WindowEnd, Ceil, Ordered;
  }

  /** Where the Retry-After of a refusal comes from: the end of the counter, or a whole window. */
  lemma RefusedUntil(cfg: Config, hits: seq<Hit>) returns (until: int)
    requires cfg.Valid() && Ordered(hits) && hits != []
    requires LastDecision(cfg, hits).TooMany?
    ensures var h := hits[|hits| - 1];
            && LastDecision(cfg, hits).retryAfter == Ceil(until - h.ran, 1000)
            && WindowEnd(cfg, Window(cfg, h.arrived)) <= until && h.ran <= until <= h.ran + cfg.windowMs
            && until == if h.fault == Works then Expiry(cfg, hits) else h.ran + cfg.windowMs
  {
    var (h, earlier) := (hits[|hits| - 1], hits[..|hits| - 1]);
    var key := Bucket(cfg, h);
    OrderedInit(hits);
    WindowSpan(cfg, h.arrived, Window(cfg, h.arrived));
    WindowEndsGrow(cfg, Window(cfg, h.arrived));
    CountersOutlive(cfg, earlier);
    CountersExpire(cfg, earlier, h.ran);
    hide CountersOf, Window, WindowEnd, Ceil, Ordered;
    until := if h.fault == Works then Expiry(cfg, hits) else h.ran + cfg.windowMs;
  }
}

/** The idempotency protocol of mutating endpoints (src/middleware/idempotency-middleware.ts): one
    cache entry per key goes from absent to in progress to completed, under interleaved requests,
    responses, aborted connections, evictions and the clock. */
module Idempotency {
  import opened Text
  import opened Json

  const IN_PROGRESS_TTL_MS: nat := 60_000
  const MAX_KEY_LENGTH: nat := 255
  const JSON_TYPE := "application/json"
  const HTML_TYPE := "text/html"

  // --- the cache ------------------------------------------------------------------------------

  /** A body is what was handed to json() or send(); None is a response without one. */
  datatype Entry = InProgress | Completed(statusCode: int, body: Option<Value>)

  datatype Stored = Stored(entry: Entry, expiresAt: int)

  type Entries = map<string, Stored>

  /** An entry is served up to and including the millisecond it expires at. */
  function Lookup(entries: Entries, key: string, now: int): Option<Entry> {
    if key in entries && now <= entries[key].expiresAt then Some(entries[key].entry) else None
  }

  /** What committing a response leaves in the cache: a replayable entry, or none after a server error. */
  function Committed(entries: Entries, key: string, statusCode: int, body: Option<Value>, ttl: nat, now: int): Entries {
    if statusCode < 500 then entries[key := Stored(Completed(statusCode, body), now + ttl)]
    else entries - {key}
  }

  class IdempotencyCache {
    var entries: Entries

    constructor ()
      ensures entries == map[]
    {
      entries := map[];
    }

    /** Expired entries are dropped when they are looked up. */
    method Get(key: string, now: int) returns (entry: Option<Entry>)
      modifies this
      ensures entry == Lookup(old(entries), key, now)
      ensures entries == if entry == None then old(entries) - {key} else old(entries)
    {
      if key !in entries {
        return None;
      }
      if now > entries[key].expiresAt {
        entries := entries - {key};
        return None;
      }
      entry := Some(entries[key].entry);
    }

    method Set(key: string, entry: Entry, ttl: nat, now: int)
      modifies this
      ensures entries == old(entries)[key := Stored(entry, now + ttl)]
    {
      entries := entries[key := Stored(entry, now + ttl)];
    }

    method Delete(key: string)
      modifies this
      ensures entries == old(entries) - {key}
    {
      entries := entries - {key};
    }
  }

  // --- responses ------------------------------------------------------------------------------

  /** The argument of send(): nothing, a string, or a value that send() passes on to json(). */
  datatype Payload = Nothing | Raw(text: string) | Data(value: Value)

  ghost predicate WellFormedPayload(p: Payload) {
    p.Data? ==> WellFormed(p.value)
  }

  /** What the patched send() commits: a string is stored as the JSON it holds, if any. */
  function ParsedBody(p: Payload): Option<Value> {
    match p
    case Nothing => None
    case Raw(text) => Some(if Parse(text).Some? then Parse(text).value else Str(text))
    case Data(v) => Some(v)
  }

  /** The text json() sends for a body. */
  function JsonText(body: Option<Value>): string
    requires body.Some? ==> WellFormed(body.value)
  {
    if body.Some? then Print(body.value) else ""
  }

  /** The text send() sends: a string as it is, a value as JSON, and nothing for null. */
  function SentText(p: Payload): string
    requires p.Data? ==> WellFormed(p.value)
  {
    match p
    case Nothing => ""
    case Raw(text) => text
    case Data(v) => if v == Null then "" else Print(v)
  }

  /** json() and send() keep a content type that the handler has set. Otherwise json() sets that of JSON,
      and send() that of HTML for a string and none for null or nothing. */
  function JsonType(preset: Option<string>): Option<string> {
    if preset.Some? then preset else Some(JSON_TYPE)
  }

  function SentType(p: Payload, preset: Option<string>): Option<string> {
    if p.Data? && p.value != Null then JsonType(preset)
    else if preset == None && p.Raw? then Some(HTML_TYPE)
    else preset
  }

  /** What the original json() hands to send(): the JSON text, or nothing for no body. */
  function NestedPayload(body: Option<Value>): Payload
    requires body.Some? ==> WellFormed(body.value)
  {
    if body.Some? then Raw(Print(body.value)) else Nothing
  }

  /** A response whose json() and send() have been patched by attachResponseCaching. */
  class CachedResponse {
    const cache: IdempotencyCache
    const cacheKey: string
    const ttlMs: nat
    var statusCode: int
    var captured: bool
    var writableEnded: bool
    var sent: string
    var contentType: Option<string>

    constructor (cache: IdempotencyCache, cacheKey: string, ttlMs: nat)
      ensures this.cache == cache && this.cacheKey == cacheKey && this.ttlMs == ttlMs
      ensures statusCode == 200 && !captured && !writableEnded && sent == "" && contentType == None
    {
      this.cache, this.cacheKey, this.ttlMs := cache, cacheKey, ttlMs;
      statusCode, captured, writableEnded, sent, contentType := 200, false, false, "", None;
    }

    method CommitCache(body: Option<Value>, now: int)
      modifies this`captured, cache
      ensures captured
      ensures cache.entries == if old(captured) then old(cache.entries)
                               else Committed(old(cache.entries), cacheKey, statusCode, body, ttlMs, now)
      ensures !old(captured) ==>
                cache.entries == if statusCode >= 500 then old(cache.entries) - {cacheKey}
                                 else old(cache.entries)[cacheKey := Stored(Completed(statusCode, body), now + ttlMs)]
    {
      if captured {
        return;
      }
      captured := true;
      if statusCode < 500 {
        cache.Set(cacheKey, Completed(statusCode, body), ttlMs, now);
      } else {
        cache.Delete(cacheKey);
      }
    }

    /** The patched json(): commit, then the original json(), which calls the patched send(). */
    method Json(body: Option<Value>, now: int)
      requires !writableEnded && (body.Some? ==> WellFormed(body.value))
      modifies this`captured, this`writableEnded, this`sent, this`contentType, cache
      ensures captured && writableEnded && sent == JsonText(body) && contentType == JsonType(old(contentType))
      ensures cache.entries == if old(captured) then old(cache.entries)
                               else Committed(old(cache.entries), cacheKey, statusCode, body, ttlMs, now)
      decreases 1
    {
      CommitCache(body, now);
      if contentType == None {
        contentType := Some(JSON_TYPE);
      }
      Send(NestedPayload(body), now);
    }

    /** The patched send(): commit, then the original send(), which hands a value to the patched json(). */
    method Send(payload: Payload, now: int)
      requires !writableEnded && (payload.Data? ==> WellFormed(payload.value))
      modifies this`captured, this`writableEnded, this`sent, this`contentType, cache
      ensures captured && writableEnded && sent == SentText(payload)
      ensures sent == match payload
                      case Nothing => ""
                      case Raw(text) => text
                      case Data(v) => if v == Null then "" else Print(v)
      ensures contentType == SentType(payload, old(contentType))
      ensures old(contentType) == None ==>
                contentType == match payload
                               case Nothing => None
                               case Raw(_) => Some("text/html")
                               case Data(v) => if v == Null then None else Some("application/json")
      ensures cache.entries == if old(captured) then old(cache.entries)
                               else Committed(old(cache.entries), cacheKey, statusCode, ParsedBody(payload), ttlMs, now)
      decreases if payload.Data? then 2 else 0
    {
      CommitCache(ParsedBody(payload), now);
      if payload.Data? && payload.value != Null {
        Json(Some(payload.value), now);
      } else {
        if contentType == None && payload.Raw? {
          contentType := Some(HTML_TYPE);
        }
        sent := SentText(payload);
        writableEnded := true;
      }
    }

    /** The listener of the connection's close event. */
    method OnClose()
      modifies cache
      ensures cache.entries == if !writableEnded && !captured then old(cache.entries) - {cacheKey}
                               else old(cache.entries)
    {
      if !writableEnded && !captured {
        cache.Delete(cacheKey);
      }
    }
  }

  /** Every json() response, one without a body included: the nested send() would commit the very same
      body, so it does not matter which of the two commits first, and what is sent is what a replay of
      the committed body sends. The replay is JSON, so its type is the same unless the handler has set
      another. */
  lemma JsonReplaysIdentically(body: Option<Value>, preset: Option<string>)
    requires body.Some? ==> WellFormed(body.value)
    ensures ParsedBody(NestedPayload(body)) == body
    ensures SentText(NestedPayload(body)) == JsonText(ParsedBody(NestedPayload(body)))
    ensures JsonType(preset) == JsonType(None) <==> preset == None || preset == Some("application/json")
  {
    if body.Some? {
      ParsePrint(body.value);
    }
  }

  /** A response without a body, a value other than null, or the compact text of a JSON value. */
  ghost predicate IsCompact(p: Payload) {
    match p
    case Nothing => true
    case Raw(text) => exists v | WellFormed(v) :: text == Print(v)
    case Data(v) => v != Null
  }

  /** A replay repeats the text of a send() response exactly when it is a response without a body, a value
      other than null, or a string that is the compact text of a JSON value; and text and type exactly
      when besides it is sent as JSON: a value for which the handler has set no other type, or anything
      for which it has set that of JSON. */
  lemma SendReplaysIdentically(p: Payload, preset: Option<string>)
    requires WellFormedPayload(p)
    ensures var body := ParsedBody(p);
            && (body.Some? ==> WellFormed(body.value))
            && (JsonText(body) == SentText(p) <==> IsCompact(p))
            && (JsonText(body) == SentText(p) && JsonType(None) == SentType(p, preset)
                <==> IsCompact(p) && (preset == Some("application/json") || (preset == None && p.Data?)))
  {
    hide WellFormed, Parse;
    match p {
      case Nothing =>
      case Raw(text) =>
        assert WellFormed(Str(text)) by { StringsAreWellFormed(text); }
        if v :| WellFormed(v) && text == Print(v) {
          ParsePrint(v);
        }
      case Data(v) =>
        if v == Null {
          assert Print(v) == "null" + "";
        }
    }
  }

  lemma StringsAreWellFormed(text: string)
    ensures WellFormed(Str(text))
  {
  }

  // --- admitting a request --------------------------------------------------------------------

  datatype Outcome =
    | PassThrough
    | InvalidKey
    | Conflict
    | Replay(statusCode: int, body: Option<Value>)
    | Admitted(cacheKey: string)

  /** What a request gets when the cache answers so: it is a running request, a stored response, or
      nothing. */
  function Met(found: Option<Entry>, key: string): Outcome {
    match found
    case None => Admitted(key)
    case Some(InProgress) => Conflict
    case Some(Completed(statusCode, body)) => Replay(statusCode, body)
  }

  function Meet(entries: Entries, key: string, now: int): Outcome {
    Met(Lookup(entries, key, now), key)
  }

  predicate IsMutating(verb: string) {
    verb == "POST" || verb == "PATCH" || verb == "PUT" || verb == "DELETE"
  }

  /** The key of a request, or None when no header carries one. */
  function IdempotencyKey(header: Option<string>, legacyHeader: Option<string>): Option<string> {
    var raw := if header.Some? then header else legacyHeader;
    if raw.Some? && raw.value != "" then Some(Trim(raw.value)) else None
  }

  /** The newer header decides, also when it is empty; the key is the header without the whitespace around
      it. */
  lemma KeyOfHeaders(header: string, legacy: Option<string>)
    ensures IdempotencyKey(Some(header), legacy) == IdempotencyKey(None, Some(header))
    ensures IdempotencyKey(None, None) == None
    ensures IdempotencyKey(Some(header), legacy) == None <==> header == ""
    ensures header != "" ==>
              var key := IdempotencyKey(Some(header), legacy).value;
              && (key != "" ==> !IsSpace(key[0]) && !IsSpace(key[|key| - 1]))
              && exists before, after | AllSpace(before) && AllSpace(after) :: header == before + key + after
  {
    hide Trim;
    var before, after := TrimSplits(header);
    assert header != "" ==> IdempotencyKey(Some(header), legacy) == Some(Trim(header));
  }

  function CacheKey(userId: string, verb: string, path: string, key: string): string {
    "idemp:" + (userId + (":" + (verb + (":" + (path + (":" + key))))))
  }

  /** The middleware up to the call of next(). */
  method Handle(cache: IdempotencyCache, now: int, verb: string, header: Option<string>,
                legacyHeader: Option<string>, userId: Option<string>, path: string)
    returns (outcome: Outcome)
    modifies cache
    ensures var key := IdempotencyKey(header, legacyHeader);
            var cacheKey := CacheKey(if userId.Some? then userId.value else "anon", verb, path,
                                     if key.Some? then key.value else "");
            outcome == if !IsMutating(verb) || key == None then PassThrough
                       else if key.value == "" || |key.value| > MAX_KEY_LENGTH then InvalidKey
                       else Meet(old(cache.entries), cacheKey, now)
    ensures var key := IdempotencyKey(header, legacyHeader);
            && (outcome.PassThrough? <==> verb !in {"POST", "PATCH", "PUT", "DELETE"} || key == None)
            && (!outcome.PassThrough? ==> (outcome.InvalidKey? <==> !(1 <= |key.value| <= 255)))
            && (!outcome.PassThrough? && !outcome.InvalidKey? ==>
                  var (entries, userOrAnon) := (old(cache.entries), if userId.Some? then userId.value else "anon");
                  var cacheKey := CacheKey(userOrAnon, verb, path, key.value);
                  if cacheKey in entries && now <= entries[cacheKey].expiresAt then
                    match entries[cacheKey].entry
                    case InProgress => outcome == Conflict
                    case Completed(statusCode, body) => outcome == Replay(statusCode, body)
                  else outcome == Admitted(cacheKey))
    ensures cache.entries == if outcome.Admitted?
                             then old(cache.entries)[outcome.cacheKey := Stored(InProgress, now + 60_000)]
                             else old(cache.entries)
  {
    if verb != "POST" && verb != "PATCH" && verb != "PUT" && verb != "DELETE" {
      return PassThrough;
    }
    var key := IdempotencyKey(header, legacyHeader);
    if key == None {
      return PassThrough;
    }
    if |key.value| == 0 || |key.value| > MAX_KEY_LENGTH {
      return InvalidKey;
    }
    var cacheKey := CacheKey(if userId.Some? then userId.value else "anon", verb, path, key.value);
    var existing := cache.Get(cacheKey, now);
    if existing.Some? {
      match existing.value {
        case InProgress => return Conflict;
        case Completed(statusCode, body) => return Replay(statusCode, body);
      }
    }
    cache.Set(cacheKey, InProgress, IN_PROGRESS_TTL_MS, now);
    outcome := Admitted(cacheKey);
  }

  lemma FirstColon(a: string, b: string, c: string, d: string)
    requires a + (":" + b) == c + (":" + d) && ':' !in a && ':' !in c
    ensures a == c && b == d
  {
    var s := a + (":" + b);
    assert s[|a|] == ':' && s[|c|] == ':';
    ColonBehind(c, ":" + d, |a|);
    ColonBehind(a, ":" + b, |c|);
    assert a == s[..|a|] && b == s[|a| + 1..] && d == s[|c| + 1..];
  }

  lemma ColonBehind(head: string, tail: string, i: nat)
    requires ':' !in head && i < |head + tail| && (head + tail)[i] == ':'
    ensures i >= |head|
  {
    assert forall j | 0 <= j < |head| :: (head + tail)[j] == head[j] && head[j] in head;
  }

  /** For user ids without a colon, requests share a cache key exactly when user and method agree and
      path and key agree as one text: a colon can move between path and key and nowhere else. */
  lemma SameCacheKeyExactly(u: string, v: string, p: string, k: string, u': string, v': string, p': string, k': string)
    requires IsMutating(v) && IsMutating(v') && ':' !in u && ':' !in u'
    ensures CacheKey(u, v, p, k) == CacheKey(u', v', p', k')
            <==> u == u' && v == v' && p + (":" + k) == p' + (":" + k')
  {
    var (a, b) := (CacheKey(u, v, p, k), CacheKey(u', v', p', k'));
    var (tail, tail') := (p + (":" + k), p' + (":" + k'));
    assert a[6..] == u + (":" + (v + (":" + tail)));
    assert b[6..] == u' + (":" + (v' + (":" + tail')));
    if a == b {
      FirstColon(u, v + (":" + tail), u', v' + (":" + tail'));
      FirstColon(v, tail, v', tail');
    }
  }

  /** So with no colon in the paths either, only the same request repeats a cache key. */
  lemma CacheKeyInjective(u: string, v: string, p: string, k: string, u': string, v': string, p': string, k': string)
    requires IsMutating(v) && IsMutating(v') && ':' !in u && ':' !in u' && ':' !in p && ':' !in p'
    requires CacheKey(u, v, p, k) == CacheKey(u', v', p', k')
    ensures u == u' && v == v' && p == p' && k == k'
  {
    SameCacheKeyExactly(u, v, p, k, u', v', p', k');
    FirstColon(p, k, p', k');
  }

  /** A colon in a path can move into the key. */
  lemma CacheKeyCollision()
    ensures CacheKey("u", "POST", "/a:b", "c") == CacheKey("u", "POST", "/a", "b:c")
  {
    assert "/a:b" + (":" + "c") == "/a" + (":" + "b:c");
  }
}

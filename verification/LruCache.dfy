/** The in-memory cache behind the idempotency keys (src/utils/cache.ts): a map in insertion order,
    where a hit or a write moves an entry to the end and a full map drops its first entry. */
module LruCache {
  import opened Text

  datatype Slot<V> = Slot(key: string, value: V, expiresAt: int)

  predicate DistinctKeys<V>(slots: seq<Slot<V>>) {
    forall i, j | 0 <= i < j < |slots| :: slots[i].key != slots[j].key
  }

  predicate HasKey<V>(slots: seq<Slot<V>>, key: string) {
    exists i | 0 <= i < |slots| :: slots[i].key == key
  }

  /** Map.delete */
  function Remove<V>(slots: seq<Slot<V>>, key: string): (r: seq<Slot<V>>)
    ensures |r| <= |slots|
  {
    if slots == [] then []
    else if slots[0].key == key then slots[1..]
    else [slots[0]] + Remove(slots[1..], key)
  }

  function Find<V>(slots: seq<Slot<V>>, key: string): (r: Option<Slot<V>>)
    ensures r.Some? ==> r.value in slots && r.value.key == key
    ensures r == None <==> !HasKey(slots, key)
  {
    if slots == [] then None
    else if slots[0].key == key then Some(slots[0])
    else
      var r := Find(slots[1..], key);
      assert HasKey(slots, key) <==> HasKey(slots[1..], key) by {
        assert slots == [slots[0]] + slots[1..];
        if i :| 0 <= i < |slots| && slots[i].key == key {
          assert slots[1..][i - 1].key == key;
        }
      }
      r
  }

  /** What get() answers: the value of an entry that has not expired. */
  function Served<V>(slots: seq<Slot<V>>, key: string, now: int): Option<V> {
    match Find(slots, key)
    case None => None
    case Some(slot) => if now > slot.expiresAt then None else Some(slot.value)
  }

  function AfterGet<V>(slots: seq<Slot<V>>, key: string, now: int): seq<Slot<V>> {
    match Find(slots, key)
    case None => slots
    case Some(slot) => if now > slot.expiresAt then Remove(slots, key) else Remove(slots, key) + [slot]
  }

  function AfterSet<V>(slots: seq<Slot<V>>, maxSize: nat, slot: Slot<V>): seq<Slot<V>> {
    (if HasKey(slots, slot.key) then Remove(slots, slot.key)
     else if |slots| >= maxSize && slots != [] then slots[1..]
     else slots) + [slot]
  }

  class LRUCache<V> {
    const maxSize: nat
    const defaultTtlMs: nat
    var slots: seq<Slot<V>>

    constructor (maxSize: nat, defaultTtlMs: nat)
      ensures slots == [] && this.maxSize == maxSize && this.defaultTtlMs == defaultTtlMs
    {
      this.maxSize, this.defaultTtlMs := maxSize, defaultTtlMs;
      slots := [];
    }

    method Get(key: string, now: int) returns (value: Option<V>)
      modifies this
      ensures slots == AfterGet(old(slots), key, now)
      ensures value == Served(old(slots), key, now)
    {
      var entry := Find(slots, key);
      if entry == None {
        return None;
      }
      if now > entry.value.expiresAt {
        slots := Remove(slots, key);
        return None;
      }
      slots := Remove(slots, key);
      slots := slots + [entry.value];
      value := Some(entry.value.value);
    }

    method Set(key: string, value: V, ttlMs: Option<nat>, now: int)
      modifies this
      ensures slots == AfterSet(old(slots), maxSize,
                                Slot(key, value, now + if ttlMs.Some? then ttlMs.value else defaultTtlMs))
    {
      if HasKey(slots, key) {
        slots := Remove(slots, key);
      } else if |slots| >= maxSize && slots != [] {
        slots := slots[1..];
      }
      slots := slots + [Slot(key, value, now + if ttlMs.Some? then ttlMs.value else defaultTtlMs)];
    }

    /** Cuts the entry of the key out and says whether there was one; the others stay in order. */
    method Delete(key: string) returns (existed: bool)
      modifies this
      ensures existed <==> HasKey(old(slots), key)
      ensures !existed ==> slots == old(slots)
      ensures existed ==> exists i | 0 <= i < |old(slots)| ::
                old(slots)[i].key == key && slots == old(slots)[..i] + old(slots)[i + 1..]
      ensures slots == Remove(old(slots), key)
      ensures DistinctKeys(old(slots)) ==> !HasKey(slots, key)
    {
      if DistinctKeys(slots) {
        RemoveKeeps(slots, key);
      }
      for i := 0 to |slots|
        invariant slots == old(slots) && forall k | 0 <= k < i :: slots[k].key != key
      {
        if slots[i].key == key {
          RemoveCuts(slots, i);
          slots := slots[..i] + slots[i + 1..];
          return true;
        }
      }
      RemoveAbsent(slots, key);
      existed := false;
    }
  }

  lemma {:induction false} RemoveCuts<V>(slots: seq<Slot<V>>, i: nat)
    requires i < |slots| && forall k | 0 <= k < i :: slots[k].key != slots[i].key
    ensures Remove(slots, slots[i].key) == slots[..i] + slots[i + 1..]
  {
    if i > 0 {
      RemoveCuts(slots[1..], i - 1);
      assert slots[..i] == [slots[0]] + slots[1..][..i - 1] && slots[1..][i..] == slots[i + 1..];
    }
  }

  lemma {:induction false} RemoveAbsent<V>(slots: seq<Slot<V>>, key: string)
    requires forall k | 0 <= k < |slots| :: slots[k].key != key
    ensures Remove(slots, key) == slots
  {
    if slots != [] {
      RemoveAbsent(slots[1..], key);
    }
  }

  // --- how long an entry stays ----------------------------------------------------------------

  datatype Op<V> = Get(key: string, now: int) | Set(slot: Slot<V>) | Delete(key: string)

  function KeyOf<V>(op: Op<V>): string {
    if op.Set? then op.slot.key else op.key
  }

  function Apply<V>(slots: seq<Slot<V>>, maxSize: nat, op: Op<V>): seq<Slot<V>> {
    match op
    case Get(key, now) => AfterGet(slots, key, now)
    case Set(slot) => AfterSet(slots, maxSize, slot)
    case Delete(key) => Remove(slots, key)
  }

  function ApplyAll<V>(slots: seq<Slot<V>>, maxSize: nat, ops: seq<Op<V>>): seq<Slot<V>>
    decreases |ops|
  {
    if ops == [] then slots else ApplyAll(Apply(slots, maxSize, ops[0]), maxSize, ops[1..])
  }

  ghost function KeysOf<V>(ops: seq<Op<V>>): set<string> {
    set i | 0 <= i < |ops| :: KeyOf(ops[i])
  }

  ghost predicate WellFormed<V>(slots: seq<Slot<V>>, maxSize: nat) {
    DistinctKeys(slots) && |slots| <= maxSize
  }

  /** The slots behind the one of a key: those used since. */
  function Behind<V>(slots: seq<Slot<V>>, key: string): (r: seq<Slot<V>>)
    ensures |r| <= |slots|
  {
    if slots == [] then []
    else if slots[0].key == key then slots[1..]
    else Behind(slots[1..], key)
  }

  ghost predicate Among<V>(slots: seq<Slot<V>>, keys: set<string>) {
    forall i | 0 <= i < |slots| :: slots[i].key in keys
  }

  lemma {:induction false} RemoveAddsNone<V>(slots: seq<Slot<V>>, key: string, other: string)
    requires !HasKey(slots, other)
    ensures !HasKey(Remove(slots, key), other)
  {
    if slots != [] {
      assert forall i | 0 <= i < |slots| - 1 :: slots[1..][i] == slots[i + 1];
      assert slots[0].key != other;
      RemoveAddsNone(slots[1..], key, other);
    }
  }

  lemma {:induction false} RemoveKeeps<V>(slots: seq<Slot<V>>, key: string)
    requires DistinctKeys(slots)
    ensures DistinctKeys(Remove(slots, key)) && !HasKey(Remove(slots, key), key)
    ensures HasKey(slots, key) ==> |Remove(slots, key)| == |slots| - 1
  {
    if slots != [] {
      var rest := slots[1..];
      assert forall i | 0 <= i < |rest| :: rest[i] == slots[i + 1];
      assert !HasKey(rest, slots[0].key);
      if slots[0].key != key {
        RemoveKeeps(rest, key);
        RemoveAddsNone(rest, key, slots[0].key);
        if i :| 0 <= i < |slots| && slots[i].key == key {
          assert rest[i - 1].key == key;
        }
      }
    }
  }

  /** Removing another key leaves the slot of a key in place, and no new slot behind it. */
  lemma {:induction false} RemoveOther<V>(slots: seq<Slot<V>>, key: string, other: string, keys: set<string>)
    requires key != other && HasKey(slots, key) && Among(Behind(slots, key), keys)
    ensures Find(Remove(slots, other), key) == Find(slots, key)
    ensures Among(Behind(Remove(slots, other), key), keys)
  {
    var rest := slots[1..];
    if slots[0].key == key {
      AmongAfterRemove(rest, other, keys);
    } else {
      assert HasKey(rest, key) by {
        var i :| 0 <= i < |slots| && slots[i].key == key;
        assert rest[i - 1].key == key;
      }
      RemoveOther(rest, key, other, keys);
    }
  }

  lemma {:induction false} AmongAfterRemove<V>(slots: seq<Slot<V>>, other: string, keys: set<string>)
    requires Among(slots, keys)
    ensures Among(Remove(slots, other), keys)
  {
    if slots != [] {
      assert forall i | 0 <= i < |slots| - 1 :: slots[1..][i] == slots[i + 1];
      AmongAfterRemove(slots[1..], other, keys);
    }
  }

  lemma {:induction false} AppendBehind<V>(slots: seq<Slot<V>>, key: string, last: Slot<V>)
    requires HasKey(slots, key)
    ensures Find(slots + [last], key) == Find(slots, key)
    ensures Behind(slots + [last], key) == Behind(slots, key) + [last]
  {
    assert (slots + [last])[0] == slots[0] && (slots + [last])[1..] == slots[1..] + [last];
    if slots[0].key != key {
      assert HasKey(slots[1..], key) by {
        var i :| 0 <= i < |slots| && slots[i].key == key;
        assert slots[1..][i - 1].key == key;
      }
      AppendBehind(slots[1..], key, last);
    }
  }

  lemma AppendKeeps<V>(slots: seq<Slot<V>>, last: Slot<V>)
    requires DistinctKeys(slots) && !HasKey(slots, last.key)
    ensures DistinctKeys(slots + [last])
  {
  }

  /** A read, a write and a delete keep the keys distinct. */
  lemma ApplyKeeps<V>(slots: seq<Slot<V>>, maxSize: nat, op: Op<V>)
    requires DistinctKeys(slots)
    ensures DistinctKeys(Apply(slots, maxSize, op))
  {
    RemoveKeeps(slots, KeyOf(op));
    match op {
      case Get(key, _) =>
        if Find(slots, key).Some? {
          AppendKeeps(Remove(slots, key), Find(slots, key).value);
        }
      case Set(slot) =>
        var rest := if HasKey(slots, slot.key) then Remove(slots, slot.key)
                    else if |slots| >= maxSize && slots != [] then slots[1..] else slots;
        assert !HasKey(rest, slot.key) && DistinctKeys(rest) by {
          assert forall i | 0 <= i < |slots| - 1 :: slots[1..][i] == slots[i + 1];
        }
        AppendKeeps(rest, slot);
      case Delete(_) =>
    }
  }

  /** Distinct keys of a set are no more than the set has. */
  lemma {:induction false} CountKeys<V>(slots: seq<Slot<V>>, keys: set<string>)
    requires DistinctKeys(slots) && Among(slots, keys)
    ensures |slots| <= |keys|
  {
    if slots != [] {
      var rest := slots[1..];
      assert forall i | 0 <= i < |rest| :: rest[i] == slots[i + 1];
      CountKeys(rest, keys - {slots[0].key});
    }
  }

  /** The first slot is dropped for a new key only when all other slots have been used since. */
  lemma EvictionSpares<V>(slots: seq<Slot<V>>, maxSize: nat, key: string, newKey: string, keys: set<string>)
    requires DistinctKeys(slots) && |slots| >= maxSize && HasKey(slots, key)
    requires Among(Behind(slots, key), keys) && newKey in keys && !HasKey(slots, newKey) && |keys| < maxSize
    ensures slots[0].key != key
  {
    if slots[0].key == key {
      var rest := slots[1..];
      assert forall i | 0 <= i < |rest| :: rest[i] == slots[i + 1];
      CountKeys(rest, keys - {newKey});
    }
  }

  lemma DropFirst<V>(slots: seq<Slot<V>>, key: string)
    requires DistinctKeys(slots) && HasKey(slots, key) && slots[0].key != key
    ensures DistinctKeys(slots[1..]) && HasKey(slots[1..], key)
    ensures Find(slots[1..], key) == Find(slots, key) && Behind(slots[1..], key) == Behind(slots, key)
    ensures forall other | !HasKey(slots, other) :: !HasKey(slots[1..], other)
  {
    assert forall i | 0 <= i < |slots| - 1 :: slots[1..][i] == slots[i + 1];
    var i :| 0 <= i < |slots| && slots[i].key == key;
    assert slots[1..][i - 1].key == key;
  }

  lemma StepSpares<V>(slots: seq<Slot<V>>, maxSize: nat, key: string, op: Op<V>, keys: set<string>)
    requires WellFormed(slots, maxSize) && HasKey(slots, key) && Among(Behind(slots, key), keys)
    requires KeyOf(op) != key && KeyOf(op) in keys && |keys| < maxSize
    ensures var slots' := Apply(slots, maxSize, op);
            && WellFormed(slots', maxSize) && Find(slots', key) == Find(slots, key)
            && Among(Behind(slots', key), keys)
  {
    hide DistinctKeys, Among, Find, Behind, Remove, HasKey;
    var other := KeyOf(op);
    RemoveKeeps(slots, other);
    RemoveOther(slots, key, other, keys);
    var removed := Remove(slots, other);
    match op {
      case Delete(_) =>
      case Get(_, now) =>
        if Find(slots, other).Some? && now <= Find(slots, other).value.expiresAt {
          AddSpares(removed, key, Find(slots, other).value, keys);
        }
      case Set(slot) =>
        if HasKey(slots, other) {
          AddSpares(removed, key, slot, keys);
        } else if |slots| >= maxSize && slots != [] {
          EvictionSpares(slots, maxSize, key, other, keys);
          DropFirst(slots, key);
          AddSpares(slots[1..], key, slot, keys);
        } else {
          AddSpares(slots, key, slot, keys);
        }
    }
  }

  lemma AddSpares<V>(slots: seq<Slot<V>>, key: string, slot: Slot<V>, keys: set<string>)
    requires DistinctKeys(slots) && !HasKey(slots, slot.key) && HasKey(slots, key)
    requires Among(Behind(slots, key), keys) && slot.key in keys
    ensures DistinctKeys(slots + [slot]) && Find(slots + [slot], key) == Find(slots, key)
    ensures Among(Behind(slots + [slot], key), keys)
  {
    AppendKeeps(slots, slot);
    AppendBehind(slots, key, slot);
    hide DistinctKeys, Find, Behind, HasKey;
  }

  lemma {:induction false} RunSpares<V>(slots: seq<Slot<V>>, maxSize: nat, key: string, ops: seq<Op<V>>,
                                        keys: set<string>)
    requires WellFormed(slots, maxSize) && HasKey(slots, key) && Among(Behind(slots, key), keys)
    requires forall i | 0 <= i < |ops| :: KeyOf(ops[i]) != key && KeyOf(ops[i]) in keys
    requires |keys| < maxSize
    ensures Find(ApplyAll(slots, maxSize, ops), key) == Find(slots, key)
    decreases |ops|
  {
    hide WellFormed, HasKey, Among, Behind, Apply, KeyOf;
    if ops != [] {
      StepSpares(slots, maxSize, key, ops[0], keys);
      assert forall i | 0 <= i < |ops| - 1 :: ops[1..][i] == ops[i + 1];
      RunSpares(Apply(slots, maxSize, ops[0]), maxSize, key, ops[1..], keys);
    }
  }

  /** An entry just written is not evicted before as many different other keys have been used as the
      cache has room for: operations on fewer keys leave it and its value in place. */
  lemma WrittenEntryStays<V>(slots: seq<Slot<V>>, maxSize: nat, slot: Slot<V>, ops: seq<Op<V>>)
    requires WellFormed(slots, maxSize) && maxSize > 0
    requires slot.key !in KeysOf(ops) && |KeysOf(ops)| < maxSize
    ensures Find(ApplyAll(AfterSet(slots, maxSize, slot), maxSize, ops), slot.key) == Some(slot)
  {
    RemoveKeeps(slots, slot.key);
    var room := if HasKey(slots, slot.key) then Remove(slots, slot.key)
                else if |slots| >= maxSize && slots != [] then slots[1..]
                else slots;
    assert DistinctKeys(room) && !HasKey(room, slot.key) && |room| < maxSize by {
      assert forall i | 0 <= i < |slots| - 1 :: slots[1..][i] == slots[i + 1];
    }
    AppendKeeps(room, slot);
    LastSlot(room, slot);
    assert HasKey(room + [slot], slot.key) by { assert (room + [slot])[|room|] == slot; }
    assert forall i | 0 <= i < |ops| :: KeyOf(ops[i]) in KeysOf(ops);
    RunSpares(room + [slot], maxSize, slot.key, ops, KeysOf(ops));
  }

  lemma {:induction false} LastSlot<V>(slots: seq<Slot<V>>, slot: Slot<V>)
    requires !HasKey(slots, slot.key)
    ensures Find(slots + [slot], slot.key) == Some(slot) && Behind(slots + [slot], slot.key) == []
  {
    if slots == [] {
      assert slots + [slot] == [slot];
    } else {
      assert (slots + [slot])[0] == slots[0] && (slots + [slot])[1..] == slots[1..] + [slot];
      assert forall i | 0 <= i < |slots| - 1 :: slots[1..][i] == slots[i + 1];
      LastSlot(slots[1..], slot);
    }
  }

  // --- when an entry goes -----------------------------------------------------------------------

  function Newest<T>(s: seq<T>, n: nat): seq<T> {
    if |s| <= n then s else s[|s| - n..]
  }

  function SetAll<V>(added: seq<Slot<V>>): (ops: seq<Op<V>>)
    ensures |ops| == |added| && forall i | 0 <= i < |added| :: ops[i] == Set(added[i])
  {
    seq(|added|, i requires 0 <= i < |added| => Set(added[i]))
  }

  lemma NewWrite<V>(slots: seq<Slot<V>>, maxSize: nat, slot: Slot<V>)
    requires |slots| <= maxSize && maxSize > 0 && !HasKey(slots, slot.key)
    ensures AfterSet(slots, maxSize, slot) == Newest(slots + [slot], maxSize)
  {
  }

  lemma NewestTwice<T>(s: seq<T>, t: seq<T>, n: nat)
    ensures Newest(Newest(s, n) + t, n) == Newest(s + t, n)
  {
  }

  lemma DistinctSuffix<V>(s: seq<Slot<V>>, d: nat)
    requires DistinctKeys(s) && d <= |s|
    ensures DistinctKeys(s[d..])
  {
  }

  lemma DistinctNewest<V>(s: seq<Slot<V>>, t: seq<Slot<V>>, n: nat)
    requires DistinctKeys(s + t)
    ensures DistinctKeys(Newest(s, n) + t)
  {
    var d := if |s| <= n then 0 else |s| - n;
    assert Newest(s, n) + t == (s + t)[d..];
    hide DistinctKeys;
    DistinctSuffix(s + t, d);
  }

  /** Writing new keys keeps the newest entries that there is room for. */
  lemma {:induction false} NewWritesShift<V>(slots: seq<Slot<V>>, maxSize: nat, added: seq<Slot<V>>)
    requires |slots| <= maxSize && maxSize > 0 && DistinctKeys(slots + added)
    ensures ApplyAll(slots, maxSize, SetAll(added)) == Newest(slots + added, maxSize)
    decreases |added|
  {
    if added == [] {
      assert slots + added == slots;
    } else {
      var (first, rest) := (added[0], added[1..]);
      assert !HasKey(slots, first.key) by {
        assert (slots + added)[|slots|] == first;
        assert forall i | 0 <= i < |slots| :: (slots + added)[i] == slots[i];
      }
      NewWrite(slots, maxSize, first);
      assert (slots + [first]) + rest == slots + added;
      DistinctNewest(slots + [first], rest, maxSize);
      assert SetAll(added)[1..] == SetAll(rest);
      hide HasKey, DistinctKeys, AfterSet;
      NewestTwice(slots + [first], rest, maxSize);
      NewWritesShift(Newest(slots + [first], maxSize), maxSize, rest);
    }
  }

  /** An entry is evicted by writes of new keys exactly when these and the entries used since it was,
      together with itself, are more than there is room for. */
  lemma EvictedExactly<V>(slots: seq<Slot<V>>, maxSize: nat, i: nat, added: seq<Slot<V>>)
    requires |slots| <= maxSize && i < |slots| && DistinctKeys(slots + added)
    ensures HasKey(ApplyAll(slots, maxSize, SetAll(added)), slots[i].key)
            <==> (|slots| - i) + |added| <= maxSize
  {
    NewWritesShift(slots, maxSize, added);
    var (all, d) := (slots + added, |slots| + |added| - maxSize);
    var kept := Newest(all, maxSize);
    hide ApplyAll, SetAll;
    assert all[i] == slots[i];
    if d <= i {
      assert kept[if d <= 0 then i else i - d] == slots[i];
    } else {
      assert forall j | 0 <= j < |kept| :: kept[j] == all[j + d];
    }
  }

  /** An entry just written goes with the maxSize-th new key written after it, and not before. */
  lemma WrittenEntryGoes<V>(slots: seq<Slot<V>>, maxSize: nat, slot: Slot<V>, added: seq<Slot<V>>)
    requires WellFormed(slots, maxSize) && maxSize > 0
    requires DistinctKeys(AfterSet(slots, maxSize, slot) + added)
    ensures HasKey(ApplyAll(AfterSet(slots, maxSize, slot), maxSize, SetAll(added)), slot.key) <==> |added| < maxSize
  {
    var after := AfterSet(slots, maxSize, slot);
    RemoveKeeps(slots, slot.key);
    assert after[|after| - 1] == slot && |after| <= maxSize;
    hide AfterSet, ApplyAll, SetAll, DistinctKeys, HasKey;
    EvictedExactly(after, maxSize, |after| - 1, added);
  }
}

/**
  The introspection cache: a hash map of entries and a queue of their keys in order of use, bounded in
  size and in age. The two structures are kept in step; together they are one list of slots, least
  recently used first, on which lookup and insertion have a direct meaning.
*/
module Introspection {
  import opened Wrappers

  datatype Options = Options(ttl: Option<nat>, maxEntries: Option<nat>)

  datatype Entry<V> = Entry(inserted: nat, value: V)

  datatype Slot<V> = Slot(key: string, entry: Entry<V>)

  // ------------------------------------------------------------------------------------------
  // The list of slots.

  function Keys<V>(slots: seq<Slot<V>>): (keys: seq<string>)
    ensures |keys| == |slots|
  {
    if slots == [] then [] else [slots[0].key] + Keys(slots[1..])
  }

  function Remove<V>(slots: seq<Slot<V>>, key: string): seq<Slot<V>> {
    if slots == [] then []
    else if slots[0].key == key then Remove(slots[1..], key)
    else [slots[0]] + Remove(slots[1..], key)
  }

  function Lookup<V>(slots: seq<Slot<V>>, key: string): Option<Entry<V>> {
    if slots == [] then None
    else if slots[0].key == key then Some(slots[0].entry)
    else Lookup(slots[1..], key)
  }

  /** The last `limit` elements. */
  function Newest<T>(s: seq<T>, limit: Option<nat>): seq<T> {
    if limit.None? || |s| <= limit.value then s else s[|s| - limit.value..]
  }

  lemma NewestTail<T>(s: seq<T>, limit: nat)
    requires |s| > limit
    ensures Newest(s[1..], Some(limit)) == Newest(s, Some(limit))
  {
  }

  predicate Expired<V>(options: Options, entry: Entry<V>, now: nat) {
    options.ttl.Some? && (if now >= entry.inserted then now - entry.inserted else 0) >= options.ttl.value
  }

  /** A fresh entry moves to the back and keeps its age; an expired one goes. */
  function AfterGet<V>(options: Options, slots: seq<Slot<V>>, key: string, now: nat): (Option<V>, seq<Slot<V>>) {
    match Lookup(slots, key)
    case None => (None, slots)
    case Some(entry) =>
      if Expired(options, entry, now) then (None, Remove(slots, key))
      else (Some(entry.value), Remove(slots, key) + [Slot(key, entry)])
  }

  /** The new entry goes to the back, replacing an old one; the least recently used slots make room. */
  function AfterInsert<V>(options: Options, slots: seq<Slot<V>>, key: string, value: V, now: nat): seq<Slot<V>> {
    if options.maxEntries == Some(0) then slots
    else Newest(Remove(slots, key) + [Slot(key, Entry(now, value))], options.maxEntries)
  }

  // ------------------------------------------------------------------------------------------
  // The queue of keys and the map of entries.

  /** `recency.retain(|candidate| candidate != key)`. */
  function Without(keys: seq<string>, key: string): (rest: seq<string>)
    ensures forall k :: k in rest <==> k in keys && k != key
    ensures |rest| <= |keys|
    ensures key !in keys ==> rest == keys
  {
    if keys == [] then []
    else
      assert keys == [keys[0]] + keys[1..];
      if keys[0] == key then Without(keys[1..], key) else [keys[0]] + Without(keys[1..], key)
  }

  ghost predicate NoDuplicates(keys: seq<string>) {
    keys == [] || (keys[0] !in keys[1..] && NoDuplicates(keys[1..]))
  }

  /** The slots that a queue of keys and a map of entries represent. */
  ghost function Slots<V>(recency: seq<string>, entries: map<string, Entry<V>>): (slots: seq<Slot<V>>)
    requires forall k :: k in recency ==> k in entries
    ensures |slots| == |recency|
  {
    if recency == [] then [] else [Slot(recency[0], entries[recency[0]])] + Slots(recency[1..], entries)
  }

  /** The queue lists every key of the map exactly once. */
  ghost predicate InStep<V>(recency: seq<string>, entries: map<string, Entry<V>>) {
    NoDuplicates(recency) && forall k :: k in recency <==> k in entries
  }

  lemma {:induction false} WithoutNoDuplicates(keys: seq<string>, key: string)
    requires NoDuplicates(keys)
    ensures NoDuplicates(Without(keys, key))
  {
    if keys != [] {
      WithoutNoDuplicates(keys[1..], key);
      if keys[0] != key {
        assert Without(keys, key)[1..] == Without(keys[1..], key);
      }
    }
  }

  lemma {:induction false} SnocNoDuplicates(keys: seq<string>, key: string)
    requires NoDuplicates(keys) && key !in keys
    ensures NoDuplicates(keys + [key])
  {
    if keys == [] {
      assert ([] + [key])[1..] == [];
    } else {
      SnocNoDuplicates(keys[1..], key);
      assert (keys + [key])[1..] == keys[1..] + [key];
    }
  }

  /** Slots depend only on the entries of the listed keys. */
  lemma {:induction false} SlotsAgree<V>(recency: seq<string>, entries: map<string, Entry<V>>,
                                         other: map<string, Entry<V>>)
    requires forall k :: k in recency ==> k in entries && k in other && entries[k] == other[k]
    ensures Slots(recency, entries) == Slots(recency, other)
  {
    if recency != [] {
      SlotsAgree(recency[1..], entries, other);
    }
  }

  lemma {:induction false} SlotsWithout<V>(recency: seq<string>, entries: map<string, Entry<V>>, key: string)
    requires forall k :: k in recency ==> k in entries
    ensures Slots(Without(recency, key), entries) == Remove(Slots(recency, entries), key)
  {
    if recency != [] {
      SlotsWithout(recency[1..], entries, key);
      assert Slots(recency, entries)[1..] == Slots(recency[1..], entries);
      if recency[0] != key {
        assert Without(recency, key)[1..] == Without(recency[1..], key);
      }
    }
  }

  lemma RemoveInStep<V>(recency: seq<string>, entries: map<string, Entry<V>>, key: string)
    requires InStep(recency, entries)
    ensures InStep(Without(recency, key), entries - {key})
    ensures Slots(Without(recency, key), entries - {key}) == Remove(Slots(recency, entries), key)
  {
    WithoutNoDuplicates(recency, key);
    SlotsWithout(recency, entries, key);
    SlotsAgree(Without(recency, key), entries, entries - {key});
  }

  lemma {:induction false} SlotsSnoc<V>(recency: seq<string>, entries: map<string, Entry<V>>, key: string)
    requires (forall k :: k in recency ==> k in entries) && key in entries
    ensures Slots(recency + [key], entries) == Slots(recency, entries) + [Slot(key, entries[key])]
  {
    if recency == [] {
      assert ([] + [key])[1..] == [];
    } else {
      SlotsSnoc(recency[1..], entries, key);
      assert (recency + [key])[1..] == recency[1..] + [key];
    }
  }

  lemma PushInStep<V>(recency: seq<string>, entries: map<string, Entry<V>>, key: string, entry: Entry<V>)
    requires InStep(recency, entries) && key !in recency
    ensures InStep(recency + [key], entries[key := entry])
    ensures Slots(recency + [key], entries[key := entry]) == Slots(recency, entries) + [Slot(key, entry)]
  {
    SnocNoDuplicates(recency, key);
    SlotsAgree(recency, entries, entries[key := entry]);
    SlotsSnoc(recency, entries[key := entry], key);
  }

  lemma PopInStep<V>(recency: seq<string>, entries: map<string, Entry<V>>)
    requires InStep(recency, entries) && recency != []
    ensures InStep(recency[1..], entries - {recency[0]})
    ensures Slots(recency[1..], entries - {recency[0]}) == Slots(recency, entries)[1..]
  {
    RemoveInStep(recency, entries, recency[0]);
    assert Without(recency, recency[0]) == recency[1..];
    SlotsAgree(recency[1..], entries, entries - {recency[0]});
  }

  lemma {:induction false} SlotsLookup<V>(recency: seq<string>, entries: map<string, Entry<V>>, key: string)
    requires forall k :: k in recency ==> k in entries
    ensures Lookup(Slots(recency, entries), key) == if key in recency then Some(entries[key]) else None
  {
    if recency != [] {
      SlotsLookup(recency[1..], entries, key);
      assert Slots(recency, entries)[1..] == Slots(recency[1..], entries);
    }
  }

  lemma {:induction false} CountKeys(recency: seq<string>, keys: set<string>)
    requires NoDuplicates(recency) && forall k :: k in recency <==> k in keys
    ensures |recency| == |keys|
  {
    if recency == [] {
      assert keys == {};
    } else {
      var rest := keys - {recency[0]};
      forall k ensures k in recency[1..] <==> k in rest {
        assert recency == [recency[0]] + recency[1..];
      }
      CountKeys(recency[1..], rest);
    }
  }

  // ------------------------------------------------------------------------------------------
  // The cache.

  class IntrospectionCache<V> {
    const options: Options
    var entries: map<string, Entry<V>>
    var recency: seq<string>

    ghost predicate Valid()
      reads this
    {
      InStep(recency, entries) && (options.maxEntries.Some? ==> |entries| <= options.maxEntries.value)
    }

    ghost function Contents(): (slots: seq<Slot<V>>)
      reads this
      requires Valid()
    {
      Slots(recency, entries)
    }

    constructor (options: Options)
      ensures Valid() && this.options == options && Contents() == []
    {
      this.options, entries, recency := options, map[], [];
    }

    method Get(key: string, now: nat) returns (r: Option<V>)
      requires Valid()
      modifies this
      ensures Valid()
      ensures (r, Contents()) == AfterGet(options, old(Contents()), key, now)
    {
      SlotsLookup(recency, entries, key);
      if key !in entries {
        return None;
      }
      var entry := entries[key];
      RemoveInStep(recency, entries, key);
      if Expired(options, entry, now) {
        entries := entries - {key};
        recency := Without(recency, key);
        return None;
      }
      PushInStep(Without(recency, key), entries - {key}, key, entry);
      assert (entries - {key})[key := entry] == entries;
      recency := Without(recency, key);
      recency := recency + [key];
      return Some(entry.value);
    }

    method Insert(key: string, value: V, now: nat)
      requires Valid()
      modifies this
      ensures Valid()
      ensures Contents() == AfterInsert(options, old(Contents()), key, value, now)
    {
      if options.maxEntries == Some(0) {
        return;
      }
      var entry := Entry(now, value);
      RemoveInStep(recency, entries, key);
      PushInStep(Without(recency, key), entries - {key}, key, entry);
      assert (entries - {key})[key := entry] == entries[key := entry];
      recency := Without(recency, key);
      recency := recency + [key];
      entries := entries[key := entry];
      CountKeys(recency, entries.Keys);
      if options.maxEntries.Some? {
        Evict(options.maxEntries.value);
      }
    }

    /**
      The eviction loop. It ends only because the queue is in step with the map: while the map is too large, the
      queue has a key to give.
    */
    method Evict(maxEntries: nat)
      requires InStep(recency, entries)
      modifies this
      ensures InStep(recency, entries) && |entries| <= maxEntries
      ensures Slots(recency, entries) == Newest(old(Slots(recency, entries)), Some(maxEntries))
    {
      ghost var all := Slots(recency, entries);
      CountKeys(recency, entries.Keys);
      while |entries| > maxEntries
        invariant InStep(recency, entries) && |recency| == |entries|
        invariant Newest(Slots(recency, entries), Some(maxEntries)) == Newest(all, Some(maxEntries))
        decreases |entries|
      {
        if recency != [] {
          PopInStep(recency, entries);
          NewestTail(Slots(recency, entries), maxEntries);
          var oldest := recency[0];
          recency := recency[1..];
          entries := entries - {oldest};
          CountKeys(recency, entries.Keys);
        }
      }
    }

    method Clear()
      requires Valid()
      modifies this
      ensures Valid() && Contents() == []
    {
      entries, recency := map[], [];
    }
  }
}

/**
  When the commit of a write handle leaves a stale answer, in terms of the run alone: of the calls made, the
  times they were made at, and what the database gave and would give.
*/
module StaleCommits {
  import opened Wrappers
  import opened Text
  import opened Introspection
  import opened CachedFs
  import opened CacheRecency

  /** The call was answered by the database. */
  predicate Loads<D, F, W>(sys: System<D, F, W>, s: FsState<D, F>, e: Event<D, W>) {
    e.Asked? && Answered(sys, s, e) && !Ask(sys.backend, sys.options, s, e.call, e.now, e.done).1.cached
  }

  /** The event that last loaded `call` from the database, if nothing has cleared the cache since. */
  function LastLoad<D, F, W>(sys: System<D, F, W>, events: seq<Event<D, W>>, call: Call): Option<nat> {
    if events == [] then None
    else
      var n := |events| - 1;
      var before := After(sys, events[..n]);
      if Clears(sys, before, events[n]) then None
      else if Loads(sys, before, events[n]) && events[n].call == call then Some(n)
      else LastLoad(sys, events[..n], call)
  }

  lemma {:induction false} LastLoadIsThere<D, F, W>(sys: System<D, F, W>, events: seq<Event<D, W>>, call: Call)
    requires LastLoad(sys, events, call).Some?
    ensures var i := LastLoad(sys, events, call).value;
            && i < |events| && events[i].Asked? && events[i].call == call
            && Load(sys.backend, After(sys, events[..i]).db, call).Ok?
    ensures KeyOf(call) in Uses(sys, events)
  {
    var n := |events| - 1;
    var before, e := events[..n], events[n];
    if !(Loads(sys, After(sys, before), e) && e.call == call) {
      LastLoadIsThere(sys, before, call);
      var i := LastLoad(sys, before, call).value;
      assert before[..i] == events[..i];
    }
  }

  /** What event `i` stored. */
  function StoredAt<D, F, W>(sys: System<D, F, W>, events: seq<Event<D, W>>, call: Call,
                             i: nat): Slot<CachedIntrospection<F>>
    requires i < |events| && events[i].Asked? && Load(sys.backend, After(sys, events[..i]).db, call).Ok?
  {
    Slot(KeyOf(call), Entry(events[i].done, Load(sys.backend, After(sys, events[..i]).db, call).value))
  }

  ghost predicate IsLastLoad<D, F, W>(sys: System<D, F, W>, events: seq<Event<D, W>>, call: Call,
                                      slot: Slot<CachedIntrospection<F>>)
  {
    match LastLoad(sys, events, call)
    case None => false
    case Some(i) =>
      && i < |events| && events[i].Asked? && Load(sys.backend, After(sys, events[..i]).db, call).Ok?
      && slot == StoredAt(sys, events, call, i)
  }

  lemma IsLastLoadStays<D, F, W>(sys: System<D, F, W>, events: seq<Event<D, W>>, call: Call,
                                 slot: Slot<CachedIntrospection<F>>)
    requires events != []
    requires var before, e := events[..|events| - 1], events[|events| - 1];
             && IsLastLoad(sys, before, call, slot) && !Clears(sys, After(sys, before), e)
             && !(Loads(sys, After(sys, before), e) && e.call == call)
    ensures IsLastLoad(sys, events, call, slot)
  {
    var before := events[..|events| - 1];
    var i := LastLoad(sys, before, call).value;
    assert before[..i] == events[..i];
  }

  /** After a load, the slot of its key holds what was loaded. */
  lemma LoadReplaces<D, F, W>(sys: System<D, F, W>, s: FsState<D, F>, e: Event<D, W>,
                              slot: Slot<CachedIntrospection<F>>)
    requires Loads(sys, s, e) && slot in Step(sys, s, e).slots && slot.key == KeyOf(e.call)
    requires sys.options.maxEntries != Some(0)
    ensures slot == Slot(slot.key, Entry(e.done, Load(sys.backend, s.db, e.call).value))
  {
    var key := KeyOf(e.call);
    var (_, slots) := AfterGet(sys.options, s.slots, key, e.now);
    InRemove(slots, key);
  }

  /** The slot of a key holds what its call last loaded. */
  lemma {:induction false} SlotIsLastLoad<D, F, W>(sys: System<D, F, W>, events: seq<Event<D, W>>, call: Call,
                                                   slot: Slot<CachedIntrospection<F>>)
    requires slot in After(sys, events).slots && slot.key == KeyOf(call)
    requires sys.options.maxEntries != Some(0)
    ensures IsLastLoad(sys, events, call, slot)
  {
    var n := |events| - 1;
    var before, e := events[..n], events[n];
    var s := After(sys, before);
    SlotsComeFrom(sys, s, e, slot);
    if Loads(sys, s, e) && e.call == call {
      LoadReplaces(sys, s, e, slot);
    } else {
      if slot !in s.slots {
        OnlyLoadsStore(sys, s, e, slot);
        KeyDeterminesCall(e.call, call);
      }
      SlotIsLastLoad(sys, before, call, slot);
      IsLastLoadStays(sys, events, call, slot);
    }
  }

  lemma OnlyLoadsStore<D, F, W>(sys: System<D, F, W>, s: FsState<D, F>, e: Event<D, W>,
                                slot: Slot<CachedIntrospection<F>>)
    requires slot in Step(sys, s, e).slots && slot !in s.slots
    ensures Loads(sys, s, e) && slot.key == KeyOf(e.call)
  {
    SlotsComeFrom(sys, s, e, slot);
    if e.Asked? {
      var key := KeyOf(e.call);
      var (hit, slots) := AfterGet(sys.options, s.slots, key, e.now);
      InRemove(s.slots, key);
      InLookup(s.slots, key);
    }
  }

  /** A cache without room never holds anything. */
  lemma {:induction false} NoRoomNoSlots<D, F, W>(sys: System<D, F, W>, events: seq<Event<D, W>>)
    requires sys.options.maxEntries == Some(0)
    ensures After(sys, events).slots == []
  {
    if events != [] {
      NoRoomNoSlots(sys, events[..|events| - 1]);
    }
  }

  // ------------------------------------------------------------------------------------------
  // Which keys are still there.

  /** The distinct keys used after the last use of `key`. */
  function UsedSince(uses: seq<string>, key: string): seq<string>
    requires key in uses
  {
    Recency(uses[LastUse(uses, key) + 1..])
  }

  lemma {:induction false} RecencySplits(a: seq<string>, key: string, b: seq<string>) returns (front: seq<string>)
    requires key !in b
    ensures Recency(a + [key] + b) == front + [key] + Recency(b)
  {
    if b == [] {
      front := Without(Recency(a), key);
      EmptyRecency(front, key);
      EmptyLast(a + [key]);
      RecencySnoc(a, key);
    } else {
      var n := |b| - 1;
      assert b == b[..n] + [b[n]];
      Assoc(a + [key], b[..n], [b[n]]);
      RecencySnoc(a + [key] + b[..n], b[n]);
      RecencySnoc(b[..n], b[n]);
      var before := RecencySplits(a, key, b[..n]);
      front := Without(before, b[n]);
      WithoutSplits(before, key, Recency(b[..n]), b[n]);
    }
  }

  lemma EmptyRecency(front: seq<string>, key: string)
    ensures front + [key] + Recency([]) == front + [key]
  {
  }

  lemma WithoutSplits(front: seq<string>, key: string, later: seq<string>, x: string)
    requires x != key
    ensures Without(front + [key] + later, x) + [x] == Without(front, x) + [key] + (Without(later, x) + [x])
  {
    WithoutConcat(front + [key], later, x);
    WithoutConcat(front, [key], x);
    assert Without([key], x) == [key];
  }

  /** A key is among the newest exactly when fewer others were used since than there is room for. */
  lemma AmongNewestIff(uses: seq<string>, key: string, limit: Option<nat>)
    ensures key in Newest(Recency(uses), limit)
            <==> key in uses && (limit.Some? ==> |UsedSince(uses, key)| < limit.value)
  {
    if key in uses {
      var i := LastUse(uses, key);
      assert uses == uses[..i] + [key] + uses[i + 1..];
      AmongNewestSplitIff(uses[..i], key, uses[i + 1..], limit);
    } else {
      RecencyIsByLastUse(uses);
    }
  }

  lemma AmongNewestSplitIff(a: seq<string>, key: string, b: seq<string>, limit: Option<nat>)
    requires key !in b
    ensures key in Newest(Recency(a + [key] + b), limit) <==> (limit.Some? ==> |Recency(b)| < limit.value)
  {
    RecencyIsDistinct(a + [key] + b);
    var front := RecencySplits(a, key, b);
    InTailIff(front, key, Recency(b), limit);
  }

  lemma RecencyIsDistinct(uses: seq<string>)
    ensures NoDuplicates(Recency(uses))
  {
    RecencyIsByLastUse(uses);
  }

  lemma InTailIff(front: seq<string>, key: string, later: seq<string>, limit: Option<nat>)
    requires NoDuplicates(front + [key] + later)
    ensures key in Newest(front + [key] + later, limit) <==> (limit.Some? ==> |later| < limit.value)
  {
    var all := front + [key] + later;
    KeyNotLater(front, key, later);
    if limit.None? || |all| <= limit.value {
      assert all[|front|] == key;
    } else {
      KeyInTailIff(front, key, later, all, |all| - limit.value);
    }
  }

  lemma KeyNotLater(front: seq<string>, key: string, later: seq<string>)
    requires NoDuplicates(front + [key] + later)
    ensures key !in later
  {
    NoDuplicatesSplit(front + [key], later);
    assert (front + [key])[|front|] == key;
  }

  lemma KeyInTailIff(front: seq<string>, key: string, later: seq<string>, all: seq<string>, cut: nat)
    requires all == front + [key] + later && key !in later && cut <= |all|
    ensures key in all[cut..] <==> cut <= |front|
  {
    if cut <= |front| {
      assert all[cut..][|front| - cut] == key;
    } else {
      assert all[cut..] == later[cut - |front| - 1..];
    }
  }

  /**
    Something fresh is found for a call exactly when its last load is young enough and few other keys were used
    since.
  */
  ghost predicate StillCached<D, F, W>(sys: System<D, F, W>, events: seq<Event<D, W>>, call: Call, now: nat) {
    match LastLoad(sys, events, call)
    case None => false
    case Some(i) =>
      && i < |events| && events[i].Asked?
      && (sys.options.ttl.Some? ==> (if now >= events[i].done then now - events[i].done else 0) < sys.options.ttl.value)
      && var uses := Uses(sys, events);
         KeyOf(call) in uses
         && (sys.options.maxEntries.Some? ==> |UsedSince(uses, KeyOf(call))| < sys.options.maxEntries.value)
  }

  /** The slot that holds a key, and that there is one exactly when the key is listed. */
  lemma SlotOfKey<F>(slots: seq<Slot<F>>, key: string)
    ensures Lookup(slots, key).Some? <==> key in Keys(slots)
    ensures Lookup(slots, key).Some? ==> Slot(key, Lookup(slots, key).value) in slots
  {
    LookupInKeys(slots, key);
    InLookup(slots, key);
  }

  lemma FoundIffStillCached<D, F, W>(sys: System<D, F, W>, events: seq<Event<D, W>>, call: Call, now: nat)
    requires AllAnswered(sys, events)
    ensures var found := AfterGet(sys.options, After(sys, events).slots, KeyOf(call), now).0;
            && (found.Some? <==> StillCached(sys, events, call, now))
            && (found.Some? ==>
                  && LastLoad(sys, events, call).value < |events|
                  && var loading := After(sys, events[..LastLoad(sys, events, call).value]);
                     Load(sys.backend, loading.db, call) == Ok(found.value))
  {
    var slots, key := After(sys, events).slots, KeyOf(call);
    CachedKeysAreTheNewest(sys, events);
    AmongNewestIff(Uses(sys, events), key, sys.options.maxEntries);
    SlotOfKey(slots, key);
    if sys.options.maxEntries == Some(0) {
      NoRoomNoSlots(sys, events);
    } else if Lookup(slots, key).Some? {
      SlotIsLastLoad(sys, events, call, Slot(key, Lookup(slots, key).value));
    }
  }

  /**
    After a run of answered calls and the commit of a write handle, the next call gets a stale answer exactly
    when it was last loaded less than a time-to-live ago with no write or invalidation since, fewer other keys
    have been used since its own last use than the cache has room for, and the database would now give something else.
  */
  lemma CommitLeavesStaleIff<D, F, W>(sys: System<D, F, W>, events: seq<Event<D, W>>, write: W, call: Call, now: nat,
                                      done: nat)
    requires AllAnswered(sys, events)
    ensures var s, t := After(sys, events), After(sys, events + [Committed(write)]);
            Ask(sys.backend, sys.options, t, call, now, done).1.result != Load(sys.backend, t.db, call)
            <==> && StillCached(sys, events, call, now)
                 && var loaded := After(sys, events[..LastLoad(sys, events, call).value]).db;
                    Load(sys.backend, sys.backend.write(s.db, write).0, call) != Load(sys.backend, loaded, call)
  {
    HandleCommitLeavesStaleIff(sys, events, write, call, now, done);
    HandleCommitRefreshesIff(sys, events, write, call, now, done);
    FoundIffStillCached(sys, events, call, now);
  }
}

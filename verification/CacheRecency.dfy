/**
  Which keys are cached. After any run of calls that were all answered, from the cache or from the database,
  the cache holds exactly the most recently used distinct keys since it was last cleared, as many as fit, in
  order of last use.
*/
module CacheRecency {
  import opened Wrappers
  import opened Introspection
  import opened CachedFs

  /** The keys used since the last clear, in order, with repetitions. */
  function Uses<D, F, W>(sys: System<D, F, W>, events: seq<Event<D, W>>): seq<string> {
    if events == [] then []
    else
      var before, e := events[..|events| - 1], events[|events| - 1];
      UsesThen(sys, After(sys, before), e, Uses(sys, before))
  }

  function UsesThen<D, F, W>(sys: System<D, F, W>, s: FsState<D, F>, e: Event<D, W>, uses: seq<string>): seq<string> {
    if Clears(sys, s, e) then [] else if e.Asked? then uses + [KeyOf(e.call)] else uses
  }

  /** The distinct keys among `uses`, by last use. */
  function Recency(uses: seq<string>): seq<string> {
    if uses == [] then []
    else
      var k := uses[|uses| - 1];
      Without(Recency(uses[..|uses| - 1]), k) + [k]
  }

  function LastUse(uses: seq<string>, key: string): (i: nat)
    requires key in uses
    ensures i < |uses| && uses[i] == key && key !in uses[i + 1..]
  {
    var n := |uses| - 1;
    if uses[n] == key then n
    else
      assert uses == uses[..n] + [uses[n]];
      LastUse(uses[..n], key)
  }

  ghost predicate OrderedByLastUse(uses: seq<string>, keys: seq<string>)
    requires forall k :: k in keys ==> k in uses
  {
    || keys == []
    || (&& (forall k :: k in keys[1..] ==> LastUse(uses, keys[0]) < LastUse(uses, k))
        && OrderedByLastUse(uses, keys[1..]))
  }

  lemma LastUseSnoc(uses: seq<string>, key: string, k: string)
    requires k in uses || k == key
    ensures k in uses + [key] && LastUse(uses + [key], k) == if k == key then |uses| else LastUse(uses, k)
  {
    assert (uses + [key])[..|uses|] == uses;
    if k == key {
      assert (uses + [key])[|uses|] == key;
    }
  }

  lemma {:induction false} UseKeepsOrder(uses: seq<string>, keys: seq<string>, key: string)
    requires (forall k :: k in keys ==> k in uses) && OrderedByLastUse(uses, keys)
    ensures (forall k :: k in Without(keys, key) + [key] ==> k in uses + [key])
    ensures OrderedByLastUse(uses + [key], Without(keys, key) + [key])
  {
    var later := Without(keys, key) + [key];
    assert (uses + [key])[..|uses|] == uses;
    if keys == [] {
      assert later[1..] == [];
    } else {
      UseKeepsOrder(uses, keys[1..], key);
      if keys[0] != key {
        assert later[1..] == Without(keys[1..], key) + [key];
        LastUseSnoc(uses, key, keys[0]);
        forall k <- later[1..] ensures LastUse(uses + [key], keys[0]) < LastUse(uses + [key], k) {
          LastUseSnoc(uses, key, k);
        }
      }
    }
  }

  /** `Recency` lists every key used, once, by last use. */
  lemma {:induction false} RecencyIsByLastUse(uses: seq<string>)
    ensures NoDuplicates(Recency(uses))
    ensures forall k :: k in Recency(uses) <==> k in uses
    ensures OrderedByLastUse(uses, Recency(uses))
  {
    if uses != [] {
      var n := |uses| - 1;
      assert uses == uses[..n] + [uses[n]];
      RecencyIsByLastUse(uses[..n]);
      UseKeepsOrder(uses[..n], Recency(uses[..n]), uses[n]);
      WithoutNoDuplicates(Recency(uses[..n]), uses[n]);
      SnocNoDuplicates(Without(Recency(uses[..n]), uses[n]), uses[n]);
    }
  }

  lemma {:induction false} WithoutConcat(a: seq<string>, b: seq<string>, key: string)
    ensures Without(a + b, key) == Without(a, key) + Without(b, key)
  {
    if a == [] {
      assert a + b == b;
    } else {
      assert (a + b)[1..] == a[1..] + b;
      WithoutConcat(a[1..], b, key);
    }
  }

  lemma {:induction false} WithoutLength(keys: seq<string>, key: string)
    requires NoDuplicates(keys) && key in keys
    ensures |Without(keys, key)| == |keys| - 1
  {
    if keys[0] != key {
      WithoutLength(keys[1..], key);
    }
  }

  lemma {:induction false} NoDuplicatesSplit(a: seq<string>, b: seq<string>)
    requires NoDuplicates(a + b)
    ensures NoDuplicates(b) && forall k :: k in a ==> k !in b
  {
    if a == [] {
      assert a + b == b;
    } else {
      assert (a + b)[1..] == a[1..] + b;
      NoDuplicatesSplit(a[1..], b);
    }
  }

  lemma NewestOfConcat(a: seq<string>, b: seq<string>, limit: nat)
    requires |b| >= limit
    ensures Newest(a + b, Some(limit)) == Newest(b, Some(limit))
  {
  }

  /** Truncating before a use changes nothing that truncating after it would keep. */
  lemma NewestAbsorbs(keys: seq<string>, key: string, limit: Option<nat>)
    requires NoDuplicates(keys)
    ensures Newest(Without(Newest(keys, limit), key) + [key], limit) == Newest(Without(keys, key) + [key], limit)
  {
    if limit.Some? && |keys| > limit.value {
      var gone, kept := keys[..|keys| - limit.value], keys[|keys| - limit.value..];
      assert keys == gone + kept;
      NoDuplicatesSplit(gone, kept);
      WithoutConcat(gone, kept, key);
      if key in kept {
        WithoutLength(kept, key);
      }
      assert Without(gone, key) + Without(kept, key) + [key] == Without(gone, key) + (Without(kept, key) + [key]);
      NewestOfConcat(Without(gone, key), Without(kept, key) + [key], limit.value);
    }
  }

  lemma {:induction false} KeysConcat<V>(a: seq<Slot<V>>, b: seq<Slot<V>>)
    ensures Keys(a + b) == Keys(a) + Keys(b)
  {
    if a == [] {
      assert a + b == b;
    } else {
      assert (a + b)[1..] == a[1..] + b;
      KeysConcat(a[1..], b);
    }
  }

  lemma {:induction false} KeysRemove<V>(slots: seq<Slot<V>>, key: string)
    ensures Keys(Remove(slots, key)) == Without(Keys(slots), key)
  {
    if slots != [] {
      KeysRemove(slots[1..], key);
      assert Keys(slots)[1..] == Keys(slots[1..]);
      if slots[0].key != key {
        assert Remove(slots, key)[1..] == Remove(slots[1..], key);
      }
    }
  }

  lemma KeysNewest<V>(slots: seq<Slot<V>>, limit: Option<nat>)
    ensures Keys(Newest(slots, limit)) == Newest(Keys(slots), limit)
  {
    if limit.Some? && |slots| > limit.value {
      var cut := |slots| - limit.value;
      assert slots == slots[..cut] + slots[cut..];
      KeysConcat(slots[..cut], slots[cut..]);
    }
  }

  lemma {:induction false} LookupInKeys<V>(slots: seq<Slot<V>>, key: string)
    ensures Lookup(slots, key).Some? <==> key in Keys(slots)
  {
    if slots != [] {
      LookupInKeys(slots[1..], key);
      assert Keys(slots) == [slots[0].key] + Keys(slots[1..]);
    }
  }

  /** Remove the key, put it at the back, truncate: what any successful call does to the keys. */
  lemma KeysAfterInsert<V>(options: Options, slots: seq<Slot<V>>, key: string, value: V, now: nat)
    requires options.maxEntries != Some(0)
    ensures Keys(AfterInsert(options, slots, key, value, now))
            == Newest(Without(Keys(slots), key) + [key], options.maxEntries)
  {
    var slot := Slot(key, Entry(now, value));
    KeysNewest(Remove(slots, key) + [slot], options.maxEntries);
    KeysConcat(Remove(slots, key), [slot]);
    KeysRemove(slots, key);
    assert Keys([slot]) == [key];
  }

  lemma KeysAfterGet<V>(options: Options, slots: seq<Slot<V>>, key: string, now: nat)
    ensures var (hit, rest) := AfterGet(options, slots, key, now);
            && Without(Keys(rest), key) == Without(Keys(slots), key)
            && (hit.Some? ==> key in Keys(slots) && Keys(rest) == Without(Keys(slots), key) + [key])
  {
    KeysRemove(slots, key);
    LookupInKeys(slots, key);
    if Lookup(slots, key).Some? {
      var slot := Slot(key, Lookup(slots, key).value);
      KeysConcat(Remove(slots, key), [slot]);
      assert Keys([slot]) == [key];
      WithoutConcat(Without(Keys(slots), key), [key], key);
      assert Without([key], key) == [];
    }
  }

  /** The call gets an answer; a hit does, whether or not the database could give one. */
  predicate Answered<D, F, W>(sys: System<D, F, W>, s: FsState<D, F>, e: Event<D, W>)
    requires e.Asked?
  {
    Ask(sys.backend, sys.options, s, e.call, e.now, e.done).1.result.Ok?
  }

  lemma KeysAfterAsk<D, F, W>(sys: System<D, F, W>, s: FsState<D, F>, e: Event<D, W>)
    requires e.Asked? && Answered(sys, s, e)
    requires NoDuplicates(Keys(s.slots)) && Newest(s.slots, sys.options.maxEntries) == s.slots
    ensures Keys(Step(sys, s, e).slots)
            == Newest(Without(Keys(s.slots), KeyOf(e.call)) + [KeyOf(e.call)], sys.options.maxEntries)
  {
    var key := KeyOf(e.call);
    var (hit, slots) := AfterGet(sys.options, s.slots, key, e.now);
    KeysAfterGet(sys.options, s.slots, key, e.now);
    if sys.options.maxEntries == Some(0) {
      assert s.slots == [];
    } else if hit.Some? && Fits(e.call, hit.value) {
      WithoutLength(Keys(s.slots), key);
    } else {
      KeysAfterInsert(sys.options, slots, key, Load(sys.backend, s.db, e.call).value, e.done);
    }
  }

  ghost predicate AllAnswered<D, F, W>(sys: System<D, F, W>, events: seq<Event<D, W>>) {
    forall i :: 0 <= i < |events| && events[i].Asked? ==> Answered(sys, After(sys, events[..i]), events[i])
  }

  ghost predicate Exact<D, F, W>(sys: System<D, F, W>, s: FsState<D, F>, uses: seq<string>) {
    Keys(s.slots) == Newest(Recency(uses), sys.options.maxEntries)
  }

  lemma AskKeepsExactness<D, F, W>(sys: System<D, F, W>, s: FsState<D, F>, e: Event<D, W>, uses: seq<string>)
    requires e.Asked? && Answered(sys, s, e) && Exact(sys, s, uses)
    ensures Exact(sys, Step(sys, s, e), uses + [KeyOf(e.call)])
  {
    UseKeepsNewest(Keys(s.slots), uses, KeyOf(e.call), sys.options.maxEntries);
    NewestFits(Recency(uses), s.slots, sys.options.maxEntries);
    KeysAfterAsk(sys, s, e);
  }

  lemma RecencySnoc(uses: seq<string>, key: string)
    ensures Recency(uses + [key]) == Without(Recency(uses), key) + [key]
  {
    assert (uses + [key])[..|uses|] == uses;
  }

  lemma UseKeepsNewest(kept: seq<string>, uses: seq<string>, key: string, limit: Option<nat>)
    requires kept == Newest(Recency(uses), limit)
    ensures NoDuplicates(kept) && Newest(Without(kept, key) + [key], limit) == Newest(Recency(uses + [key]), limit)
  {
    RecencyIsByLastUse(uses);
    NewestNoDuplicates(Recency(uses), limit);
    NewestAbsorbs(Recency(uses), key, limit);
    RecencySnoc(uses, key);
  }

  lemma NewestFits<T>(keys: seq<string>, slots: seq<T>, limit: Option<nat>)
    requires |slots| == |Newest(keys, limit)|
    ensures Newest(slots, limit) == slots
  {
  }

  lemma StepKeepsExactness<D, F, W>(sys: System<D, F, W>, s: FsState<D, F>, e: Event<D, W>, uses: seq<string>)
    requires Exact(sys, s, uses) && (e.Asked? ==> Answered(sys, s, e))
    ensures Exact(sys, Step(sys, s, e), UsesThen(sys, s, e, uses))
  {
    if e.Asked? {
      AskKeepsExactness(sys, s, e, uses);
    } else {
      OtherKeepsExactness(sys, s, e, uses);
    }
  }

  lemma OtherKeepsExactness<D, F, W>(sys: System<D, F, W>, s: FsState<D, F>, e: Event<D, W>, uses: seq<string>)
    requires Exact(sys, s, uses) && !e.Asked?
    ensures Exact(sys, Step(sys, s, e), UsesThen(sys, s, e, uses))
  {
    OthersClearOrKeep(sys, s, e);
  }

  lemma AllAnsweredBefore<D, F, W>(sys: System<D, F, W>, events: seq<Event<D, W>>)
    requires AllAnswered(sys, events) && events != []
    ensures var n := |events| - 1;
            && AllAnswered(sys, events[..n])
            && (events[n].Asked? ==> Answered(sys, After(sys, events[..n]), events[n]))
  {
    var before := events[..|events| - 1];
    forall i | 0 <= i < |before| ensures before[i] == events[i] && before[..i] == events[..i] {}
  }

  /** Exactness: the cached keys are the most recently used ones, however the calls hit, missed or expired. */
  lemma {:induction false} CachedKeysAreTheNewest<D, F, W>(sys: System<D, F, W>, events: seq<Event<D, W>>)
    requires AllAnswered(sys, events)
    ensures Exact(sys, After(sys, events), Uses(sys, events))
  {
    if events != [] {
      var before, e := events[..|events| - 1], events[|events| - 1];
      AllAnsweredBefore(sys, events);
      CachedKeysAreTheNewest(sys, before);
      StepKeepsExactness(sys, After(sys, before), e, Uses(sys, before));
    }
  }

  lemma OthersClearOrKeep<D, F, W>(sys: System<D, F, W>, s: FsState<D, F>, e: Event<D, W>)
    requires !e.Asked?
    ensures Step(sys, s, e).slots == if Clears(sys, s, e) then [] else s.slots
  {
  }

  lemma NewestNoDuplicates(keys: seq<string>, limit: Option<nat>)
    requires NoDuplicates(keys)
    ensures NoDuplicates(Newest(keys, limit))
  {
    if limit.Some? && |keys| > limit.value {
      var cut := |keys| - limit.value;
      assert keys == keys[..cut] + keys[cut..];
      NoDuplicatesSplit(keys[..cut], keys[cut..]);
    }
  }

  lemma NewestTwice(keys: seq<string>, small: Option<nat>, large: Option<nat>)
    requires small.Some? && (large.Some? ==> small.value <= large.value)
    ensures Newest(Newest(keys, large), small) == Newest(keys, small)
  {
  }

  /**
    Inclusion: on the same run a smaller cache, whatever its time-to-live, holds a suffix of what a larger
    one holds, so enlarging the cache never loses a key.
  */
  lemma SmallerCacheHoldsSuffix<D, F, W>(small: System<D, F, W>, large: System<D, F, W>, events: seq<Event<D, W>>)
    requires small.backend == large.backend && small.start == large.start
    requires AllAnswered(small, events) && AllAnswered(large, events)
    requires var s, l := small.options.maxEntries, large.options.maxEntries; s.Some? && (l.Some? ==> s.value <= l.value)
    ensures Keys(After(small, events).slots) == Newest(Keys(After(large, events).slots), small.options.maxEntries)
  {
    SameRun(small, large, events);
    CachedKeysAreTheNewest(small, events);
    CachedKeysAreTheNewest(large, events);
    NewestTwice(Recency(Uses(small, events)), small.options.maxEntries, large.options.maxEntries);
  }

  /** The cache options do not influence the database, hence neither what a load gives nor the clears. */
  lemma SameStep<D, F, W>(a: System<D, F, W>, b: System<D, F, W>, s: FsState<D, F>, t: FsState<D, F>, e: Event<D, W>)
    requires a.backend == b.backend && s.db == t.db
    ensures Step(a, s, e).db == Step(b, t, e).db && Clears(a, s, e) == Clears(b, t, e)
  {
  }

  lemma {:induction false} SameRun<D, F, W>(a: System<D, F, W>, b: System<D, F, W>, events: seq<Event<D, W>>)
    requires a.backend == b.backend && a.start == b.start
    ensures After(a, events).db == After(b, events).db
    ensures Uses(a, events) == Uses(b, events)
  {
    if events != [] {
      var before, e := events[..|events| - 1], events[|events| - 1];
      SameRun(a, b, before);
      SameStep(a, b, After(a, before), After(b, before), e);
    }
  }
}

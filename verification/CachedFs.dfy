/**
  The cached metadata calls of `DatabaseFs`, as sequential runs: `ls` and `info` answer from the cache
  when they can, writes and explicit invalidation clear it, and the database may change at any time.
  Two facts about whole runs are proved: where a cached answer comes from, and which keys are cached.
*/
module CachedFs {
  import opened Wrappers
  import opened Introspection

  datatype DbError = DbError(message: string)

  datatype CachedIntrospection<F> = Listing(entries: seq<F>) | Info(info: F)

  /**
    `ls_db`, `info_db` and `write_bytes_to_database`, against a database in state `D`; `F` is the file info, `W` a
    write.
  */
  datatype Backend<!D, !F, !W> = Backend(
    ls: (D, string) -> Result<seq<F>, DbError>,
    info: (D, string) -> Result<F, DbError>,
    write: (D, W) -> (D, Result<nat, DbError>))

  datatype Call = LsCall(path: string) | InfoCall(path: string)

  function KeyOf(call: Call): string {
    match call case LsCall(path) => "ls:" + path case InfoCall(path) => "info:" + path
  }

  lemma KeyDeterminesCall(a: Call, b: Call)
    requires KeyOf(a) == KeyOf(b)
    ensures a == b
  {
    assert KeyOf(a)[0] == (if a.LsCall? then 'l' else 'i');
    assert KeyOf(b)[0] == (if b.LsCall? then 'l' else 'i');
    assert a.path == KeyOf(a)[if a.LsCall? then 3 else 5..];
    assert b.path == KeyOf(b)[if b.LsCall? then 3 else 5..];
  }

  function Load<D, F, W>(backend: Backend<D, F, W>, db: D, call: Call): Result<CachedIntrospection<F>, DbError> {
    match call
    case LsCall(path) =>
      (match backend.ls(db, path) case Ok(entries) => Ok(Listing(entries)) case Err(error) => Err(error))
    case InfoCall(path) =>
      (match backend.info(db, path) case Ok(info) => Ok(Info(info)) case Err(error) => Err(error))
  }

  predicate Fits<F>(call: Call, value: CachedIntrospection<F>) {
    match call case LsCall(_) => value.Listing? case InfoCall(_) => value.Info?
  }

  datatype FsState<D, F> = FsState(db: D, slots: seq<Slot<CachedIntrospection<F>>>)

  datatype Reply<F> = Reply(result: Result<CachedIntrospection<F>, DbError>, cached: bool)

  /** One `ls` or `info`: looked up at `now`, and stored at `done` if it had to be loaded. */
  function Ask<D, F, W>(backend: Backend<D, F, W>, options: Options, s: FsState<D, F>, call: Call, now: nat, done: nat)
    : (FsState<D, F>, Reply<F>)
  {
    var (hit, slots) := AfterGet(options, s.slots, KeyOf(call), now);
    if hit.Some? && Fits(call, hit.value) then (s.(slots := slots), Reply(Ok(hit.value), true))
    else
      var loaded := Load(backend, s.db, call);
      (s.(slots := if loaded.Ok? then AfterInsert(options, slots, KeyOf(call), loaded.value, done) else slots),
       Reply(loaded, false))
  }

  class DatabaseFs<D, F, W> {
    const backend: Backend<D, F, W>
    const cache: IntrospectionCache<CachedIntrospection<F>>
    var db: D

    ghost predicate Valid()
      reads this, cache
    {
      cache.Valid()
    }

    ghost function State(): FsState<D, F>
      reads this, cache
      requires Valid()
    {
      FsState(db, cache.Contents())
    }

    constructor (backend: Backend<D, F, W>, db: D, options: Options)
      ensures Valid() && fresh(cache)
      ensures this.backend == backend && cache.options == options && State() == FsState(db, [])
    {
      this.backend, this.db := backend, db;
      cache := new IntrospectionCache(options);
    }

    method Ls(path: string, now: nat, done: nat) returns (r: Result<seq<F>, DbError>)
      requires Valid()
      modifies cache
      ensures Valid()
      ensures var (hit, slots) := AfterGet(cache.options, old(cache.Contents()), "ls:" + path, now);
              var found := hit.Some? && hit.value.Listing?;
              && r == (if found then Ok(hit.value.entries) else backend.ls(db, path))
              && cache.Contents() ==
                   if found || r.Err? then slots
                   else AfterInsert(cache.options, slots, "ls:" + path, Listing(r.value), done)
      ensures var (next, reply) := Ask(backend, cache.options, old(State()), LsCall(path), now, done);
              && State() == next
              && (reply.result.Ok? ==> reply.result.value.Listing? && r == Ok(reply.result.value.entries))
              && (reply.result.Err? ==> r == Err(reply.result.error))
    {
      var key := "ls:" + path;
      var hit := cache.Get(key, now);
      if hit.Some? && hit.value.Listing? {
        return Ok(hit.value.entries);
      }
      r := backend.ls(db, path);
      if r.Ok? {
        cache.Insert(key, Listing(r.value), done);
      }
    }

    method InfoOf(path: string, now: nat, done: nat) returns (r: Result<F, DbError>)
      requires Valid()
      modifies cache
      ensures Valid()
      ensures var (hit, slots) := AfterGet(cache.options, old(cache.Contents()), "info:" + path, now);
              var found := hit.Some? && hit.value.Info?;
              && r == (if found then Ok(hit.value.info) else backend.info(db, path))
              && cache.Contents() ==
                   if found || r.Err? then slots
                   else AfterInsert(cache.options, slots, "info:" + path, Info(r.value), done)
      ensures var (next, reply) := Ask(backend, cache.options, old(State()), InfoCall(path), now, done);
              && State() == next
              && (reply.result.Ok? ==> reply.result.value.Info? && r == Ok(reply.result.value.info))
              && (reply.result.Err? ==> r == Err(reply.result.error))
    {
      var key := "info:" + path;
      var hit := cache.Get(key, now);
      if hit.Some? && hit.value.Info? {
        return Ok(hit.value.info);
      }
      r := backend.info(db, path);
      if r.Ok? {
        cache.Insert(key, Info(r.value), done);
      }
    }

    method InvalidateCache()
      requires Valid()
      modifies cache
      ensures Valid()
      ensures State() == old(State()).(slots := [])
    {
      cache.Clear();
    }

    method WriteBytes(write: W) returns (r: Result<nat, DbError>)
      requires Valid()
      modifies this, cache
      ensures Valid()
      ensures var (next, outcome) := backend.write(old(db), write);
              r == outcome && State() == FsState(next, if outcome.Ok? then [] else old(State()).slots)
    {
      var (next, outcome) := backend.write(db, write);
      db := next;
      if outcome.Ok? {
        InvalidateCache();
      }
      return outcome;
    }

    /** `local` is what reading the local file gives. */
    method PutFile(local: Result<W, DbError>) returns (r: Result<(), DbError>)
      requires Valid()
      modifies this, cache
      ensures Valid()
      ensures local.Err? ==> r == Err(local.error) && State() == old(State())
      ensures local.Ok? ==>
                var (next, outcome) := backend.write(old(db), local.value);
                && (outcome.Ok? <==> r.Ok?)
                && State() == FsState(next, if outcome.Ok? then [] else old(State()).slots)
    {
      if local.Err? {
        return Err(local.error);
      }
      var written := WriteBytes(local.value);
      if written.Err? {
        return Err(written.error);
      }
      InvalidateCache();
      return Ok(());
    }
  }

  // ------------------------------------------------------------------------------------------
  // Runs.

  datatype Event<D, W> =
    | Asked(call: Call, now: nat, done: nat)
    | Invalidated
    | Wrote(write: W)               // write_bytes or put_file
    | Committed(write: W)           // a write handle from open, which does not touch the cache
    | Changed(db: D)                // the database changes by other hands

  datatype System<!D, !F, !W> = System(backend: Backend<D, F, W>, options: Options, start: D)

  function Step<D, F, W>(sys: System<D, F, W>, s: FsState<D, F>, e: Event<D, W>): FsState<D, F> {
    match e
    case Asked(call, now, done) => Ask(sys.backend, sys.options, s, call, now, done).0
    case Invalidated => s.(slots := [])
    case Wrote(write) =>
      var (db, outcome) := sys.backend.write(s.db, write);
      FsState(db, if outcome.Ok? then [] else s.slots)
    case Committed(write) => s.(db := sys.backend.write(s.db, write).0)
    case Changed(db) => s.(db := db)
  }

  function After<D, F, W>(sys: System<D, F, W>, events: seq<Event<D, W>>): FsState<D, F> {
    if events == [] then FsState(sys.start, [])
    else Step(sys, After(sys, events[..|events| - 1]), events[|events| - 1])
  }

  /** A completed write through the filesystem, or an explicit invalidation. */
  predicate Clears<D, F, W>(sys: System<D, F, W>, s: FsState<D, F>, e: Event<D, W>) {
    e.Invalidated? || (e.Wrote? && sys.backend.write(s.db, e.write).1.Ok?)
  }

  /**
    The slot was stored by event `i`: the same call, answered from the database as it then was. Its
    age is counted from there, and nothing has cleared the cache since.
  */
  ghost predicate StoredBy<D, F, W>(sys: System<D, F, W>, events: seq<Event<D, W>>, slot: Slot<CachedIntrospection<F>>,
                                    i: nat)
  {
    && i < |events| && events[i].Asked?
    && KeyOf(events[i].call) == slot.key
    && slot.entry.inserted == events[i].done
    && Load(sys.backend, After(sys, events[..i]).db, events[i].call) == Ok(slot.entry.value)
    && forall j :: i < j < |events| ==> !Clears(sys, After(sys, events[..j]), events[j])
  }

  lemma StoredByStays<D, F, W>(sys: System<D, F, W>, events: seq<Event<D, W>>, slot: Slot<CachedIntrospection<F>>,
                               i: nat)
    requires events != []
    requires var before := events[..|events| - 1];
             StoredBy(sys, before, slot, i) && !Clears(sys, After(sys, before), events[|events| - 1])
    ensures StoredBy(sys, events, slot, i)
  {
    var before := events[..|events| - 1];
    assert before[..i] == events[..i];
    forall j | i < j < |events| ensures !Clears(sys, After(sys, events[..j]), events[j]) {
      NotClearedAt(sys, events, i, j);
    }
  }

  lemma NotClearedAt<D, F, W>(sys: System<D, F, W>, events: seq<Event<D, W>>, i: nat, j: nat)
    requires i < j < |events| && !Clears(sys, After(sys, events[..|events| - 1]), events[|events| - 1])
    requires var before := events[..|events| - 1];
             forall j :: i < j < |before| ==> !Clears(sys, After(sys, before[..j]), before[j])
    ensures !Clears(sys, After(sys, events[..j]), events[j])
  {
    var before := events[..|events| - 1];
    if j < |before| {
      assert before[..j] == events[..j] && before[j] == events[j];
    }
  }

  lemma {:induction false} InRemove<V>(slots: seq<Slot<V>>, key: string)
    ensures forall slot :: slot in Remove(slots, key) ==> slot in slots && slot.key != key
  {
    if slots != [] {
      InRemove(slots[1..], key);
    }
  }

  lemma {:induction false} InLookup<V>(slots: seq<Slot<V>>, key: string)
    ensures Lookup(slots, key).Some? ==> Slot(key, Lookup(slots, key).value) in slots
  {
    if slots != [] {
      InLookup(slots[1..], key);
    }
  }

  /** Every slot after an event was there before, or holds what the event just loaded. */
  lemma SlotsComeFrom<D, F, W>(sys: System<D, F, W>, s: FsState<D, F>, e: Event<D, W>,
                               slot: Slot<CachedIntrospection<F>>)
    requires slot in Step(sys, s, e).slots
    ensures !Clears(sys, s, e)
    ensures || slot in s.slots
            || (e.Asked? && Load(sys.backend, s.db, e.call).Ok?
                && slot == Slot(KeyOf(e.call), Entry(e.done, Load(sys.backend, s.db, e.call).value)))
  {
    if e.Asked? {
      var key := KeyOf(e.call);
      var (_, slots) := AfterGet(sys.options, s.slots, key, e.now);
      InRemove(s.slots, key);
      InLookup(s.slots, key);
      InRemove(slots, key);
    }
  }

  lemma {:induction false} EverySlotWasStored<D, F, W>(sys: System<D, F, W>, events: seq<Event<D, W>>,
                                                       slot: Slot<CachedIntrospection<F>>)
    returns (i: nat)
    requires slot in After(sys, events).slots
    ensures StoredBy(sys, events, slot, i)
  {
    var n := |events| - 1;
    var before := events[..n];
    SlotsComeFrom(sys, After(sys, before), events[n], slot);
    if slot in After(sys, before).slots {
      i := EverySlotWasStored(sys, before, slot);
      StoredByStays(sys, events, slot, i);
    } else {
      i := n;
    }
  }

  /**
    Soundness: an answer given from the cache is the one an earlier call of the same kind on the same
    path computed from the database, stored less than one time-to-live ago however often it was used
    since, and with no completed write or invalidation in between.
  */
  lemma CachedAnswersAreSound<D, F, W>(sys: System<D, F, W>, events: seq<Event<D, W>>, call: Call, now: nat, done: nat)
    returns (i: nat)
    requires Ask(sys.backend, sys.options, After(sys, events), call, now, done).1.cached
    ensures i < |events| && events[i].Asked? && events[i].call == call
    ensures Load(sys.backend, After(sys, events[..i]).db, call)
            == Ask(sys.backend, sys.options, After(sys, events), call, now, done).1.result
    ensures sys.options.ttl.Some? ==> now < events[i].done + sys.options.ttl.value
    ensures forall j :: i < j < |events| ==> !Clears(sys, After(sys, events[..j]), events[j])
  {
    var slots := After(sys, events).slots;
    InLookup(slots, KeyOf(call));
    i := EverySlotWasStored(sys, events, Slot(KeyOf(call), Lookup(slots, KeyOf(call)).value));
    KeyDeterminesCall(events[i].call, call);
  }

  /** An answer to `ls` in any run: what the database lists at that path, now or at an earlier `ls` of the same path. */
  lemma ListingsComeFromTheirPath<D, F, W>(sys: System<D, F, W>, events: seq<Event<D, W>>, path: string,
                                           now: nat, done: nat) returns (i: nat)
    ensures var (_, reply) := Ask(sys.backend, sys.options, After(sys, events), LsCall(path), now, done);
            if reply.cached then
              && i < |events| && events[i].Asked? && events[i].call == LsCall(path)
              && reply.result.Ok? && reply.result.value.Listing?
              && sys.backend.ls(After(sys, events[..i]).db, path) == Ok(reply.result.value.entries)
            else
              match sys.backend.ls(After(sys, events).db, path)
              case Ok(entries) => reply.result == Ok(Listing(entries))
              case Err(error) => reply.result == Err(error)
  {
    if Ask(sys.backend, sys.options, After(sys, events), LsCall(path), now, done).1.cached {
      i := CachedAnswersAreSound(sys, events, LsCall(path), now, done);
    } else {
      i := 0;
    }
  }

  /** Likewise for `info`. */
  lemma InfosComeFromTheirPath<D, F, W>(sys: System<D, F, W>, events: seq<Event<D, W>>, path: string,
                                        now: nat, done: nat) returns (i: nat)
    ensures var (_, reply) := Ask(sys.backend, sys.options, After(sys, events), InfoCall(path), now, done);
            if reply.cached then
              && i < |events| && events[i].Asked? && events[i].call == InfoCall(path)
              && reply.result.Ok? && reply.result.value.Info?
              && sys.backend.info(After(sys, events[..i]).db, path) == Ok(reply.result.value.info)
            else
              match sys.backend.info(After(sys, events).db, path)
              case Ok(info) => reply.result == Ok(Info(info))
              case Err(error) => reply.result == Err(error)
  {
    if Ask(sys.backend, sys.options, After(sys, events), InfoCall(path), now, done).1.cached {
      i := CachedAnswersAreSound(sys, events, InfoCall(path), now, done);
    } else {
      i := 0;
    }
  }

  /** The kind under a key never clashes with the call: whatever is found fresh is an answer. */
  lemma FoundMeansAnswered<D, F, W>(sys: System<D, F, W>, events: seq<Event<D, W>>, call: Call, now: nat, done: nat)
    ensures AfterGet(sys.options, After(sys, events).slots, KeyOf(call), now).0.Some?
            <==> Ask(sys.backend, sys.options, After(sys, events), call, now, done).1.cached
  {
    var slots := After(sys, events).slots;
    if Lookup(slots, KeyOf(call)).Some? {
      InLookup(slots, KeyOf(call));
      var i := EverySlotWasStored(sys, events, Slot(KeyOf(call), Lookup(slots, KeyOf(call)).value));
      KeyDeterminesCall(events[i].call, call);
    }
  }

  /**
    What a commit through a write handle does to the next call. The commit leaves the cache alone, so the
    call is answered from the database as it now is exactly when nothing fresh was cached for it; otherwise
    it gets the answer it would have got before the commit.
  */
  lemma HandleCommitRefreshesIff<D, F, W>(sys: System<D, F, W>, events: seq<Event<D, W>>, write: W, call: Call,
                                          now: nat, done: nat)
    ensures var s, t := After(sys, events), After(sys, events + [Committed(write)]);
            var found := AfterGet(sys.options, s.slots, KeyOf(call), now).0;
            var before := Ask(sys.backend, sys.options, s, call, now, done).1;
            var after := Ask(sys.backend, sys.options, t, call, now, done).1;
            && t.db == sys.backend.write(s.db, write).0
            && (!after.cached && after.result == Load(sys.backend, t.db, call) <==> found.None?)
            && (found.Some? ==> after == before && after.cached && after.result == Ok(found.value))
  {
    var longer := events + [Committed(write)];
    assert longer[..|events|] == events;
    FoundMeansAnswered(sys, events, call, now, done);
    FoundMeansAnswered(sys, longer, call, now, done);
  }

  /** The next answer is stale exactly when a fresh slot holds something else than the database would now give. */
  lemma HandleCommitLeavesStaleIff<D, F, W>(sys: System<D, F, W>, events: seq<Event<D, W>>, write: W, call: Call,
                                            now: nat, done: nat)
    ensures var s, t := After(sys, events), After(sys, events + [Committed(write)]);
            var found := AfterGet(sys.options, s.slots, KeyOf(call), now).0;
            Ask(sys.backend, sys.options, t, call, now, done).1.result != Load(sys.backend, t.db, call)
            <==> found.Some? && Load(sys.backend, sys.backend.write(s.db, write).0, call) != Ok(found.value)
  {
    HandleCommitRefreshesIff(sys, events, write, call, now, done);
  }

  /** A database that is a number of rows, whose metadata is that number; a write adds rows. */
  function RowCounter(): Backend<nat, nat, nat> {
    Backend((db, path) => Ok([db]), (db, path) => Ok(db), (db, rows) => (db + rows, Ok(rows)))
  }

  /**
    A witness: `info` of a table goes on reporting the row count from before a commit through a write handle,
    where after `write_bytes` it reports the new one.
  */
  lemma HandleCommitLeavesStaleInfo(path: string)
    ensures var backend := RowCounter();
            var sys := System(backend, Options(Some(300), Some(1024)), 0);
            var asked := Asked(InfoCall(path), 0, 0);
            && Ask(backend, sys.options, After(sys, [asked, Committed(7)]), InfoCall(path), 1, 1).1
                 == Reply(Ok(Info(0)), true)
            && Load(backend, After(sys, [asked, Committed(7)]).db, InfoCall(path)) == Ok(Info(7))
            && Ask(backend, sys.options, After(sys, [asked, Wrote(7)]), InfoCall(path), 1, 1).1
                 == Reply(Ok(Info(7)), false)
  {
    var backend := RowCounter();
    var sys := System(backend, Options(Some(300), Some(1024)), 0);
    var asked: Event<nat, nat> := Asked(InfoCall(path), 0, 0);
    assert [asked, Committed(7)][..1] == [asked] && [asked, Wrote(7)][..1] == [asked] && [asked][..0] == [];
    assert After(sys, []) == FsState(0, []);
    assert After(sys, [asked]).slots == [Slot(KeyOf(asked.call), Entry(0, Info(0)))];
  }
}

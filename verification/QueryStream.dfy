/**
  The query stream: a worker thread reads rows from the database, groups them into batches of
  1024 and sends them over a channel of capacity 1; the schema travels first, over a channel of
  its own. The consumer waits for the schema, then pulls batches, and may drop the reader at any
  time. Every interleaving of the two is a sequence of `Action`s.

  The SQLite, Postgres and MySQL workers have this same shape.
*/
module QueryStream {
  import opened Wrappers

  const QUERY_BATCH_SIZE: nat := 1024
  const CHANNEL_CAPACITY: nat := 1

  datatype Error = QueryFailed | DecodeFailed | SchemaFailed | StreamClosed | EndedBeforeSchema

  /** What the database does with one query. */
  datatype Query<!R, !S> = Query(
    rows: seq<R>,               // the rows the row stream yields ...
    breaks: bool,               // ... and whether it then fails instead of ending
    decodes: seq<R> -> bool,    // whether rows_to_batch succeeds on a chunk
    schemaOf: seq<R> -> S,      // the schema rows_to_batch gives a chunk
    declared: Option<S>)        // the schema of the prepared statement; None if asking for it fails

  /** Where the worker thread stands. `last` marks the send after the row loop. */
  datatype Worker<R, S> =
    | Start                                                // the row stream has no connection yet
    | Fetching                                             // rows.try_next()
    | Batching(last: bool)                                 // rows_to_batch on the taken chunk
    | Announcing(schema: S, batch: seq<R>, last: bool)     // schema_tx.send(Ok(schema))
    | Delivering(batch: seq<R>, last: bool)                // batch_tx.send(Ok(batch))
    | Drained                                              // the row stream has been dropped
    | Preparing                                            // waiting for a connection to describe the statement
    | Failing(error: Error)                                // the thread closure reports the error
    | Exited                                               // both senders are dropped

  datatype Consumer<S> =
    | AwaitingSchema                                       // inside stream_query, in schema_rx.recv()
    | Reading(schema: S)                                   // holds the reader
    | Refused                                              // stream_query returned an error
    | Ended(schema: S)                                     // next() returned None
    | Dropped                                              // the reader was dropped

  datatype State<R, S> = State(
    worker: Worker<R, S>,
    fetched: nat,                                          // rows read from the row stream
    chunk: seq<R>,
    schemaSent: bool,
    permits: nat,                                          // free connections, in a pool of one
    schemaChannel: seq<Result<S, Error>>,
    batchChannel: seq<Result<seq<R>, Error>>,
    consumer: Consumer<S>,
    received: seq<seq<R>>,                                 // batches handed to the consumer
    failures: seq<Error>,                                  // errors handed to the consumer
    sent: nat)                                             // batches put on the channel

  datatype Action = Work | ReceiveSchema | ReceiveBatch | Drop

  function Init<R, S>(): State<R, S> {
    State(Start, 0, [], false, 1, [], [], AwaitingSchema, [], [], 0)
  }

  predicate SchemaReceiverGone<R, S>(s: State<R, S>) {
    !s.consumer.AwaitingSchema?
  }

  predicate BatchReceiverGone<R, S>(s: State<R, S>) {
    s.consumer.Refused? || s.consumer.Dropped?
  }

  /** A bounded send returns at once when the receiver is gone and waits while the channel is full. */
  predicate CanSendSchema<R, S>(s: State<R, S>) {
    SchemaReceiverGone(s) || |s.schemaChannel| < CHANNEL_CAPACITY
  }

  predicate CanSendBatch<R, S>(s: State<R, S>) {
    BatchReceiverGone(s) || |s.batchChannel| < CHANNEL_CAPACITY
  }

  predicate Enabled<R, S>(s: State<R, S>, a: Action) {
    match a
    case Work =>
      (match s.worker
       case Start => s.permits > 0
       case Fetching => true
       case Batching(_) => true
       case Announcing(_, _, _) => CanSendSchema(s)
       case Delivering(_, _) => CanSendBatch(s)
       case Drained => true
       case Preparing => s.permits > 0
       case Failing(_) => if s.schemaSent then CanSendBatch(s) else CanSendSchema(s)
       case Exited => false)
    case ReceiveSchema => s.consumer.AwaitingSchema? && (s.schemaChannel != [] || s.worker.Exited?)
    case ReceiveBatch => s.consumer.Reading? && (s.batchChannel != [] || s.worker.Exited?)
    case Drop => s.consumer.Reading?
  }

  /** The error path out of the row loop: the row stream goes out of scope and gives its connection back. */
  function Fail<R, S>(s: State<R, S>, error: Error, releases: bool): State<R, S> {
    s.(worker := Failing(error), permits := s.permits + if releases then 1 else 0)
  }

  function WorkerStep<R, S>(q: Query<R, S>, s: State<R, S>): State<R, S>
    requires Enabled(s, Work) && s.fetched <= |q.rows|
  {
    match s.worker
    case Start => s.(worker := Fetching, permits := s.permits - 1)
    case Fetching =>
      if s.fetched < |q.rows| then
        var chunk := s.chunk + [q.rows[s.fetched]];
        s.(fetched := s.fetched + 1, chunk := chunk,
           worker := if |chunk| == QUERY_BATCH_SIZE then Batching(false) else Fetching)
      else if q.breaks then Fail(s, QueryFailed, true)
      else s.(worker := Drained, permits := s.permits + 1)
    case Batching(last) =>
      var batch, rest := s.chunk, s.(chunk := []);
      if !q.decodes(batch) then Fail(rest, DecodeFailed, !last)
      else if s.schemaSent then rest.(worker := Delivering(batch, last))
      else rest.(worker := Announcing(q.schemaOf(batch), batch, last))
    case Announcing(schema, batch, last) =>
      if SchemaReceiverGone(s) then Fail(s, StreamClosed, !last)
      else s.(schemaChannel := s.schemaChannel + [Ok(schema)], schemaSent := true, worker := Delivering(batch, last))
    case Delivering(batch, last) =>
      if BatchReceiverGone(s) then s.(worker := Exited, permits := s.permits + if last then 0 else 1)
      else s.(batchChannel := s.batchChannel + [Ok(batch)], sent := s.sent + 1,
              worker := if last then Exited else Fetching)
    case Drained =>
      if s.chunk != [] then s.(worker := Batching(true))
      else if s.schemaSent then s.(worker := Exited)
      else s.(worker := Preparing)
    case Preparing =>
      if q.declared.None? then Fail(s, SchemaFailed, false)
      else s.(worker := Announcing(q.declared.value, [], true))
    case Failing(error) =>
      if s.schemaSent then
        s.(worker := Exited,
           batchChannel := if BatchReceiverGone(s) then s.batchChannel else s.batchChannel + [Err(error)])
      else
        s.(worker := Exited,
           schemaChannel := if SchemaReceiverGone(s) then s.schemaChannel else s.schemaChannel + [Err(error)])
  }

  function Apply<R, S>(q: Query<R, S>, s: State<R, S>, a: Action): State<R, S>
    requires Enabled(s, a) && s.fetched <= |q.rows|
  {
    match a
    case Work => WorkerStep(q, s)
    case ReceiveSchema =>
      if s.schemaChannel == [] then s.(consumer := Refused, failures := s.failures + [EndedBeforeSchema])
      else
        (match s.schemaChannel[0]
         case Ok(schema) => s.(schemaChannel := s.schemaChannel[1..], consumer := Reading(schema))
         case Err(error) =>
           s.(schemaChannel := s.schemaChannel[1..], consumer := Refused, failures := s.failures + [error]))
    case ReceiveBatch =>
      if s.batchChannel == [] then s.(consumer := Ended(s.consumer.schema))
      else
        (match s.batchChannel[0]
         case Ok(batch) => s.(batchChannel := s.batchChannel[1..], received := s.received + [batch])
         case Err(error) => s.(batchChannel := s.batchChannel[1..], failures := s.failures + [error]))
    case Drop => s.(consumer := Dropped, batchChannel := [])
  }

  /** `path` is a possible sequence of actions from `s`, and `After` is where it leads. */
  ghost predicate IsRun<R, S>(q: Query<R, S>, s: State<R, S>, path: seq<Action>)
    decreases |path|
  {
    path == [] || (Enabled(s, path[0]) && s.fetched <= |q.rows| && IsRun(q, Apply(q, s, path[0]), path[1..]))
  }

  ghost function After<R, S>(q: Query<R, S>, s: State<R, S>, path: seq<Action>): State<R, S>
    requires IsRun(q, s, path)
    decreases |path|
  {
    if path == [] then s else After(q, Apply(q, s, path[0]), path[1..])
  }

  // ------------------------------------------------------------------------------------------
  // The sequential specification: what a query owes its consumer.

  datatype Outcome<R> = Outcome(batches: seq<seq<R>>, failures: seq<Error>)

  function BatchAt<R>(rows: seq<R>, i: nat): seq<R>
    requires i * QUERY_BATCH_SIZE <= |rows|
  {
    rows[i * QUERY_BATCH_SIZE..Min((i + 1) * QUERY_BATCH_SIZE, |rows|)]
  }

  /** The batches and the failure owed from batch number `i` on. */
  function Owed<R, S>(q: Query<R, S>, i: nat): Outcome<R>
    requires i * QUERY_BATCH_SIZE <= |q.rows|
    decreases |q.rows| - i * QUERY_BATCH_SIZE
  {
    var batch := BatchAt(q.rows, i);
    if |batch| == QUERY_BATCH_SIZE then
      if q.decodes(batch) then
        var later := Owed(q, i + 1);
        later.(batches := [batch] + later.batches)
      else Outcome([], [DecodeFailed])
    else if q.breaks then Outcome([], [QueryFailed])
    else if batch != [] then
      if q.decodes(batch) then Outcome([batch], []) else Outcome([], [DecodeFailed])
    else if i > 0 then Outcome([], [])
    else if q.declared.None? then Outcome([], [SchemaFailed])
    else Outcome([[]], [])
  }

  /** Nothing goes wrong in the database: exactly the condition under which no error is owed. */
  ghost predicate Faultless<R, S>(q: Query<R, S>) {
    && !q.breaks
    && (q.rows == [] ==> q.declared.Some?)
    && forall i: nat :: i * QUERY_BATCH_SIZE < |q.rows| ==> q.decodes(BatchAt(q.rows, i))
  }

  /** The schema the first message must carry. */
  ghost predicate IsAnnounced<R, S>(q: Query<R, S>, schema: S) {
    if q.rows == [] then q.declared == Some(schema) else schema == q.schemaOf(BatchAt(q.rows, 0))
  }

  // ------------------------------------------------------------------------------------------
  // The invariant.

  ghost predicate HoldsConnection<R, S>(w: Worker<R, S>) {
    || w.Fetching?
    || (w.Batching? && !w.last)
    || (w.Announcing? && !w.last)
    || (w.Delivering? && !w.last)
  }

  /** Where the worker stands determines what it holds. */
  ghost predicate WorkerInv<R, S>(q: Query<R, S>, s: State<R, S>) {
    var base := s.sent * QUERY_BATCH_SIZE;
    s.fetched <= |q.rows| &&
    match s.worker
    case Start => s.sent == s.fetched == 0 && s.chunk == [] && !s.schemaSent
    case Fetching =>
      && base <= s.fetched < base + QUERY_BATCH_SIZE
      && s.chunk == q.rows[base..s.fetched] && s.schemaSent == (s.sent > 0)
    case Drained =>
      && base <= s.fetched == |q.rows| < base + QUERY_BATCH_SIZE && !q.breaks
      && s.chunk == q.rows[base..] && s.schemaSent == (s.sent > 0)
    case Batching(last) =>
      && base < s.fetched <= |q.rows| && s.chunk == BatchAt(q.rows, s.sent) && s.schemaSent == (s.sent > 0)
      && (if last then s.fetched == |q.rows| < base + QUERY_BATCH_SIZE && !q.breaks
          else s.fetched == base + QUERY_BATCH_SIZE)
    case Announcing(schema, batch, last) =>
      && s.sent == 0 && !s.schemaSent && IsAnnounced(q, schema) && Carries(q, s, batch, last)
    case Delivering(batch, last) => s.schemaSent && base <= |q.rows| && Carries(q, s, batch, last)
    case Preparing => s.sent == 0 && s.chunk == [] && !s.schemaSent && q.rows == [] && !q.breaks
    case Failing(error) =>
      && base <= |q.rows| && s.schemaSent == (s.sent > 0) && error != StreamClosed && error != EndedBeforeSchema
      && Owed(q, s.sent) == Outcome([], [error])
    case Exited => true
  }

  ghost predicate Carries<R, S>(q: Query<R, S>, s: State<R, S>, batch: seq<R>, last: bool)
    requires s.sent * QUERY_BATCH_SIZE <= |q.rows|
  {
    && batch == BatchAt(q.rows, s.sent) && s.chunk == []
    && (if last then
          && |batch| < QUERY_BATCH_SIZE
          && Owed(q, s.sent) == Outcome([batch], [])
        else
          && s.fetched == (s.sent + 1) * QUERY_BATCH_SIZE
          && q.decodes(batch))
  }

  ghost predicate Inv<R, S>(q: Query<R, S>, s: State<R, S>) {
    && s.fetched <= |q.rows|
    && s.fetched <= (s.sent + 1) * QUERY_BATCH_SIZE
    && WorkerInv(q, s)
    && s.permits == (if HoldsConnection(s.worker) then 0 else 1)
    && SchemaInv(q, s)
    && BatchInv(q, s)
  }

  ghost predicate SchemaInv<R, S>(q: Query<R, S>, s: State<R, S>) {
    match s.consumer
    case AwaitingSchema =>
      && s.received == [] && s.failures == []
      && (if s.schemaSent then
            |s.schemaChannel| == 1 && s.schemaChannel[0].Ok? && IsAnnounced(q, s.schemaChannel[0].value)
          else if s.worker.Exited? then |s.schemaChannel| == 1 && s.schemaChannel[0].Err?
          else s.schemaChannel == [])
    case Reading(schema) => s.schemaChannel == [] && s.schemaSent && IsAnnounced(q, schema)
    case Refused => s.schemaChannel == [] && !s.schemaSent && s.worker.Exited? && s.received == [] && s.failures != []
    case Ended(schema) => s.schemaChannel == [] && s.schemaSent && s.worker.Exited? && IsAnnounced(q, schema)
    case Dropped => s.schemaChannel == [] && s.schemaSent
  }

  ghost predicate BatchInv<R, S>(q: Query<R, S>, s: State<R, S>) {
    && |s.batchChannel| <= CHANNEL_CAPACITY
    && (s.batchChannel != [] ==> s.schemaSent && s.consumer != Refused && !s.consumer.Ended? && !s.consumer.Dropped?)
    && (s.batchChannel != [] && s.batchChannel[0].Err? ==> s.worker.Exited?)
    && (s.failures != [] ==> s.worker.Exited? && s.batchChannel == [])
    && (!s.consumer.Dropped? ==> |s.received| + |InFlight(s.batchChannel).batches| == s.sent)
    && (!s.consumer.Refused? && (s.failures != [] || (s.batchChannel != [] && s.batchChannel[0].Err?)) ==>
          s.received != [])
  }

  function InFlight<R>(channel: seq<Result<seq<R>, Error>>): Outcome<R>
    requires |channel| <= 1
  {
    if channel == [] then Outcome([], [])
    else match channel[0] case Ok(batch) => Outcome([batch], []) case Err(error) => Outcome([], [error])
  }

  function Refusal<S>(channel: seq<Result<S, Error>>): seq<Error>
    requires |channel| <= 1
  {
    if channel != [] && channel[0].Err? then [channel[0].error] else []
  }

  /** What the worker will still send. */
  ghost function Future<R, S>(q: Query<R, S>, s: State<R, S>): Outcome<R>
    requires s.sent * QUERY_BATCH_SIZE <= |q.rows| || s.worker.Exited?
  {
    match s.worker
    case Exited => Outcome([], [])
    case Failing(error) => Outcome([], [error])
    case _ => Owed(q, s.sent)
  }

  /** Delivered, in flight and still to come, together. */
  ghost function Account<R, S>(q: Query<R, S>, s: State<R, S>): Outcome<R>
    requires s.sent * QUERY_BATCH_SIZE <= |q.rows| || s.worker.Exited?
    requires |s.batchChannel| <= 1 && |s.schemaChannel| <= 1
  {
    var inFlight, future := InFlight(s.batchChannel), Future(q, s);
    Outcome(s.received + inFlight.batches + future.batches,
            s.failures + Refusal(s.schemaChannel) + inFlight.failures + future.failures)
  }

  lemma InitInv<R, S>(q: Query<R, S>)
    ensures Inv(q, Init())
    ensures Account(q, Init()) == Owed(q, 0)
  {
  }

  lemma TakeRowKeeps<R, S>(q: Query<R, S>, s: State<R, S>)
    requires Inv(q, s) && s.worker.Fetching? && s.fetched < |q.rows|
    ensures Inv(q, WorkerStep(q, s))
    ensures !s.consumer.Dropped? ==> Account(q, WorkerStep(q, s)) == Account(q, s)
  {
    var base := s.sent * QUERY_BATCH_SIZE;
    assert q.rows[base..s.fetched + 1] == q.rows[base..s.fetched] + [q.rows[s.fetched]];
  }

  lemma LastRowKeeps<R, S>(q: Query<R, S>, s: State<R, S>)
    requires Inv(q, s) && s.worker.Fetching? && s.fetched == |q.rows|
    ensures Inv(q, WorkerStep(q, s))
    ensures !s.consumer.Dropped? ==> Account(q, WorkerStep(q, s)) == Account(q, s)
  {
    assert BatchAt(q.rows, s.sent) == s.chunk;
  }

  lemma BatchingFailsKeeps<R, S>(q: Query<R, S>, s: State<R, S>)
    requires Inv(q, s) && s.worker.Batching? && !q.decodes(s.chunk)
    ensures Inv(q, WorkerStep(q, s))
    ensures !s.consumer.Dropped? ==> Account(q, WorkerStep(q, s)) == Account(q, s)
  {
  }

  lemma BatchingKeeps<R, S>(q: Query<R, S>, s: State<R, S>)
    requires Inv(q, s) && s.worker.Batching?
    ensures Inv(q, WorkerStep(q, s))
    ensures !s.consumer.Dropped? ==> Account(q, WorkerStep(q, s)) == Account(q, s)
  {
    if !q.decodes(s.chunk) {
      BatchingFailsKeeps(q, s);
    }
  }

  lemma AnnounceKeeps<R, S>(q: Query<R, S>, s: State<R, S>)
    requires Inv(q, s) && Enabled(s, Work) && s.worker.Announcing?
    ensures Inv(q, WorkerStep(q, s))
    ensures !s.consumer.Dropped? ==> Account(q, WorkerStep(q, s)) == Account(q, s)
  {
  }

  lemma DeliverKeeps<R, S>(q: Query<R, S>, s: State<R, S>)
    requires Inv(q, s) && Enabled(s, Work) && s.worker.Delivering?
    ensures Inv(q, WorkerStep(q, s))
    ensures !s.consumer.Dropped? ==> Account(q, WorkerStep(q, s)) == Account(q, s)
  {
    if !BatchReceiverGone(s) {
      DeliveredBatchMoves(q, s);
    }
  }

  lemma DeliveredBatchMoves<R, S>(q: Query<R, S>, s: State<R, S>)
    requires Inv(q, s) && Enabled(s, Work) && s.worker.Delivering? && !BatchReceiverGone(s)
    ensures Inv(q, WorkerStep(q, s))
    ensures !s.consumer.Dropped? ==> Account(q, WorkerStep(q, s)) == Account(q, s)
  {
  }

  lemma StartKeeps<R, S>(q: Query<R, S>, s: State<R, S>)
    requires Inv(q, s) && Enabled(s, Work) && (s.worker.Start? || s.worker.Preparing?)
    ensures Inv(q, WorkerStep(q, s))
    ensures !s.consumer.Dropped? ==> Account(q, WorkerStep(q, s)) == Account(q, s)
  {
  }

  lemma DrainedKeeps<R, S>(q: Query<R, S>, s: State<R, S>)
    requires Inv(q, s) && s.worker.Drained?
    ensures Inv(q, WorkerStep(q, s))
    ensures !s.consumer.Dropped? ==> Account(q, WorkerStep(q, s)) == Account(q, s)
  {
    if s.chunk != [] {
      LastChunkKeeps(q, s);
    } else if !s.schemaSent {
      NoRowsKeeps(q, s);
    }
  }

  lemma LastChunkKeeps<R, S>(q: Query<R, S>, s: State<R, S>)
    requires Inv(q, s) && s.worker.Drained? && s.chunk != []
    ensures Inv(q, WorkerStep(q, s))
    ensures !s.consumer.Dropped? ==> Account(q, WorkerStep(q, s)) == Account(q, s)
  {
    assert BatchAt(q.rows, s.sent) == s.chunk;
  }

  lemma NoRowsKeeps<R, S>(q: Query<R, S>, s: State<R, S>)
    requires Inv(q, s) && s.worker.Drained? && s.chunk == [] && !s.schemaSent
    ensures Inv(q, WorkerStep(q, s))
    ensures !s.consumer.Dropped? ==> Account(q, WorkerStep(q, s)) == Account(q, s)
  {
  }

  lemma ReportKeeps<R, S>(q: Query<R, S>, s: State<R, S>)
    requires Inv(q, s) && Enabled(s, Work) && s.worker.Failing?
    ensures Inv(q, WorkerStep(q, s))
    ensures !s.consumer.Dropped? ==> Account(q, WorkerStep(q, s)) == Account(q, s)
  {
  }

  lemma WorkKeeps<R, S>(q: Query<R, S>, s: State<R, S>)
    requires Inv(q, s) && Enabled(s, Work)
    ensures Inv(q, WorkerStep(q, s))
    ensures !s.consumer.Dropped? ==> Account(q, WorkerStep(q, s)) == Account(q, s)
  {
    match s.worker
    case Fetching =>
      if s.fetched < |q.rows| {
        TakeRowKeeps(q, s);
      } else {
        LastRowKeeps(q, s);
      }
    case Batching(_) => BatchingKeeps(q, s);
    case Announcing(_, _, _) => AnnounceKeeps(q, s);
    case Delivering(_, _) => DeliverKeeps(q, s);
    case Drained => DrainedKeeps(q, s);
    case Failing(_) => ReportKeeps(q, s);
    case _ => StartKeeps(q, s);
  }

  lemma WorkerLeavesConsumerAlone<R, S>(q: Query<R, S>, s: State<R, S>)
    requires Enabled(s, Work) && s.fetched <= |q.rows|
    ensures var t := WorkerStep(q, s);
            t.consumer == s.consumer && t.received == s.received && t.failures == s.failures
  {
  }

  lemma ReceiveBatchKeeps<R, S>(q: Query<R, S>, s: State<R, S>)
    requires Inv(q, s) && Enabled(s, ReceiveBatch)
    ensures Inv(q, Apply(q, s, ReceiveBatch))
    ensures Account(q, Apply(q, s, ReceiveBatch)) == Account(q, s)
  {
    if s.batchChannel != [] && s.batchChannel[0].Ok? {
      TakenBatchKeeps(q, s);
    }
  }

  lemma TakenBatchKeeps<R, S>(q: Query<R, S>, s: State<R, S>)
    requires Inv(q, s) && Enabled(s, ReceiveBatch) && s.batchChannel != [] && s.batchChannel[0].Ok?
    ensures Inv(q, Apply(q, s, ReceiveBatch))
    ensures Account(q, Apply(q, s, ReceiveBatch)) == Account(q, s)
  {
    EmptyMiddle(s.received + [s.batchChannel[0].value], Future(q, s).batches);
  }

  lemma EmptyMiddle<T>(a: seq<T>, b: seq<T>)
    ensures a + [] + b == a + b
  {
  }

  lemma ReceiveSchemaKeeps<R, S>(q: Query<R, S>, s: State<R, S>)
    requires Inv(q, s) && Enabled(s, ReceiveSchema)
    ensures Inv(q, Apply(q, s, ReceiveSchema))
    ensures Account(q, Apply(q, s, ReceiveSchema)) == Account(q, s)
  {
  }

  /** The invariant, the prefix law, and the settled account of a run whose reader is still alive. */
  ghost predicate Sound<R, S>(q: Query<R, S>, s: State<R, S>) {
    && Inv(q, s)
    && s.received <= Owed(q, 0).batches
    && s.failures <= Owed(q, 0).failures
    && (s.failures != [] ==> s.received == Owed(q, 0).batches)
    && (!s.consumer.Dropped? ==> Account(q, s) == Owed(q, 0))
  }

  lemma StepSound<R, S>(q: Query<R, S>, s: State<R, S>, a: Action)
    requires Sound(q, s) && Enabled(s, a)
    ensures Sound(q, Apply(q, s, a))
  {
    match a
    case Work =>
      WorkKeeps(q, s);
      WorkerLeavesConsumerAlone(q, s);
    case ReceiveSchema =>
      ReceiveSchemaKeeps(q, s);
      SettledPrefix(q, Apply(q, s, a));
    case ReceiveBatch =>
      ReceiveBatchKeeps(q, s);
      SettledPrefix(q, Apply(q, s, a));
    case Drop =>
      DropKeeps(q, s);
  }

  lemma DropKeeps<R, S>(q: Query<R, S>, s: State<R, S>)
    requires Inv(q, s) && Enabled(s, Drop)
    ensures Inv(q, Apply(q, s, Drop))
  {
  }

  lemma PrefixOfConcat<T>(a: seq<T>, b: seq<T>, c: seq<T>, d: seq<T>)
    ensures a <= a + b + c && a <= a + b + c + d
  {
  }

  lemma NothingAfter<T>(a: seq<T>)
    ensures a + [] + [] == a
  {
  }

  lemma SettledPrefix<R, S>(q: Query<R, S>, s: State<R, S>)
    requires Inv(q, s) && Account(q, s) == Owed(q, 0)
    ensures s.received <= Owed(q, 0).batches && s.failures <= Owed(q, 0).failures
    ensures s.failures != [] ==> s.received == Owed(q, 0).batches
  {
    var inFlight, future := InFlight(s.batchChannel), Future(q, s);
    PrefixOfConcat(s.received, inFlight.batches, future.batches, []);
    PrefixOfConcat(s.failures, Refusal(s.schemaChannel), inFlight.failures, future.failures);
    NothingAfter(s.received);
  }

  lemma {:induction false} RunSound<R, S>(q: Query<R, S>, s: State<R, S>, path: seq<Action>)
    requires Sound(q, s) && IsRun(q, s, path)
    ensures Sound(q, After(q, s, path))
    decreases |path|
  {
    if path != [] {
      StepSound(q, s, path[0]);
      RunSound(q, Apply(q, s, path[0]), path[1..]);
    }
  }

  // ------------------------------------------------------------------------------------------
  // What is owed, in terms of the rows.

  ghost predicate AllFull<R>(batches: seq<seq<R>>) {
    forall k :: 0 <= k < |batches| ==> |batches[k]| == QUERY_BATCH_SIZE
  }

  /** Every batch but the last is full; the last one of a clean outcome is not empty unless the query has no rows. */
  lemma {:induction false} OwedSizes<R, S>(q: Query<R, S>, i: nat)
    requires i * QUERY_BATCH_SIZE <= |q.rows|
    ensures var o := Owed(q, i); var n := |o.batches| - 1;
            && |o.failures| <= 1
            && (o.failures != [] ==>
                  AllFull(o.batches) && o.failures[0] != EndedBeforeSchema && o.failures[0] != StreamClosed)
            && (n >= 0 ==> AllFull(o.batches[..n]) && |o.batches[n]| <= QUERY_BATCH_SIZE)
            && (n >= 0 && o.batches[n] == [] ==> i == n == 0 && q.rows == [])
            && (n < 0 && i == 0 ==> o.failures != [])
    decreases |q.rows| - i * QUERY_BATCH_SIZE
  {
    var o := Owed(q, i);
    var batch := BatchAt(q.rows, i);
    if |batch| == QUERY_BATCH_SIZE && q.decodes(batch) {
      OwedSizes(q, i + 1);
      FullFirst(batch, Owed(q, i + 1).batches);
    }
  }

  lemma FullFirst<R>(batch: seq<R>, later: seq<seq<R>>)
    requires |batch| == QUERY_BATCH_SIZE
    ensures AllFull(later) ==> AllFull([batch] + later)
    ensures later != [] ==>
              var n := |later| - 1;
              && ([batch] + later)[n + 1] == later[n]
              && (AllFull(later[..n]) ==> AllFull(([batch] + later)[..n + 1]))
  {
    if later != [] {
      assert ([batch] + later)[..|later|] == [batch] + later[..|later| - 1];
    }
  }

  /** The batches hold the rows in order, and all of them when no failure is owed. */
  lemma {:induction false} OwedRows<R, S>(q: Query<R, S>, i: nat)
    requires i * QUERY_BATCH_SIZE <= |q.rows|
    ensures var o := Owed(q, i); var rest := q.rows[i * QUERY_BATCH_SIZE..];
            && Flatten(o.batches) <= rest
            && (o.failures == [] ==> Flatten(o.batches) == rest)
    decreases |q.rows| - i * QUERY_BATCH_SIZE
  {
    var o := Owed(q, i);
    var rest := q.rows[i * QUERY_BATCH_SIZE..];
    var batch := BatchAt(q.rows, i);
    if |batch| == QUERY_BATCH_SIZE {
      if q.decodes(batch) {
        OwedRows(q, i + 1);
        assert o.batches[1..] == Owed(q, i + 1).batches;
        assert rest == batch + q.rows[(i + 1) * QUERY_BATCH_SIZE..];
      }
    } else {
      assert rest == batch;
      if o.batches != [] {
        assert o.batches == [batch] && o.batches[1..] == [];
      }
    }
  }

  lemma {:induction false} FaultlessFrom<R, S>(q: Query<R, S>, i: nat)
    requires i * QUERY_BATCH_SIZE <= |q.rows|
    ensures Owed(q, i).failures == [] <==>
              && !q.breaks
              && (q.rows == [] ==> q.declared.Some?)
              && forall k: nat :: i <= k && k * QUERY_BATCH_SIZE < |q.rows| ==> q.decodes(BatchAt(q.rows, k))
    decreases |q.rows| - i * QUERY_BATCH_SIZE
  {
    var batch := BatchAt(q.rows, i);
    if |batch| == QUERY_BATCH_SIZE {
      FaultlessFrom(q, i + 1);
      forall k: nat | i <= k && k * QUERY_BATCH_SIZE < |q.rows|
        ensures k == i || i + 1 <= k
      {}
    } else {
      forall k: nat | i <= k && k * QUERY_BATCH_SIZE < |q.rows|
        ensures k == i
      {}
    }
  }

  // ------------------------------------------------------------------------------------------
  // Main results, for every run from the initial state.

  lemma Reachable<R, S>(q: Query<R, S>, path: seq<Action>)
    requires IsRun(q, Init(), path)
    ensures Sound(q, After(q, Init(), path))
  {
    InitInv(q);
    RunSound(q, Init(), path);
  }

  /**
    Safety: whatever the interleaving, and even if the reader is dropped, the rows received are a prefix of the
    query's rows.
  */
  lemma RowsArriveInOrder<R, S>(q: Query<R, S>, path: seq<Action>)
    requires IsRun(q, Init(), path)
    ensures Flatten(After(q, Init(), path).received) <= q.rows
  {
    Reachable(q, path);
    OwedRows(q, 0);
    FlattenPrefix(After(q, Init(), path).received, Owed(q, 0).batches);
    assert q.rows[0..] == q.rows;
  }

  lemma {:induction false} FlattenPrefix<T>(some: seq<seq<T>>, all: seq<seq<T>>)
    requires some <= all
    ensures Flatten(some) <= Flatten(all)
  {
    if some != [] {
      FlattenPrefix(some[1..], all[1..]);
    }
  }

  ghost predicate Finished<R, S>(s: State<R, S>) {
    s.worker.Exited? && (s.consumer.Refused? || s.consumer.Ended? || s.consumer.Dropped?)
  }

  /** What a consumer that has read to the end has. */
  ghost predicate Delivered<R, S>(q: Query<R, S>, t: State<R, S>) {
    && (t.failures == [] <==> Faultless(q))
    && (t.consumer.Refused? ==> t.failures != [])
    && (Faultless(q) ==>
          && Flatten(t.received) == q.rows
          && (q.rows == [] ==> t.received == [[]])
          && (q.rows != [] ==>
                var n := |t.received| - 1;
                n >= 0 && AllFull(t.received[..n]) && 1 <= |t.received[n]| <= QUERY_BATCH_SIZE))
  }

  lemma Settled<R, S>(q: Query<R, S>, s: State<R, S>)
    requires Sound(q, s) && (s.consumer.Ended? || s.consumer.Refused?)
    ensures s.received == Owed(q, 0).batches && s.failures == Owed(q, 0).failures
    ensures s.consumer.Refused? ==> s.failures != []
  {
    assert s.received == Account(q, s).batches;
    assert s.failures == Account(q, s).failures;
  }

  lemma FaultlessIff<R, S>(q: Query<R, S>)
    ensures Owed(q, 0).failures == [] <==> Faultless(q)
  {
    FaultlessFrom(q, 0);
  }

  lemma OwedWhole<R, S>(q: Query<R, S>)
    ensures var o := Owed(q, 0); var n := |o.batches| - 1;
            o.failures == [] ==>
              && Flatten(o.batches) == q.rows
              && (q.rows == [] ==> o.batches == [[]])
              && (q.rows != [] ==> n >= 0 && AllFull(o.batches[..n]) && 1 <= |o.batches[n]| <= QUERY_BATCH_SIZE)
  {
    OwedSizes(q, 0);
    OwedRows(q, 0);
    assert q.rows[0..] == q.rows;
  }

  lemma SettledDelivers<R, S>(q: Query<R, S>, t: State<R, S>)
    requires Sound(q, t) && (t.consumer.Ended? || t.consumer.Refused?)
    ensures t.received == Owed(q, 0).batches && t.failures == Owed(q, 0).failures
    ensures Delivered(q, t)
  {
    Settled(q, t);
    FaultlessIff(q);
    OwedWhole(q);
  }

  lemma ReachedDelivers<R, S>(q: Query<R, S>, path: seq<Action>)
    requires IsRun(q, Init(), path)
    ensures var t := After(q, Init(), path); t.consumer.Ended? || t.consumer.Refused? ==> Delivered(q, t)
  {
    Reachable(q, path);
    var t := After(q, Init(), path);
    if t.consumer.Ended? || t.consumer.Refused? {
      SettledDelivers(q, t);
    }
  }

  /**
    Delivery: a consumer that reads to the end gets every row, in batches of exactly 1024 except a
    last one of 1 to 1024; a query without rows gives exactly one empty batch. An error reaches it
    precisely when something went wrong in the database.
  */
  lemma ReadsEverything<R, S>(q: Query<R, S>, path: seq<Action>)
    requires IsRun(q, Init(), path)
    ensures var t := After(q, Init(), path);
            t.consumer.Ended? || t.consumer.Refused? ==>
              && (t.failures == [] <==> Faultless(q))
              && (t.consumer.Refused? ==> t.failures != [])
              && (Faultless(q) ==>
                    && Flatten(t.received) == q.rows
                    && (q.rows == [] ==> t.received == [[]])
                    && (q.rows != [] ==>
                          var n := |t.received| - 1;
                          && n >= 0 && 1 <= |t.received[n]| <= 1024
                          && forall k :: 0 <= k < n ==> |t.received[k]| == 1024))
  {
    ReachedDelivers(q, path);
    var t := After(q, Init(), path);
    if t.received != [] {
      FullUpTo(t.received, |t.received| - 1);
    }
  }

  lemma FullUpTo<R>(batches: seq<seq<R>>, n: nat)
    requires n <= |batches|
    ensures AllFull(batches[..n]) ==> forall k :: 0 <= k < n ==> |batches[k]| == 1024
  {
    assert forall k :: 0 <= k < n ==> batches[..n][k] == batches[k];
  }

  /**
    Errors: at most one is delivered, never one about a closed channel; when one arrives, every batch
    before the fault has been received and the number of rows received is a multiple of 1024. It comes
    in place of the schema exactly when no batch was sent.
  */
  lemma OneErrorAfterAllBatches<R, S>(q: Query<R, S>, path: seq<Action>)
    requires IsRun(q, Init(), path)
    ensures var t := After(q, Init(), path);
            && |t.failures| <= 1
            && (t.failures != [] ==>
                  && !Faultless(q)
                  && t.failures == Owed(q, 0).failures && t.received == Owed(q, 0).batches
                  && t.failures[0] != StreamClosed && t.failures[0] != EndedBeforeSchema
                  && (forall k :: 0 <= k < |t.received| ==> |t.received[k]| == 1024)
                  && (t.consumer.Refused? <==> t.received == []))
  {
    Reachable(q, path);
    OwedSizes(q, 0);
    FaultlessFrom(q, 0);
  }

  /** The rows of chunk `k`: 1024 of them, or what is left. */
  function Chunk<R>(rows: seq<R>, k: nat): seq<R>
    requires k * 1024 <= |rows|
  {
    if k * 1024 + 1024 <= |rows| then rows[k * 1024..k * 1024 + 1024] else rows[k * 1024..]
  }

  /** What a failure after `n` batches says of the database. */
  ghost predicate Explains<R, S>(q: Query<R, S>, n: nat, error: Error) {
    && n * 1024 <= |q.rows|
    && (forall k: nat :: k < n ==> k * 1024 + 1024 <= |q.rows| && q.decodes(Chunk(q.rows, k)))
    && match error
       case DecodeFailed =>
         n * 1024 < |q.rows| && !q.decodes(Chunk(q.rows, n)) && (n * 1024 + 1024 <= |q.rows| || !q.breaks)
       case QueryFailed => q.breaks && |q.rows| < n * 1024 + 1024
       case SchemaFailed => q.rows == [] && !q.breaks && q.declared == None
       case _ => false
  }

  /** The error is about what went wrong: the first chunk that does not decode, the rows, or the statement. */
  lemma ErrorSaysWhatFailed<R, S>(q: Query<R, S>, path: seq<Action>)
    requires IsRun(q, Init(), path)
    ensures var t := After(q, Init(), path); t.failures != [] ==> Explains(q, |t.received|, t.failures[0])
  {
    Reachable(q, path);
    if After(q, Init(), path).failures != [] {
      OwedFailureExplains(q, 0);
    }
  }

  lemma {:induction false} OwedFailureExplains<R, S>(q: Query<R, S>, i: nat)
    requires i * QUERY_BATCH_SIZE <= |q.rows| && Owed(q, i).failures != []
    requires forall k: nat :: k < i ==> k * 1024 + 1024 <= |q.rows| && q.decodes(Chunk(q.rows, k))
    ensures |Owed(q, i).failures| == 1 && Explains(q, i + |Owed(q, i).batches|, Owed(q, i).failures[0])
    decreases |q.rows| - i * QUERY_BATCH_SIZE
  {
    var batch := BatchAt(q.rows, i);
    assert batch == Chunk(q.rows, i);
    if |batch| == QUERY_BATCH_SIZE && q.decodes(batch) {
      OwedFailureExplains(q, i + 1);
    }
  }

  /** The messages put on the schema channel during a run. */
  ghost function SchemaMessages<R, S>(q: Query<R, S>, s: State<R, S>, path: seq<Action>): nat
    requires IsRun(q, s, path)
    decreases |path|
  {
    if path == [] then 0
    else
      var t := Apply(q, s, path[0]);
      (if |t.schemaChannel| > |s.schemaChannel| then 1 else 0) + SchemaMessages(q, t, path[1..])
  }

  /** The worker has said its word on the schema channel. */
  predicate Spoken<R, S>(s: State<R, S>) {
    s.schemaSent || s.worker.Exited?
  }

  lemma StepSpeaks<R, S>(q: Query<R, S>, s: State<R, S>, a: Action)
    requires Inv(q, s) && Enabled(s, a)
    ensures var t := Apply(q, s, a);
            && (Spoken(s) ==> Spoken(t))
            && (|t.schemaChannel| > |s.schemaChannel| <==> Spoken(t) && !Spoken(s))
  {
  }

  lemma {:induction false} RunSpeaks<R, S>(q: Query<R, S>, s: State<R, S>, path: seq<Action>)
    requires Sound(q, s) && IsRun(q, s, path)
    ensures SchemaMessages(q, s, path) + (if Spoken(s) then 1 else 0) == if Spoken(After(q, s, path)) then 1 else 0
    decreases |path|
  {
    if path != [] {
      StepSound(q, s, path[0]);
      StepSpeaks(q, s, path[0]);
      RunSpeaks(q, Apply(q, s, path[0]), path[1..]);
    }
  }

  /**
    The schema: a reader is handed out only with the schema of the first batch, and one message is sent on the
    schema channel, no later than the worker's exit, and never a second.
  */
  lemma OneSchema<R, S>(q: Query<R, S>, path: seq<Action>)
    requires IsRun(q, Init(), path)
    ensures var t := After(q, Init(), path);
            && (t.consumer.Reading? || t.consumer.Ended? ==>
                  if q.rows == [] then q.declared == Some(t.consumer.schema)
                  else t.consumer.schema == q.schemaOf(Chunk(q.rows, 0)))
            && (!t.consumer.AwaitingSchema? ==> t.schemaChannel == [])
            && (t.worker.Announcing? ==> t.consumer.AwaitingSchema? && t.schemaChannel == [])
            && (t.received != [] ==> t.schemaSent)
            && |t.schemaChannel| <= 1
            && SchemaMessages(q, Init(), path) == if t.schemaSent || t.worker.Exited? then 1 else 0
  {
    InitInv(q);
    RunSpeaks(q, Init(), path);
    Reachable(q, path);
    assert BatchAt(q.rows, 0) == Chunk(q.rows, 0);
  }

  /** No hold and wait: a worker that asks for a connection holds none, so the pool of one can always serve it. */
  lemma NeverWaitsForAConnection<R, S>(q: Query<R, S>, path: seq<Action>)
    requires IsRun(q, Init(), path)
    ensures var t := After(q, Init(), path);
            && t.permits <= 1
            && (t.worker.Start? || t.worker.Preparing? ==> t.permits == 1 && Enabled(t, Work))
            && (t.worker.Exited? || t.worker.Failing? ==> t.permits == 1)
  {
    Reachable(q, path);
  }

  /**
    No deadlock: unless both sides are done, the worker can step or the consumer can receive; it never has to drop
    the reader.
  */
  lemma NeverStuck<R, S>(q: Query<R, S>, path: seq<Action>)
    requires IsRun(q, Init(), path)
    ensures var t := After(q, Init(), path);
            Finished(t) || Enabled(t, Work) || Enabled(t, ReceiveSchema) || Enabled(t, ReceiveBatch)
  {
    Reachable(q, path);
  }

  function WorkerRank<R, S>(w: Worker<R, S>): nat {
    match w
    case Start => 12
    case Batching(last) => if last then 6 else 11
    case Announcing(_, _, last) => if last then 5 else 10
    case Delivering(_, last) => if last then 4 else 9
    case Fetching => 8
    case Drained => 7
    case Preparing => 6
    case Failing(_) => 3
    case Exited => 0
  }

  function Rank<R, S>(q: Query<R, S>, s: State<R, S>): nat
    requires s.fetched <= |q.rows|
  {
    20 * (|q.rows| - s.fetched) + 2 * WorkerRank(s.worker) + |s.schemaChannel| + |s.batchChannel|
    + match s.consumer case AwaitingSchema => 3 case Reading(_) => 2 case _ => 0
  }

  lemma StepDescends<R, S>(q: Query<R, S>, s: State<R, S>, a: Action)
    requires Enabled(s, a) && s.fetched <= |q.rows|
    ensures Apply(q, s, a).fetched <= |q.rows|
    ensures Rank(q, Apply(q, s, a)) < Rank(q, s)
  {
    if a.Work? {
      WorkDescends(q, s);
    }
  }

  lemma WorkDescends<R, S>(q: Query<R, S>, s: State<R, S>)
    requires Enabled(s, Work) && s.fetched <= |q.rows|
    ensures Apply(q, s, Work).fetched <= |q.rows|
    ensures Rank(q, Apply(q, s, Work)) < Rank(q, s)
  {
  }

  lemma {:induction false} RunDescends<R, S>(q: Query<R, S>, s: State<R, S>, path: seq<Action>)
    requires IsRun(q, s, path) && s.fetched <= |q.rows|
    ensures After(q, s, path).fetched <= |q.rows|
    ensures |path| + Rank(q, After(q, s, path)) <= Rank(q, s)
    decreases |path|
  {
    if path != [] {
      StepDescends(q, s, path[0]);
      RunDescends(q, Apply(q, s, path[0]), path[1..]);
    }
  }

  /** Progress: every run is finite, with a bound linear in the number of rows. */
  lemma RunsAreBounded<R, S>(q: Query<R, S>, path: seq<Action>)
    requires IsRun(q, Init(), path)
    ensures |path| <= 20 * |q.rows| + 27
  {
    RunDescends(q, Init(), path);
  }

  /**
    Dropping the reader stops the worker: it can always step until it exits, it puts nothing more on
    the channel, reads at most to the end of the chunk it is filling, and gives its connection back.
  */
  lemma DropStopsWorker<R, S>(q: Query<R, S>, path: seq<Action>, more: seq<Action>)
    requires IsRun(q, Init(), path) && After(q, Init(), path).consumer.Dropped?
    requires IsRun(q, After(q, Init(), path), more)
    ensures var s := After(q, Init(), path); var t := After(q, s, more);
            && t.consumer.Dropped? && t.received == s.received && t.batchChannel == []
            && t.sent == s.sent && t.fetched <= s.sent * 1024 + 1024
            && (if t.worker.Exited? then t.permits == 1 else Enabled(t, Work))
  {
    Reachable(q, path);
    DroppedRun(q, After(q, Init(), path), more);
  }

  lemma {:induction false} DroppedRun<R, S>(q: Query<R, S>, s: State<R, S>, path: seq<Action>)
    requires Sound(q, s) && s.consumer.Dropped? && IsRun(q, s, path)
    ensures var t := After(q, s, path);
            Sound(q, t) && t.consumer.Dropped? && t.received == s.received && t.sent == s.sent
    decreases |path|
  {
    if path != [] {
      StepSound(q, s, path[0]);
      DroppedStep(q, s, path[0]);
      DroppedRun(q, Apply(q, s, path[0]), path[1..]);
    }
  }

  lemma DroppedStep<R, S>(q: Query<R, S>, s: State<R, S>, a: Action)
    requires Inv(q, s) && s.consumer.Dropped? && Enabled(s, a)
    ensures var t := Apply(q, s, a);
            t.consumer.Dropped? && t.received == s.received && t.sent == s.sent
  {
  }

  // ------------------------------------------------------------------------------------------
  // The worker on its own, as the loop it is, with a consumer that takes every message.

  method SendChunk<R, S>(q: Query<R, S>, chunk: seq<R>, announced: Option<S>, batches: seq<seq<R>>)
    returns (ok: bool, schema: Option<S>, out: seq<seq<R>>)
    ensures ok == q.decodes(chunk)
    ensures ok ==> out == batches + [chunk]
    ensures ok ==> schema == if announced.None? then Some(q.schemaOf(chunk)) else announced
    ensures !ok ==> out == batches && schema == announced
  {
    ok, schema, out := q.decodes(chunk), announced, batches;
    if ok {
      if announced.None? {
        schema := Some(q.schemaOf(chunk));
      }
      out := batches + [chunk];
    }
  }

  /** `batches` is the beginning of what is owed, and only what `Owed` says from there on is missing. */
  ghost predicate OnCourse<R, S>(q: Query<R, S>, batches: seq<seq<R>>) {
    && |batches| * QUERY_BATCH_SIZE <= |q.rows|
    && Owed(q, 0).batches == batches + Owed(q, |batches|).batches
    && Owed(q, 0).failures == Owed(q, |batches|).failures
  }

  lemma StaysOnCourse<R, S>(q: Query<R, S>, batches: seq<seq<R>>)
    requires OnCourse(q, batches)
    requires var batch := BatchAt(q.rows, |batches|); |batch| == QUERY_BATCH_SIZE && q.decodes(batch)
    ensures OnCourse(q, batches + [BatchAt(q.rows, |batches|)])
  {
    var batch := BatchAt(q.rows, |batches|);
    var later := Owed(q, |batches| + 1).batches;
    assert batches + ([batch] + later) == (batches + [batch]) + later;
  }

  function FailureList(failure: Option<Error>): seq<Error> {
    if failure.Some? then [failure.value] else []
  }

  /** Of the rows fetched, those not in a batch are in the chunk. */
  ghost predicate Taken<R, S>(q: Query<R, S>, batches: seq<seq<R>>, chunk: seq<R>, fetched: nat) {
    var base := |batches| * QUERY_BATCH_SIZE;
    base <= fetched <= |q.rows| && |chunk| < QUERY_BATCH_SIZE && chunk == q.rows[base..fetched]
  }

  lemma TakeOneMore<R, S>(q: Query<R, S>, batches: seq<seq<R>>, chunk: seq<R>, fetched: nat)
    requires Taken(q, batches, chunk, fetched) && fetched < |q.rows|
    ensures var more := chunk + [q.rows[fetched]];
            if |more| == QUERY_BATCH_SIZE then
              (|batches| + 1) * QUERY_BATCH_SIZE == fetched + 1 && more == BatchAt(q.rows, |batches|)
            else Taken(q, batches, more, fetched + 1)
  {
    var base := |batches| * QUERY_BATCH_SIZE;
    assert q.rows[base..fetched + 1] == q.rows[base..fetched] + [q.rows[fetched]];
  }

  lemma StartsNext<R, S>(q: Query<R, S>, batches: seq<seq<R>>, fetched: nat)
    requires |batches| * QUERY_BATCH_SIZE == fetched <= |q.rows|
    ensures Taken(q, batches, [], fetched)
  {
  }

  ghost predicate Announces<R, S>(q: Query<R, S>, schema: Option<S>, batches: seq<seq<R>>) {
    (schema.Some? <==> batches != []) && (schema.Some? ==> IsAnnounced(q, schema.value))
  }

  lemma StaysAnnounced<R, S>(q: Query<R, S>, schema: Option<S>, batches: seq<seq<R>>, chunk: seq<R>)
    requires Announces(q, schema, batches)
    requires |batches| * QUERY_BATCH_SIZE < |q.rows| && chunk == BatchAt(q.rows, |batches|)
    ensures Announces(q, if schema.None? then Some(q.schemaOf(chunk)) else schema, batches + [chunk])
  {
  }

  /** The row loop: it takes rows until a chunk cannot be decoded or the stream has no more rows. */
  method SendRows<R, S>(q: Query<R, S>)
    returns (schema: Option<S>, batches: seq<seq<R>>, chunk: seq<R>, failure: Option<Error>)
    ensures OnCourse(q, batches) && AllFull(batches)
    ensures Announces(q, schema, batches)
    ensures failure.Some? ==> Owed(q, |batches|) == Outcome([], FailureList(failure))
    ensures failure.None? ==> chunk == q.rows[|batches| * QUERY_BATCH_SIZE..] && |chunk| < QUERY_BATCH_SIZE
  {
    schema, batches, chunk, failure := None, [], [], None;
    var fetched := 0;
    while fetched < |q.rows|
      invariant Taken(q, batches, chunk, fetched)
      invariant OnCourse(q, batches) && AllFull(batches)
      invariant Announces(q, schema, batches)
    {
      TakeOneMore(q, batches, chunk, fetched);
      chunk := chunk + [q.rows[fetched]];
      fetched := fetched + 1;
      if |chunk| == QUERY_BATCH_SIZE {
        ghost var before, announced := batches, schema;
        var ok;
        ok, schema, batches := SendChunk(q, chunk, schema, batches);
        if !ok {
          failure := Some(DecodeFailed);
          return;
        }
        StaysOnCourse(q, before);
        StaysAnnounced(q, announced, before, chunk);
        StartsNext(q, batches, fetched);
        chunk := [];
      }
    }
  }

  method StreamWorker<R, S>(q: Query<R, S>)
    returns (schema: Option<S>, batches: seq<seq<R>>, failure: Option<Error>)
    ensures Outcome(batches, FailureList(failure)) == Owed(q, 0)
    ensures schema.Some? <==> batches != []
    ensures schema.Some? ==> IsAnnounced(q, schema.value)
  {
    var chunk;
    schema, batches, chunk, failure := SendRows(q);
    if failure.Some? {
      return;
    }
    if q.breaks {
      failure := Some(QueryFailed);
      return;
    }
    assert chunk == BatchAt(q.rows, |batches|);
    if chunk == [] {
      if schema.None? {
        if q.declared.None? {
          failure := Some(SchemaFailed);
          return;
        }
        schema := q.declared;
        batches := batches + [[]];
      }
      return;
    }
    var ok;
    ok, schema, batches := SendChunk(q, chunk, schema, batches);
    if !ok {
      failure := Some(DecodeFailed);
    }
  }
}

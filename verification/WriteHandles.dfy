/**
  Write handles: buffers whose bytes go to a commit callback when the handle is closed. The Python write
  buffer, the file deferred to a transaction and the handle around a Rust file are one machine, which commits
  at most once and then exactly the bytes written.
*/
module WriteHandles {
  import opened Wrappers
  import opened Text

  // ------------------------------------------------------------------------------------------
  // Buffers.

  /** What a handle keeps its bytes in; a seek may be refused, and answers the new position. */
  datatype Buffer<!F> = Buffer(
    empty: F,
    write: (F, bytes) -> F,
    seek: (F, int, nat) -> Option<(F, nat)>,
    data: F -> bytes)

  datatype Content = Content(data: bytes, position: nat)

  function Zeros(n: nat): bytes {
    seq(n, _ => 0)
  }

  /** A write overlays what is at the position, and fills a gap after the end with zeros. */
  function AfterWrite(c: Content, chunk: bytes): Content {
    if chunk == [] then c
    else
      var padded := if c.position > |c.data| then c.data + Zeros(c.position - |c.data|) else c.data;
      var end := c.position + |chunk|;
      Content(padded[..c.position] + chunk + if end < |padded| then padded[end..] else [], end)
  }

  /** From the start, where a negative offset is refused, from the position or from the end; it stops at the start. */
  function AfterSeek(c: Content, offset: int, whence: nat): Option<(Content, nat)> {
    var target := if whence == 0 then offset else if whence == 1 then c.position + offset else |c.data| + offset;
    if whence > 2 || (whence == 0 && offset < 0) then None
    else
      var position: nat := if target < 0 then 0 else target;
      Some((c.(position := position), position))
  }

  /** Python's in-memory file. */
  const BYTES_IO: Buffer<Content> := Buffer(Content([], 0), AfterWrite, AfterSeek, (c: Content) => c.data)

  /** A write puts its bytes where the position is, leaves the others, and fills with zeros what was beyond the end. */
  lemma WriteOverlays(c: Content, chunk: bytes)
    requires chunk != []
    ensures var next, end := AfterWrite(c, chunk), c.position + |chunk|;
            && next.position == end && |next.data| == (if end > |c.data| then end else |c.data|)
            && forall i :: 0 <= i < |next.data| ==>
                 next.data[i] == if c.position <= i < end then chunk[i - c.position]
                                 else if i < |c.data| then c.data[i]
                                 else 0
  {
  }

  /** A seek lands at the offset from the start, the position or the end, and never before the start. */
  lemma SeekLands(c: Content, offset: int, whence: nat)
    ensures var target := match whence { case 0 => offset case 1 => c.position + offset case _ => |c.data| + offset };
            AfterSeek(c, offset, whence) ==
              if whence > 2 || (whence == 0 && offset < 0) then None
              else if target < 0 then Some((Content(c.data, 0), 0))
              else Some((Content(c.data, target), target))
  {
  }

  // ------------------------------------------------------------------------------------------
  // The machine.

  /** What reaches the buffer or the callback; `ok` is what the callback, or the discarding file, answers. */
  datatype Op = Write(chunk: bytes) | SeekBy(offset: int, whence: nat) | Commit(ok: bool) | Discard(ok: bool)

  datatype Phase = Open | Committed | Discarded

  /** One call of the commit callback. */
  datatype Attempt = Attempt(data: bytes, ok: bool)

  datatype Handle<+F> = Handle(phase: Phase, content: F, attempts: seq<Attempt>)

  datatype HandleError = Closed | CommitFailed | DiscardFailed | InvalidSeek

  function Fresh<F>(buffer: Buffer<F>): Handle<F> {
    Handle(Open, buffer.empty, [])
  }

  /** What a write or a seek does to the buffer; a refused seek does nothing. */
  function Edit<F>(buffer: Buffer<F>, content: F, op: Op): F {
    match op
    case Write(chunk) => buffer.write(content, chunk)
    case SeekBy(offset, whence) =>
      (match buffer.seek(content, offset, whence) case Some((next, _)) => next case None => content)
    case _ => content
  }

  function Step<F>(buffer: Buffer<F>, h: Handle<F>, op: Op): Handle<F> {
    if !h.phase.Open? then h
    else
      match op
      case Commit(ok) =>
        var tried := h.(attempts := h.attempts + [Attempt(buffer.data(h.content), ok)]);
        if ok then tried.(phase := Committed) else tried
      case Discard(ok) => if ok then h.(phase := Discarded) else h
      case _ => h.(content := Edit(buffer, h.content, op))
  }

  function Answer<F>(buffer: Buffer<F>, h: Handle<F>, op: Op): Result<nat, HandleError> {
    match op
    case Write(chunk) => if h.phase.Open? then Ok(|chunk|) else Err(Closed)
    case SeekBy(offset, whence) =>
      if !h.phase.Open? then Err(Closed)
      else
        (match buffer.seek(h.content, offset, whence)
         case Some((_, position)) => Ok(position)
         case None => Err(InvalidSeek))
    case Commit(ok) => if h.phase.Open? && !ok then Err(CommitFailed) else Ok(0)
    case Discard(ok) => if h.phase.Open? && !ok then Err(DiscardFailed) else Ok(0)
  }

  /** What the calls answer: a handle that has ended takes no more bytes, and has nothing left to commit or discard. */
  lemma AnswersAre<F>(buffer: Buffer<F>, h: Handle<F>, chunk: bytes, ok: bool)
    ensures !h.phase.Open? ==>
              && Answer(buffer, h, Write(chunk)) == Err(Closed) && Answer(buffer, h, Commit(ok)) == Ok(0)
              && Answer(buffer, h, Discard(ok)) == Ok(0)
    ensures h.phase.Open? ==>
              && Answer(buffer, h, Write(chunk)) == Ok(|chunk|)
              && (Answer(buffer, h, Commit(ok)) == if ok then Ok(0) else Err(CommitFailed))
              && (Answer(buffer, h, Discard(ok)) == if ok then Ok(0) else Err(DiscardFailed))
  {
  }

  function Run<F>(buffer: Buffer<F>, ops: seq<Op>): Handle<F> {
    if ops == [] then Fresh(buffer) else Step(buffer, Run(buffer, ops[..|ops| - 1]), ops[|ops| - 1])
  }

  // ------------------------------------------------------------------------------------------
  // What a history of calls means.

  predicate Ends(op: Op) {
    op == Commit(true) || op == Discard(true)
  }

  /** The calls up to the first that ends the handle. */
  function Live(ops: seq<Op>): seq<Op> {
    if ops == [] then []
    else if Ends(ops[0]) then [ops[0]]
    else [ops[0]] + Live(ops[1..])
  }

  predicate Ended(ops: seq<Op>) {
    exists op <- ops :: Ends(op)
  }

  /** What the writes and seeks alone make of the buffer. */
  function Image<F>(buffer: Buffer<F>, ops: seq<Op>): F {
    if ops == [] then buffer.empty else Edit(buffer, Image(buffer, ops[..|ops| - 1]), ops[|ops| - 1])
  }

  /** The commits among the calls, each with the file at its time. */
  function AttemptsIn<F>(buffer: Buffer<F>, ops: seq<Op>): seq<Attempt> {
    if ops == [] then []
    else
      var n := |ops| - 1;
      AttemptsIn(buffer, ops[..n])
      + if ops[n].Commit? then [Attempt(buffer.data(Image(buffer, ops[..n])), ops[n].ok)] else []
  }

  function Successes(attempts: seq<Attempt>): seq<bytes> {
    if attempts == [] then []
    else
      var n := |attempts| - 1;
      Successes(attempts[..n]) + if attempts[n].ok then [attempts[n].data] else []
  }

  /** The bytes a history should leave in the database: those written before its end, if that is a commit. */
  function CommittedBy<F>(buffer: Buffer<F>, ops: seq<Op>): Option<bytes> {
    var live := Live(ops);
    if live != [] && live[|live| - 1] == Commit(true) then
      Some(buffer.data(Image(buffer, live[..|live| - 1])))
    else None
  }

  lemma {:induction false} LiveSnoc(ops: seq<Op>, op: Op)
    ensures Live(ops + [op]) == if Ended(ops) then Live(ops) else ops + [op]
    ensures !Ended(ops) ==> Live(ops) == ops
    ensures Ended(ops) ==> Live(ops) != []
  {
    if ops == [] {
      assert [op][1..] == [];
    } else {
      assert (ops + [op])[1..] == ops[1..] + [op];
      assert ops == [ops[0]] + ops[1..];
      LiveSnoc(ops[1..], op);
    }
  }

  lemma EndedSnoc(ops: seq<Op>, op: Op)
    ensures Ended(ops + [op]) <==> Ended(ops) || Ends(op)
  {
    if Ends(op) {
      assert (ops + [op])[|ops|] == op;
    }
    if Ended(ops) {
      var end :| end in ops && Ends(end);
      assert end in ops + [op];
    }
  }

  ghost predicate Follows<F>(buffer: Buffer<F>, h: Handle<F>, ops: seq<Op>) {
    && (h.phase.Open? <==> !Ended(ops))
    && (h.phase.Open? ==> h.content == Image(buffer, ops))
    && h.attempts == AttemptsIn(buffer, Live(ops))
    && (h.phase.Committed? <==> CommittedBy(buffer, ops).Some?)
    && Successes(h.attempts) == match CommittedBy(buffer, ops) { case Some(data) => [data] case None => [] }
  }

  lemma EndedFollows<F>(buffer: Buffer<F>, h: Handle<F>, ops: seq<Op>, op: Op)
    requires Follows(buffer, h, ops) && Ended(ops)
    ensures Follows(buffer, Step(buffer, h, op), ops + [op])
  {
    LiveSnoc(ops, op);
    EndedSnoc(ops, op);
  }

  lemma SuccessesSnoc(attempts: seq<Attempt>, last: Attempt)
    ensures Successes(attempts + [last]) == Successes(attempts) + if last.ok then [last.data] else []
  {
    assert (attempts + [last])[..|attempts|] == attempts;
  }

  lemma AttemptsSnoc<F>(buffer: Buffer<F>, ops: seq<Op>, op: Op)
    ensures AttemptsIn(buffer, ops + [op])
            == AttemptsIn(buffer, ops) + if op.Commit? then [Attempt(buffer.data(Image(buffer, ops)), op.ok)] else []
  {
    assert (ops + [op])[..|ops|] == ops;
  }

  /** What the calls mean with one more after a handle that is still open. */
  lemma CommittedSnoc<F>(buffer: Buffer<F>, ops: seq<Op>, op: Op)
    requires !Ended(ops)
    ensures Live(ops + [op]) == ops + [op]
    ensures CommittedBy(buffer, ops + [op])
            == if op == Commit(true) then Some(buffer.data(Image(buffer, ops))) else None
    ensures CommittedBy(buffer, ops) == None
  {
    LiveSnoc(ops, op);
    assert (ops + [op])[..|ops|] == ops;
    if ops != [] {
      assert ops[|ops| - 1] in ops;
    }
  }

  lemma ContentSnoc<F>(buffer: Buffer<F>, h: Handle<F>, ops: seq<Op>, op: Op)
    requires h.phase.Open? && h.content == Image(buffer, ops)
    ensures Step(buffer, h, op).content == Image(buffer, ops + [op])
  {
    assert (ops + [op])[..|ops|] == ops;
  }

  lemma OpenFollows<F>(buffer: Buffer<F>, h: Handle<F>, ops: seq<Op>, op: Op)
    requires Follows(buffer, h, ops) && !Ended(ops)
    ensures Follows(buffer, Step(buffer, h, op), ops + [op])
  {
    LiveSnoc(ops, op);
    EndedSnoc(ops, op);
    AttemptsSnoc(buffer, ops, op);
    CommittedSnoc(buffer, ops, op);
    ContentSnoc(buffer, h, ops, op);
    var next := Step(buffer, h, op);
    if op.Commit? {
      SuccessesSnoc(h.attempts, Attempt(buffer.data(h.content), op.ok));
    } else {
      assert next.attempts == h.attempts;
    }
  }

  lemma {:induction false} RunFollowsHistory<F>(buffer: Buffer<F>, ops: seq<Op>)
    ensures Follows(buffer, Run(buffer, ops), ops)
  {
    if ops != [] {
      var n := |ops| - 1;
      assert ops == ops[..n] + [ops[n]];
      RunFollowsHistory(buffer, ops[..n]);
      if Ended(ops[..n]) {
        EndedFollows(buffer, Run(buffer, ops[..n]), ops[..n], ops[n]);
      } else {
        OpenFollows(buffer, Run(buffer, ops[..n]), ops[..n], ops[n]);
      }
    }
  }

  /**
    A handle commits at most once. The callback has succeeded with exactly the bytes written before the end
    of the handle if that end is a commit, and with nothing if it was discarded or is still open.
  */
  lemma CommitsAtMostOnce<F>(buffer: Buffer<F>, ops: seq<Op>)
    ensures Successes(Run(buffer, ops).attempts)
            == match CommittedBy(buffer, ops) { case Some(data) => [data] case None => [] }
    ensures Run(buffer, ops).attempts == AttemptsIn(buffer, Live(ops))
  {
    RunFollowsHistory(buffer, ops);
  }

  /** A commit has succeeded exactly when the handle is committed, and then it was the last attempt. */
  predicate OnlyLastOk<F>(h: Handle<F>) {
    forall i :: 0 <= i < |h.attempts| ==> (h.attempts[i].ok <==> h.phase.Committed? && i == |h.attempts| - 1)
  }

  lemma StepKeepsOnlyLastOk<F>(buffer: Buffer<F>, h: Handle<F>, op: Op)
    requires OnlyLastOk(h)
    ensures OnlyLastOk(Step(buffer, h, op))
  {
  }

  lemma {:induction false} OnlyTheLastSucceeds<F>(buffer: Buffer<F>, ops: seq<Op>)
    ensures OnlyLastOk(Run(buffer, ops))
  {
    if ops != [] {
      OnlyTheLastSucceeds(buffer, ops[..|ops| - 1]);
      StepKeepsOnlyLastOk(buffer, Run(buffer, ops[..|ops| - 1]), ops[|ops| - 1]);
    }
  }

  /** Nothing happens to a handle that has ended. */
  lemma {:induction false} EndedStaysEnded<F>(buffer: Buffer<F>, ops: seq<Op>, later: seq<Op>)
    requires Ended(ops)
    ensures Run(buffer, ops + later) == Run(buffer, ops)
  {
    if later == [] {
      EmptyLast(ops);
    } else {
      var n := |later| - 1;
      EndedStaysEnded(buffer, ops, later[..n]);
      assert (ops + later)[..|ops| + n] == ops + later[..n];
      EndedHandleIsLeft(buffer, ops, later[n]);
    }
  }

  lemma EndedHandleIsLeft<F>(buffer: Buffer<F>, ops: seq<Op>, op: Op)
    requires Ended(ops)
    ensures Step(buffer, Run(buffer, ops), op) == Run(buffer, ops)
  {
    RunFollowsHistory(buffer, ops);
  }

  /** After any number of failed commits, a commit that succeeds carries everything written. */
  lemma FailedCommitsLoseNothing<F>(buffer: Buffer<F>, ops: seq<Op>)
    requires !Ended(ops)
    ensures CommittedBy(buffer, ops + [Commit(true)]) == Some(buffer.data(Image(buffer, ops)))
    ensures Run(buffer, ops + [Commit(true)]).phase.Committed?
  {
    CommittedSnoc(buffer, ops, Commit(true));
    RunFollowsHistory(buffer, ops + [Commit(true)]);
  }

  function Chunks(ops: seq<Op>): seq<bytes> {
    if ops == [] then []
    else
      var n := |ops| - 1;
      Chunks(ops[..n]) + if ops[n].Write? then [ops[n].chunk] else []
  }

  /** Without seeks the file is the chunks one after another. */
  lemma {:induction false} WritesAppend(ops: seq<Op>)
    requires forall op <- ops :: !op.SeekBy?
    ensures var image := Image(BYTES_IO, ops); image.data == Flatten(Chunks(ops)) && image.position == |image.data|
  {
    if ops != [] {
      var n := |ops| - 1;
      WritesAppend(ops[..n]);
      assert ops[n] in ops;
      if ops[n].Write? {
        var before := Image(BYTES_IO, ops[..n]);
        FlattenSnoc(Chunks(ops[..n]), ops[n].chunk);
        WriteAtEnd(before, ops[n].chunk);
      } else {
        assert Chunks(ops) == Chunks(ops[..n]);
      }
    }
  }

  lemma WriteAtEnd(c: Content, chunk: bytes)
    requires c.position == |c.data|
    ensures AfterWrite(c, chunk) == Content(c.data + chunk, |c.data| + |chunk|)
  {
    assert c.data[..c.position] == c.data;
  }

  // ------------------------------------------------------------------------------------------
  // The three handles.

  /** The commit callback, with the calls it has had. */
  class Uploads {
    var attempts: seq<Attempt>

    constructor ()
      ensures attempts == []
    {
      attempts := [];
    }

    method Upload(data: bytes, ok: bool)
      modifies this
      ensures attempts == old(attempts) + [Attempt(data, ok)]
    {
      attempts := attempts + [Attempt(data, ok)];
    }
  }

  /** `_WriteBuffer`. */
  class WriteBuffer {
    const commit: Uploads
    var content: Content
    var closed: bool
    var commitEnabled: bool
    ghost var phase: Phase

    ghost predicate Valid()
      reads this
    {
      (closed <==> !phase.Open?) && (!closed ==> commitEnabled)
    }

    ghost function State(): Handle<Content>
      reads this, commit
    {
      Handle(phase, content, commit.attempts)
    }

    constructor (commit: Uploads)
      requires commit.attempts == []
      ensures Valid() && State() == Fresh(BYTES_IO) && this.commit == commit
    {
      this.commit, content, closed, commitEnabled, phase := commit, Content([], 0), false, true, Open;
    }

    method Put(chunk: bytes) returns (r: Result<nat, HandleError>)
      requires Valid()
      modifies this
      ensures Valid() && State() == Step(BYTES_IO, old(State()), Write(chunk))
      ensures r == Answer(BYTES_IO, old(State()), Write(chunk))
    {
      if closed {
        return Err(Closed);
      }
      content := AfterWrite(content, chunk);
      return Ok(|chunk|);
    }

    method Seek(offset: int, whence: nat) returns (r: Result<nat, HandleError>)
      requires Valid()
      modifies this
      ensures Valid() && State() == Step(BYTES_IO, old(State()), SeekBy(offset, whence))
      ensures r == Answer(BYTES_IO, old(State()), SeekBy(offset, whence))
    {
      if closed {
        return Err(Closed);
      }
      var sought := AfterSeek(content, offset, whence);
      if sought.None? {
        return Err(InvalidSeek);
      }
      content := sought.value.0;
      return Ok(sought.value.1);
    }

    /** The close of the underlying in-memory file. */
    method CloseBuffer(ghost end: Phase)
      requires end != Open && (closed ==> end == phase)
      modifies this
      ensures closed && phase == end && content == old(content) && commitEnabled == old(commitEnabled)
    {
      closed, phase := true, end;
    }

    method Close(ok: bool) returns (r: Result<nat, HandleError>)
      requires (closed <==> !phase.Open?)
      modifies this, commit
      ensures commitEnabled == old(commitEnabled)
      ensures var op := if old(commitEnabled || closed) then Commit(ok) else Discard(true);
              State() == Step(BYTES_IO, old(State()), op) && r == Answer(BYTES_IO, old(State()), op)
      ensures (closed <==> !phase.Open?)
    {
      ghost var end := if closed then phase else if commitEnabled then Committed else Discarded;
      if !closed && commitEnabled {
        commit.Upload(content.data, ok);
        if !ok {
          return Err(CommitFailed);
        }
      }
      CloseBuffer(end);
      return Ok(0);
    }

    /** Leaving a `with` block, normally or by an exception. */
    method Exit(raised: bool, ok: bool) returns (r: Result<nat, HandleError>)
      requires Valid()
      modifies this, commit
      ensures Valid()
      ensures var op := if raised then Discard(true) else Commit(ok);
              State() == Step(BYTES_IO, old(State()), op) && r == Answer(BYTES_IO, old(State()), op)
    {
      if raised {
        commitEnabled := false;
      }
      r := Close(ok);
    }

    /** `__del__`: a handle that is dropped commits nothing. */
    method Finalize()
      requires Valid()
      modifies this
      ensures Valid() && State() == Step(BYTES_IO, old(State()), Discard(true))
    {
      ghost var end := if closed then phase else Discarded;
      commitEnabled := false;
      CloseBuffer(end);
    }
  }

  /** `DeferredDatabaseFile`. */
  class DeferredFile {
    const commitCallback: Uploads
    var content: Content
    var closed: bool
    var completed: bool
    ghost var phase: Phase

    ghost predicate Valid()
      reads this
    {
      completed == closed == !phase.Open?
    }

    ghost function State(): Handle<Content>
      reads this, commitCallback
    {
      Handle(phase, content, commitCallback.attempts)
    }

    constructor (commit: Uploads)
      requires commit.attempts == []
      ensures Valid() && State() == Fresh(BYTES_IO) && commitCallback == commit
    {
      commitCallback, content, closed, completed, phase := commit, Content([], 0), false, false, Open;
    }

    method Put(chunk: bytes) returns (r: Result<nat, HandleError>)
      requires Valid()
      modifies this
      ensures Valid() && State() == Step(BYTES_IO, old(State()), Write(chunk))
      ensures r == Answer(BYTES_IO, old(State()), Write(chunk))
    {
      if closed {
        return Err(Closed);
      }
      content := AfterWrite(content, chunk);
      return Ok(|chunk|);
    }

    method Seek(offset: int, whence: nat) returns (r: Result<nat, HandleError>)
      requires Valid()
      modifies this
      ensures Valid() && State() == Step(BYTES_IO, old(State()), SeekBy(offset, whence))
      ensures r == Answer(BYTES_IO, old(State()), SeekBy(offset, whence))
    {
      if closed {
        return Err(Closed);
      }
      var sought := AfterSeek(content, offset, whence);
      if sought.None? {
        return Err(InvalidSeek);
      }
      content := sought.value.0;
      return Ok(sought.value.1);
    }

    /** Closing waits for the transaction: nothing is committed and the handle stays as it is. */
    method Close()
      requires Valid()
      modifies this
      ensures Valid() && State() == old(State())
    {
      if completed {
        closed := true;
      }
    }

    /** Leaving a `with` block closes the file, however it is left. */
    method Exit(raised: bool)
      requires Valid()
      modifies this
      ensures Valid() && State() == old(State())
    {
      Close();
    }

    method CommitNow(ok: bool) returns (r: Result<nat, HandleError>)
      requires Valid()
      modifies this, commitCallback
      ensures Valid() && State() == Step(BYTES_IO, old(State()), Commit(ok))
      ensures r == Answer(BYTES_IO, old(State()), Commit(ok))
    {
      if !completed {
        commitCallback.Upload(content.data, ok);
        if !ok {
          return Err(CommitFailed);
        }
        completed, closed, phase := true, true, Committed;
      }
      return Ok(0);
    }

    method DiscardNow()
      requires Valid()
      modifies this
      ensures Valid() && State() == Step(BYTES_IO, old(State()), Discard(true))
    {
      if !completed {
        completed, closed, phase := true, true, Discarded;
      }
    }
  }

  /** The Rust file behind a handle: a buffer of any kind that uploads itself on commit. */
  class BufferedFile<F> {
    const buffer: Buffer<F>
    const uploads: Uploads
    var content: F

    constructor (buffer: Buffer<F>, uploads: Uploads)
      ensures this.buffer == buffer && this.uploads == uploads && content == buffer.empty
    {
      this.buffer, this.uploads, content := buffer, uploads, buffer.empty;
    }
  }

  /**
    The handle refuses a negative offset from the start, and any other origin than 0, 1 and 2, before it asks the
    file.
  */
  function Guarded<F>(buffer: Buffer<F>): Buffer<F> {
    buffer.(seek := (content, offset, whence) =>
      if whence > 2 || (whence == 0 && offset < 0) then None else buffer.seek(content, offset, whence))
  }

  /** `PyDbFile`. */
  class PyDbFile<F> {
    var inner: Option<BufferedFile<F>>
    const buffer: Buffer<F>
    const uploads: Uploads
    ghost const file: BufferedFile<F>
    ghost var phase: Phase

    ghost predicate Valid()
      reads this
    {
      && file.uploads == uploads && file.buffer == buffer
      && (inner.Some? <==> phase.Open?)
      && (inner.Some? ==> inner.value == file)
    }

    ghost function State(): Handle<F>
      reads this, file, uploads
    {
      Handle(phase, file.content, uploads.attempts)
    }

    constructor (file: BufferedFile<F>)
      requires file.uploads.attempts == [] && file.content == file.buffer.empty
      ensures Valid() && uploads == file.uploads && buffer == file.buffer && this.file == file
      ensures State() == Fresh(Guarded(buffer))
    {
      inner, buffer, uploads, this.file, phase := Some(file), file.buffer, file.uploads, file, Open;
    }

    method Put(chunk: bytes) returns (r: Result<nat, HandleError>)
      requires Valid()
      modifies this, file
      ensures Valid() && State() == Step(Guarded(buffer), old(State()), Write(chunk))
      ensures r == Answer(Guarded(buffer), old(State()), Write(chunk))
    {
      if inner.None? {
        return Err(Closed);
      }
      inner.value.content := buffer.write(inner.value.content, chunk);
      return Ok(|chunk|);
    }

    method Seek(offset: int, whence: nat) returns (r: Result<nat, HandleError>)
      requires Valid()
      modifies this, file
      ensures Valid() && State() == Step(Guarded(buffer), old(State()), SeekBy(offset, whence))
      ensures r == Answer(Guarded(buffer), old(State()), SeekBy(offset, whence))
    {
      if inner.None? {
        return Err(Closed);
      }
      if (whence == 0 && offset < 0) || whence > 2 {
        return Err(InvalidSeek);
      }
      var sought := buffer.seek(inner.value.content, offset, whence);
      if sought.None? {
        return Err(InvalidSeek);
      }
      inner.value.content := sought.value.0;
      return Ok(sought.value.1);
    }

    method Close(ok: bool) returns (r: Result<nat, HandleError>)
      requires Valid()
      modifies this, uploads
      ensures Valid() && State() == Step(Guarded(buffer), old(State()), Commit(ok))
      ensures r == Answer(Guarded(buffer), old(State()), Commit(ok))
    {
      if inner.Some? {
        inner.value.uploads.Upload(buffer.data(inner.value.content), ok);
        if !ok {
          return Err(CommitFailed);
        }
        phase := Committed;
      }
      inner := None;
      return Ok(0);
    }

    method DiscardNow(ok: bool) returns (r: Result<nat, HandleError>)
      requires Valid()
      modifies this
      ensures Valid() && State() == Step(Guarded(buffer), old(State()), Discard(ok))
      ensures r == Answer(Guarded(buffer), old(State()), Discard(ok))
    {
      if inner.Some? {
        if !ok {
          return Err(DiscardFailed);
        }
        phase := Discarded;
      }
      inner := None;
      return Ok(0);
    }

    /** Leaving a `with` block; `ok` is the answer to the commit or to the discard. */
    method Exit(raised: bool, ok: bool) returns (r: Result<nat, HandleError>)
      requires Valid()
      modifies this, uploads
      ensures Valid()
      ensures var op := if raised then Discard(ok) else Commit(ok);
              State() == Step(Guarded(buffer), old(State()), op) && r == Answer(Guarded(buffer), old(State()), op)
    {
      if raised {
        r := DiscardNow(ok);
      } else {
        r := Close(ok);
      }
    }
  }

  // ------------------------------------------------------------------------------------------
  // Whole lives of handles: every sequence of the calls there are.

  /** The machine's operations behind some calls; a call may have none. */
  function OpsOf<C>(opOf: C -> Option<Op>, calls: seq<C>): seq<Op> {
    if calls == [] then []
    else
      var before, op := OpsOf(opOf, calls[..|calls| - 1]), opOf(calls[|calls| - 1]);
      if op.Some? then before + [op.value] else before
  }

  function StepIf<F>(buffer: Buffer<F>, h: Handle<F>, op: Option<Op>): Handle<F> {
    match op case Some(op) => Step(buffer, h, op) case None => h
  }

  lemma RunNext<F, C>(buffer: Buffer<F>, opOf: C -> Option<Op>, calls: seq<C>, i: nat)
    requires i < |calls|
    ensures Run(buffer, OpsOf(opOf, calls[..i + 1]))
            == StepIf(buffer, Run(buffer, OpsOf(opOf, calls[..i])), opOf(calls[i]))
  {
    var ops, op := OpsOf(opOf, calls[..i]), opOf(calls[i]);
    assert calls[..i + 1][..i] == calls[..i];
    if op.Some? {
      assert (ops + [op.value])[..|ops|] == ops;
    }
  }

  /** The callback has had the one successful call that the calls on the handle ask for, or none. */
  ghost predicate HasCommitted<F>(buffer: Buffer<F>, uploads: Uploads, ops: seq<Op>)
    reads uploads
  {
    Successes(uploads.attempts) == match CommittedBy(buffer, ops) { case Some(data) => [data] case None => [] }
  }

  datatype BufferCall =
    | BufferWrite(chunk: bytes)
    | BufferSeek(offset: int, whence: nat)
    | BufferClose(ok: bool)
    | BufferExit(raised: bool, ok: bool)
    | BufferDelete

  function BufferOp(call: BufferCall): Option<Op> {
    match call
    case BufferWrite(chunk) => Some(Write(chunk))
    case BufferSeek(offset, whence) => Some(SeekBy(offset, whence))
    case BufferClose(ok) => Some(Commit(ok))
    case BufferExit(raised, ok) => Some(if raised then Discard(true) else Commit(ok))
    case BufferDelete => Some(Discard(true))
  }

  method CallBuffer(buffer: WriteBuffer, call: BufferCall)
    requires buffer.Valid()
    modifies buffer, buffer.commit
    ensures buffer.Valid() && buffer.State() == StepIf(BYTES_IO, old(buffer.State()), BufferOp(call))
  {
    match call {
      case BufferWrite(chunk) => { var _ := buffer.Put(chunk); }
      case BufferSeek(offset, whence) => { var _ := buffer.Seek(offset, whence); }
      case BufferClose(ok) => { var _ := buffer.Close(ok); }
      case BufferExit(raised, ok) => { var _ := buffer.Exit(raised, ok); }
      case BufferDelete => { buffer.Finalize(); }
    }
  }

  /** Any sequence of calls on a write buffer is a run of the machine, with its one commit. */
  method Drive(buffer: WriteBuffer, calls: seq<BufferCall>)
    requires buffer.Valid() && buffer.State() == Fresh(BYTES_IO)
    modifies buffer, buffer.commit
    ensures buffer.Valid() && buffer.State() == Run(BYTES_IO, OpsOf(BufferOp, calls))
    ensures HasCommitted(BYTES_IO, buffer.commit, OpsOf(BufferOp, calls))
  {
    for i := 0 to |calls|
      invariant buffer.Valid() && buffer.State() == Run(BYTES_IO, OpsOf(BufferOp, calls[..i]))
    {
      RunNext(BYTES_IO, BufferOp, calls, i);
      CallBuffer(buffer, calls[i]);
    }
    assert calls[..|calls|] == calls;
    CommitsAtMostOnce(BYTES_IO, OpsOf(BufferOp, calls));
  }

  datatype DeferredCall =
    | DeferredWrite(chunk: bytes)
    | DeferredSeek(offset: int, whence: nat)
    | DeferredClose
    | DeferredExit(raised: bool)
    | DeferredCommit(ok: bool)
    | DeferredDiscard

  /** Closing does nothing; only the transaction commits or discards. */
  function DeferredOp(call: DeferredCall): Option<Op> {
    match call
    case DeferredWrite(chunk) => Some(Write(chunk))
    case DeferredSeek(offset, whence) => Some(SeekBy(offset, whence))
    case DeferredClose => None
    case DeferredExit(_) => None
    case DeferredCommit(ok) => Some(Commit(ok))
    case DeferredDiscard => Some(Discard(true))
  }

  method CallDeferred(file: DeferredFile, call: DeferredCall)
    requires file.Valid()
    modifies file, file.commitCallback
    ensures file.Valid() && file.State() == StepIf(BYTES_IO, old(file.State()), DeferredOp(call))
  {
    match call {
      case DeferredWrite(chunk) => { var _ := file.Put(chunk); }
      case DeferredSeek(offset, whence) => { var _ := file.Seek(offset, whence); }
      case DeferredClose => { file.Close(); }
      case DeferredExit(raised) => { file.Exit(raised); }
      case DeferredCommit(ok) => { var _ := file.CommitNow(ok); }
      case DeferredDiscard => { file.DiscardNow(); }
    }
  }

  method DriveDeferred(file: DeferredFile, calls: seq<DeferredCall>)
    requires file.Valid() && file.State() == Fresh(BYTES_IO)
    modifies file, file.commitCallback
    ensures file.Valid() && file.State() == Run(BYTES_IO, OpsOf(DeferredOp, calls))
    ensures HasCommitted(BYTES_IO, file.commitCallback, OpsOf(DeferredOp, calls))
  {
    for i := 0 to |calls|
      invariant file.Valid() && file.State() == Run(BYTES_IO, OpsOf(DeferredOp, calls[..i]))
    {
      RunNext(BYTES_IO, DeferredOp, calls, i);
      CallDeferred(file, calls[i]);
    }
    assert calls[..|calls|] == calls;
    CommitsAtMostOnce(BYTES_IO, OpsOf(DeferredOp, calls));
  }

  datatype RustCall =
    | RustWrite(chunk: bytes)
    | RustSeek(offset: int, whence: nat)
    | RustClose(ok: bool)
    | RustExit(raised: bool, ok: bool)
    | RustDiscard(ok: bool)

  function RustOp(call: RustCall): Option<Op> {
    match call
    case RustWrite(chunk) => Some(Write(chunk))
    case RustSeek(offset, whence) => Some(SeekBy(offset, whence))
    case RustClose(ok) => Some(Commit(ok))
    case RustExit(raised, ok) => Some(if raised then Discard(ok) else Commit(ok))
    case RustDiscard(ok) => Some(Discard(ok))
  }

  method CallRust<F>(file: PyDbFile<F>, call: RustCall)
    requires file.Valid()
    modifies file, file.file, file.uploads
    ensures file.Valid() && file.State() == StepIf(Guarded(file.buffer), old(file.State()), RustOp(call))
  {
    match call {
      case RustWrite(chunk) => { var _ := file.Put(chunk); }
      case RustSeek(offset, whence) => { var _ := file.Seek(offset, whence); }
      case RustClose(ok) => { var _ := file.Close(ok); }
      case RustExit(raised, ok) => { var _ := file.Exit(raised, ok); }
      case RustDiscard(ok) => { var _ := file.DiscardNow(ok); }
    }
  }

  method DriveRust<F>(file: PyDbFile<F>, calls: seq<RustCall>)
    requires file.Valid() && file.State() == Fresh(Guarded(file.buffer))
    modifies file, file.file, file.uploads
    ensures file.Valid() && file.State() == Run(Guarded(file.buffer), OpsOf(RustOp, calls))
    ensures HasCommitted(Guarded(file.buffer), file.uploads, OpsOf(RustOp, calls))
  {
    for i := 0 to |calls|
      invariant file.Valid() && file.State() == Run(Guarded(file.buffer), OpsOf(RustOp, calls[..i]))
    {
      RunNext(Guarded(file.buffer), RustOp, calls, i);
      CallRust(file, calls[i]);
    }
    assert calls[..|calls|] == calls;
    CommitsAtMostOnce(Guarded(file.buffer), OpsOf(RustOp, calls));
  }
}

/**
  The lazily encoded database file. Record batches are pulled from the reader on demand, encoded
  into a sink shared with the codec's writer, and moved from there into a growing buffer that serves
  `read` and `seek`. The point of the module: it cannot be told apart from a plain byte array that
  holds the complete encoding.
*/
module EncodedFile {
  import opened Wrappers

  datatype FileError = ReaderFault | EncoderFault | InvalidSeek

  /** What one call on the codec's writer does: some output, possibly none, and whether it succeeded. */
  datatype Emit<S> = Emit(state: S, output: bytes, ok: bool)

  /** A deterministic codec writer; `S` is whatever it remembers between batches. */
  datatype Codec<!S, !B> = Codec(
    initial: S,
    header: bytes,
    writeBatch: (S, B) -> Emit<S>,
    finish: S -> Emit<S>)

  datatype Item<B> = Batch(batch: B) | Fault

  datatype SeekFrom = Start(position: u64) | Current(offset: i64) | End(offset: i64)

  // ------------------------------------------------------------------------------------------
  // The eager file: a byte array and a cursor.

  /** Everything still to be written when the writer is in `state` and `items` are still to come. */
  function Rest<S, B>(codec: Codec<S, B>, state: S, items: seq<Item<B>>): bytes {
    if items == [] then codec.finish(state).output
    else match items[0]
      case Fault => Rest(codec, state, items[1..])
      case Batch(batch) =>
        var emit := codec.writeBatch(state, batch);
        emit.output + Rest(codec, emit.state, items[1..])
  }

  /** The complete encoding. */
  function Encoding<S, B>(codec: Codec<S, B>, items: seq<Item<B>>): bytes {
    codec.header + Rest(codec, codec.initial, items)
  }

  /** The writer's state and everything it has written after the first `k` items. */
  function Written<S, B>(codec: Codec<S, B>, items: seq<Item<B>>, k: nat): (S, bytes)
    requires k <= |items|
  {
    if k == 0 then (codec.initial, codec.header)
    else
      var (state, output) := Written(codec, items, k - 1);
      match items[k - 1]
      case Fault => (state, output)
      case Batch(batch) =>
        var emit := codec.writeBatch(state, batch);
        (emit.state, output + emit.output)
  }

  /** Neither the reader nor the writer has a failure ahead. */
  predicate Healthy<S, B>(codec: Codec<S, B>, state: S, items: seq<Item<B>>) {
    if items == [] then codec.finish(state).ok
    else items[0].Batch? && codec.writeBatch(state, items[0].batch).ok
         && Healthy(codec, codec.writeBatch(state, items[0].batch).state, items[1..])
  }

  function EagerRead(full: bytes, position: nat, count: nat): (data: bytes)
    ensures |data| <= count
    ensures position + |data| <= |full| || data == []
    ensures |data| < count ==> position + |data| >= |full|
    ensures data <= full[Min(position, |full|)..]
  {
    full[Min(position, |full|)..Min(position + count, |full|)]
  }

  function EagerSeek(full: bytes, position: u64, from: SeekFrom): Option<u64> {
    var target :=
      match from
      case Start(p) => p
      case Current(offset) => position + offset
      case End(offset) => |full| + offset;
    if 0 <= target <= U64_MAX then Some(target) else None
  }

  /** `checked_add` / `checked_sub` on the position. */
  function OffsetPosition(position: u64, offset: i64): Option<u64> {
    if offset >= 0 then
      if position + offset <= U64_MAX then Some(position + offset) else None
    else
      var back: int := -(offset as int);
      if position >= back then Some(position - back) else None
  }

  function SaturatingAdd(a: u64, b: u64): u64 {
    if a + b <= U64_MAX then a + b else U64_MAX
  }

  lemma Regroup(emitted: bytes, sink: bytes, output: bytes, rest: bytes)
    ensures (emitted + sink) + (output + rest) == (emitted + (sink + output)) + rest
    ensures emitted + (sink + output) == (emitted + sink) + output
    ensures emitted <= emitted + (sink + output) <= (emitted + (sink + output)) + rest
  {
  }

  /** What a file that has written `emitted` so far can answer to a read, if that is enough or everything. */
  lemma PrefixRead(full: bytes, emitted: bytes, start: u64, length: u64)
    requires emitted <= full && |full| <= U64_MAX
    requires emitted == full || |emitted| >= SaturatingAdd(start, length)
    ensures EagerRead(full, start, length)
            == if start >= |emitted| then [] else emitted[start..start + Min(length, |emitted| - start)]
  {
  }

  // ------------------------------------------------------------------------------------------
  // The lazy file.

  class EncodedDbFile<S, B> {
    const codec: Codec<S, B>
    var reader: seq<Item<B>>        // items not yet pulled
    var writer: Option<S>           // taken by finish
    var sink: bytes
    var emitted: bytes
    var position: u64
    var eof: bool
    ghost const items: seq<Item<B>>
    ghost const full: bytes

    ghost function Pulled(): nat
      reads this
      requires |reader| <= |items|
    {
      |items| - |reader|
    }

    ghost predicate Valid()
      reads this
    {
      && |full| <= U64_MAX && position <= U64_MAX
      && |reader| <= |items| && reader == items[Pulled()..]
      && (writer.Some? ==>
            var (state, output) := Written(codec, items, Pulled());
            writer.value == state && emitted + sink == output)
      && full == emitted + sink + (if writer.Some? then Rest(codec, writer.value, reader) else [])
      && (writer.None? ==> reader == [])
      && (eof ==> writer.None? && sink == [])
    }

    /** No failure is ahead, and none has left output behind in the sink. */
    ghost predicate Sound()
      reads this
    {
      sink == [] && if writer.Some? then Healthy(codec, writer.value, reader) else eof
    }

    /** Every item pulled since `before` was pulled while the writer had written less than `target`. */
    ghost predicate OnlyNeeded(before: nat, target: nat)
      reads this
      requires |reader| <= |items|
    {
      before < Pulled() ==> |Written(codec, items, Pulled() - 1).1| < target
    }

    /** Item `k` is a reader fault, or the writer fails on it. */
    ghost predicate Breaks(k: nat, error: FileError)
      reads this
    {
      && k < |items|
      && match items[k]
         case Fault => error == ReaderFault
         case Batch(batch) => error == EncoderFault && !codec.writeBatch(Written(codec, items, k).0, batch).ok
    }

    /** Since `before` items were pulled, a failing one has been, or the writer could not finish; `error` says it. */
    ghost predicate MetFault(before: nat, error: FileError)
      reads this
      requires |reader| <= |items|
    {
      || (before < Pulled() && Breaks(Pulled() - 1, error))
      || (reader == [] && error == EncoderFault && !codec.finish(Written(codec, items, |items|).0).ok)
    }

    /** The size of the encoding must fit a `Vec`. */
    constructor (codec: Codec<S, B>, items: seq<Item<B>>)
      requires |Encoding(codec, items)| <= U64_MAX
      ensures Valid() && position == 0 && full == Encoding(codec, items) && this.items == items && reader == items
      ensures Healthy(codec, codec.initial, items) ==> Sound()
    {
      this.codec, this.items, reader, writer := codec, items, items, Some(codec.initial);
      sink, emitted, position, eof := codec.header, [], 0, false;
      full := Encoding(codec, items);
      new;
      DrainSink();
    }

    method DrainSink()
      modifies this`sink, this`emitted
      ensures emitted == old(emitted + sink) && sink == []
    {
      emitted := emitted + sink;
      sink := [];
    }

    /** Pull an item and encode it. */
    method EncodeNext() returns (r: Result<(), FileError>)
      requires Valid() && reader != []
      modifies this`reader, this`writer, this`sink, this`emitted
      ensures Valid()
      ensures old(emitted) <= emitted <= full
      ensures old(Sound()) ==> r.Ok? && Sound()
      ensures r != Err(InvalidSeek)
      ensures r.Err? ==> MetFault(old(Pulled()), r.error)
      ensures old(sink) == [] && r.Ok? ==> sink == []
      ensures Pulled() == old(Pulled()) + 1 && !eof
    {
      var item := reader[0];
      reader := reader[1..];
      assert items[Pulled() - 1] == item;
      match item {
        case Fault =>
          return Err(ReaderFault);
        case Batch(batch) =>
          var emit := codec.writeBatch(writer.value, batch);
          Regroup(emitted, sink, emit.output, Rest(codec, emit.state, reader));
          writer, sink := Some(emit.state), sink + emit.output;
          if !emit.ok {
            return Err(EncoderFault);
          }
          DrainSink();
      }
      r := Ok(());
    }

    /** Finish the writer; a writer that failed to finish is gone, and what it left is all there is. */
    method Finish() returns (r: Result<(), FileError>)
      requires Valid() && !eof && reader == []
      modifies this`writer, this`sink, this`emitted, this`eof
      ensures Valid()
      ensures old(emitted) <= emitted <= full
      ensures old(Sound()) ==> r.Ok? && Sound()
      ensures r != Err(InvalidSeek)
      ensures r.Err? ==> MetFault(old(Pulled()), r.error)
      ensures old(sink) == [] && r.Ok? ==> sink == []
      ensures r.Ok? ==> eof && emitted == full
    {
      if writer.Some? {
        var emit := codec.finish(writer.value);
        writer, sink := None, sink + emit.output;
        if !emit.ok {
          return Err(EncoderFault);
        }
      }
      eof := true;
      DrainSink();
      r := Ok(());
    }

    /** One turn of the loop: pull an item and encode it, or finish the writer when there is none left. */
    method Advance() returns (r: Result<(), FileError>)
      requires Valid() && !eof
      modifies this`reader, this`writer, this`sink, this`emitted, this`eof
      ensures Valid()
      ensures old(emitted) <= emitted <= full
      ensures old(Sound()) ==> r.Ok? && Sound()
      ensures r != Err(InvalidSeek)
      ensures r.Err? ==> MetFault(old(Pulled()), r.error)
      ensures old(sink) == [] && r.Ok? ==> sink == []
      ensures old(reader) != [] ==> Pulled() == old(Pulled()) + 1 && !eof
      ensures old(reader) == [] ==> reader == [] && (r.Ok? ==> eof && emitted == full)
    {
      if reader != [] {
        r := EncodeNext();
      } else {
        r := Finish();
      }
    }

    /**
      Pull and encode until `target` bytes are there, or everything. It pulls no more than it must:
      without the last item pulled the writer would not have written enough, and the writer is only
      finished when all the batches are not enough.
    */
    method FillUntil(target: Option<nat>) returns (r: Result<(), FileError>)
      requires Valid()
      modifies this`reader, this`writer, this`sink, this`emitted, this`eof
      ensures Valid()
      ensures old(emitted) <= emitted <= full
      ensures r.Ok? ==> eof || (target.Some? && |emitted| >= target.value)
      ensures r.Ok? && eof ==> emitted == full
      ensures old(Sound()) ==> r.Ok? && Sound()
      ensures r != Err(InvalidSeek)
      ensures r.Err? ==> MetFault(old(Pulled()), r.error)
      ensures old(Pulled()) <= Pulled()
      ensures old(sink) == [] && r.Ok? && target.Some? ==> OnlyNeeded(old(Pulled()), target.value)
    {
      while !eof && (target.None? || |emitted| < target.value)
        invariant Valid()
        invariant old(emitted) <= emitted <= full
        invariant old(Sound()) ==> Sound()
        invariant old(Pulled()) <= Pulled()
        invariant old(sink) == [] ==> sink == []
        invariant old(sink) == [] && target.Some? ==> OnlyNeeded(old(Pulled()), target.value)
        decreases |reader|, !eof
      {
        var step := Advance();
        if step.Err? {
          return step;
        }
      }
      r := Ok(());
    }

    /** `buf[..count].copy_from_slice(&emitted[start..start + count])`. */
    method CopyOut(buf: array<byte>, start: nat, count: nat)
      requires count <= buf.Length && start + count <= |emitted|
      modifies buf
      ensures buf[..count] == emitted[start..start + count] && buf[count..] == old(buf[count..])
    {
      forall i | 0 <= i < count {
        buf[i] := emitted[start + i];
      }
    }

    /** Once enough has been encoded, or everything, the buffer gets what the eager file has there. */
    method CopyAt(buf: array<byte>, start: u64) returns (count: nat)
      requires emitted <= full && |full| <= U64_MAX && buf.Length <= U64_MAX
      requires emitted == full || |emitted| >= SaturatingAdd(start, buf.Length)
      modifies buf
      ensures count == |EagerRead(full, start, buf.Length)|
      ensures buf[..count] == EagerRead(full, start, buf.Length) && buf[count..] == old(buf[count..])
    {
      PrefixRead(full, emitted, start, buf.Length);
      if start >= |emitted| {
        return 0;
      }
      count := Min(buf.Length, |emitted| - start);
      CopyOut(buf, start, count);
    }

    /** A successful read is a read of the eager file; a failed one leaves the position and the buffer alone. */
    method Read(buf: array<byte>) returns (r: Result<nat, FileError>)
      requires Valid() && buf.Length <= U64_MAX
      modifies this, buf
      ensures Valid()
      ensures old(emitted) <= emitted <= full
      ensures old(Sound()) ==> r.Ok? && Sound()
      ensures r.Err? ==> position == old(position) && buf[..] == old(buf[..]) && MetFault(old(Pulled()), r.error)
      ensures r.Ok? ==>
                var data := EagerRead(full, old(position), buf.Length);
                && r.value == |data| && position == old(position) + |data|
                && buf[..|data|] == data && buf[|data|..] == old(buf[|data|..])
    {
      if buf.Length == 0 {
        return Ok(0);
      }
      var start := position;
      var target := SaturatingAdd(start, buf.Length);
      var filled := FillUntil(Some(target));
      if filled.Err? {
        return Err(filled.error);
      }
      var count := CopyAt(buf, start);
      position := position + count;
      return Ok(count);
    }

    /** Where a seek leads, if that is a position; from the end, everything has to be encoded first. */
    method TargetOf(from: SeekFrom) returns (r: Result<Option<u64>, FileError>)
      requires Valid()
      modifies this`reader, this`writer, this`sink, this`emitted, this`eof
      ensures Valid() && old(Pulled()) <= Pulled()
      ensures old(emitted) <= emitted <= full
      ensures old(Sound()) ==> r.Ok? && Sound()
      ensures r.Ok? ==> r.value == EagerSeek(full, position, from)
      ensures r.Err? ==> r.error != InvalidSeek && MetFault(old(Pulled()), r.error)
    {
      match from {
        case Start(p) =>
          return Ok(Some(p));
        case Current(offset) =>
          return Ok(OffsetPosition(position, offset));
        case End(offset) =>
          var filled := FillUntil(None);
          if filled.Err? {
            return Err(filled.error);
          }
          return Ok(OffsetPosition(|emitted|, offset));
      }
    }

    /** Encode up to a position and stand there, past the end if need be. */
    method MoveTo(target: u64) returns (r: Result<u64, FileError>)
      requires Valid() && target <= U64_MAX
      modifies this
      ensures Valid()
      ensures old(emitted) <= emitted <= full
      ensures old(Sound()) ==> r.Ok? && Sound()
      ensures r.Ok? ==> r.value == target && position == target
      ensures r.Err? ==> position == old(position) && r.error != InvalidSeek && MetFault(old(Pulled()), r.error)
    {
      var reached := FillUntil(Some(target));
      if reached.Err? {
        return Err(reached.error);
      }
      position := target;
      return Ok(position);
    }

    /** A seek lands where the eager file would, is refused where it would be, and moves nothing when it fails. */
    method Seek(from: SeekFrom) returns (r: Result<u64, FileError>)
      requires Valid()
      modifies this
      ensures Valid()
      ensures old(emitted) <= emitted <= full
      ensures old(Sound()) ==> Sound() && (r.Err? ==> r.error == InvalidSeek)
      ensures r.Ok? ==> EagerSeek(full, old(position), from) == Some(r.value) && position == r.value
      ensures r.Ok? ==> position == match from {
                          case Start(p) => p
                          case Current(offset) => old(position) + offset
                          case End(offset) => |full| + offset
                        }
      ensures r.Err? ==> position == old(position)
      ensures r.Err? && r.error == InvalidSeek ==> EagerSeek(full, old(position), from) == None
      ensures r.Err? && r.error == InvalidSeek ==>
                var target := match from
                              case Start(p) => p
                              case Current(offset) => old(position) + offset
                              case End(offset) => |full| + offset;
                target < 0 || target >= 0x1_0000_0000_0000_0000
      ensures r.Err? && r.error != InvalidSeek ==> MetFault(old(Pulled()), r.error)
    {
      var target := TargetOf(from);
      if target.Err? {
        return Err(target.error);
      }
      if target.value.None? {
        return Err(InvalidSeek);
      }
      r := MoveTo(target.value.value);
    }

    /** The size is reported once it is known, and is then exact. */
    method Size() returns (r: Option<nat>)
      requires Valid()
      ensures r == if eof then Some(|full|) else None
    {
      return if eof then Some(|emitted|) else None;
    }
  }

  // ------------------------------------------------------------------------------------------
  // Whole runs.

  datatype Op = ReadOp(count: u64) | SeekOp(from: SeekFrom)

  datatype Answer = Data(data: bytes) | Moved(position: u64) | Refused | Failed

  /** What the eager file at `position` answers, and where it then stands. */
  function EagerStep(full: bytes, position: u64, op: Op): (next: (Answer, u64))
    requires |full| <= U64_MAX
  {
    match op
    case ReadOp(count) =>
      var data := EagerRead(full, position, count);
      (Data(data), position + |data|)
    case SeekOp(from) =>
      match EagerSeek(full, position, from)
      case Some(p) => (Moved(p), p)
      case None => (Refused, position)
  }

  /** The answers of a run: each is the eager file's, except that an operation may fail and then has no effect. */
  ghost predicate Refines(full: bytes, position: u64, ops: seq<Op>, answers: seq<Answer>)
    requires |full| <= U64_MAX
    decreases |ops|
  {
    if ops == [] then answers == []
    else
      && answers != []
      && (if answers[0] == Failed then Refines(full, position, ops[1..], answers[1..])
          else
            var (answer, next) := EagerStep(full, position, ops[0]);
            answers[0] == answer && Refines(full, next, ops[1..], answers[1..]))
  }

  method Perform<S, B>(file: EncodedDbFile<S, B>, op: Op) returns (answer: Answer)
    requires file.Valid()
    modifies file
    ensures file.Valid()
    ensures old(file.Sound()) ==> file.Sound() && answer != Failed
    ensures if answer == Failed then file.position == old(file.position)
            else (answer, file.position) == EagerStep(file.full, old(file.position), op)
  {
    match op {
      case ReadOp(count) =>
        var buf := new byte[count];
        var r := file.Read(buf);
        answer := if r.Ok? then Data(buf[..r.value]) else Failed;
      case SeekOp(from) =>
        var r := file.Seek(from);
        answer := if r.Ok? then Moved(r.value) else if r.error == InvalidSeek then Refused else Failed;
    }
  }

  /**
    Refinement: any interleaving of reads and seeks, on any file, answers as the eager file does; with no fault
    ahead nothing fails.
  */
  method Replay<S, B>(file: EncodedDbFile<S, B>, ops: seq<Op>) returns (answers: seq<Answer>)
    requires file.Valid()
    modifies file
    ensures file.Valid()
    ensures Refines(file.full, old(file.position), ops, answers)
    ensures old(file.Sound()) ==> file.Sound() && Failed !in answers
    decreases |ops|
  {
    if ops == [] {
      return [];
    }
    var answer := Perform(file, ops[0]);
    var rest := Replay(file, ops[1..]);
    answers := [answer] + rest;
    assert answers[1..] == rest;
  }

  /** Without failed operations the answers are those of the eager file, one by one. */
  lemma {:induction false} UnfailedRunIsEager(full: bytes, position: u64, ops: seq<Op>, answers: seq<Answer>,
                                              other: seq<Answer>)
    requires |full| <= U64_MAX
    requires Refines(full, position, ops, answers) && Refines(full, position, ops, other)
    requires Failed !in answers && Failed !in other
    ensures answers == other
    decreases |ops|
  {
    if ops != [] {
      var (_, next) := EagerStep(full, position, ops[0]);
      UnfailedRunIsEager(full, next, ops[1..], answers[1..], other[1..]);
    }
  }

  /** `pieces` are what the writer puts out for the batches, one after another from `states[0]` on. */
  ghost predicate ArePieces<S, B>(codec: Codec<S, B>, batches: seq<B>, states: seq<S>, pieces: seq<bytes>) {
    && |states| == |batches| + 1 && |pieces| == |batches|
    && forall i :: 0 <= i < |batches| ==>
         codec.writeBatch(states[i], batches[i]) == Emit(states[i + 1], pieces[i], true)
  }

  /** A file without faults is the header, the pieces of its batches in order, and what finishing adds. */
  lemma EncodingOfBatches<S, B>(codec: Codec<S, B>, items: seq<Item<B>>, batches: seq<B>)
    returns (states: seq<S>, pieces: seq<bytes>)
    requires Healthy(codec, codec.initial, items)
    requires |items| == |batches| && forall i :: 0 <= i < |items| ==> items[i] == Batch(batches[i])
    ensures ArePieces(codec, batches, states, pieces) && states[0] == codec.initial
    ensures Encoding(codec, items) == codec.header + (Flatten(pieces) + codec.finish(states[|batches|]).output)
  {
    states, pieces := RestOfBatches(codec, codec.initial, items, batches);
  }

  lemma {:induction false} RestOfBatches<S, B>(codec: Codec<S, B>, state: S, items: seq<Item<B>>, batches: seq<B>)
    returns (states: seq<S>, pieces: seq<bytes>)
    requires Healthy(codec, state, items)
    requires |items| == |batches| && forall i :: 0 <= i < |items| ==> items[i] == Batch(batches[i])
    ensures ArePieces(codec, batches, states, pieces) && states[0] == state
    ensures Rest(codec, state, items) == Flatten(pieces) + codec.finish(states[|batches|]).output
    decreases |items|
  {
    if items == [] {
      states, pieces := [state], [];
    } else {
      var emit := codec.writeBatch(state, batches[0]);
      assert items[0] == Batch(batches[0]);
      var laterStates, laterPieces := RestOfBatches(codec, emit.state, items[1..], batches[1..]);
      states, pieces := [state] + laterStates, [emit.output] + laterPieces;
      FirstPiece(codec, batches, state, laterStates, laterPieces);
      assert pieces[1..] == laterPieces;
      JoinPieces(emit.output, Flatten(laterPieces), codec.finish(states[|batches|]).output);
    }
  }

  lemma JoinPieces(a: bytes, b: bytes, c: bytes)
    ensures a + (b + c) == (a + b) + c
  {
  }

  lemma FirstPiece<S, B>(codec: Codec<S, B>, batches: seq<B>, state: S, states: seq<S>, pieces: seq<bytes>)
    requires batches != [] && ArePieces(codec, batches[1..], states, pieces)
    requires codec.writeBatch(state, batches[0]).ok && codec.writeBatch(state, batches[0]).state == states[0]
    ensures ArePieces(codec, batches, [state] + states, [codec.writeBatch(state, batches[0]).output] + pieces)
  {
    var all := [state] + states;
    forall i | 0 <= i < |batches|
      ensures codec.writeBatch(all[i], batches[i])
              == Emit(all[i + 1], ([codec.writeBatch(state, batches[0]).output] + pieces)[i], true)
    {
      if i > 0 {
        assert batches[i] == batches[1..][i - 1];
      }
    }
  }

  /** The complete encoding is the header, the output of every batch in order, and the footer. */
  lemma {:induction false} EncodingIsWritten<S, B>(codec: Codec<S, B>, items: seq<Item<B>>, k: nat)
    requires k <= |items|
    ensures var (state, output) := Written(codec, items, k);
            Encoding(codec, items) == output + Rest(codec, state, items[k..])
  {
    if k == 0 {
      assert items[0..] == items;
    } else {
      EncodingIsWritten(codec, items, k - 1);
      assert items[k - 1..][0] == items[k - 1] && items[k - 1..][1..] == items[k..];
    }
  }
}

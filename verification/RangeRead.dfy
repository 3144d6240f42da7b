/**
  `cat_file` with optional signed bounds. Two branches serve it: negative bounds materialise the file
  and slice it, other bounds seek and read a limited number of bytes. Both are Python's `full[start:end]`,
  which is what the Python adapter evaluates. The file is an encoded one or one that holds its bytes already.
*/
module RangeRead {
  import opened Wrappers
  import opened EncodedFile
  import opened PlainFile
  import opened Text

  type Bound = Option<i64>

  /** Python's rule for one slice index: count from the end if negative, then clip to the sequence. */
  function Adjust(index: i64, length: nat): nat {
    var counted: int := if index < 0 then length + index else index;
    if counted < 0 then 0 else if counted > length then length else counted
  }

  /** `full[start:end]`. */
  function PythonSlice(full: bytes, start: Bound, end: Bound): (piece: bytes)
    ensures |piece| <= |full|
  {
    var lo := if start.None? then 0 else Adjust(start.value, |full|);
    var hi := if end.None? then |full| else Adjust(end.value, |full|);
    if lo < hi then full[lo..hi] else []
  }

  /** Position `i` of `n` is not before a start, or is before an end; negative bounds count from the end. */
  predicate AtOrAfter(i: nat, n: nat, bound: Bound) {
    bound.None? || (if bound.value < 0 then i >= n + bound.value else i >= bound.value)
  }

  predicate IsBefore(i: nat, n: nat, bound: Bound) {
    bound.None? || (if bound.value < 0 then i < n + bound.value else i < bound.value)
  }

  /** The slice has exactly the bytes at the positions from the start on and before the end, in their order. */
  lemma SliceKeeps(full: bytes, start: Bound, end: Bound) returns (from: nat)
    ensures var piece := PythonSlice(full, start, end);
            && from + |piece| <= |full| && piece == full[from..from + |piece|]
            && forall i :: 0 <= i < |full| ==>
                 (from <= i < from + |piece| <==> AtOrAfter(i, |full|, start) && IsBefore(i, |full|, end))
  {
    var lo := if start.None? then 0 else Adjust(start.value, |full|);
    from := if |PythonSlice(full, start, end)| == 0 then 0 else lo;
  }

  function NotBelowZero(n: int): nat {
    if n < 0 then 0 else n
  }

  function SliceMaterialized(data: bytes, start: Bound, end: Bound): bytes {
    var length := |data|;
    var lo :=
      match start
      case Some(value) => if value < 0 then NotBelowZero(length + value) else NotBelowZero(value)
      case None => 0;
    var hi :=
      match end
      case Some(value) => if value < 0 then NotBelowZero(length + value) else NotBelowZero(value)
      case None => length;
    if hi <= lo then [] else data[Min(lo, length)..Min(hi, length)]
  }

  lemma MaterializedIsPython(data: bytes, start: Bound, end: Bound)
    ensures SliceMaterialized(data, start, end) == PythonSlice(data, start, end)
  {
    if start.Some? && start.value >= |data| {
      assert data[|data|..|data|] == [];
    }
  }

  /** The two kinds of readable file, and what they have in common. */
  datatype ReadableFile<!S, !B> = Encoded(encoded: EncodedDbFile<S, B>) | Plain(plain: DbFile) {
    ghost function Repr(): set<object> {
      match this case Encoded(file) => {file} case Plain(file) => {file}
    }

    ghost predicate Valid()
      reads Repr()
    {
      match this case Encoded(file) => file.Valid() case Plain(file) => file.Valid()
    }

    /** No fault is ahead. */
    ghost predicate Sound()
      reads Repr()
    {
      match this case Encoded(file) => file.Sound() case Plain(file) => true
    }

    ghost function Full(): bytes {
      match this case Encoded(file) => file.full case Plain(file) => file.data
    }

    ghost function Position(): nat
      reads Repr()
    {
      match this case Encoded(file) => file.position case Plain(file) => file.position
    }

    method Read(buf: array<byte>) returns (r: Result<nat, FileError>)
      requires Valid() && buf.Length <= U64_MAX
      modifies Repr(), buf
      ensures Valid()
      ensures old(Sound()) ==> r.Ok? && Sound()
      ensures r.Ok? ==>
                var data := EagerRead(Full(), old(Position()), buf.Length);
                r.value == |data| && Position() == old(Position()) + |data| && buf[..|data|] == data
    {
      match this {
        case Encoded(file) =>
          r := file.Read(buf);
        case Plain(file) =>
          var n := file.Read(buf);
          r := Ok(n);
      }
    }

    /** One read through a buffer of `count` bytes. */
    method ReadSome(count: u64) returns (r: Result<bytes, FileError>)
      requires Valid()
      modifies Repr()
      ensures Valid()
      ensures old(Sound()) ==> r.Ok? && Sound()
      ensures r.Ok? ==>
                r.value == EagerRead(Full(), old(Position()), count) && Position() == old(Position()) + |r.value|
    {
      var buf := new byte[count];
      var n := Read(buf);
      r := if n.Err? then Err(n.error) else Ok(buf[..n.value]);
    }

    method SeekTo(position: u64) returns (r: Result<u64, FileError>)
      requires Valid()
      modifies Repr()
      ensures Valid()
      ensures old(Sound()) ==> r.Ok? && Sound()
      ensures r.Ok? ==> Position() == position
    {
      match this {
        case Encoded(file) =>
          r := file.Seek(Start(position));
        case Plain(file) =>
          r := file.Seek(Start(position));
      }
    }
  }

  /** What a file has from a position on. */
  ghost function Tail(full: bytes, position: nat): bytes {
    full[Min(position, |full|)..]
  }

  function Limited(rest: bytes, limit: Option<u64>): bytes {
    if limit.None? then rest else rest[..Min(limit.value, |rest|)]
  }

  lemma ReadSplits(full: bytes, position: nat, count: nat)
    ensures var data := EagerRead(full, position, count);
            && Tail(full, position) == data + Tail(full, position + |data|)
            && (count > 0 && data == [] ==> Tail(full, position) == [])
  {
  }

  /** `data` has been read of `rest`, and the file stands right behind it. */
  ghost predicate Reached(full: bytes, position: nat, data: bytes, rest: bytes) {
    data + Tail(full, position) == rest
  }

  lemma ReadReaches(full: bytes, position: nat, count: nat, data: bytes, rest: bytes)
    requires Reached(full, position, data, rest) && count > 0
    ensures var piece := EagerRead(full, position, count);
            && Reached(full, position + |piece|, data + piece, rest)
            && (piece == [] ==> data == rest)
            && |data| + |piece| <= |rest|
  {
    var piece := EagerRead(full, position, count);
    ReadSplits(full, position, count);
    Assoc(data, piece, Tail(full, position + |piece|));
    EmptyLast(data);
  }

  lemma PieceReaches(full: bytes, position: nat, count: nat, data: bytes, rest: bytes, piece: bytes)
    requires Reached(full, position, data, rest) && count > 0 && piece == EagerRead(full, position, count)
    ensures Reached(full, position + |piece|, data + piece, rest)
    ensures (piece == [] ==> data == rest) && |data| + |piece| <= |rest| && |piece| <= count
  {
    ReadReaches(full, position, count, data, rest);
  }

  lemma LimitReached(full: bytes, position: nat, data: bytes, rest: bytes, limit: u64)
    requires Reached(full, position, data, rest) && |data| == limit
    ensures Limited(rest, Some(limit)) == data
  {
  }

  /** One read, through a buffer of any nonzero size that keeps within the limit; an empty piece ends the file. */
  method ReadPiece<S, B>(file: ReadableFile<S, B>, limit: Option<u64>, ghost data: bytes, ghost rest: bytes)
    returns (r: Result<bytes, FileError>)
    requires file.Valid() && (limit.Some? ==> limit.value > 0)
    requires Reached(file.Full(), file.Position(), data, rest)
    modifies file.Repr()
    ensures file.Valid()
    ensures old(file.Sound()) ==> r.Ok? && file.Sound()
    ensures r.Ok? ==>
              && Reached(file.Full(), file.Position(), data + r.value, rest)
              && (r.value == [] ==> data == rest)
              && |data| + |r.value| <= |rest| && (limit.Some? ==> |r.value| <= limit.value)
  {
    var count :| 0 < count <= if limit.Some? then limit.value else U64_MAX;
    ghost var full, position := file.Full(), file.Position();
    r := file.ReadSome(count);
    if r.Ok? {
      PieceReaches(full, position, count, data, rest, r.value);
      assert file.Position() == position + |r.value|;
    }
  }

  /** Read to the end, or until `limit` bytes have been read. */
  method ReadToEnd<S, B>(file: ReadableFile<S, B>, limit: Option<u64>) returns (r: Result<bytes, FileError>)
    requires file.Valid()
    modifies file.Repr()
    ensures file.Valid()
    ensures old(file.Sound()) ==> r.Ok? && file.Sound()
    ensures r.Ok? ==> r.value == Limited(Tail(file.Full(), old(file.Position())), limit)
  {
    var data: bytes := [];
    ghost var rest := Tail(file.Full(), file.Position());
    EmptyFirst(rest);
    while limit.None? || |data| < limit.value
      invariant file.Valid()
      invariant old(file.Sound()) ==> file.Sound()
      invariant Reached(file.Full(), file.Position(), data, rest)
      invariant limit.Some? ==> |data| <= limit.value
      decreases |rest| - |data|
    {
      r := ReadPiece(file, if limit.Some? then Some(limit.value - |data|) else None, data, rest);
      if r.Err? {
        return;
      }
      data := data + r.value;
      if r.value == [] {
        return Ok(data);
      }
    }
    LimitReached(file.Full(), file.Position(), data, rest, limit.value);
    return Ok(data);
  }

  predicate Negative(bound: Bound) {
    bound.Some? && bound.value < 0
  }

  /** What the seek-and-take branch reads is the slice. */
  lemma SeekAndTakeIsPython(full: bytes, start: Bound, end: Bound)
    requires !Negative(start) && !Negative(end)
    ensures var from := if start.None? then 0 else start.value;
            if end.None? then PythonSlice(full, start, end) == Tail(full, from)
            else if end.value <= from then PythonSlice(full, start, end) == []
            else PythonSlice(full, start, end) == Limited(Tail(full, from), Some(end.value - from))
  {
    var lo := Min(if start.None? then 0 else start.value, |full|);
    assert full[lo..|full|] == full[lo..];
    assert full[|full|..] == [];
  }

  /** The range law: for every file and all bounds, `cat_file` is the Python slice of the complete encoding. */
  method CatFile<S, B>(file: ReadableFile<S, B>, start: Bound, end: Bound) returns (r: Result<bytes, FileError>)
    requires file.Valid() && file.Position() == 0
    modifies file.Repr()
    ensures r.Ok? ==> r.value == PythonSlice(file.Full(), start, end)
    ensures old(file.Sound()) ==> r.Ok?
  {
    if Negative(start) || Negative(end) {
      r := ReadToEnd(file, None);
      if r.Ok? {
        MaterializedIsPython(file.Full(), start, end);
        r := Ok(SliceMaterialized(r.value, start, end));
      }
      return;
    }
    SeekAndTakeIsPython(file.Full(), start, end);
    var from: u64 := if start.None? then 0 else NotBelowZero(start.value);
    if from > 0 {
      var moved := file.SeekTo(from);
      if moved.Err? {
        return Err(moved.error);
      }
    }
    match end
    case Some(value) =>
      var to: u64 := NotBelowZero(value);
      if to <= from {
        return Ok([]);
      }
      r := ReadToEnd(file, Some(to - from));
    case None =>
      r := ReadToEnd(file, None);
  }
}

/**
  The read-only file that holds all its bytes from the start: a cursor over a buffer, for definitions and DDL texts.
*/
module PlainFile {
  import opened Wrappers
  import opened EncodedFile

  class DbFile {
    const data: bytes
    var position: u64

    ghost predicate Valid()
      reads this
    {
      |data| <= U64_MAX && position <= U64_MAX
    }

    constructor (data: bytes)
      requires |data| <= U64_MAX
      ensures Valid() && this.data == data && position == 0
    {
      this.data, position := data, 0;
    }

    /** The cursor's read is the read of the eager file. */
    method Read(buf: array<byte>) returns (n: nat)
      requires Valid() && buf.Length <= U64_MAX
      modifies this, buf
      ensures Valid()
      ensures var piece := EagerRead(data, old(position), buf.Length);
              && n == |piece| && position == old(position) + |piece|
              && buf[..|piece|] == piece && buf[|piece|..] == old(buf[|piece|..])
    {
      var start := Min(position, |data|);
      n := Min(buf.Length, |data| - start);
      ghost var piece := EagerRead(data, position, buf.Length);
      assert piece == data[start..start + n];
      forall i | 0 <= i < n {
        buf[i] := data[start + i];
      }
      position := position + n;
      assert buf[..n] == piece && buf[n..] == old(buf[n..]);
    }

    /** A cursor seeks without looking at its bytes, and stays where it is when the target is out of range. */
    method Seek(from: SeekFrom) returns (r: Result<u64, FileError>)
      requires Valid()
      modifies this
      ensures Valid()
      ensures r == match EagerSeek(data, old(position), from) { case Some(p) => Ok(p) case None => Err(InvalidSeek) }
      ensures position == if r.Ok? then r.value else old(position)
      ensures r.Ok? ==> position == match from {
                          case Start(p) => p
                          case Current(offset) => old(position) + offset
                          case End(offset) => |data| + offset
                        }
      ensures r.Err? ==>
                var target := match from
                              case Start(p) => p
                              case Current(offset) => old(position) + offset
                              case End(offset) => |data| + offset;
                target < 0 || target >= 0x1_0000_0000_0000_0000
    {
      var target :=
        match from
        case Start(p) => Some(p)
        case Current(offset) => OffsetPosition(position, offset)
        case End(offset) => OffsetPosition(|data|, offset);
      if target.None? {
        return Err(InvalidSeek);
      }
      position := target.value;
      return Ok(position);
    }
  }
}

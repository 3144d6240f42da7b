/**
  The text a batch becomes for Postgres `COPY ... WITH (FORMAT csv, NULL '\N')`, and a reader of that
  text: the quoting rules of section 2 of RFC 4180, with an unquoted `\N` for NULL.
*/
module CopyCsv {
  import opened Wrappers
  import opened Utf8
  import opened Decimal
  import opened Text

  const QUOTE: byte := 0x22
  const COMMA: byte := 0x2C
  const NEWLINE: byte := 0x0A
  const NULL_MARK: bytes := [0x5C, 0x4E]

  // ------------------------------------------------------------------------------------------
  // Text.

  type Field = Option<bytes>

  function Escaped(b: byte): bytes {
    if b == QUOTE then [QUOTE, QUOTE] else [b]
  }

  function Doubled(value: bytes): bytes {
    if value == [] then [] else Escaped(value[0]) + Doubled(value[1..])
  }

  function Quoted(value: bytes): bytes {
    [QUOTE] + Doubled(value) + [QUOTE]
  }

  function FieldText(field: Field): bytes {
    if field.None? then NULL_MARK else Quoted(field.value)
  }

  function FieldTexts(fields: seq<Field>): (texts: seq<bytes>)
    ensures |texts| == |fields|
  {
    if fields == [] then [] else [FieldText(fields[0])] + FieldTexts(fields[1..])
  }

  function LineText(fields: seq<Field>): bytes {
    Join(FieldTexts(fields), [COMMA]) + [NEWLINE]
  }

  function LineTexts(rows: seq<seq<Field>>): (texts: seq<bytes>)
    ensures |texts| == |rows|
  {
    if rows == [] then [] else [LineText(rows[0])] + LineTexts(rows[1..])
  }

  function CsvText(rows: seq<seq<Field>>): bytes {
    Flatten(LineTexts(rows))
  }

  // ------------------------------------------------------------------------------------------
  // The reader.

  /** Inside quotes: up to the first quote that is not doubled. */
  function ReadQuoted(data: bytes): (r: Option<(bytes, bytes)>)
    ensures r.Some? ==> |r.value.1| < |data|
  {
    if data == [] then None
    else if data[0] != 0x22 then
      match ReadQuoted(data[1..])
      case None => None
      case Some((value, rest)) => Some(([data[0]] + value, rest))
    else if |data| > 1 && data[1] == 0x22 then
      match ReadQuoted(data[2..])
      case None => None
      case Some((value, rest)) => Some(([0x22] + value, rest))
    else Some(([], data[1..]))
  }

  function ReadBare(data: bytes): (r: (bytes, bytes))
    ensures |r.1| <= |data|
  {
    if data == [] || data[0] == 0x2C || data[0] == 0x0A then ([], data)
    else
      var (value, rest) := ReadBare(data[1..]);
      ([data[0]] + value, rest)
  }

  function ReadField(data: bytes): (r: Option<(Field, bytes)>)
    ensures r.Some? ==> |r.value.1| <= |data|
  {
    if data != [] && data[0] == 0x22 then
      match ReadQuoted(data[1..])
      case None => None
      case Some((value, rest)) => Some((Some(value), rest))
    else
      var (value, rest) := ReadBare(data);
      Some((if value == [0x5C, 0x4E] then None else Some(value), rest))
  }

  function ReadLine(data: bytes): (r: Option<(seq<Field>, bytes)>)
    ensures r.Some? ==> |r.value.1| < |data|
    decreases |data|
  {
    match ReadField(data)
    case None => None
    case Some((field, rest)) =>
      if rest == [] then None
      else if rest[0] == 0x0A then Some(([field], rest[1..]))
      else if rest[0] == 0x2C then
        match ReadLine(rest[1..])
        case None => None
        case Some((fields, later)) => Some(([field] + fields, later))
      else None
  }

  function ReadCsv(data: bytes): Option<seq<seq<Field>>>
    decreases |data|
  {
    if data == [] then Some([])
    else
      match ReadLine(data)
      case None => None
      case Some((row, rest)) =>
        match ReadCsv(rest)
        case None => None
        case Some(rows) => Some([row] + rows)
  }

  lemma {:induction false} QuotedReadsBack(value: bytes, rest: bytes)
    requires rest == [] || rest[0] != QUOTE
    ensures ReadQuoted(Doubled(value) + [QUOTE] + rest) == Some((value, rest))
  {
    var data := Doubled(value) + [QUOTE] + rest;
    if value == [] {
      assert data == [QUOTE] + rest && data[1..] == rest;
    } else {
      var later := Doubled(value[1..]) + [QUOTE] + rest;
      QuotedReadsBack(value[1..], rest);
      if value[0] == QUOTE {
        assert data == [QUOTE, QUOTE] + later && data[2..] == later;
      } else {
        assert data == [value[0]] + later && data[1..] == later;
      }
      assert value == [value[0]] + value[1..];
    }
  }

  ghost predicate EndsField(rest: bytes) {
    rest != [] && (rest[0] == COMMA || rest[0] == NEWLINE)
  }

  lemma NullReadsBack(rest: bytes)
    requires EndsField(rest)
    ensures ReadField(NULL_MARK + rest) == Some((None, rest))
  {
    var data := NULL_MARK + rest;
    var tail := [0x4E] + rest;
    assert data[0] == 0x5C && data[1..] == tail && tail[1..] == rest;
    assert ReadBare(rest) == ([], rest);
    assert ReadBare(tail) == ([0x4E] + [], rest);
    assert ReadBare(data) == ([0x5C] + ([0x4E] + []), rest);
    assert [0x5C] + ([0x4E] + []) == NULL_MARK;
  }

  lemma TextReadsBack(value: bytes, rest: bytes)
    requires EndsField(rest)
    ensures ReadField(Quoted(value) + rest) == Some((Some(value), rest))
  {
    var tail := Doubled(value) + [QUOTE] + rest;
    assert Quoted(value) + rest == [QUOTE] + tail && ([QUOTE] + tail)[1..] == tail;
    QuotedReadsBack(value, rest);
  }

  lemma FieldReadsBack(field: Field, rest: bytes)
    requires EndsField(rest)
    ensures ReadField(FieldText(field) + rest) == Some((field, rest))
  {
    match field
    case Some(value) => TextReadsBack(value, rest);
    case None => NullReadsBack(rest);
  }

  lemma LastFieldReadsBack(field: Field, rest: bytes)
    ensures ReadLine(FieldText(field) + ([NEWLINE] + rest)) == Some(([field], rest))
  {
    FieldReadsBack(field, [NEWLINE] + rest);
    assert ([NEWLINE] + rest)[1..] == rest;
  }

  lemma NextFieldReadsBack(field: Field, fields: seq<Field>, later: bytes, rest: bytes)
    requires ReadLine(later) == Some((fields, rest))
    ensures ReadLine(FieldText(field) + ([COMMA] + later)) == Some(([field] + fields, rest))
  {
    FieldReadsBack(field, [COMMA] + later);
    assert ([COMMA] + later)[1..] == later;
  }

  lemma {:induction false} LineReadsBack(fields: seq<Field>, rest: bytes)
    requires fields != []
    ensures ReadLine(Join(FieldTexts(fields), [COMMA]) + ([NEWLINE] + rest)) == Some((fields, rest))
  {
    var text, texts := FieldText(fields[0]), FieldTexts(fields);
    assert texts[0] == text && texts[1..] == FieldTexts(fields[1..]);
    if |fields| == 1 {
      LastFieldReadsBack(fields[0], rest);
      assert fields == [fields[0]];
    } else {
      var later := Join(texts[1..], [COMMA]);
      LineReadsBack(fields[1..], rest);
      NextFieldReadsBack(fields[0], fields[1..], later + ([NEWLINE] + rest), rest);
      Assoc(text + [COMMA], later, [NEWLINE] + rest);
      Assoc(text, [COMMA], later + ([NEWLINE] + rest));
      assert fields == [fields[0]] + fields[1..];
    }
  }

  lemma RowReadsBack(row: seq<Field>, later: bytes, rows: seq<seq<Field>>)
    requires row != [] && ReadCsv(later) == Some(rows)
    ensures ReadCsv(LineText(row) + later) == Some([row] + rows)
  {
    LineReadsBack(row, later);
    Assoc(Join(FieldTexts(row), [COMMA]), [NEWLINE], later);
    assert |LineText(row) + later| > 0;
  }

  /** Round trip: every field comes back, with NULL, the empty text and the text `\N` kept apart. */
  lemma {:induction false} CsvReadsBack(rows: seq<seq<Field>>)
    requires forall i :: 0 <= i < |rows| ==> rows[i] != []
    ensures ReadCsv(CsvText(rows)) == Some(rows)
  {
    if rows != [] {
      CsvReadsBack(rows[1..]);
      assert LineTexts(rows)[1..] == LineTexts(rows[1..]);
      RowReadsBack(rows[0], CsvText(rows[1..]), rows[1..]);
      assert rows == [rows[0]] + rows[1..];
    }
  }

  // ------------------------------------------------------------------------------------------
  // Escaping through a fixed output buffer.

  /**
    The contract of the csv-core writer with quotes always on. A call writes at most `capacity` bytes:
    the opening quote if the field has not been opened, then the escaped form of the part of the input it
    consumes. It reports a full buffer exactly when input is left, and a capacity of two is enough to
    make progress. How much it consumes beyond that is its own choice, here any choice.
  */
  class FieldWriter {
    var inField: bool

    constructor ()
      ensures !inField
    {
      inField := false;
    }

    method Field(input: bytes, capacity: nat) returns (full: bool, consumed: nat, written: bytes)
      modifies this
      ensures consumed <= |input| && |written| <= capacity
      ensures written == (if inField && !old(inField) then [QUOTE] else []) + Doubled(input[..consumed])
      ensures old(inField) ==> inField
      ensures !inField ==> written == [] && consumed == 0
      ensures full <==> !inField || consumed < |input|
      ensures full && capacity >= 2 ==> inField && (consumed > 0 || !old(inField))
    {
      written, consumed := [], 0;
      if !inField {
        if capacity == 0 {
          return true, 0, [];
        }
        inField := true;
        written := [QUOTE];
      }
      ghost var opening := written;
      EmptyLast(opening);
      var enough :| 1 <= enough <= |input| + 1;
      while consumed < |input| && consumed < enough
        invariant consumed <= |input| && |written| <= capacity
        invariant written == opening + Doubled(input[..consumed])
        invariant inField && opening == (if old(inField) then [] else [QUOTE])
        invariant consumed > 0 || written == opening
      {
        var piece := Escaped(input[consumed]);
        if |written| + |piece| > capacity {
          assert consumed > 0 || opening != [] || capacity < 2;
          break;
        }
        DoubledNext(opening, input, consumed);
        written := written + piece;
        consumed := consumed + 1;
      }
      full := consumed < |input|;
    }

    method Finish(capacity: nat) returns (full: bool, written: bytes)
      requires inField
      modifies this
      ensures full <==> capacity == 0
      ensures full ==> inField && written == []
      ensures !full ==> !inField && written == [QUOTE]
    {
      if capacity == 0 {
        return true, [];
      }
      inField := false;
      return false, [QUOTE];
    }
  }

  lemma {:induction false} DoubledConcat(a: bytes, b: bytes)
    ensures Doubled(a + b) == Doubled(a) + Doubled(b)
  {
    if a == [] {
      assert a + b == b;
    } else {
      assert (a + b)[1..] == a[1..] + b;
      DoubledConcat(a[1..], b);
    }
  }

  lemma DoubledSnoc(a: bytes, b: byte)
    ensures Doubled(a + [b]) == Doubled(a) + Escaped(b)
  {
    DoubledConcat(a, [b]);
    assert [b][1..] == [];
    EmptyLast(Escaped(b));
  }

  lemma DoubledNext(opening: bytes, input: bytes, i: nat)
    requires i < |input|
    ensures opening + Doubled(input[..i + 1]) == (opening + Doubled(input[..i])) + Escaped(input[i])
  {
    assert input[..i + 1] == input[..i] + [input[i]];
    DoubledSnoc(input[..i], input[i]);
    Assoc(opening, Doubled(input[..i]), Escaped(input[i]));
  }

  /** The field so far, behind what was there before it. */
  ghost function FieldStart(data: bytes, within: bool, done: bytes): bytes {
    data + (if within then [QUOTE] else []) + Doubled(done)
  }

  lemma ChunkAppends(data: bytes, before: bool, within: bool, done: bytes, chunk: bytes, written: bytes)
    requires (before ==> within) && (!before ==> done == [])
    requires written == (if within && !before then [QUOTE] else []) + Doubled(chunk)
    ensures FieldStart(data, before, done) + written == FieldStart(data, within, done + chunk)
  {
    if before || !within {
      EmptyFirst(Doubled(chunk));
      DoubledConcat(done, chunk);
      Assoc(data + (if within then [QUOTE] else []), Doubled(done), Doubled(chunk));
    } else {
      EmptyLast(data);
      EmptyFirst(chunk);
      Assoc(data, [QUOTE], Doubled(chunk));
    }
  }

  lemma TakeMore(done: bytes, input: bytes, n: nat)
    requires n <= |input|
    ensures (done + input[..n]) + input[n..] == done + input
  {
    assert input == input[..n] + input[n..];
    Assoc(done, input[..n], input[n..]);
  }

  lemma FieldEnds(data: bytes, value: bytes)
    ensures FieldStart(data, true, value) + [QUOTE] == data + Quoted(value)
  {
    Assoc(data + [QUOTE], Doubled(value), [QUOTE]);
    Assoc(data, [QUOTE], Doubled(value) + [QUOTE]);
    Assoc([QUOTE], Doubled(value), [QUOTE]);
  }

  /** Whatever the chunks, the field is appended as one quoted whole; the program's buffer has 1024 bytes. */
  method PushCsvEscapedField(data: bytes, value: bytes, capacity: nat) returns (out: bytes)
    requires capacity >= 2
    ensures out == data + Quoted(value)
  {
    var writer := new FieldWriter();
    var input := value;
    ghost var done: bytes := [];
    out := data;
    EmptyLast(data);
    EmptyFirst(value);
    var full := true;
    while full
      invariant done + input == value
      invariant out == FieldStart(data, writer.inField, done)
      invariant !writer.inField ==> done == []
      invariant !full ==> writer.inField && input == []
      decreases |input|, !writer.inField, full
    {
      ghost var before := writer.inField;
      var consumed, written;
      full, consumed, written := writer.Field(input, capacity);
      ChunkAppends(data, before, writer.inField, done, input[..consumed], written);
      TakeMore(done, input, consumed);
      done := done + input[..consumed];
      out := out + written;
      input := input[consumed..];
    }
    EmptyLast(done);
    FieldEnds(data, value);
    // There is always room for the closing quote, so the finishing loop runs once.
    var _, closing := writer.Finish(capacity);
    out := out + closing;
  }

  // ------------------------------------------------------------------------------------------
  // Typed cells.

  /** A float is known by the text the library prints for it, a date or time by the integer that counts its units. */
  datatype Cell =
    | Null
    | Boolean(b: bool)
    | Int(n: i64)
    | UInt64(u: u64)
    | Float(printed: string)
    | Utf8Text(text: string)
    | Binary(data: bytes)
    | Temporal(count: i64)
    | OtherType(name: string)

  datatype CsvError = DoesNotFit(u: u64) | NotSupported(name: string)

  function LowerHex(n: nat): char
    requires n < 16
  {
    if n < 10 then '0' + n as char else 'a' + (n - 10) as char
  }

  function HexPairs(value: bytes): string {
    if value == [] then [] else [LowerHex(value[0] as nat / 16), LowerHex(value[0] as nat % 16)] + HexPairs(value[1..])
  }

  method PostgresByteaHex(value: bytes) returns (out: string)
    ensures out == "\\x" + HexPairs(value)
  {
    out := "\\x";
    for i := 0 to |value|
      invariant out + HexPairs(value[i..]) == "\\x" + HexPairs(value)
    {
      ghost var later := HexPairs(value[i + 1..]);
      assert value[i..][1..] == value[i + 1..];
      var pair := [LowerHex(value[i] as nat / 16), LowerHex(value[i] as nat % 16)];
      assert out + (pair + later) == (out + pair) + later;
      out := out + pair;
    }
  }

  /**
    Every cell has a text but an unsigned integer too large for a bigint, a date or time, and a value of another
    type.
  */
  predicate HasText(cell: Cell) {
    !cell.OtherType? && !cell.Temporal? && (cell.UInt64? ==> cell.u <= I64_MAX)
  }

  /** The text of a cell, or None for NULL. */
  function CopyCsvValue(cell: Cell): (r: Result<Option<string>, CsvError>)
    ensures r.Ok? <==> HasText(cell)
    ensures r.Ok? ==> (r.value.None? <==> cell.Null?)
  {
    match cell
    case Null => Ok(None)
    case Boolean(b) => Ok(Some(if b then "true" else "false"))
    case Int(n) => Ok(Some(IntText(n)))
    case UInt64(u) => if u <= I64_MAX then Ok(Some(IntText(u))) else Err(DoesNotFit(u))
    case Float(printed) => Ok(Some(printed))
    case Utf8Text(text) => Ok(Some(text))
    case Binary(data) => Ok(Some("\\x" + HexPairs(data)))
    case Temporal(_) => Err(NotSupported("temporal"))
    case OtherType(name) => Err(NotSupported(name))
  }

  /**
    What the database makes of a field in a column of the cell's type: the field read by the input rules of that
    type.
  */
  datatype ColumnType = BoolColumn | IntColumn | FloatColumn | TextColumn | ByteaColumn

  function ReadHexDigit(c: char): (r: Option<nat>)
    ensures r.Some? ==> r.value < 16
  {
    if '0' <= c <= '9' then Some(c as int - '0' as int)
    else if 'a' <= c <= 'f' then Some(c as int - 'a' as int + 10)
    else None
  }

  function ReadHexPairs(s: string): Option<bytes> {
    if s == [] then Some([])
    else if |s| == 1 || ReadHexDigit(s[0]).None? || ReadHexDigit(s[1]).None? then None
    else
      match ReadHexPairs(s[2..])
      case None => None
      case Some(rest) => Some([(ReadHexDigit(s[0]).value * 16 + ReadHexDigit(s[1]).value) as byte] + rest)
  }

  function ReadCell(columnType: ColumnType, field: Field): Option<Cell> {
    if field.None? then Some(Null)
    else
      var text := DecodeLossy(field.value);
      match columnType
      case BoolColumn =>
        if text == "true" then Some(Boolean(true)) else if text == "false" then Some(Boolean(false)) else None
      case IntColumn =>
        (match ReadInt(text)
         case None => None
         case Some(n) => if I64_MIN <= n <= I64_MAX then Some(Int(n)) else None)
      case FloatColumn => Some(Float(text))
      case TextColumn => Some(Utf8Text(text))
      case ByteaColumn =>
        if |text| >= 2 && text[..2] == "\\x" then
          match ReadHexPairs(text[2..]) case None => None case Some(data) => Some(Binary(data))
        else None
  }

  predicate Belongs(cell: Cell, columnType: ColumnType) {
    match cell
    case Null => true
    case Boolean(_) => columnType.BoolColumn?
    case Int(_) => columnType.IntColumn?
    case UInt64(_) => columnType.IntColumn?
    case Float(_) => columnType.FloatColumn?
    case Utf8Text(_) => columnType.TextColumn?
    case Binary(_) => columnType.ByteaColumn?
    case Temporal(_) => false
    case OtherType(_) => false
  }

  /** The value in the column: an unsigned integer that fits is the signed one. */
  function Stored(cell: Cell): Cell {
    if cell.UInt64? && cell.u <= I64_MAX then Int(cell.u) else cell
  }

  lemma HexDigitsReadBack(b: byte)
    ensures var n := b as nat;
            ReadHexDigit(LowerHex(n / 16)) == Some(n / 16) && ReadHexDigit(LowerHex(n % 16)) == Some(n % 16)
  {
  }

  lemma {:induction false} HexReadsBack(value: bytes)
    ensures ReadHexPairs(HexPairs(value)) == Some(value)
  {
    if value != [] {
      HexReadsBack(value[1..]);
      HexDigitsReadBack(value[0]);
      assert value == [(value[0] as nat / 16 * 16 + value[0] as nat % 16) as byte] + value[1..];
      assert HexPairs(value)[2..] == HexPairs(value[1..]);
    }
  }

  /** Two hexadecimal digits for each byte. */
  lemma HexPairsAt(value: bytes, i: nat)
    requires i < |value|
    ensures |HexPairs(value)| == 2 * |value|
    ensures HexPairs(value)[2 * i] == "0123456789abcdef"[value[i] / 16]
    ensures HexPairs(value)[2 * i + 1] == "0123456789abcdef"[value[i] % 16]
  {
    PairAt(value, i);
    var pair := HexPairs(value)[2 * i..2 * i + 2];
    assert pair[0] == HexPairs(value)[2 * i] && pair[1] == HexPairs(value)[2 * i + 1];
    LowerHexIs(value[i] as nat / 16);
    LowerHexIs(value[i] as nat % 16);
  }

  lemma {:induction false} PairAt(value: bytes, i: nat)
    requires i < |value|
    ensures |HexPairs(value)| == 2 * |value|
    ensures HexPairs(value)[2 * i..2 * i + 2] == [LowerHex(value[i] as nat / 16), LowerHex(value[i] as nat % 16)]
  {
    var first, rest := HexPairs(value)[..2], HexPairs(value[1..]);
    assert HexPairs(value) == first + rest;
    if i > 0 {
      PairAt(value[1..], i - 1);
      assert (first + rest)[2 * i..2 * i + 2] == rest[2 * (i - 1)..2 * (i - 1) + 2];
    } else if |value| > 1 {
      PairAt(value[1..], 0);
    } else {
      assert value[1..] == [];
    }
  }

  lemma LowerHexIs(n: nat)
    requires n < 16
    ensures LowerHex(n) == "0123456789abcdef"[n]
  {
    assert n >= 10 ==> "0123456789abcdef"[n] as int == 'a' as int + (n - 10);
  }

  /** The field of each cell, word for word: a text stands for itself, and nothing stands for NULL. */
  lemma FieldsAre(b: bool, n: i64, u: u64, text: string, data: bytes)
    ensures FieldOf(Null) == None
    ensures FieldOf(Boolean(b)) == Some(Encode(if b then "true" else "false"))
    ensures FieldOf(Int(n)) == Some(Encode(if n < 0 then "-" + NatText(-(n as int)) else NatText(n)))
    ensures u <= I64_MAX ==> FieldOf(UInt64(u)) == Some(Encode(NatText(u)))
    ensures FieldOf(Float(text)) == FieldOf(Utf8Text(text)) == Some(Encode(text))
    ensures FieldOf(Binary(data)) == Some(Encode("\\x" + HexPairs(data)))
  {
  }

  /** Why a cell has no text: an unsigned integer that no bigint holds, or a type that is not supported. */
  lemma NoTextBecause(cell: Cell)
    requires CopyCsvValue(cell).Err?
    ensures || (cell.UInt64? && cell.u >= 0x8000_0000_0000_0000
                && CopyCsvValue(cell).error == CsvError.DoesNotFit(cell.u))
            || (cell.OtherType? && CopyCsvValue(cell).error == NotSupported(cell.name))
            || (cell.Temporal? && CopyCsvValue(cell).error.NotSupported?)
  {
  }

  /** Every cell that can be written comes back as it was. */
  lemma CellReadsBack(cell: Cell, columnType: ColumnType)
    requires Belongs(cell, columnType) && HasText(cell)
    ensures var text := CopyCsvValue(cell).value;
            ReadCell(columnType, if text.Some? then Some(Encode(text.value)) else None) == Some(Stored(cell))
  {
    var text := CopyCsvValue(cell).value;
    if text.Some? {
      DecodeInvertsEncode(text.value);
      match cell
      case Int(n) => IntReadsBack(n);
      case UInt64(u) => IntReadsBack(u);
      case Binary(data) =>
        HexReadsBack(data);
        assert text.value[2..] == HexPairs(data);
      case _ =>
    }
  }

  // ------------------------------------------------------------------------------------------
  // Batches.

  /** Columns of equal length. */
  datatype Batch = Batch(names: seq<string>, columns: seq<seq<Cell>>, rowCount: nat)

  predicate IsBatch(batch: Batch) {
    |batch.names| == |batch.columns| && forall c :: 0 <= c < |batch.columns| ==> |batch.columns[c]| == batch.rowCount
  }

  ghost predicate WritableRow(batch: Batch, r: nat)
    requires IsBatch(batch) && r < batch.rowCount
  {
    forall c :: 0 <= c < |batch.columns| ==> HasText(batch.columns[c][r])
  }

  ghost predicate Writable(batch: Batch)
    requires IsBatch(batch)
  {
    forall r :: 0 <= r < batch.rowCount ==> WritableRow(batch, r)
  }

  function FieldOf(cell: Cell): Field {
    match CopyCsvValue(cell)
    case Ok(Some(text)) => Some(Encode(text))
    case _ => None
  }

  lemma FieldOfReadsBack(cell: Cell, columnType: ColumnType)
    requires Belongs(cell, columnType) && HasText(cell)
    ensures ReadCell(columnType, FieldOf(cell)) == Some(Stored(cell))
  {
    CellReadsBack(cell, columnType);
  }

  /** `fields` are the fields of row `r`. */
  ghost predicate IsFieldRow(batch: Batch, r: nat, fields: seq<Field>)
    requires IsBatch(batch) && r < batch.rowCount
  {
    |fields| == |batch.columns| && forall c :: 0 <= c < |fields| ==> fields[c] == FieldOf(batch.columns[c][r])
  }

  ghost predicate AreFieldRows(batch: Batch, rows: seq<seq<Field>>)
    requires IsBatch(batch)
  {
    |rows| == batch.rowCount && forall r :: 0 <= r < |rows| ==> IsFieldRow(batch, r, rows[r])
  }

  lemma {:induction false} LineTextsSnoc(rows: seq<seq<Field>>, last: seq<Field>)
    ensures LineTexts(rows + [last]) == LineTexts(rows) + [LineText(last)]
  {
    if rows == [] {
      assert rows + [last] == [last] && [last][1..] == [];
    } else {
      assert (rows + [last])[1..] == rows[1..] + [last];
      LineTextsSnoc(rows[1..], last);
    }
  }

  lemma {:induction false} FieldTextsSnoc(fields: seq<Field>, last: Field)
    ensures FieldTexts(fields + [last]) == FieldTexts(fields) + [FieldText(last)]
  {
    if fields == [] {
      assert fields + [last] == [last] && [last][1..] == [];
    } else {
      assert (fields + [last])[1..] == fields[1..] + [last];
      FieldTextsSnoc(fields[1..], last);
    }
  }

  method PushField(data: bytes, cell: Cell) returns (r: Result<bytes, CsvError>, ghost field: Field)
    ensures r.Ok? <==> HasText(cell)
    ensures r.Ok? ==> field == FieldOf(cell) && r.value == data + FieldText(field)
  {
    field := FieldOf(cell);
    var value := CopyCsvValue(cell);
    match value {
      case Err(error) => r := Err(error);
      case Ok(None) => r := Ok(data + NULL_MARK);
      case Ok(Some(text)) =>
        var out := PushCsvEscapedField(data, Encode(text), 1024);
        r := Ok(out);
    }
  }

  /** `fields` are the first fields of row `r`, all of cells that have a text. */
  ghost predicate StartsRow(batch: Batch, r: nat, fields: seq<Field>)
    requires IsBatch(batch) && r < batch.rowCount
  {
    && |fields| <= |batch.columns|
    && forall c :: 0 <= c < |fields| ==> HasText(batch.columns[c][r]) && fields[c] == FieldOf(batch.columns[c][r])
  }

  /** The fields of a row so far, behind what was there before it. */
  ghost function RowStart(data: bytes, fields: seq<Field>): bytes {
    data + Join(FieldTexts(fields), [COMMA])
  }

  /** The next field of a row, behind a comma unless it is the first. */
  method PushNext(out: bytes, cell: Cell, index: nat, ghost data: bytes, ghost fields: seq<Field>)
    returns (r: Result<bytes, CsvError>, ghost more: seq<Field>)
    requires out == RowStart(data, fields) && index == |fields|
    ensures r.Ok? <==> HasText(cell)
    ensures r.Ok? ==> more == fields + [FieldOf(cell)] && r.value == RowStart(data, more)
  {
    ghost var field;
    r, field := PushField(if index > 0 then out + [COMMA] else out, cell);
    more := fields + [field];
    FieldTextsSnoc(fields, field);
    AppendPart(data, FieldTexts(fields), FieldText(field));
  }

  lemma OneMoreField(batch: Batch, r: nat, fields: seq<Field>)
    requires IsBatch(batch) && r < batch.rowCount && StartsRow(batch, r, fields) && |fields| < |batch.columns|
    requires HasText(batch.columns[|fields|][r])
    ensures StartsRow(batch, r, fields + [FieldOf(batch.columns[|fields|][r])])
  {
  }

  /** One row, appended to what is there. */
  method PushRow(data: bytes, batch: Batch, row: nat) returns (r: Result<bytes, CsvError>, ghost fields: seq<Field>)
    requires IsBatch(batch) && row < batch.rowCount
    ensures r.Ok? <==> WritableRow(batch, row)
    ensures r.Ok? ==> IsFieldRow(batch, row, fields) && r.value == data + LineText(fields)
  {
    var out := data;
    fields := [];
    EmptyLast(data);
    for index := 0 to |batch.columns|
      invariant |fields| == index && StartsRow(batch, row, fields)
      invariant out == RowStart(data, fields)
    {
      ghost var more;
      r, more := PushNext(out, batch.columns[index][row], index, data, fields);
      if r.Err? {
        return;
      }
      OneMoreField(batch, row, fields);
      out, fields := r.value, more;
    }
    Assoc(data, Join(FieldTexts(fields), [COMMA]), [NEWLINE]);
    r := Ok(out + [NEWLINE]);
  }

  lemma AppendPart(data: bytes, texts: seq<bytes>, text: bytes)
    ensures texts == [] ==> (data + Join(texts, [COMMA])) + text == data + Join(texts + [text], [COMMA])
    ensures texts != [] ==> ((data + Join(texts, [COMMA])) + [COMMA]) + text == data + Join(texts + [text], [COMMA])
  {
    if texts != [] {
      JoinSnoc(texts, text, [COMMA]);
      Assoc(data, Join(texts, [COMMA]), [COMMA]);
      Assoc(data, Join(texts, [COMMA]) + [COMMA], text);
    }
  }

  /** `rows` are the fields of the first rows, all of cells that have a text. */
  ghost predicate StartsBatch(batch: Batch, rows: seq<seq<Field>>)
    requires IsBatch(batch)
  {
    |rows| <= batch.rowCount && forall k :: 0 <= k < |rows| ==> WritableRow(batch, k) && IsFieldRow(batch, k, rows[k])
  }

  lemma OneMoreRow(batch: Batch, rows: seq<seq<Field>>, fields: seq<Field>)
    requires IsBatch(batch) && |rows| < batch.rowCount && StartsBatch(batch, rows)
    requires WritableRow(batch, |rows|) && IsFieldRow(batch, |rows|, fields)
    ensures StartsBatch(batch, rows + [fields])
  {
  }

  lemma CsvTextSnoc(rows: seq<seq<Field>>, fields: seq<Field>)
    ensures CsvText(rows + [fields]) == CsvText(rows) + LineText(fields)
  {
    LineTextsSnoc(rows, fields);
    FlattenSnoc(LineTexts(rows), LineText(fields));
  }

  /** The text of a batch; it fails exactly when some cell has no text. */
  method BatchToCopyCsv(batch: Batch) returns (r: Result<bytes, CsvError>, ghost rows: seq<seq<Field>>)
    requires IsBatch(batch)
    ensures r.Ok? <==> Writable(batch)
    ensures r.Ok? ==> AreFieldRows(batch, rows) && r.value == CsvText(rows)
  {
    var data: bytes := [];
    rows := [];
    for row := 0 to batch.rowCount
      invariant |rows| == row && StartsBatch(batch, rows)
      invariant data == CsvText(rows)
    {
      ghost var fields;
      r, fields := PushRow(data, batch, row);
      if r.Err? {
        return;
      }
      OneMoreRow(batch, rows, fields);
      CsvTextSnoc(rows, fields);
      rows := rows + [fields];
      data := r.value;
    }
    r := Ok(data);
  }

  /** Round trip of a batch: reading its text by the column types gives every cell back in its place. */
  lemma BatchReadsBack(batch: Batch, rows: seq<seq<Field>>, types: seq<ColumnType>)
    requires IsBatch(batch) && Writable(batch) && batch.columns != [] && |types| == |batch.columns|
    requires forall c, r :: 0 <= c < |batch.columns| && 0 <= r < batch.rowCount ==>
               Belongs(batch.columns[c][r], types[c])
    requires AreFieldRows(batch, rows)
    ensures ReadCsv(CsvText(rows)) == Some(rows)
    ensures forall r, c :: 0 <= r < batch.rowCount && 0 <= c < |batch.columns| ==>
              ReadCell(types[c], rows[r][c]) == Some(Stored(batch.columns[c][r]))
  {
    forall r | 0 <= r < |rows| ensures rows[r] != [] {
      assert IsFieldRow(batch, r, rows[r]);
    }
    CsvReadsBack(rows);
    forall r, c | 0 <= r < batch.rowCount && 0 <= c < |batch.columns|
      ensures ReadCell(types[c], rows[r][c]) == Some(Stored(batch.columns[c][r]))
    {
      assert WritableRow(batch, r) && IsFieldRow(batch, r, rows[r]);
      FieldOfReadsBack(batch.columns[c][r], types[c]);
    }
  }
}

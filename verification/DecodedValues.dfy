/**
  What the typed columns hold: the values of the rows, in the types announced for their columns. Neither the values
  nor the choice of a type is stated through the program's own decoders and tables.
*/
module DecodedValues {
  import opened Wrappers
  import opened Text
  import opened Decimal
  import opened Utf8
  import opened TypeInference

  // ------------------------------------------------------------------------------------------
  // SQLite: the values.

  /** The text says the value. */
  ghost predicate SaysValue(text: TextForm, value: Payload) {
    match value
    case TextValue(s) => text == Exactly(s)
    case BlobValue(data) => text == Exactly(DecodeLossy(data))
    case RealValue(r) => text == RealText(r)
    case BoolValue(b) => text == Exactly(if b then "true" else "false")
    case IntValue(n) => text.Exactly? && ReadInt(text.s) == Some(n)
  }

  /** The cell holds the value that the row has there, and nothing where the row has NULL. */
  ghost predicate HoldsValue(cell: Option<Cell>, raw: Raw<Payload>) {
    match cell
    case None => raw.Null?
    case Some(BoolCell(b)) =>
      raw.Value? && (raw.payload == BoolValue(b) || (raw.payload.IntValue? && b == (raw.payload.n != 0)))
    case Some(IntCell(n)) =>
      raw.Value? && (raw.payload == IntValue(n) || (raw.payload.BoolValue? && n == if raw.payload.b then 1 else 0))
    case Some(FloatCell(Real(r))) => raw.Value? && raw.payload == RealValue(r)
    case Some(FloatCell(OfBool(b))) => raw.Value? && raw.payload == BoolValue(b)
    case Some(FloatCell(OfInt(n))) => raw.Value? && raw.payload == IntValue(n)
    case Some(BinaryCell(data)) => raw.Value? && raw.payload == BlobValue(data)
    case Some(TextBytesCell(text)) => raw.Value? && !raw.payload.BlobValue? && SaysValue(text, raw.payload)
    case Some(TextCell(text)) => raw.Value? && SaysValue(text, raw.payload)
  }

  /** The cell is of the Arrow type; a NULL is of any. */
  ghost predicate IsOfType(cell: Option<Cell>, arrowType: ArrowType) {
    match cell
    case None => true
    case Some(BoolCell(_)) => arrowType == Boolean
    case Some(IntCell(_)) => arrowType == Int64
    case Some(FloatCell(_)) => arrowType == Float64
    case Some(BinaryCell(_)) => arrowType == Binary
    case Some(TextBytesCell(_)) => arrowType == Binary
    case Some(TextCell(_)) => arrowType == ArrowType.Utf8
  }

  lemma DecodedTextSays(t: string, value: Payload)
    requires DecodeText(t, value).Ok?
    ensures SaysValue(DecodeText(t, value).value, value)
  {
    if value.IntValue? {
      IntReadsBack(value.n);
    }
  }

  lemma DecodedCellHolds(kind: Kind, raw: Raw<Payload>, cell: Option<Cell>)
    requires Decode(kind, raw) == Ok(cell)
    ensures HoldsValue(cell, raw) && IsOfType(cell, DataType(kind))
  {
    if raw.Value? && (kind.TextKind? || kind.BinaryKind?) {
      if DecodeText(raw.typeName, raw.payload).Ok? {
        DecodedTextSays(raw.typeName, raw.payload);
      }
    }
  }

  // ------------------------------------------------------------------------------------------
  // SQLite: the type.

  /** The type name has the word in it, whatever the case of its letters. */
  ghost predicate HasWord(t: string, word: string) {
    exists a: string, b: string :: Lower(t) == a + word + b
  }

  lemma ContainsIff(s: string, part: string)
    ensures Contains(s, part) <==> exists a: string, b: string :: s == a + part + b
  {
    if Contains(s, part) {
      var a, b := WhereContained(s, part);
    }
    if exists a: string, b: string :: s == a + part + b {
      var a: string, b: string :| s == a + part + b;
      ContainedBetween(a, part, b);
    }
  }

  lemma {:induction false} WhereContained(s: string, part: string) returns (a: string, b: string)
    requires Contains(s, part)
    ensures s == a + part + b
  {
    if part <= s {
      a, b := [], s[|part|..];
    } else {
      a, b := WhereContained(s[1..], part);
      OneMoreInFront(s[0], a, part, b);
      a := [s[0]] + a;
    }
  }

  lemma OneMoreInFront(c: char, a: string, part: string, b: string)
    ensures ([c] + a) + part + b == [c] + (a + part + b)
  {
  }

  lemma {:induction false} ContainedBetween(a: string, part: string, b: string)
    ensures Contains(a + part + b, part)
  {
    if a == [] {
      EmptyFirst(part);
    } else {
      ContainedBetween(a[1..], part, b);
      OneMoreInFront(a[0], a[1..], part, b);
      assert [a[0]] + a[1..] == a;
      assert (a + part + b)[1..] == a[1..] + part + b;
    }
  }

  /** A type name of the column: its declared type, or that of a value in it. */
  ghost predicate IsTypeName(metadata: seq<Column>, rows: seq<seq<Raw<Payload>>>, c: nat, t: string)
    requires IsChunk(metadata, rows) && c < |metadata|
  {
    t == metadata[c].declared || exists row: seq<Raw<Payload>> <- rows :: row[c].Value? && row[c].typeName == t
  }

  ghost predicate Mentions(metadata: seq<Column>, rows: seq<seq<Raw<Payload>>>, c: nat, word: string)
    requires IsChunk(metadata, rows) && c < |metadata|
  {
    exists t: string :: IsTypeName(metadata, rows, c, t) && HasWord(t, word)
  }

  ghost predicate AnyHas(names: seq<string>, word: string) {
    exists t <- names :: Contains(Lower(t), word)
  }

  lemma MentionsIff(metadata: seq<Column>, rows: seq<seq<Raw<Payload>>>, c: nat, word: string)
    requires IsChunk(metadata, rows) && c < |metadata|
    ensures Mentions(metadata, rows, c, word)
            <==> AnyHas(TypeNames(metadata[c].declared, rows, c), word)
  {
    var names := TypeNames(metadata[c].declared, rows, c);
    forall t: string
      ensures t in names <==> IsTypeName(metadata, rows, c, t)
      ensures Contains(Lower(t), word) <==> HasWord(t, word)
    {
      NamesAreFromColumn(metadata[c].declared, rows, c, t);
      ContainsIff(Lower(t), word);
    }
  }

  /** The type of a column by the words its type names mention, the first that applies. */
  ghost predicate IsChosen(metadata: seq<Column>, rows: seq<seq<Raw<Payload>>>, c: nat, arrowType: ArrowType)
    requires IsChunk(metadata, rows) && c < |metadata|
  {
    arrowType ==
    if Mentions(metadata, rows, c, "text") || Mentions(metadata, rows, c, "char") then ArrowType.Utf8
    else if Mentions(metadata, rows, c, "blob") then Binary
    else if Mentions(metadata, rows, c, "real") || Mentions(metadata, rows, c, "floa")
            || Mentions(metadata, rows, c, "doub") then Float64
    else if Mentions(metadata, rows, c, "bool") then Boolean
    else if Mentions(metadata, rows, c, "int") then Int64
    else ArrowType.Utf8
  }

  lemma KindByWords(names: seq<string>)
    ensures DataType(KindOf(names)) ==
              if AnyHas(names, "text") || AnyHas(names, "char") then ArrowType.Utf8
              else if AnyHas(names, "blob") then Binary
              else if AnyHas(names, "real") || AnyHas(names, "floa") || AnyHas(names, "doub") then Float64
              else if AnyHas(names, "bool") then Boolean
              else if AnyHas(names, "int") then Int64
              else ArrowType.Utf8
  {
    WordsOf(names);
  }

  lemma WordsOf(names: seq<string>)
    ensures (exists t <- names :: NamesText(t)) <==> AnyHas(names, "text") || AnyHas(names, "char")
    ensures (exists t <- names :: NamesBlob(t)) <==> AnyHas(names, "blob")
    ensures (exists t <- names :: NamesReal(t))
            <==> AnyHas(names, "real") || AnyHas(names, "floa") || AnyHas(names, "doub")
    ensures (exists t <- names :: NamesBool(t)) <==> AnyHas(names, "bool")
    ensures (exists t <- names :: NamesInt(t)) <==> AnyHas(names, "int")
  {
  }

  lemma SqliteTypeIsChosen(metadata: seq<Column>, rows: seq<seq<Raw<Payload>>>, c: nat)
    requires IsChunk(metadata, rows) && c < |metadata|
    ensures IsChosen(metadata, rows, c, Schema(SQLITE, metadata, rows)[c].arrowType)
  {
    var names := TypeNames(metadata[c].declared, rows, c);
    SqliteTypeAt(metadata, rows, c, names);
    ChosenByWords(metadata, rows, c, names);
  }

  lemma SqliteTypeAt(metadata: seq<Column>, rows: seq<seq<Raw<Payload>>>, c: nat, names: seq<string>)
    requires IsChunk(metadata, rows) && c < |metadata| && names == TypeNames(metadata[c].declared, rows, c)
    ensures Schema(SQLITE, metadata, rows)[c].arrowType == DataType(KindOf(names))
  {
    var kind := KindAt(SQLITE, metadata, rows, c);
    assert kind == SQLITE.choose(names) == KindOf(names);
    assert Schema(SQLITE, metadata, rows)[c] == Field(metadata[c].name, SQLITE.dataType(kind));
  }

  lemma ChosenByWords(metadata: seq<Column>, rows: seq<seq<Raw<Payload>>>, c: nat, names: seq<string>)
    requires IsChunk(metadata, rows) && c < |metadata| && names == TypeNames(metadata[c].declared, rows, c)
    ensures IsChosen(metadata, rows, c, DataType(KindOf(names)))
  {
    MentionsAreWords(metadata, rows, c, names);
    KindByWords(names);
  }

  lemma MentionsAreWords(metadata: seq<Column>, rows: seq<seq<Raw<Payload>>>, c: nat, names: seq<string>)
    requires IsChunk(metadata, rows) && c < |metadata| && names == TypeNames(metadata[c].declared, rows, c)
    ensures Mentions(metadata, rows, c, "text") == AnyHas(names, "text")
    ensures Mentions(metadata, rows, c, "char") == AnyHas(names, "char")
    ensures Mentions(metadata, rows, c, "blob") == AnyHas(names, "blob")
    ensures Mentions(metadata, rows, c, "real") == AnyHas(names, "real")
    ensures Mentions(metadata, rows, c, "floa") == AnyHas(names, "floa")
    ensures Mentions(metadata, rows, c, "doub") == AnyHas(names, "doub")
    ensures Mentions(metadata, rows, c, "bool") == AnyHas(names, "bool")
    ensures Mentions(metadata, rows, c, "int") == AnyHas(names, "int")
  {
    MentionsIff(metadata, rows, c, "text");
    MentionsIff(metadata, rows, c, "char");
    MentionsIff(metadata, rows, c, "blob");
    MentionsIff(metadata, rows, c, "real");
    MentionsIff(metadata, rows, c, "floa");
    MentionsIff(metadata, rows, c, "doub");
    MentionsIff(metadata, rows, c, "bool");
    MentionsIff(metadata, rows, c, "int");
  }

  /** The error names the type name of a value, and it has none of the words. */
  ghost predicate IsUnknown(rows: seq<seq<Raw<Payload>>>, error: DecodeError) {
    exists row: seq<Raw<Payload>> <- rows, raw: Raw<Payload> <- row ::
      raw.Value? && !Recognised(raw.typeName) && error == NotDecodable(raw.typeName)
  }

  lemma RefusedIsUnknown(metadata: seq<Column>, rows: seq<seq<Raw<Payload>>>, k: nat, c: nat, error: DecodeError)
    requires IsChunk(metadata, rows) && AllAgree(rows) && k < |rows| && c < |metadata|
    requires SQLITE.decode(KindAt(SQLITE, metadata, rows, c), rows[k][c]) == Err(error)
    ensures IsUnknown(rows, error)
  {
    assert rows[k] in rows && rows[k][c] in rows[k];
    SqliteValueDecodes(metadata, rows, k, c);
    UnknownIsNamed(KindAt(SQLITE, metadata, rows, c), rows[k][c], error);
  }

  lemma UnknownIsNamed(kind: Kind, raw: Raw<Payload>, error: DecodeError)
    requires Decode(kind, raw) == Err(error) && raw.Value? && !Recognised(raw.typeName)
    ensures error == NotDecodable(raw.typeName)
  {
  }

  /** The batch holds the values of the rows, each in its place and in the type announced for its column. */
  ghost predicate HoldsRows(metadata: seq<Column>, rows: seq<seq<Raw<Payload>>>, batch: Batch<Cell>)
    requires IsChunk(metadata, rows)
  {
    && |batch.schema| == |batch.columns| == |metadata|
    && (forall c :: 0 <= c < |metadata| ==>
          && batch.schema[c].name == metadata[c].name
          && IsChosen(metadata, rows, c, batch.schema[c].arrowType)
          && |batch.columns[c]| == |rows|)
    && forall c, k :: 0 <= c < |metadata| && 0 <= k < |rows| ==>
         && HoldsValue(batch.columns[c][k], rows[k][c])
         && IsOfType(batch.columns[c][k], batch.schema[c].arrowType)
  }

  lemma DecodedRowsAreHeld(metadata: seq<Column>, rows: seq<seq<Raw<Payload>>>, batch: Batch<Cell>)
    requires IsChunk(metadata, rows) && batch.schema == Schema(SQLITE, metadata, rows) && |batch.columns| == |metadata|
    requires forall c :: 0 <= c < |metadata| ==>
               && |batch.columns[c]| == |rows|
               && forall k :: 0 <= k < |rows| ==>
                    SQLITE.decode(KindAt(SQLITE, metadata, rows, c), rows[k][c]) == Ok(batch.columns[c][k])
    ensures HoldsRows(metadata, rows, batch)
  {
    forall c | 0 <= c < |metadata| ensures IsChosen(metadata, rows, c, batch.schema[c].arrowType) {
      SqliteTypeIsChosen(metadata, rows, c);
    }
    forall c, k | 0 <= c < |metadata| && 0 <= k < |rows|
      ensures HoldsValue(batch.columns[c][k], rows[k][c])
      ensures IsOfType(batch.columns[c][k], batch.schema[c].arrowType)
    {
      DecodedCellHolds(KindAt(SQLITE, metadata, rows, c), rows[k][c], batch.columns[c][k]);
    }
  }

  /** Why a chunk is refused. */
  ghost predicate IsRefused(metadata: seq<Column>, rows: seq<seq<Raw<Payload>>>, error: DecodeError) {
    if metadata == [] then error == NoColumns else AllAgree(rows) ==> IsUnknown(rows, error)
  }

  lemma RefusedForAValue(metadata: seq<Column>, rows: seq<seq<Raw<Payload>>>, error: DecodeError)
    requires IsChunk(metadata, rows) && metadata != []
    requires exists k, c :: 0 <= k < |rows| && 0 <= c < |metadata|
                            && SQLITE.decode(KindAt(SQLITE, metadata, rows, c), rows[k][c]) == Err(error)
    ensures IsRefused(metadata, rows, error)
  {
    if AllAgree(rows) {
      var k, c :| 0 <= k < |rows| && 0 <= c < |metadata|
                  && SQLITE.decode(KindAt(SQLITE, metadata, rows, c), rows[k][c]) == Err(error);
      RefusedIsUnknown(metadata, rows, k, c, error);
    }
  }

  /**
    SQLite's chunks. A batch holds the values of the rows, in types chosen by the words in the type names. A chunk
    whose values have the content their type names announce becomes a batch exactly when it has a column and every
    type name has one of the words; otherwise the error names one that has not.
  */
  method SqliteRowsToBatch(metadata: seq<Column>, rows: seq<seq<Raw<Payload>>>)
    returns (r: Result<Batch<Cell>, DecodeError>)
    requires IsChunk(metadata, rows)
    ensures AllAgree(rows) ==> (r.Ok? <==> metadata != [] && AllRecognised(rows))
    ensures r.Ok? ==> HoldsRows(metadata, rows, r.value)
    ensures r.Err? ==> IsRefused(metadata, rows, r.error)
  {
    r := RowsToBatch(SQLITE, metadata, rows);
    if AllAgree(rows) {
      SqliteDecodesIff(metadata, rows);
    }
    if r.Ok? {
      DecodedRowsAreHeld(metadata, rows, r.value);
    } else if metadata != [] {
      RefusedForAValue(metadata, rows, r.error);
    }
  }

  /** A type name is one the program knows exactly when it has one of these words in it. */
  lemma RecognisedIff(t: string)
    ensures Recognised(t) <==>
              || HasWord(t, "text") || HasWord(t, "char") || HasWord(t, "blob") || HasWord(t, "real")
              || HasWord(t, "floa") || HasWord(t, "doub") || HasWord(t, "bool") || HasWord(t, "int")
  {
    ContainsIff(Lower(t), "text");
    ContainsIff(Lower(t), "char");
    ContainsIff(Lower(t), "blob");
    ContainsIff(Lower(t), "real");
    ContainsIff(Lower(t), "floa");
    ContainsIff(Lower(t), "doub");
    ContainsIff(Lower(t), "bool");
    ContainsIff(Lower(t), "int");
  }

  // ------------------------------------------------------------------------------------------
  // Postgres and MySQL.

  /** Letters become their capitals, and nothing else changes. */
  lemma {:induction false} UpperAt(s: string, k: nat, i: nat)
    requires k < |s|
    ensures |Upper(s)| == |s|
    ensures s[k] !in "abcdefghijklmnopqrstuvwxyz" ==> Upper(s)[k] == s[k]
    ensures i < 26 && s[k] == "abcdefghijklmnopqrstuvwxyz"[i] ==> Upper(s)[k] == "ABCDEFGHIJKLMNOPQRSTUVWXYZ"[i]
  {
    if k > 0 {
      UpperAt(s[1..], k - 1, i);
    } else {
      UpperLength(s);
      if 'a' <= s[0] <= 'z' {
        LetterAt(s[0] as int - 'a' as int);
      }
      if i < 26 {
        LetterAt(i);
      }
    }
  }

  lemma {:induction false} UpperLength(s: string)
    ensures |Upper(s)| == |s|
  {
    if s != [] {
      UpperLength(s[1..]);
    }
  }

  /**
   * NULL is nothing, an unmapped type is refused, and but for unsigned integers a value is what the
   * driver makes of it.
   */
  lemma MySqlValues<V, C>(unsigned: V -> Result<u64, DecodeError>, driver: (MySqlKind, V) -> Result<C, DecodeError>,
                          kind: MySqlKind, raw: Raw<V>)
    ensures var cell := MySql(unsigned, driver).decode(kind, raw);
            if raw.Null? then cell == Ok(None)
            else if kind.MyUnsupported? then cell == Err(NotMapped(kind.name))
            else if kind.MyUnsignedInt? then cell.Ok? ==> unsigned(raw.payload).Ok?
            else if driver(kind, raw.payload).Ok? then cell == Ok(Some(Other(driver(kind, raw.payload).value)))
            else cell == Err(driver(kind, raw.payload).error)
  {
  }

  /** The type of a Postgres column is that of its declared type. */
  lemma PostgresTypes<V, C>(decode: (PostgresKind, Raw<V>) -> Result<Option<C>, DecodeError>,
                            metadata: seq<Column>, rows: seq<seq<Raw<V>>>, c: nat)
    requires IsChunk(metadata, rows) && c < |metadata|
    ensures var t := Upper(metadata[c].declared);
            Schema(Postgres(decode), metadata, rows)[c] == Field(metadata[c].name,
              if t in ["BOOL"] then Boolean
              else if t in ["INT2", "INT4", "INT8", "OID"] then Int64
              else if t in ["FLOAT4", "FLOAT8"] then Float64
              else if t in ["BYTEA"] then Binary
              else if t in ["DATE"] then Date32
              else if t in ["TIME"] then Time64
              else if t in ["TIMESTAMP", "TIMESTAMPTZ"] then Timestamp
              else ArrowType.Utf8)
  {
    KindIsDeclared(Postgres(decode), PostgresKindOf, metadata, rows, c);
    PostgresType(Upper(metadata[c].declared));
  }

  lemma PostgresType(t: string)
    ensures PostgresDataType(PostgresKindOf(t)) ==
              if t in ["BOOL"] then Boolean
              else if t in ["INT2", "INT4", "INT8", "OID"] then Int64
              else if t in ["FLOAT4", "FLOAT8"] then Float64
              else if t in ["BYTEA"] then Binary
              else if t in ["DATE"] then Date32
              else if t in ["TIME"] then Time64
              else if t in ["TIMESTAMP", "TIMESTAMPTZ"] then Timestamp
              else ArrowType.Utf8
  {
  }

  /** Likewise for MySQL. */
  lemma MySqlTypes<V, C>(unsigned: V -> Result<u64, DecodeError>, driver: (MySqlKind, V) -> Result<C, DecodeError>,
                         metadata: seq<Column>, rows: seq<seq<Raw<V>>>, c: nat)
    requires IsChunk(metadata, rows) && c < |metadata|
    ensures var t := Upper(metadata[c].declared);
            Schema(MySql(unsigned, driver), metadata, rows)[c] == Field(metadata[c].name,
              if t in ["BOOLEAN"] then Boolean
              else if t in ["TINYINT", "SMALLINT", "MEDIUMINT", "INT", "BIGINT", "YEAR", "BIT", "TINYINT UNSIGNED",
                            "SMALLINT UNSIGNED", "MEDIUMINT UNSIGNED", "INT UNSIGNED", "BIGINT UNSIGNED"] then Int64
              else if t in ["FLOAT", "DOUBLE"] then Float64
              else if t in ["BINARY", "VARBINARY", "TINYBLOB", "BLOB", "MEDIUMBLOB", "LONGBLOB"] then Binary
              else if t in ["DATE"] then Date32
              else if t in ["DATETIME", "TIMESTAMP"] then Timestamp
              else ArrowType.Utf8)
  {
    KindIsDeclared(MySql(unsigned, driver), MySqlKindOf, metadata, rows, c);
    MySqlType(Upper(metadata[c].declared));
  }

  lemma MySqlType(t: string)
    ensures MySqlDataType(MySqlKindOf(t)) ==
              if t in ["BOOLEAN"] then Boolean
              else if t in ["TINYINT", "SMALLINT", "MEDIUMINT", "INT", "BIGINT", "YEAR", "BIT", "TINYINT UNSIGNED",
                            "SMALLINT UNSIGNED", "MEDIUMINT UNSIGNED", "INT UNSIGNED", "BIGINT UNSIGNED"] then Int64
              else if t in ["FLOAT", "DOUBLE"] then Float64
              else if t in ["BINARY", "VARBINARY", "TINYBLOB", "BLOB", "MEDIUMBLOB", "LONGBLOB"] then Binary
              else if t in ["DATE"] then Date32
              else if t in ["DATETIME", "TIMESTAMP"] then Timestamp
              else ArrowType.Utf8
  {
  }
}

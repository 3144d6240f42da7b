/**
  How a chunk of query rows becomes typed columns. SQLite types its values, not its columns, so the
  program looks at the declared type and at the type name of every value in the chunk before it chooses an
  accumulator; Postgres and MySQL collect the same list and use only its first entry, the declared type.
*/
module TypeInference {
  import opened Wrappers
  import opened Text
  import opened Decimal
  import opened Utf8

  /** A value as the row holds it: NULL, or a type name and a content. */
  datatype Raw<+V> = Null | Value(typeName: string, payload: V)

  datatype DecodeError =
    NotDecodable(typeName: string) | WrongContent | NotMapped(typeName: string) | DoesNotFit | NoColumns

  datatype ArrowType = Boolean | Int64 | Float64 | Binary | Utf8 | Date32 | Time64 | Timestamp

  // ------------------------------------------------------------------------------------------
  // SQLite.

  datatype Kind = BoolKind | IntKind | FloatKind | BinaryKind | TextKind

  datatype Payload =
    BoolValue(b: bool) | IntValue(n: i64) | RealValue(r: real) | TextValue(s: string) | BlobValue(data: bytes)

  /** Text forms; how a real is printed is the library's affair. */
  datatype TextForm = Exactly(s: string) | RealText(r: real)

  /** Float forms; an integer is rounded to a float. */
  datatype FloatForm = Real(r: real) | OfBool(b: bool) | OfInt(n: i64)

  datatype Cell =
    | BoolCell(b: bool)
    | IntCell(n: i64)
    | FloatCell(f: FloatForm)
    | BinaryCell(data: bytes)
    | TextBytesCell(t: TextForm)
    | TextCell(t: TextForm)

  // Keywords, on the lower-case type name.

  predicate NamesText(t: string) { Contains(Lower(t), "text") || Contains(Lower(t), "char") }

  predicate NamesBlob(t: string) { Contains(Lower(t), "blob") }

  predicate NamesReal(t: string) {
    Contains(Lower(t), "real") || Contains(Lower(t), "floa") || Contains(Lower(t), "doub")
  }

  predicate NamesBool(t: string) { Contains(Lower(t), "bool") }

  predicate NamesInt(t: string) { Contains(Lower(t), "int") }

  predicate Recognised(t: string) {
    NamesText(t) || NamesBlob(t) || NamesReal(t) || NamesBool(t) || NamesInt(t)
  }

  /** `ColumnValues::new` for SQLite. */
  function KindOf(typeNames: seq<string>): Kind {
    if exists t <- typeNames :: NamesText(t) then TextKind
    else if exists t <- typeNames :: NamesBlob(t) then BinaryKind
    else if exists t <- typeNames :: NamesReal(t) then FloatKind
    else if exists t <- typeNames :: NamesBool(t) then BoolKind
    else if exists t <- typeNames :: NamesInt(t) then IntKind
    else TextKind
  }

  /** The database gives a value the content its type name announces. */
  predicate Agrees(raw: Raw<Payload>) {
    raw.Null?
    || (if NamesText(raw.typeName) then raw.payload.TextValue?
        else if NamesBlob(raw.typeName) then raw.payload.BlobValue?
        else if NamesReal(raw.typeName) then raw.payload.RealValue?
        else if NamesBool(raw.typeName) then raw.payload.BoolValue?
        else NamesInt(raw.typeName) ==> raw.payload.IntValue?)
  }

  // The decoders; `Value` alone reaches them.

  function DecodeBool(t: string, p: Payload): Result<Cell, DecodeError> {
    if NamesBool(t) then if p.BoolValue? then Ok(BoolCell(p.b)) else Err(WrongContent)
    else if NamesInt(t) then if p.IntValue? then Ok(BoolCell(p.n != 0)) else Err(WrongContent)
    else Err(NotDecodable(t))
  }

  function DecodeI64(t: string, p: Payload): Result<Cell, DecodeError> {
    if NamesBool(t) then if p.BoolValue? then Ok(IntCell(if p.b then 1 else 0)) else Err(WrongContent)
    else if NamesInt(t) then if p.IntValue? then Ok(IntCell(p.n)) else Err(WrongContent)
    else Err(NotDecodable(t))
  }

  function DecodeF64(t: string, p: Payload): Result<Cell, DecodeError> {
    if NamesReal(t) then if p.RealValue? then Ok(FloatCell(Real(p.r))) else Err(WrongContent)
    else if NamesBool(t) then if p.BoolValue? then Ok(FloatCell(OfBool(p.b))) else Err(WrongContent)
    else if NamesInt(t) then if p.IntValue? then Ok(FloatCell(OfInt(p.n))) else Err(WrongContent)
    else Err(NotDecodable(t))
  }

  function DecodeText(t: string, p: Payload): Result<TextForm, DecodeError> {
    if NamesText(t) then if p.TextValue? then Ok(Exactly(p.s)) else Err(WrongContent)
    else if NamesBlob(t) then if p.BlobValue? then Ok(Exactly(DecodeLossy(p.data))) else Err(WrongContent)
    else if NamesReal(t) then if p.RealValue? then Ok(RealText(p.r)) else Err(WrongContent)
    else if NamesBool(t) then if p.BoolValue? then Ok(Exactly(if p.b then "true" else "false")) else Err(WrongContent)
    else if NamesInt(t) then if p.IntValue? then Ok(Exactly(IntText(p.n))) else Err(WrongContent)
    else Err(NotDecodable(t))
  }

  function DecodeBinary(t: string, p: Payload): Result<Cell, DecodeError> {
    if NamesBlob(t) then if p.BlobValue? then Ok(BinaryCell(p.data)) else Err(WrongContent)
    else match DecodeText(t, p) case Ok(text) => Ok(TextBytesCell(text)) case Err(error) => Err(error)
  }

  /** `ColumnValues::push`. */
  function Decode(kind: Kind, raw: Raw<Payload>): Result<Option<Cell>, DecodeError> {
    if raw.Null? then Ok(None)
    else
      var t, p := raw.typeName, raw.payload;
      var cell :=
        match kind
        case BoolKind => DecodeBool(t, p)
        case IntKind => DecodeI64(t, p)
        case FloatKind => DecodeF64(t, p)
        case BinaryKind => DecodeBinary(t, p)
        case TextKind => match DecodeText(t, p) case Ok(text) => Ok(TextCell(text)) case Err(error) => Err(error);
      match cell case Ok(c) => Ok(Some(c)) case Err(error) => Err(error)
  }

  function DataType(kind: Kind): ArrowType {
    match kind
    case BoolKind => Boolean
    case IntKind => Int64
    case FloatKind => Float64
    case BinaryKind => Binary
    case TextKind => Utf8
  }

  /** The order in which type names were met does not matter. */
  lemma KindIgnoresOrder(a: seq<string>, b: seq<string>)
    requires forall t :: t in a <==> t in b
    ensures KindOf(a) == KindOf(b)
  {
    assert forall t <- a :: t in b;
    assert forall t <- b :: t in a;
  }

  /** The accumulator chosen with a value in view decodes that value exactly when its type name has a keyword. */
  lemma ChosenKindDecodes(typeNames: seq<string>, raw: Raw<Payload>)
    requires Agrees(raw) && (raw.Value? ==> raw.typeName in typeNames)
    ensures Decode(KindOf(typeNames), raw).Ok? <==> raw.Null? || Recognised(raw.typeName)
    ensures Decode(KindOf(typeNames), raw).Ok? ==> (Decode(KindOf(typeNames), raw).value.None? <==> raw.Null?)
  {
  }

  /** How far up the chain of tests a type name is caught; 0 when it has no keyword. */
  function Strength(t: string): (n: nat)
    ensures n == 0 <==> !Recognised(t)
  {
    if NamesText(t) then 5
    else if NamesBlob(t) then 4
    else if NamesReal(t) then 3
    else if NamesBool(t) then 2
    else if NamesInt(t) then 1
    else 0
  }

  function Strongest(typeNames: seq<string>): (n: nat)
    ensures n <= 5
    ensures n > 0 ==> exists t <- typeNames :: Strength(t) == n
    ensures forall t <- typeNames :: Strength(t) <= n
  {
    if typeNames == [] then 0
    else
      var later := Strongest(typeNames[1..]);
      if Strength(typeNames[0]) > later then Strength(typeNames[0]) else later
  }

  function OfStrength(n: nat): Kind {
    match n
    case 4 => BinaryKind
    case 3 => FloatKind
    case 2 => BoolKind
    case 1 => IntKind
    case _ => TextKind
  }

  lemma KindIsByStrength(typeNames: seq<string>)
    ensures KindOf(typeNames) == OfStrength(Strongest(typeNames))
  {
    var n := Strongest(typeNames);
    forall t <- typeNames
      ensures (n < 5 ==> !NamesText(t)) && (n < 4 ==> !NamesBlob(t)) && (n < 3 ==> !NamesReal(t))
      ensures (n < 2 ==> !NamesBool(t)) && (n < 1 ==> !NamesInt(t))
    {
      NotStronger(t, n);
    }
    if n > 0 {
      var t :| t in typeNames && Strength(t) == n;
      NamedByStrength(t, n);
    }
  }

  lemma NotStronger(t: string, n: nat)
    requires Strength(t) <= n
    ensures (n < 5 ==> !NamesText(t)) && (n < 4 ==> !NamesBlob(t)) && (n < 3 ==> !NamesReal(t))
    ensures (n < 2 ==> !NamesBool(t)) && (n < 1 ==> !NamesInt(t))
  {
  }

  lemma NamedByStrength(t: string, n: nat)
    requires Strength(t) == n
    ensures (n == 5 ==> NamesText(t)) && (n == 4 ==> NamesBlob(t)) && (n == 3 ==> NamesReal(t))
    ensures (n == 2 ==> NamesBool(t)) && (n == 1 ==> NamesInt(t))
  {
  }

  /** Two strengths give one kind when they are equal, or when text stands for want of any keyword. */
  predicate SameKind(m: nat, n: nat) {
    m == n || (m == 0 && n == 5) || (m == 5 && n == 0)
  }

  /** Every keyword in `b` is answered by one in `a` that is tested for no later. */
  predicate Covers(a: seq<string>, b: seq<string>) {
    forall t <- b :: Recognised(t) ==> exists u <- a :: Strength(u) >= Strength(t)
  }

  /** One list has a text keyword, the other no keyword at all. */
  predicate TextAgainstNone(a: seq<string>, b: seq<string>) {
    (exists t <- a :: NamesText(t)) && forall t <- b :: !Recognised(t)
  }

  /** Neither list of type names has a keyword that outranks all of the other's, or text stands against nothing. */
  predicate AlikeNames(a: seq<string>, b: seq<string>) {
    (Covers(a, b) && Covers(b, a)) || TextAgainstNone(a, b) || TextAgainstNone(b, a)
  }

  lemma CoversIff(a: seq<string>, b: seq<string>)
    ensures Covers(a, b) <==> Strongest(b) <= Strongest(a)
  {
    if Strongest(b) > 0 {
      var t :| t in b && Strength(t) == Strongest(b);
    }
    if Strongest(a) > 0 {
      var u :| u in a && Strength(u) == Strongest(a);
    }
  }

  lemma TextAgainstNoneIff(a: seq<string>, b: seq<string>)
    ensures TextAgainstNone(a, b) <==> Strongest(a) == 5 && Strongest(b) == 0
  {
    if Strongest(b) > 0 {
      var t :| t in b && Strength(t) == Strongest(b);
    }
    if Strongest(a) > 0 {
      var u :| u in a && Strength(u) == Strongest(a);
    }
  }

  lemma AlikeNamesIff(a: seq<string>, b: seq<string>)
    ensures AlikeNames(a, b) <==> SameKind(Strongest(a), Strongest(b))
  {
    CoversIff(a, b);
    CoversIff(b, a);
    TextAgainstNoneIff(a, b);
    TextAgainstNoneIff(b, a);
  }

  /** When a chunk gets the type another chunk of the same column got. */
  lemma SameKindIff(a: seq<string>, b: seq<string>, m: nat, n: nat)
    requires m == Strongest(a) && n == Strongest(b)
    ensures KindOf(a) == KindOf(b) <==> SameKind(m, n)
  {
    KindIsByStrength(a);
    KindIsByStrength(b);
    SameOfStrength(m, n);
  }

  lemma SameOfStrength(m: nat, n: nat)
    requires m <= 5 && n <= 5
    ensures OfStrength(m) == OfStrength(n) <==> SameKind(m, n)
  {
  }

  // ------------------------------------------------------------------------------------------
  // Postgres and MySQL.

  /** `to_ascii_uppercase`. */
  function Upper(s: string): string {
    if s == [] then [] else [if 'a' <= s[0] <= 'z' then s[0] - 32 as char else s[0]] + Upper(s[1..])
  }

  function FirstName(typeNames: seq<string>): string {
    if typeNames == [] then "TEXT" else Upper(typeNames[0])
  }

  /** `ColumnValues::new` looks at the first name only. */
  function ByFirst<K>(named: string -> K): seq<string> -> K {
    typeNames => named(FirstName(typeNames))
  }

  datatype PostgresKind =
    PgBool | PgInt16 | PgInt32 | PgInt64 | PgFloat32 | PgFloat64 | PgBinary | PgUtf8 | PgDate32 | PgTime64
    | PgTimestamp | PgDecimal | PgUuid | PgJson | PgUnsupported(name: string)

  function PostgresKindOf(t: string): PostgresKind {
    if t == "BOOL" then PgBool
    else if t == "INT2" then PgInt16
    else if t == "INT4" || t == "OID" then PgInt32
    else if t == "INT8" then PgInt64
    else if t == "FLOAT4" then PgFloat32
    else if t == "FLOAT8" then PgFloat64
    else if t == "BYTEA" then PgBinary
    else if t == "TEXT" || t == "VARCHAR" || t == "BPCHAR" || t == "CHAR" || t == "NAME" then PgUtf8
    else if t == "DATE" then PgDate32
    else if t == "TIME" then PgTime64
    else if t == "TIMESTAMP" || t == "TIMESTAMPTZ" then PgTimestamp
    else if t == "NUMERIC" then PgDecimal
    else if t == "UUID" then PgUuid
    else if t == "JSON" || t == "JSONB" then PgJson
    else PgUnsupported(t)
  }

  function PostgresDataType(kind: PostgresKind): ArrowType {
    match kind
    case PgBool => Boolean
    case PgInt16 | PgInt32 | PgInt64 => Int64
    case PgFloat32 | PgFloat64 => Float64
    case PgBinary => Binary
    case PgDate32 => Date32
    case PgTime64 => Time64
    case PgTimestamp => Timestamp
    case _ => Utf8
  }

  datatype MySqlKind =
    MyBool | MySignedInt | MyUnsignedInt | MyFloat32 | MyFloat64 | MyBinary | MyUtf8 | MyDate32 | MyTimestamp
    | MyDecimal | MyJson | MyUnsupported(name: string)

  function MySqlKindOf(t: string): MySqlKind {
    if t == "BOOLEAN" then MyBool
    else if t in ["TINYINT", "SMALLINT", "MEDIUMINT", "INT", "BIGINT", "YEAR"] then MySignedInt
    else if t in ["TINYINT UNSIGNED", "SMALLINT UNSIGNED", "MEDIUMINT UNSIGNED", "INT UNSIGNED", "BIGINT UNSIGNED",
                  "BIT"]
    then MyUnsignedInt
    else if t == "FLOAT" then MyFloat32
    else if t == "DOUBLE" then MyFloat64
    else if t in ["BINARY", "VARBINARY", "TINYBLOB", "BLOB", "MEDIUMBLOB", "LONGBLOB"] then MyBinary
    else if t in ["CHAR", "VARCHAR", "TINYTEXT", "TEXT", "MEDIUMTEXT", "LONGTEXT", "ENUM", "SET", "NULL"] then MyUtf8
    else if t == "DATE" then MyDate32
    else if t == "DATETIME" || t == "TIMESTAMP" then MyTimestamp
    else if t == "DECIMAL" then MyDecimal
    else if t == "JSON" then MyJson
    else MyUnsupported(t)
  }

  function MySqlDataType(kind: MySqlKind): ArrowType {
    match kind
    case MyBool => Boolean
    case MySignedInt | MyUnsignedInt => Int64
    case MyFloat32 | MyFloat64 => Float64
    case MyBinary => Binary
    case MyDate32 => Date32
    case MyTimestamp => Timestamp
    case _ => Utf8
  }

  /** What the driver makes of a MySQL value: an unsigned integer, or whatever another accumulator holds. */
  datatype MySqlCell<+C> = Integer(n: i64) | Other(cell: C)

  /** The MySQL `push`; `unsigned` and `driver` are the client library's own decoding. */
  function MySqlDecode<V, C>(unsigned: V -> Result<u64, DecodeError>, driver: (MySqlKind, V) -> Result<C, DecodeError>,
                             kind: MySqlKind, raw: Raw<V>): Result<Option<MySqlCell<C>>, DecodeError> {
    if raw.Null? then Ok(None)
    else
      match kind
      case MyUnsignedInt =>
        (match unsigned(raw.payload)
         case Err(error) => Err(error)
         case Ok(n) => if n > I64_MAX then Err(DoesNotFit) else Ok(Some(Integer(n))))
      case MyUnsupported(name) => Err(NotMapped(name))
      case _ =>
        match driver(kind, raw.payload)
        case Err(error) => Err(error)
        case Ok(cell) => Ok(Some(Other(cell)))
  }

  // ------------------------------------------------------------------------------------------
  // Chunks, for every backend.

  /** What a backend brings: its accumulators, their Arrow types, and how one takes a value. */
  datatype Backend<!K, !V, !C> = Backend(
    choose: seq<string> -> K,
    dataType: K -> ArrowType,
    decode: (K, Raw<V>) -> Result<Option<C>, DecodeError>)

  const SQLITE: Backend<Kind, Payload, Cell> := Backend(KindOf, DataType, Decode)

  function Postgres<V, C>(decode: (PostgresKind, Raw<V>) -> Result<Option<C>, DecodeError>): Backend<PostgresKind, V, C>
  {
    Backend(ByFirst(PostgresKindOf), PostgresDataType, decode)
  }

  function MySql<V, C>(unsigned: V -> Result<u64, DecodeError>,
                       driver: (MySqlKind, V) -> Result<C, DecodeError>): Backend<MySqlKind, V, MySqlCell<C>> {
    Backend(ByFirst(MySqlKindOf), MySqlDataType, (kind, raw) => MySqlDecode(unsigned, driver, kind, raw))
  }

  datatype Column = Column(name: string, declared: string)

  datatype Field = Field(name: string, arrowType: ArrowType)

  datatype Batch<+C> = Batch(schema: seq<Field>, columns: seq<seq<Option<C>>>)

  ghost predicate IsChunk<V>(metadata: seq<Column>, rows: seq<seq<Raw<V>>>) {
    forall row <- rows :: |row| == |metadata|
  }

  function NameOf<V>(raw: Raw<V>): seq<string> {
    if raw.Null? then [] else [raw.typeName]
  }

  /** The declared type and then the type name of every value in the column, NULLs left out. */
  function TypeNames<V>(declared: string, rows: seq<seq<Raw<V>>>, c: nat): seq<string>
    requires forall row <- rows :: c < |row|
  {
    if rows == [] then [declared]
    else
      var n := |rows| - 1;
      TypeNames(declared, rows[..n], c) + NameOf(rows[n][c])
  }

  lemma {:induction false} NamesAreFromColumn<V>(declared: string, rows: seq<seq<Raw<V>>>, c: nat, t: string)
    requires forall row <- rows :: c < |row|
    ensures t in TypeNames(declared, rows, c)
            <==> t == declared || exists row: seq<Raw<V>> <- rows :: row[c].Value? && row[c].typeName == t
    ensures TypeNames(declared, rows, c) != [] && TypeNames(declared, rows, c)[0] == declared
  {
    if rows != [] {
      var n := |rows| - 1;
      assert rows == rows[..n] + [rows[n]];
      NamesAreFromColumn(declared, rows[..n], c, t);
    }
  }

  /** The accumulator the backend chooses for column `c` of a chunk. */
  function KindAt<K, V, C>(backend: Backend<K, V, C>, metadata: seq<Column>, rows: seq<seq<Raw<V>>>, c: nat): K
    requires IsChunk(metadata, rows) && c < |metadata|
  {
    backend.choose(TypeNames(metadata[c].declared, rows, c))
  }

  function Schema<K, V, C>(backend: Backend<K, V, C>, metadata: seq<Column>, rows: seq<seq<Raw<V>>>): seq<Field>
    requires IsChunk(metadata, rows)
  {
    seq(|metadata|,
      c requires 0 <= c < |metadata| => Field(metadata[c].name, backend.dataType(KindAt(backend, metadata, rows, c))))
  }

  ghost predicate DecodesTo<K, V, C>(backend: Backend<K, V, C>, kinds: seq<K>, rows: seq<seq<Raw<V>>>,
                                     columns: seq<seq<Option<C>>>)
  {
    && |columns| == |kinds|
    && forall c :: 0 <= c < |kinds| ==>
         && |columns[c]| == |rows|
         && forall r :: 0 <= r < |rows| ==> c < |rows[r]| && backend.decode(kinds[c], rows[r][c]) == Ok(columns[c][r])
  }

  /** The names of one row, each behind those of its column. */
  method CollectRow<V>(typeNames: seq<seq<string>>, row: seq<Raw<V>>) returns (longer: seq<seq<string>>)
    requires |row| == |typeNames|
    ensures |longer| == |typeNames|
    ensures forall c :: 0 <= c < |row| ==> longer[c] == typeNames[c] + NameOf(row[c])
  {
    longer := typeNames;
    for index := 0 to |row|
      invariant |longer| == |typeNames|
      invariant forall c :: 0 <= c < |row| ==>
                  longer[c] == if c < index then typeNames[c] + NameOf(row[c]) else typeNames[c]
    {
      var raw := row[index];
      if raw.Null? {
        EmptyLast(longer[index]);
      } else {
        longer := longer[index := longer[index] + [raw.typeName]];
      }
    }
  }

  method CollectTypeNames<V>(metadata: seq<Column>, rows: seq<seq<Raw<V>>>) returns (typeNames: seq<seq<string>>)
    requires IsChunk(metadata, rows)
    ensures |typeNames| == |metadata|
    ensures forall c :: 0 <= c < |metadata| ==> typeNames[c] == TypeNames(metadata[c].declared, rows, c)
  {
    typeNames := seq(|metadata|, c requires 0 <= c < |metadata| => [metadata[c].declared]);
    for i := 0 to |rows|
      invariant |typeNames| == |metadata|
      invariant forall c :: 0 <= c < |metadata| ==> typeNames[c] == TypeNames(metadata[c].declared, rows[..i], c)
    {
      assert rows[..i + 1][..i] == rows[..i];
      typeNames := CollectRow(typeNames, rows[i]);
    }
    assert rows[..|rows|] == rows;
  }

  method PushRows<K, V, C>(backend: Backend<K, V, C>, kinds: seq<K>, rows: seq<seq<Raw<V>>>)
    returns (r: Result<seq<seq<Option<C>>>, DecodeError>)
    requires forall row <- rows :: |row| == |kinds|
    ensures r.Ok? ==> DecodesTo(backend, kinds, rows, r.value)
    ensures r.Err? ==>
              exists k, c :: 0 <= k < |rows| && 0 <= c < |kinds| && backend.decode(kinds[c], rows[k][c]) == Err(r.error)
  {
    var columns: seq<seq<Option<C>>> := seq(|kinds|, c => []);
    for i := 0 to |rows|
      invariant DecodesTo(backend, kinds, rows[..i], columns)
    {
      for index := 0 to |kinds|
        invariant |columns| == |kinds|
        invariant forall c :: 0 <= c < |kinds| ==>
                    && |columns[c]| == (if c < index then i + 1 else i)
                    && forall k :: 0 <= k < |columns[c]| ==> backend.decode(kinds[c], rows[k][c]) == Ok(columns[c][k])
      {
        var cell := backend.decode(kinds[index], rows[i][index]);
        if cell.Err? {
          return Err(cell.error);
        }
        columns := columns[index := columns[index] + [cell.value]];
      }
    }
    assert rows[..|rows|] == rows;
    return Ok(columns);
  }

  /** Every value of the chunk is one its column's accumulator takes. */
  ghost predicate AllDecode<K, V, C>(backend: Backend<K, V, C>, metadata: seq<Column>, rows: seq<seq<Raw<V>>>)
    requires IsChunk(metadata, rows)
  {
    forall k, c :: 0 <= k < |rows| && 0 <= c < |metadata| ==>
      backend.decode(KindAt(backend, metadata, rows, c), rows[k][c]).Ok?
  }

  /**
    A chunk becomes a batch exactly when it has a column and every value decodes. The batch then has one cell
    per row in every column, each the decoding of the value in its place.
  */
  method RowsToBatch<K, V, C>(backend: Backend<K, V, C>, metadata: seq<Column>, rows: seq<seq<Raw<V>>>)
    returns (r: Result<Batch<C>, DecodeError>)
    requires IsChunk(metadata, rows)
    ensures r.Ok? <==> metadata != [] && AllDecode(backend, metadata, rows)
    ensures r.Err? ==>
              if metadata == [] then r.error == NoColumns
              else exists k, c :: 0 <= k < |rows| && 0 <= c < |metadata|
                                  && backend.decode(KindAt(backend, metadata, rows, c), rows[k][c]) == Err(r.error)
    ensures r.Ok? ==> r.value.schema == Schema(backend, metadata, rows) && |r.value.columns| == |metadata|
    ensures r.Ok? ==> forall c :: 0 <= c < |metadata| ==>
                        && |r.value.columns[c]| == |rows|
                        && forall k :: 0 <= k < |rows| ==>
                             backend.decode(KindAt(backend, metadata, rows, c), rows[k][c]) == Ok(r.value.columns[c][k])
  {
    var typeNames := CollectTypeNames(metadata, rows);
    var kinds := seq(|metadata|, c requires 0 <= c < |metadata| => backend.choose(typeNames[c]));
    assert forall c :: 0 <= c < |metadata| ==> kinds[c] == KindAt(backend, metadata, rows, c);
    var columns := PushRows(backend, kinds, rows);
    if columns.Err? {
      return Err(columns.error);
    }
    assert AllDecode(backend, metadata, rows);
    var schema := seq(|metadata|,
      c requires 0 <= c < |metadata| => Field(metadata[c].name, backend.dataType(kinds[c])));
    assert schema == Schema(backend, metadata, rows);
    if metadata == [] {
      return Err(NoColumns);
    }
    return Ok(Batch(schema, columns.value));
  }

  ghost predicate AllAgree(rows: seq<seq<Raw<Payload>>>) {
    forall row <- rows, raw <- row :: Agrees(raw)
  }

  /** Every value has a type name with a keyword. */
  ghost predicate AllRecognised(rows: seq<seq<Raw<Payload>>>) {
    forall row <- rows, raw <- row :: raw.Value? ==> Recognised(raw.typeName)
  }

  lemma SqliteValueDecodes(metadata: seq<Column>, rows: seq<seq<Raw<Payload>>>, k: nat, c: nat)
    requires IsChunk(metadata, rows) && k < |rows| && c < |metadata| && Agrees(rows[k][c])
    ensures SQLITE.decode(KindAt(SQLITE, metadata, rows, c), rows[k][c]).Ok?
            <==> rows[k][c].Null? || Recognised(rows[k][c].typeName)
  {
    var raw := rows[k][c];
    var names := TypeNames(metadata[c].declared, rows, c);
    if raw.Value? {
      NamesAreFromColumn(metadata[c].declared, rows, c, raw.typeName);
    }
    ChosenKindDecodes(names, raw);
  }

  /** SQLite never rejects its own chunk: it decodes exactly when every value has a type name with a keyword. */
  lemma SqliteDecodesIff(metadata: seq<Column>, rows: seq<seq<Raw<Payload>>>)
    requires IsChunk(metadata, rows) && AllAgree(rows)
    ensures AllDecode(SQLITE, metadata, rows) <==> AllRecognised(rows)
  {
    if AllDecode(SQLITE, metadata, rows) {
      forall row <- rows, raw <- row | raw.Value?
        ensures Recognised(raw.typeName)
      {
        var k :| 0 <= k < |rows| && rows[k] == row;
        var c :| 0 <= c < |row| && row[c] == raw;
        SqliteValueDecodes(metadata, rows, k, c);
      }
    }
    if AllRecognised(rows) {
      forall k, c | 0 <= k < |rows| && 0 <= c < |metadata|
        ensures SQLITE.decode(KindAt(SQLITE, metadata, rows, c), rows[k][c]).Ok?
      {
        assert rows[k] in rows && rows[k][c] in rows[k];
        SqliteValueDecodes(metadata, rows, k, c);
      }
    }
  }

  /**
    A later SQLite chunk of the same query may carry another type than the announced one: column `c` keeps
    its type exactly when, of the declared type and the type names of the values, neither chunk has a keyword that
    outranks all of the other's (or one has text and the other no keyword at all).
  */
  lemma SqliteTypeKeptIff(metadata: seq<Column>, first: seq<seq<Raw<Payload>>>, later: seq<seq<Raw<Payload>>>, c: nat)
    requires IsChunk(metadata, first) && IsChunk(metadata, later) && c < |metadata|
    ensures Schema(SQLITE, metadata, first)[c] == Schema(SQLITE, metadata, later)[c] <==>
              AlikeNames(TypeNames(metadata[c].declared, first, c), TypeNames(metadata[c].declared, later, c))
  {
    var a := TypeNames(metadata[c].declared, first, c);
    var b := TypeNames(metadata[c].declared, later, c);
    FieldKeptIff(SQLITE, metadata, first, later, c);
    SqliteTypeSameIff(a, b);
  }

  /** A column declared as text is text in every chunk. */
  lemma DeclaredTextIsKept(metadata: seq<Column>, first: seq<seq<Raw<Payload>>>, later: seq<seq<Raw<Payload>>>, c: nat)
    requires IsChunk(metadata, first) && IsChunk(metadata, later) && c < |metadata| && NamesText(metadata[c].declared)
    ensures Schema(SQLITE, metadata, first)[c] == Schema(SQLITE, metadata, later)[c]
  {
    var t := metadata[c].declared;
    NamesAreFromColumn(t, first, c, t);
    NamesAreFromColumn(t, later, c, t);
    SqliteTypeKeptIff(metadata, first, later, c);
    TextCovers(TypeNames(t, first, c), TypeNames(t, later, c), t);
    TextCovers(TypeNames(t, later, c), TypeNames(t, first, c), t);
  }

  lemma TextCovers(a: seq<string>, b: seq<string>, t: string)
    requires t in a && NamesText(t)
    ensures Covers(a, b)
  {
    assert Strength(t) == 5;
  }

  lemma FieldKeptIff<K, V, C>(backend: Backend<K, V, C>, metadata: seq<Column>, first: seq<seq<Raw<V>>>,
                              later: seq<seq<Raw<V>>>, c: nat)
    requires IsChunk(metadata, first) && IsChunk(metadata, later) && c < |metadata|
    ensures Schema(backend, metadata, first)[c] == Schema(backend, metadata, later)[c] <==>
              backend.dataType(backend.choose(TypeNames(metadata[c].declared, first, c)))
              == backend.dataType(backend.choose(TypeNames(metadata[c].declared, later, c)))
  {
    var a := Schema(backend, metadata, first)[c];
    var b := Schema(backend, metadata, later)[c];
    assert a == Field(metadata[c].name, backend.dataType(KindAt(backend, metadata, first, c)));
    assert b == Field(metadata[c].name, backend.dataType(KindAt(backend, metadata, later, c)));
  }

  lemma SqliteTypeSameIff(a: seq<string>, b: seq<string>)
    ensures SQLITE.dataType(SQLITE.choose(a)) == SQLITE.dataType(SQLITE.choose(b)) <==> AlikeNames(a, b)
  {
    AlikeNamesIff(a, b);
    SameKindIff(a, b, Strongest(a), Strongest(b));
    DataTypeIsInjective(KindOf(a), KindOf(b));
  }

  /** A column announced as Binary whose second chunk is text. */
  lemma SqliteTypeMayChange(blob: Raw<Payload>, text: Raw<Payload>)
    requires blob.Value? && blob.typeName == "BLOB" && text.Value? && text.typeName == "TEXT"
    ensures Schema(SQLITE, [Column("n", "BLOB")], [[blob]]) != Schema(SQLITE, [Column("n", "BLOB")], [[text]])
  {
    BlobAndText("BLOB", "TEXT");
    OneRowNames("BLOB", blob);
    OneRowNames("BLOB", text);
    BlobThenText(["BLOB", "BLOB"], ["BLOB", "TEXT"]);
    SqliteTypeKeptIff([Column("n", "BLOB")], [[blob]], [[text]], 0);
  }

  lemma OneRowNames<V>(declared: string, raw: Raw<V>)
    requires raw.Value?
    ensures TypeNames(declared, [[raw]], 0) == [declared, raw.typeName]
  {
    assert [[raw]][..0] == [];
    assert TypeNames<V>(declared, [], 0) == [declared];
  }

  lemma BlobThenText(a: seq<string>, b: seq<string>)
    requires |a| == |b| == 2 && Strength(a[0]) == Strength(a[1]) == Strength(b[0]) == 4 && Strength(b[1]) == 5
    ensures !AlikeNames(a, b)
  {
    AlikeNamesIff(a, b);
    StrongestIs(a, a[0]);
    StrongestIs(b, b[1]);
  }

  lemma StrongestIs(names: seq<string>, t: string)
    requires t in names && forall u <- names :: Strength(u) <= Strength(t)
    ensures Strongest(names) == Strength(t)
  {
  }

  lemma BlobAndText(blob: string, text: string)
    requires blob == "BLOB" && text == "TEXT"
    ensures Strength(blob) == 4 && Strength(text) == 5
  {
    LowerIsPointwise(blob);
    LowerIsPointwise(text);
    assert Lower(blob) == "blob" && Lower(text) == "text";
    Words(Lower(blob), Lower(text));
  }

  lemma Words(blob: string, text: string)
    requires blob == "blob" && text == "text"
    ensures Contains(blob, "blob") && !Contains(blob, "text") && !Contains(blob, "char") && Contains(text, "text")
  {
    TooShort(blob[1..], "text");
    TooShort(blob[1..], "char");
    assert blob[0] != "text"[0] && blob[0] != "char"[0];
  }

  lemma {:induction false} TooShort(s: string, part: string)
    requires |s| < |part|
    ensures !Contains(s, part)
  {
    if s != [] {
      TooShort(s[1..], part);
    }
  }

  lemma DataTypeIsInjective(j: Kind, k: Kind)
    ensures DataType(j) == DataType(k) <==> j == k
  {
  }

  /** Where only the declared type counts, every chunk has the schema announced for no rows at all. */
  lemma DeclaredTypesFixTheSchema<K, V, C>(backend: Backend<K, V, C>, named: string -> K, metadata: seq<Column>,
                                           rows: seq<seq<Raw<V>>>)
    requires IsChunk(metadata, rows) && backend.choose == ByFirst(named)
    ensures Schema(backend, metadata, rows) == Schema(backend, metadata, [])
  {
    forall c | 0 <= c < |metadata|
      ensures KindAt(backend, metadata, rows, c) == KindAt(backend, metadata, [], c)
    {
      KindIsDeclared(backend, named, metadata, rows, c);
      KindIsDeclared(backend, named, metadata, [], c);
    }
  }

  lemma KindIsDeclared<K, V, C>(backend: Backend<K, V, C>, named: string -> K, metadata: seq<Column>,
                                rows: seq<seq<Raw<V>>>, c: nat)
    requires IsChunk(metadata, rows) && c < |metadata| && backend.choose == ByFirst(named)
    ensures KindAt(backend, metadata, rows, c) == named(Upper(metadata[c].declared))
  {
    NamesAreFromColumn(metadata[c].declared, rows, c, "");
    var names := TypeNames(metadata[c].declared, rows, c);
    assert backend.choose(names) == named(FirstName(names));
  }

  lemma PostgresSchemaIsDeclared<V, C>(decode: (PostgresKind, Raw<V>) -> Result<Option<C>, DecodeError>,
                                       metadata: seq<Column>, rows: seq<seq<Raw<V>>>)
    requires IsChunk(metadata, rows)
    ensures Schema(Postgres(decode), metadata, rows) == Schema(Postgres(decode), metadata, [])
  {
    DeclaredTypesFixTheSchema(Postgres(decode), PostgresKindOf, metadata, rows);
  }

  lemma MySqlSchemaIsDeclared<V, C>(unsigned: V -> Result<u64, DecodeError>,
                                    driver: (MySqlKind, V) -> Result<C, DecodeError>, metadata: seq<Column>,
                                    rows: seq<seq<Raw<V>>>)
    requires IsChunk(metadata, rows)
    ensures Schema(MySql(unsigned, driver), metadata, rows) == Schema(MySql(unsigned, driver), metadata, [])
  {
    DeclaredTypesFixTheSchema(MySql(unsigned, driver), MySqlKindOf, metadata, rows);
  }

  /**
    A MySQL value whose column is declared an unsigned integer becomes the same integer exactly when it fits
    in 64 signed bits, whatever else the chunk holds.
  */
  lemma UnsignedKeepsItsValueIff<V, C>(unsigned: V -> Result<u64, DecodeError>,
                                       driver: (MySqlKind, V) -> Result<C, DecodeError>, metadata: seq<Column>,
                                       rows: seq<seq<Raw<V>>>, k: nat, c: nat, n: u64)
    requires IsChunk(metadata, rows) && k < |rows| && c < |metadata|
    requires MySqlKindOf(Upper(metadata[c].declared)) == MyUnsignedInt
    requires rows[k][c].Value? && unsigned(rows[k][c].payload) == Ok(n)
    ensures var cell := MySql(unsigned, driver).decode(KindAt(MySql(unsigned, driver), metadata, rows, c), rows[k][c]);
            if n <= I64_MAX then cell == Ok(Some(Integer(n))) else cell == Err(DoesNotFit)
  {
    KindIsDeclared(MySql(unsigned, driver), MySqlKindOf, metadata, rows, c);
  }
}

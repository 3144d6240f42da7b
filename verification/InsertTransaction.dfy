/**
  Inserting a stream of batches into a table, in one transaction. The database is modelled as an engine
  that executes the texts it is sent: it reads each statement, evaluates it, and keeps the changes of a
  transaction apart until they are committed.
*/
module InsertTransaction {
  import opened Wrappers
  import opened Text
  import opened SqlText
  import opened InsertStatement
  import opened StatementText
  import opened CopyCsv

  type Name = (string, string)

  /** A value reaches the database as a bound parameter or as a field of a COPY text. */
  datatype Value = Bound(cell: Cell) | Copied(field: Field)

  datatype Row = Row(columns: seq<string>, values: seq<Value>)

  type Store = map<Name, seq<Row>>

  datatype InsertError =
    | RelationNotFound
    | ColumnNotFound(column: string)
    | StreamFailed
    | ValueNotSupported
    | StatementRejected
    | CommitFailed
    | BadName(error: SqlError)

  datatype InsertMode = AppendRows | TruncateFirst

  datatype Effect = Clear(name: Name) | Append(name: Name, rows: seq<Row>)

  // ------------------------------------------------------------------------------------------
  // The database.

  function ToRows(columns: seq<string>, rows: seq<seq<Value>>): (r: seq<Row>)
    ensures |r| == |rows|
    ensures forall i :: 0 <= i < |rows| ==> r[i] == Row(columns, rows[i])
  {
    if rows == [] then [] else [Row(columns, rows[0])] + ToRows(columns, rows[1..])
  }

  function CopiedRow(fields: seq<Field>): (r: seq<Value>)
    ensures |r| == |fields|
    ensures forall i :: 0 <= i < |fields| ==> r[i] == Copied(fields[i])
  {
    if fields == [] then [] else [Copied(fields[0])] + CopiedRow(fields[1..])
  }

  function CopiedRows(rows: seq<seq<Field>>): (r: seq<seq<Value>>)
    ensures |r| == |rows|
    ensures forall i :: 0 <= i < |rows| ==> r[i] == CopiedRow(rows[i])
  {
    if rows == [] then [] else [CopiedRow(rows[0])] + CopiedRows(rows[1..])
  }

  /** What a statement with bound values does, if it is one the engine understands. */
  function Meaning(dialect: Dialect, sql: string, bound: seq<Value>): Option<Effect> {
    match ReadClear(dialect, sql)
    case Some(name) => Some(Clear(name))
    case None =>
      match ReadInsert(dialect, sql)
      case None => None
      case Some(insert) =>
        match Evaluate(insert.rows, bound)
        case None => None
        case Some(rows) => Some(Append((insert.schema, insert.relation), ToRows(insert.columns, rows)))
  }

  /** What a COPY with its data does. */
  function CopyMeaning(sql: string, data: bytes): Option<Effect> {
    match ReadCopyIn(sql)
    case None => None
    case Some((name, columns)) =>
      match ReadCsv(data)
      case None => None
      case Some(rows) => Some(Append(name, ToRows(columns, CopiedRows(rows))))
  }

  function Perform(store: Store, effect: Effect): Store
    requires effect.name in store
  {
    match effect
    case Clear(name) => store[name := []]
    case Append(name, rows) => store[name := store[name] + rows]
  }

  class Engine {
    const dialect: Dialect
    const accepts: (Store, Effect) -> bool     // constraints, privileges, lost connections ...
    const commits: Store -> bool
    var committed: Store
    var working: Option<Store>                 // the open transaction

    constructor (dialect: Dialect, accepts: (Store, Effect) -> bool, commits: Store -> bool, store: Store)
      ensures this.dialect == dialect && committed == store && working == None
    {
      this.dialect, this.accepts, this.commits, committed, working := dialect, accepts, commits, store, None;
    }

    method Begin()
      modifies this`working
      ensures working == Some(committed)
    {
      working := Some(committed);
    }

    /** The database has no reason of its own to refuse anything. */
    ghost predicate Willing() {
      (forall store: Store, effect: Effect :: accepts(store, effect)) && forall store: Store :: commits(store)
    }

    /** Apply an effect to the open transaction, unless the database has a reason not to. */
    method Run(effect: Option<Effect>) returns (r: Result<nat, InsertError>)
      requires working.Some?
      modifies this`working
      ensures Willing() ==> (r.Ok? <==> effect.Some? && effect.value.name in old(working).value)
      ensures r.Err? ==> working == old(working)
      ensures r.Ok? ==>
                && effect.Some? && effect.value.name in old(working).value
                && working == Some(Perform(old(working).value, effect.value))
                && (effect.value.Append? ==> r.value == |effect.value.rows|)
    {
      if effect.None? || effect.value.name !in working.value || !accepts(working.value, effect.value) {
        return Err(StatementRejected);
      }
      working := Some(Perform(working.value, effect.value));
      return Ok(if effect.value.Append? then |effect.value.rows| else 0);
    }

    method Commit() returns (r: Result<(), InsertError>)
      requires working.Some?
      modifies this
      ensures working == None
      ensures committed == if r.Ok? then old(working).value else old(committed)
      ensures Willing() ==> r.Ok?
    {
      var kept := commits(working.value);
      if kept {
        committed := working.value;
      }
      working := None;
      return if kept then Ok(()) else Err(CommitFailed);
    }

    /** A transaction that is dropped is rolled back. */
    method Rollback()
      modifies this`working
      ensures working == None
    {
      working := None;
    }
  }

  // ------------------------------------------------------------------------------------------
  // What an insert owes.

  /** SQLite has no unsigned 64-bit integers and alone takes dates and times; no dialect takes the other types. */
  predicate Bindable(dialect: Dialect, cell: Cell) {
    if dialect.Postgres? then HasText(cell)
    else if dialect.Sqlite? then HasText(cell) || cell.Temporal?
    else !cell.OtherType? && !cell.Temporal?
  }

  /** What is bound for a cell: for SQLite, unsigned integers, dates and times become signed integers. */
  function AsBound(dialect: Dialect, cell: Cell): Value {
    if dialect.Sqlite? && cell.UInt64? && cell.u <= I64_MAX then Bound(Int(cell.u))
    else if dialect.Sqlite? && cell.Temporal? then Bound(Int(cell.count))
    else Bound(cell)
  }

  ghost predicate AllBindable(dialect: Dialect, batch: Batch)
    requires IsBatch(batch)
  {
    forall c, k :: 0 <= c < |batch.columns| && 0 <= k < batch.rowCount ==> Bindable(dialect, batch.columns[c][k])
  }

  predicate AreNames(schema: string, relation: string, columns: seq<string>) {
    && columns != [] && ValidName(schema) && ValidName(relation)
    && forall i :: 0 <= i < |columns| ==> ValidName(columns[i])
  }

  predicate KnownColumns(names: seq<string>, valid: set<string>) {
    forall name <- names :: Lower(name) in valid
  }

  /** What an element of the stream must be to go through; a batch without rows always does. */
  ghost predicate Deliverable(dialect: Dialect, schema: string, relation: string, valid: set<string>,
                              item: Result<Batch, InsertError>)
    requires item.Ok? ==> IsBatch(item.value)
  {
    && item.Ok?
    && (item.value.rowCount > 0 ==>
          && KnownColumns(item.value.names, valid) && AreNames(schema, relation, item.value.names)
          && AllBindable(dialect, item.value))
  }

  ghost predicate AllDeliverable(dialect: Dialect, schema: string, relation: string, valid: set<string>,
                                 stream: seq<Result<Batch, InsertError>>)
    requires AreBatches(stream)
  {
    forall i :: 0 <= i < |stream| ==> Deliverable(dialect, schema, relation, valid, stream[i])
  }

  /** The error an element gives when it does not go through and the database is willing. */
  ghost predicate Blames(dialect: Dialect, valid: set<string>, item: Result<Batch, InsertError>, error: InsertError)
    requires item.Ok? ==> IsBatch(item.value)
  {
    match item
    case Err(fault) => error == fault
    case Ok(batch) =>
      if !KnownColumns(batch.names, valid) then
        error.ColumnNotFound? && error.column in batch.names && Lower(error.column) !in valid
      else error.BadName? || (error.ValueNotSupported? && !AllBindable(dialect, batch))
  }

  function Delivered(dialect: Dialect, cell: Cell): Value {
    if dialect.Postgres? then Copied(FieldOf(cell)) else AsBound(dialect, cell)
  }

  /** A field of a COPY text, read by the input rules of a column of the cell's type, is the cell. */
  ghost predicate FieldHolds(field: Field, cell: Cell) {
    match cell
    case Null => field == None
    case Boolean(_) => ReadCell(BoolColumn, field) == Some(cell)
    case Int(_) => ReadCell(IntColumn, field) == Some(cell)
    case UInt64(u) => u <= I64_MAX && ReadCell(IntColumn, field) == Some(Int(u))
    case Float(_) => ReadCell(FloatColumn, field) == Some(cell)
    case Utf8Text(_) => ReadCell(TextColumn, field) == Some(cell)
    case Binary(_) => ReadCell(ByteaColumn, field) == Some(cell)
    case Temporal(_) => false
    case OtherType(_) => false
  }

  /** The value in the database is the cell; SQLite keeps unsigned integers, dates and times as the signed integer. */
  ghost predicate Holds(dialect: Dialect, value: Value, cell: Cell) {
    match dialect
    case Postgres => value.Copied? && FieldHolds(value.field, cell)
    case Sqlite =>
      (match cell
       case UInt64(u) => u <= I64_MAX && value == Bound(Int(u))
       case Temporal(count) => value == Bound(Int(count))
       case OtherType(_) => false
       case _ => value == Bound(cell))
    case _ => value == Bound(cell) && !cell.OtherType? && !cell.Temporal?
  }

  lemma FieldHoldsCell(cell: Cell)
    requires HasText(cell)
    ensures FieldHolds(FieldOf(cell), cell)
  {
    match cell
    case Null =>
    case Boolean(_) => FieldOfReadsBack(cell, BoolColumn);
    case Int(_) => FieldOfReadsBack(cell, IntColumn);
    case UInt64(_) => FieldOfReadsBack(cell, IntColumn);
    case Float(_) => FieldOfReadsBack(cell, FloatColumn);
    case Utf8Text(_) => FieldOfReadsBack(cell, TextColumn);
    case Binary(_) => FieldOfReadsBack(cell, ByteaColumn);
  }

  /** Whatever can be sent is held, in every dialect. */
  lemma DeliveredHolds(dialect: Dialect, cell: Cell)
    requires Bindable(dialect, cell)
    ensures Holds(dialect, Delivered(dialect, cell), cell)
  {
    if dialect.Postgres? {
      FieldHoldsCell(cell);
    }
  }

  /** Which cells can be sent at all, and that anything else is refused. */
  lemma BindableIff(dialect: Dialect, cell: Cell)
    ensures Bindable(dialect, cell) <==>
              match cell
              case OtherType(_) => false
              case Temporal(_) => dialect == Sqlite
              case UInt64(u) => u < 0x8000_0000_0000_0000 || dialect == MySql || dialect == Generic
              case _ => true
  {
  }

  /** `rows` are what is delivered for the batch, under its column names. */
  ghost predicate AreDelivered(dialect: Dialect, batch: Batch, rows: seq<Row>)
    requires IsBatch(batch)
  {
    && |rows| == batch.rowCount
    && forall r :: 0 <= r < |rows| ==>
         && rows[r].columns == batch.names && |rows[r].values| == |batch.columns|
         && forall c :: 0 <= c < |batch.columns| ==> rows[r].values[c] == Delivered(dialect, batch.columns[c][r])
  }

  /** The row holds the cells of row `r` of the batch, under its column names. */
  ghost predicate RowHolds(dialect: Dialect, batch: Batch, r: nat, row: Row)
    requires IsBatch(batch) && r < batch.rowCount
  {
    && row.columns == batch.names && |row.values| == |batch.columns|
    && forall c :: 0 <= c < |batch.columns| ==> Holds(dialect, row.values[c], batch.columns[c][r])
  }

  /** `rows` are the rows of the batch. */
  ghost predicate AreRowsOf(dialect: Dialect, batch: Batch, rows: seq<Row>)
    requires IsBatch(batch)
  {
    AreDelivered(dialect, batch, rows) && forall r :: 0 <= r < |rows| ==> RowHolds(dialect, batch, r, rows[r])
  }

  ghost predicate AreBatches(stream: seq<Result<Batch, InsertError>>) {
    forall i :: 0 <= i < |stream| && stream[i].Ok? ==> IsBatch(stream[i].value)
  }

  /** `rows` are the rows of all the batches, in order. */
  ghost predicate AreRowsOfAll(dialect: Dialect, stream: seq<Result<Batch, InsertError>>, rows: seq<Row>)
    requires AreBatches(stream)
  {
    if stream == [] then rows == []
    else
      var n := |stream| - 1;
      && stream[n].Ok? && |rows| >= stream[n].value.rowCount
      && AreRowsOf(dialect, stream[n].value, rows[|rows| - stream[n].value.rowCount..])
      && AreRowsOfAll(dialect, stream[..n], rows[..|rows| - stream[n].value.rowCount])
  }

  /** How many rows come before element `i` of the stream. */
  ghost function RowsBefore(stream: seq<Result<Batch, InsertError>>, i: nat): nat
    requires i <= |stream|
  {
    if i == 0 then 0 else RowsBefore(stream, i - 1) + if stream[i - 1].Ok? then stream[i - 1].value.rowCount else 0
  }

  /** Where each row of each batch is, and what its values hold. */
  lemma {:induction false} StoredRow(dialect: Dialect, stream: seq<Result<Batch, InsertError>>, rows: seq<Row>,
                                     i: nat, r: nat)
    requires AreBatches(stream) && AreRowsOfAll(dialect, stream, rows)
    requires i < |stream| && stream[i].Ok? && r < stream[i].value.rowCount
    ensures RowsBefore(stream, |stream|) == |rows| && RowsBefore(stream, i) + r < |rows|
    ensures RowHolds(dialect, stream[i].value, r, rows[RowsBefore(stream, i) + r])
    decreases |stream|
  {
    var n := |stream| - 1;
    var before := rows[..|rows| - stream[n].value.rowCount];
    RowsCounted(dialect, stream[..n], before);
    SameRowsBefore(stream, n, n);
    if i < n {
      StoredRow(dialect, stream[..n], before, i, r);
      SameRowsBefore(stream, n, i);
    } else {
      HeldBehind(dialect, stream[i].value, rows, |before|, r);
    }
  }

  lemma HeldBehind(dialect: Dialect, batch: Batch, rows: seq<Row>, from: nat, r: nat)
    requires IsBatch(batch) && r < batch.rowCount && from <= |rows| && AreRowsOf(dialect, batch, rows[from..])
    ensures from + r < |rows| && RowHolds(dialect, batch, r, rows[from + r])
  {
    assert rows[from..][r] == rows[from + r];
  }

  /** Every row of every batch is in its place and holds its cells, and there are no other rows. */
  ghost predicate EveryRowHeld(dialect: Dialect, stream: seq<Result<Batch, InsertError>>, rows: seq<Row>)
    requires AreBatches(stream)
  {
    && |rows| == RowsBefore(stream, |stream|)
    && forall i: nat, r: nat :: i < |stream| ==> HeldInPlace(dialect, stream, rows, i, r)
  }

  /** Row `r` of batch `i`, if there is one. */
  ghost predicate HeldInPlace(dialect: Dialect, stream: seq<Result<Batch, InsertError>>, rows: seq<Row>, i: nat, r: nat)
    requires AreBatches(stream) && i < |stream|
  {
    stream[i].Ok? && r < stream[i].value.rowCount ==>
      && RowsBefore(stream, i) + r < |rows|
      && RowHolds(dialect, stream[i].value, r, rows[RowsBefore(stream, i) + r])
  }

  lemma StoredRows(dialect: Dialect, stream: seq<Result<Batch, InsertError>>, rows: seq<Row>)
    requires AreBatches(stream) && AreRowsOfAll(dialect, stream, rows)
    ensures EveryRowHeld(dialect, stream, rows)
  {
    RowsCounted(dialect, stream, rows);
    forall i: nat, r: nat | i < |stream| ensures HeldInPlace(dialect, stream, rows, i, r) {
      if stream[i].Ok? && r < stream[i].value.rowCount {
        StoredRow(dialect, stream, rows, i, r);
      }
    }
  }

  lemma {:induction false} SameRowsBefore(stream: seq<Result<Batch, InsertError>>, n: nat, i: nat)
    requires i <= n <= |stream|
    ensures RowsBefore(stream[..n], i) == RowsBefore(stream, i)
  {
    if i > 0 {
      SameRowsBefore(stream, n, i - 1);
    }
  }

  lemma {:induction false} RowsCounted(dialect: Dialect, stream: seq<Result<Batch, InsertError>>, rows: seq<Row>)
    requires AreBatches(stream) && AreRowsOfAll(dialect, stream, rows)
    ensures RowsBefore(stream, |stream|) == |rows|
  {
    if stream != [] {
      var n := |stream| - 1;
      RowsCounted(dialect, stream[..n], rows[..|rows| - stream[n].value.rowCount]);
      SameRowsBefore(stream, n, n);
    }
  }

  // ------------------------------------------------------------------------------------------
  // Sending one batch.

  ghost predicate AreBoundRows(dialect: Dialect, batch: Batch, rows: seq<seq<Value>>)
    requires IsBatch(batch)
  {
    && |rows| == batch.rowCount
    && forall r :: 0 <= r < |rows| ==>
         && |rows[r]| == |batch.columns|
         && forall c :: 0 <= c < |batch.columns| ==> rows[r][c] == AsBound(dialect, batch.columns[c][r])
  }

  /** Bind a batch: row after row, and within a row column after column. */
  method BindBatch(dialect: Dialect, batch: Batch)
    returns (r: Result<seq<Value>, InsertError>, ghost rows: seq<seq<Value>>)
    requires IsBatch(batch)
    ensures r.Ok? <==> AllBindable(dialect, batch)
    ensures r.Err? ==> r.error == ValueNotSupported
    ensures r.Ok? ==> AreBoundRows(dialect, batch, rows) && r.value == Flatten(rows)
  {
    var bound: seq<Value> := [];
    rows := [];
    for row := 0 to batch.rowCount
      invariant |rows| == row && bound == Flatten(rows)
      invariant forall c, k :: 0 <= c < |batch.columns| && 0 <= k < row ==> Bindable(dialect, batch.columns[c][k])
      invariant forall k :: 0 <= k < row ==>
                  && |rows[k]| == |batch.columns|
                  && forall c :: 0 <= c < |batch.columns| ==> rows[k][c] == AsBound(dialect, batch.columns[c][k])
    {
      ghost var cells: seq<Value> := [];
      ghost var before := bound;
      for column := 0 to |batch.columns|
        invariant |cells| == column
        invariant forall c :: 0 <= c < column ==> cells[c] == AsBound(dialect, batch.columns[c][row])
        invariant forall c :: 0 <= c < column ==> Bindable(dialect, batch.columns[c][row])
        invariant bound == before + cells
      {
        var cell := batch.columns[column][row];
        if !Bindable(dialect, cell) {
          return Err(ValueNotSupported), rows;
        }
        Assoc(before, cells, [AsBound(dialect, cell)]);
        bound := bound + [AsBound(dialect, cell)];
        cells := cells + [AsBound(dialect, cell)];
      }
      FlattenSnoc(rows, cells);
      rows := rows + [cells];
    }
    return Ok(bound), rows;
  }

  lemma InsertIsNotClear(dialect: Dialect, schema: string, relation: string, names: seq<string>, rows: nat, sql: string)
    requires InsertText(dialect, schema, relation, names, rows) == Ok(sql)
    ensures ReadClear(dialect, sql) == None
  {
    assert sql[0] == 'I';
    assert ClearPrefix(dialect)[0] != 'I';
  }

  /** A willing database takes a batch exactly when its names and its cells can be sent. */
  ghost predicate SentIff(engine: Engine, before: Store, schema: string, relation: string, batch: Batch,
                          r: Result<nat, InsertError>)
    requires IsBatch(batch)
  {
    engine.Willing() && (schema, relation) in before ==>
      && (r.Ok? <==> AreNames(schema, relation, batch.names) && AllBindable(engine.dialect, batch))
      && (r.Err? ==> r.error.BadName? || (r.error.ValueNotSupported? && !AllBindable(engine.dialect, batch)))
  }

  lemma CopyInTextOk(schema: string, relation: string, columns: seq<string>)
    ensures CopyInText(schema, relation, columns).Ok? <==> AreNames(schema, relation, columns)
  {
    QuoteAllOk(Postgres, columns);
  }

  lemma WritableIsBindable(batch: Batch)
    requires IsBatch(batch)
    ensures Writable(batch) <==> AllBindable(Postgres, batch)
  {
    if Writable(batch) {
      forall c, k | 0 <= c < |batch.columns| && 0 <= k < batch.rowCount
        ensures Bindable(Postgres, batch.columns[c][k])
      {
        assert WritableRow(batch, k);
      }
    }
  }

  lemma DeliveredAreHeld(dialect: Dialect, batch: Batch, rows: seq<Row>)
    requires IsBatch(batch) && AllBindable(dialect, batch) && AreDelivered(dialect, batch, rows)
    ensures AreRowsOf(dialect, batch, rows)
  {
    forall r | 0 <= r < |rows| ensures RowHolds(dialect, batch, r, rows[r]) {
      forall c | 0 <= c < |batch.columns| ensures Holds(dialect, rows[r].values[c], batch.columns[c][r]) {
        DeliveredHolds(dialect, batch.columns[c][r]);
      }
    }
  }

  lemma BoundAreRows(dialect: Dialect, batch: Batch, cells: seq<seq<Value>>)
    requires IsBatch(batch) && AreBoundRows(dialect, batch, cells) && !dialect.Postgres? && AllBindable(dialect, batch)
    ensures AreRowsOf(dialect, batch, ToRows(batch.names, cells))
  {
    DeliveredAreHeld(dialect, batch, ToRows(batch.names, cells));
  }

  /** The database, reading the INSERT text with its bound values, gets the rows of the batch. */
  lemma BoundMeansTheBatch(dialect: Dialect, schema: string, relation: string, batch: Batch, sql: string,
                           cells: seq<seq<Value>>)
    returns (rows: seq<Row>)
    requires IsBatch(batch) && AreBoundRows(dialect, batch, cells) && !dialect.Postgres? && AllBindable(dialect, batch)
    requires InsertText(dialect, schema, relation, batch.names, batch.rowCount) == Ok(sql)
    ensures Meaning(dialect, sql, Flatten(cells)) == Some(Append((schema, relation), rows))
    ensures AreRowsOf(dialect, batch, rows)
  {
    var insert := InsertMeansTheBatch(dialect, schema, relation, batch.names, cells, sql);
    InsertIsNotClear(dialect, schema, relation, batch.names, batch.rowCount, sql);
    rows := ToRows(batch.names, cells);
    BoundAreRows(dialect, batch, cells);
  }

  /** SQLite and MySQL: one INSERT statement with every cell bound. */
  method SendInsert(engine: Engine, schema: string, relation: string, batch: Batch)
    returns (r: Result<nat, InsertError>, ghost rows: seq<Row>)
    requires engine.working.Some? && IsBatch(batch) && batch.rowCount > 0 && !engine.dialect.Postgres?
    modifies engine`working
    ensures engine.working.Some?
    ensures SentIff(engine, old(engine.working).value, schema, relation, batch, r)
    ensures r.Ok? ==>
              Appended(engine, old(engine.working).value, (schema, relation), batch, rows) && r.value == batch.rowCount
  {
    rows := [];
    InsertTextOk(engine.dialect, schema, relation, batch.names, batch.rowCount);
    var sql := InsertSql(engine.dialect, schema, relation, batch.names, batch.rowCount);
    if sql.Err? {
      return Err(BadName(sql.error)), rows;
    }
    var bound;
    ghost var cells;
    bound, cells := BindBatch(engine.dialect, batch);
    if bound.Err? {
      return Err(bound.error), rows;
    }
    rows := BoundMeansTheBatch(engine.dialect, schema, relation, batch, sql.value, cells);
    r := engine.Run(Meaning(engine.dialect, sql.value, bound.value));
  }

  /**
    The database, reading the COPY text and its data, gets the rows of the batch for the columns they were named
    after.
  */
  lemma CopyMeansTheBatch(schema: string, relation: string, batch: Batch, sql: string, fields: seq<seq<Field>>)
    returns (rows: seq<Row>)
    requires IsBatch(batch) && AreFieldRows(batch, fields) && CopyInText(schema, relation, batch.names) == Ok(sql)
    ensures CopyMeaning(sql, CsvText(fields)) == Some(Append((schema, relation), rows))
    ensures AreDelivered(Postgres, batch, rows)
    ensures AllBindable(Postgres, batch) ==> AreRowsOf(Postgres, batch, rows)
  {
    CopyInReadsBack(schema, relation, batch.names, sql);
    forall i | 0 <= i < |fields| ensures fields[i] != [] {
      assert IsFieldRow(batch, i, fields[i]);
    }
    CsvReadsBack(fields);
    rows := ToRows(batch.names, CopiedRows(fields));
    CopiedAreRows(batch, fields);
  }

  lemma CopiedAreRows(batch: Batch, fields: seq<seq<Field>>)
    requires IsBatch(batch) && AreFieldRows(batch, fields)
    ensures AreDelivered(Postgres, batch, ToRows(batch.names, CopiedRows(fields)))
    ensures AllBindable(Postgres, batch) ==> AreRowsOf(Postgres, batch, ToRows(batch.names, CopiedRows(fields)))
  {
    assert forall i :: 0 <= i < |fields| ==> IsFieldRow(batch, i, fields[i]);
    if AllBindable(Postgres, batch) {
      DeliveredAreHeld(Postgres, batch, ToRows(batch.names, CopiedRows(fields)));
    }
  }

  /** Postgres: one COPY of the batch as CSV text. */
  method SendCopy(engine: Engine, schema: string, relation: string, batch: Batch)
    returns (r: Result<nat, InsertError>, ghost rows: seq<Row>)
    requires engine.working.Some? && IsBatch(batch) && engine.dialect.Postgres?
    modifies engine`working
    ensures engine.working.Some?
    ensures SentIff(engine, old(engine.working).value, schema, relation, batch, r)
    ensures r.Ok? ==>
              Appended(engine, old(engine.working).value, (schema, relation), batch, rows) && r.value == batch.rowCount
  {
    rows := [];
    CopyInTextOk(schema, relation, batch.names);
    WritableIsBindable(batch);
    var sql := CopyInText(schema, relation, batch.names);
    if sql.Err? {
      return Err(BadName(sql.error)), rows;
    }
    var data;
    ghost var fields;
    data, fields := BatchToCopyCsv(batch);
    if data.Err? {
      return Err(ValueNotSupported), rows;
    }
    rows := CopyMeansTheBatch(schema, relation, batch, sql.value, fields);
    r := engine.Run(CopyMeaning(sql.value, data.value));
  }

  /** The rows of the batch have been appended to the table, and nothing else has changed. */
  ghost predicate Appended(engine: Engine, before: Store, name: Name, batch: Batch, rows: seq<Row>)
    reads engine
    requires IsBatch(batch)
  {
    && AreRowsOf(engine.dialect, batch, rows)
    && name in before && engine.working == Some(before[name := before[name] + rows])
  }

  // ------------------------------------------------------------------------------------------
  // The insert.

  method CheckColumns(names: seq<string>, valid: set<string>) returns (r: Result<(), InsertError>)
    ensures r.Ok? <==> forall i :: 0 <= i < |names| ==> Lower(names[i]) in valid
    ensures r.Ok? <==> KnownColumns(names, valid)
    ensures r.Err? ==> r.error.ColumnNotFound? && r.error.column in names && Lower(r.error.column) !in valid
  {
    for i := 0 to |names|
      invariant forall k :: 0 <= k < i ==> Lower(names[k]) in valid
    {
      if Lower(names[i]) !in valid {
        return Err(ColumnNotFound(names[i]));
      }
    }
    return Ok(());
  }

  /** Element `i` is the first that cannot go through, and `error` is its error. */
  ghost predicate FirstFault(dialect: Dialect, schema: string, relation: string, valid: set<string>,
                             stream: seq<Result<Batch, InsertError>>, i: nat, error: InsertError)
    requires AreBatches(stream)
  {
    && i < |stream| && AllDeliverable(dialect, schema, relation, valid, stream[..i])
    && !Deliverable(dialect, schema, relation, valid, stream[i]) && Blames(dialect, valid, stream[i], error)
  }

  /** One turn of the loop over the batches. */
  method SendItem(engine: Engine, schema: string, relation: string, valid: set<string>,
                  item: Result<Batch, InsertError>)
    returns (r: Result<nat, InsertError>, ghost added: seq<Row>)
    requires engine.working.Some? && (schema, relation) in engine.working.value && (item.Ok? ==> IsBatch(item.value))
    modifies engine`working
    ensures engine.working.Some?
    ensures r.Ok? ==>
              && item.Ok? && (item.value.rowCount > 0 ==> KnownColumns(item.value.names, valid))
              && Appended(engine, old(engine.working).value, (schema, relation), item.value, added)
              && r.value == item.value.rowCount
    ensures engine.Willing() ==>
              && (r.Ok? <==> Deliverable(engine.dialect, schema, relation, valid, item))
              && (r.Err? ==> Blames(engine.dialect, valid, item, r.error))
  {
    added := [];
    if item.Err? {
      return Err(item.error), added;
    }
    var batch := item.value;
    if batch.rowCount == 0 {
      ghost var before := engine.working.value;
      EmptyLast(before[(schema, relation)]);
      assert before[(schema, relation) := before[(schema, relation)]] == before;
      return Ok(0), added;
    }
    var checked := CheckColumns(batch.names, valid);
    if checked.Err? {
      return Err(checked.error), added;
    }
    if engine.dialect.Postgres? {
      r, added := SendCopy(engine, schema, relation, batch);
    } else {
      r, added := SendInsert(engine, schema, relation, batch);
    }
  }

  /** The elements of `stream` have been sent: their rows were appended to the table, and nothing else has changed. */
  ghost predicate AllSent(dialect: Dialect, name: Name, valid: set<string>, stream: seq<Result<Batch, InsertError>>,
                          before: Store, after: Store, rows: seq<Row>)
    requires AreBatches(stream)
  {
    && name in before && after == before[name := before[name] + rows]
    && AreRowsOfAll(dialect, stream, rows)
    && forall i :: 0 <= i < |stream| ==>
         stream[i].Ok? && (stream[i].value.rowCount > 0 ==> KnownColumns(stream[i].value.names, valid))
  }

  lemma NoneSent(dialect: Dialect, name: Name, valid: set<string>, store: Store)
    requires name in store
    ensures AllSent(dialect, name, valid, [], store, store, [])
  {
    EmptyLast(store[name]);
    assert store[name := store[name]] == store;
  }

  lemma OneMoreSent(dialect: Dialect, name: Name, valid: set<string>, stream: seq<Result<Batch, InsertError>>, i: nat,
                    before: Store, middle: Store, rows: seq<Row>, added: seq<Row>)
    requires AreBatches(stream) && i < |stream| && AllSent(dialect, name, valid, stream[..i], before, middle, rows)
    requires stream[i].Ok? && (stream[i].value.rowCount > 0 ==> KnownColumns(stream[i].value.names, valid))
    requires AreRowsOf(dialect, stream[i].value, added)
    ensures AllSent(dialect, name, valid, stream[..i + 1], before, middle[name := middle[name] + added], rows + added)
  {
    assert stream[..i + 1][..i] == stream[..i];
    assert (rows + added)[..|rows|] == rows && (rows + added)[|rows|..] == added;
    Assoc(before[name], rows, added);
  }

  lemma OneMoreDeliverable(dialect: Dialect, schema: string, relation: string, valid: set<string>,
                           stream: seq<Result<Batch, InsertError>>, i: nat)
    requires AreBatches(stream) && i < |stream| && AllDeliverable(dialect, schema, relation, valid, stream[..i])
    requires Deliverable(dialect, schema, relation, valid, stream[i])
    ensures AllDeliverable(dialect, schema, relation, valid, stream[..i + 1])
  {
    assert stream[..i + 1] == stream[..i] + [stream[i]];
  }

  /** The loop over the batches, inside the transaction. */
  method SendBatches(engine: Engine, schema: string, relation: string, valid: set<string>,
                     stream: seq<Result<Batch, InsertError>>)
    returns (r: Result<nat, InsertError>, ghost rows: seq<Row>, ghost fault: nat)
    requires engine.working.Some? && AreBatches(stream) && (schema, relation) in engine.working.value
    modifies engine`working
    ensures engine.working.Some?
    ensures r.Ok? ==> r.value == |rows|
    ensures r.Ok? ==>
              AllSent(engine.dialect, (schema, relation), valid, stream,
                      old(engine.working).value, engine.working.value, rows)
    ensures engine.Willing() ==> if r.Ok? then AllDeliverable(engine.dialect, schema, relation, valid, stream)
                                 else FirstFault(engine.dialect, schema, relation, valid, stream, fault, r.error)
  {
    ghost var before, name := engine.working.value, (schema, relation);
    var inserted := 0;
    rows, fault := [], 0;
    NoneSent(engine.dialect, name, valid, before);
    for i := 0 to |stream|
      invariant inserted == |rows| && engine.working.Some?
      invariant AllSent(engine.dialect, name, valid, stream[..i], before, engine.working.value, rows)
      invariant engine.Willing() ==> AllDeliverable(engine.dialect, schema, relation, valid, stream[..i])
    {
      var sent;
      ghost var added, middle := [], engine.working.value;
      sent, added := SendItem(engine, schema, relation, valid, stream[i]);
      if sent.Err? {
        return sent, rows, i;
      }
      OneMoreSent(engine.dialect, name, valid, stream, i, before, middle, rows, added);
      if engine.Willing() {
        OneMoreDeliverable(engine.dialect, schema, relation, valid, stream, i);
      }
      rows := rows + added;
      inserted := inserted + sent.value;
    }
    assert stream[..|stream|] == stream;
    r := Ok(inserted);
  }

  /** The table is cleared inside the transaction. */
  method ClearTable(engine: Engine, schema: string, relation: string) returns (r: Result<nat, InsertError>)
    requires engine.working.Some? && (schema, relation) in engine.working.value
    modifies engine`working
    ensures engine.working.Some?
    ensures r.Ok? ==> engine.working == Some(old(engine.working).value[(schema, relation) := []])
    ensures engine.Willing() ==> (r.Ok? <==> ValidName(schema) && ValidName(relation))
    ensures engine.Willing() && r.Err? ==> r.error.BadName?
  {
    var sql := ClearText(engine.dialect, schema, relation);
    if sql.Err? {
      return Err(BadName(sql.error));
    }
    ClearReadsBack(engine.dialect, schema, relation, sql.value);
    r := engine.Run(Meaning(engine.dialect, sql.value, []));
  }

  /**
    All or nothing. On success the table holds its old rows, or none if it was to be truncated, and then
    the rows of every batch in order; the result is their number; every other table is as it was. On any
    error, however late, nothing at all has changed. A willing database gives success exactly when the
    table exists and every batch with rows has known columns, valid names and values that can be sent.
  */
  method InsertBatches(engine: Engine, schema: string, relation: string, valid: set<string>,
                       stream: seq<Result<Batch, InsertError>>, mode: InsertMode)
    returns (r: Result<nat, InsertError>, ghost rows: seq<Row>)
    requires engine.working == None && AreBatches(stream)
    modifies engine
    ensures engine.working == None
    ensures engine.Willing() ==>
              (r.Ok? <==>
                && (schema, relation) in old(engine.committed)
                && (mode.TruncateFirst? ==> ValidName(schema) && ValidName(relation))
                && AllDeliverable(engine.dialect, schema, relation, valid, stream))
    ensures (schema, relation) !in old(engine.committed) ==> r == Err(RelationNotFound)
    ensures engine.Willing() && (schema, relation) in old(engine.committed) && mode.TruncateFirst? ==>
              (ValidName(schema) && ValidName(relation)) || (r.Err? && r.error.BadName?)
    ensures engine.Willing() && (schema, relation) in old(engine.committed) ==>
              ValidName(schema) && ValidName(relation) && r.Err? ==>
              exists i :: FirstFault(engine.dialect, schema, relation, valid, stream, i, r.error)
    ensures r.Err? ==> engine.committed == old(engine.committed)
    ensures r.Ok? ==>
              var before, name := old(engine.committed), (schema, relation);
              && name in before && AreRowsOfAll(engine.dialect, stream, rows) && r.value == |rows|
              && EveryRowHeld(engine.dialect, stream, rows)
              && engine.committed == before[name := (if mode.TruncateFirst? then [] else before[name]) + rows]
              && forall i :: 0 <= i < |stream| ==>
                   stream[i].Ok? && (stream[i].value.rowCount > 0 ==> KnownColumns(stream[i].value.names, valid))
  {
    rows := [];
    if (schema, relation) !in engine.committed {
      return Err(RelationNotFound), rows;
    }
    engine.Begin();
    if mode.TruncateFirst? {
      var cleared := ClearTable(engine, schema, relation);
      if cleared.Err? {
        engine.Rollback();
        return cleared, rows;
      }
    }
    var sent;
    ghost var fault;
    sent, rows, fault := SendBatches(engine, schema, relation, valid, stream);
    if sent.Err? {
      engine.Rollback();
      return sent, rows;
    }
    StoredRows(engine.dialect, stream, rows);
    var committed := engine.Commit();
    if committed.Err? {
      return Err(committed.error), rows;
    }
    return sent, rows;
  }
}

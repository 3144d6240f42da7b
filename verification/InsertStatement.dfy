/**
  The multi-row INSERT text, with one placeholder per cell, and the meaning the database gives it: the
  VALUES list is read back as rows of parameter numbers and evaluated against the bound values.
*/
module InsertStatement {
  import opened Wrappers
  import opened Text
  import opened Decimal
  import opened SqlText

  /** `count` placeholders from number `start` on. */
  function Placeholders(dialect: Dialect, start: nat, count: nat): seq<string>
    decreases count
  {
    if count == 0 then [] else [Placeholder(dialect, start)] + Placeholders(dialect, start + 1, count - 1)
  }

  function RowText(dialect: Dialect, start: nat, columns: nat): string {
    "(" + Join(Placeholders(dialect, start, columns), ", ") + ")"
  }

  function RowTexts(dialect: Dialect, start: nat, columns: nat, rows: nat): seq<string>
    decreases rows
  {
    if rows == 0 then [] else [RowText(dialect, start, columns)] + RowTexts(dialect, start + columns, columns, rows - 1)
  }

  function InsertText(dialect: Dialect, schema: string, relation: string, columns: seq<string>,
                      rows: nat): Result<string, SqlError>
  {
    if columns == [] then Err(NoColumns)
    else if rows == 0 then Err(NoRows)
    else
      match QualifiedName(dialect, schema, relation)
      case Err(error) => Err(error)
      case Ok(name) =>
        match QuoteAll(dialect, columns)
        case Err(error) => Err(error)
        case Ok(quoted) =>
          Ok("INSERT INTO " + name + (" (" + Join(quoted, ", ") + ") VALUES ")
            + Join(RowTexts(dialect, 1, |columns|, rows), ", "))
  }

  /** The text, built with one counter that runs through all rows and columns. */
  method InsertSql(dialect: Dialect, schema: string, relation: string, columns: seq<string>, rows: nat)
    returns (r: Result<string, SqlError>)
    ensures r == InsertText(dialect, schema, relation, columns, rows)
  {
    if columns == [] {
      return Err(NoColumns);
    }
    if rows == 0 {
      return Err(NoRows);
    }
    var name := QualifiedName(dialect, schema, relation);
    if name.Err? {
      return name;
    }
    var quoted := QuoteAll(dialect, columns);
    if quoted.Err? {
      return Err(quoted.error);
    }
    var values := ValueRows(dialect, |columns|, rows);
    return Ok("INSERT INTO " + name.value + (" (" + Join(quoted.value, ", ") + ") VALUES ") + Join(values, ", "));
  }

  method ValueRows(dialect: Dialect, columns: nat, rows: nat) returns (values: seq<string>)
    ensures values == RowTexts(dialect, 1, columns, rows)
  {
    var index := 1;
    values := [];
    ghost var all := RowTexts(dialect, 1, columns, rows);
    EmptyFirst(all);
    for i := 0 to rows
      invariant values + RowTexts(dialect, index, columns, rows - i) == all
    {
      var row: seq<string> := [];
      ghost var start := index;
      ghost var cells := Placeholders(dialect, start, columns);
      EmptyFirst(cells);
      for j := 0 to columns
        invariant index == start + j
        invariant row + Placeholders(dialect, index, columns - j) == cells
      {
        var cell := Placeholder(dialect, index);
        Assoc(row, [cell], Placeholders(dialect, index + 1, columns - j - 1));
        row := row + [cell];
        index := index + 1;
      }
      EmptyLast(row);
      var text := "(" + Join(row, ", ") + ")";
      Assoc(values, [text], RowTexts(dialect, index, columns, rows - i - 1));
      values := values + [text];
    }
    EmptyLast(values);
  }

  // ------------------------------------------------------------------------------------------
  // The reader.

  datatype Insert = Insert(schema: string, relation: string, columns: seq<string>, rows: seq<seq<nat>>)

  /** A placeholder: its number if it has one, otherwise the number of its position. */
  function ReadPlaceholder(dialect: Dialect, s: string, position: nat): (r: Option<(nat, string)>)
    ensures r.Some? ==> |r.value.1| < |s|
  {
    if dialect.Postgres? then
      match Skip("$", s)
      case None => None
      case Some(later) =>
        var (digits, rest) := TakeDigits(later);
        TakeDigitsShrinks(later);
        match ReadNat(digits) case None => None case Some(n) => Some((n, rest))
    else
      match Skip("?", s) case None => None case Some(rest) => Some((position, rest))
  }

  lemma {:induction false} TakeDigitsShrinks(s: string)
    ensures |TakeDigits(s).1| <= |s|
  {
    if s != [] && IsDigit(s[0]) {
      TakeDigitsShrinks(s[1..]);
    }
  }

  /** The placeholders of one row, up to its closing parenthesis. */
  function ReadCells(dialect: Dialect, s: string, position: nat): (r: Option<(seq<nat>, string)>)
    ensures r.Some? ==> |r.value.1| < |s|
    decreases |s|
  {
    match ReadPlaceholder(dialect, s, position)
    case None => None
    case Some((index, rest)) =>
      match Skip(")", rest)
      case Some(end) => Some(([index], end))
      case None =>
        match Skip(", ", rest)
        case None => None
        case Some(later) =>
          match ReadCells(dialect, later, position + 1)
          case None => None
          case Some((indexes, end)) => Some(([index] + indexes, end))
  }

  function ReadRows(dialect: Dialect, s: string, position: nat): Option<seq<seq<nat>>>
    decreases |s|
  {
    match Skip("(", s)
    case None => None
    case Some(inner) =>
      match ReadCells(dialect, inner, position)
      case None => None
      case Some((row, rest)) =>
        if rest == [] then Some([row])
        else
          match Skip(", ", rest)
          case None => None
          case Some(later) =>
            match ReadRows(dialect, later, position + |row|)
            case None => None
            case Some(rows) => Some([row] + rows)
  }

  function ReadInsert(dialect: Dialect, sql: string): Option<Insert> {
    match Skip("INSERT INTO ", sql)
    case None => None
    case Some(s) =>
      match ReadQualified(dialect, s)
      case None => None
      case Some(((schema, relation), afterName)) =>
        match Skip(" (", afterName)
        case None => None
        case Some(inner) =>
          match ReadNames(dialect, inner)
          case None => None
          case Some((columns, afterColumns)) =>
            match Skip(") VALUES ", afterColumns)
            case None => None
            case Some(values) =>
              match ReadRows(dialect, values, 1)
              case None => None
              case Some(rows) => Some(Insert(schema, relation, columns, rows))
  }

  function Numbers(start: nat, count: nat): (r: seq<nat>)
    ensures |r| == count
    decreases count
  {
    if count == 0 then [] else [start] + Numbers(start + 1, count - 1)
  }

  lemma {:induction false} NumbersAt(start: nat, count: nat, i: nat)
    requires i < count
    ensures Numbers(start, count)[i] == start + i
    decreases count
  {
    if i > 0 {
      NumbersAt(start + 1, count - 1, i - 1);
    }
  }

  function NumberRows(start: nat, columns: nat, rows: nat): (r: seq<seq<nat>>)
    ensures |r| == rows
    decreases rows
  {
    if rows == 0 then [] else [Numbers(start, columns)] + NumberRows(start + columns, columns, rows - 1)
  }

  lemma PlaceholderReadsBack(dialect: Dialect, index: nat, rest: string)
    requires rest == [] || !IsDigit(rest[0])
    ensures ReadPlaceholder(dialect, Placeholder(dialect, index) + rest, index) == Some((index, rest))
  {
    if dialect.Postgres? {
      Assoc("$", NatText(index), rest);
      SkipToken("$", NatText(index) + rest);
      DigitsEnd(NatText(index), rest);
      NatReadsBack(index);
    } else {
      SkipToken("?", rest);
    }
  }

  lemma {:induction false} CellsReadBack(dialect: Dialect, start: nat, count: nat, rest: string)
    requires count > 0
    ensures ReadCells(dialect, Join(Placeholders(dialect, start, count), ", ") + (")" + rest), start)
            == Some((Numbers(start, count), rest))
    decreases count
  {
    var cells := Placeholders(dialect, start, count);
    assert cells[1..] == Placeholders(dialect, start + 1, count - 1);
    if count == 1 {
      assert cells == [cells[0]] && Numbers(start, 1) == [start];
      PlaceholderReadsBack(dialect, start, ")" + rest);
      SkipToken(")", rest);
    } else {
      var later := Join(cells[1..], ", ");
      assert |cells| > 1;
      CellsReadBack(dialect, start + 1, count - 1, rest);
      Assoc(cells[0] + ", ", later, ")" + rest);
      Assoc(cells[0], ", ", later + (")" + rest));
      PlaceholderReadsBack(dialect, start, ", " + (later + (")" + rest)));
      SkipToken(", ", later + (")" + rest));
    }
  }

  lemma RowReadsBack(dialect: Dialect, start: nat, columns: nat, rest: string)
    requires columns > 0
    ensures var s := RowText(dialect, start, columns) + rest;
            && Skip("(", s).Some?
            && ReadCells(dialect, Skip("(", s).value, start) == Some((Numbers(start, columns), rest))
  {
    var cells := Join(Placeholders(dialect, start, columns), ", ");
    Assoc("(" + cells, ")", rest);
    Assoc("(", cells, ")" + rest);
    SkipToken("(", cells + (")" + rest));
    CellsReadBack(dialect, start, columns, rest);
  }

  ghost predicate RowReadsBefore(dialect: Dialect, text: string, row: seq<nat>, start: nat, rest: string) {
    Skip("(", text + rest).Some? && ReadCells(dialect, Skip("(", text + rest).value, start) == Some((row, rest))
  }

  lemma LastRowReadsBack(dialect: Dialect, s: string, row: seq<nat>, start: nat)
    requires Skip("(", s).Some? && ReadCells(dialect, Skip("(", s).value, start) == Some((row, []))
    ensures ReadRows(dialect, s, start) == Some([row])
  {
  }

  lemma NextRowReadsBack(dialect: Dialect, text: string, rows: seq<seq<nat>>, rest: string, later: string, start: nat)
    requires rows != [] && RowReadsBefore(dialect, text, rows[0], start, rest) && rest == ", " + later
    requires ReadRows(dialect, later, start + |rows[0]|) == Some(rows[1..])
    ensures ReadRows(dialect, text + rest, start) == Some(rows)
  {
    NextRow(dialect, text + rest, rows[0], rest, later, rows[1..], start);
    assert rows == [rows[0]] + rows[1..];
  }

  lemma NextRow(dialect: Dialect, s: string, row: seq<nat>, rest: string, later: string, rows: seq<seq<nat>>,
                start: nat)
    requires Skip("(", s).Some? && ReadCells(dialect, Skip("(", s).value, start) == Some((row, rest))
    requires rest == ", " + later && ReadRows(dialect, later, start + |row|) == Some(rows)
    ensures ReadRows(dialect, s, start) == Some([row] + rows)
  {
    SkipToken(", ", later);
  }

  /** The text of a row reads as `row` whatever follows it. */
  ghost predicate RowReads(dialect: Dialect, text: string, row: seq<nat>, start: nat) {
    forall rest: string :: RowReadsBefore(dialect, text, row, start, rest)
  }

  ghost predicate RowsRead(dialect: Dialect, texts: seq<string>, rows: seq<seq<nat>>, start: nat) {
    |texts| == |rows|
    && (texts != [] ==>
         RowReads(dialect, texts[0], rows[0], start) && RowsRead(dialect, texts[1..], rows[1..], start + |rows[0]|))
  }

  lemma {:induction false} JoinedRowsReadBack(dialect: Dialect, texts: seq<string>, rows: seq<seq<nat>>, start: nat)
    requires texts != [] && RowsRead(dialect, texts, rows, start)
    ensures ReadRows(dialect, Join(texts, ", "), start) == Some(rows)
  {
    if |texts| == 1 {
      assert texts[0] + [] == texts[0];
      assert RowReadsBefore(dialect, texts[0], rows[0], start, []);
      LastRowReadsBack(dialect, texts[0], rows[0], start);
      assert rows == [rows[0]];
    } else {
      var later := Join(texts[1..], ", ");
      JoinedRowsReadBack(dialect, texts[1..], rows[1..], start + |rows[0]|);
      assert RowReadsBefore(dialect, texts[0], rows[0], start, ", " + later);
      NextRowReadsBack(dialect, texts[0], rows, ", " + later, later, start);
      Assoc(texts[0], ", ", later);
    }
  }

  lemma {:induction false} RowTextsRead(dialect: Dialect, start: nat, columns: nat, rows: nat)
    requires columns > 0
    ensures RowsRead(dialect, RowTexts(dialect, start, columns, rows), NumberRows(start, columns, rows), start)
    decreases rows
  {
    if rows > 0 {
      forall rest: string
        ensures RowReadsBefore(dialect, RowText(dialect, start, columns), Numbers(start, columns), start, rest)
      {
        RowReadsBack(dialect, start, columns, rest);
      }
      assert RowReads(dialect, RowText(dialect, start, columns), Numbers(start, columns), start);
      RowTextsRead(dialect, start + columns, columns, rows - 1);
    }
  }

  lemma InsertChain(a: string, b: string, c: string, d: string, e: string, f: string)
    ensures a + b + (c + d + e) + f == a + (b + (c + (d + (e + f))))
  {
  }

  /** INSERT text reads back: the relation, the columns, and parameter numbers running through the rows. */
  lemma InsertReadsBack(dialect: Dialect, schema: string, relation: string, columns: seq<string>, rows: nat)
    requires InsertText(dialect, schema, relation, columns, rows).Ok?
    ensures ReadInsert(dialect, InsertText(dialect, schema, relation, columns, rows).value)
            == Some(Insert(schema, relation, columns, NumberRows(1, |columns|, rows)))
  {
    var name, quoted := QualifiedName(dialect, schema, relation).value, Join(QuoteAll(dialect, columns).value, ", ");
    var values := Join(RowTexts(dialect, 1, |columns|, rows), ", ");
    InsertChain("INSERT INTO ", name, " (", quoted, ") VALUES ", values);
    var afterName := " (" + (quoted + (") VALUES " + values));
    SkipToken("INSERT INTO ", name + afterName);
    QualifiedReadsBack(dialect, schema, relation, afterName);
    SkipToken(" (", quoted + (") VALUES " + values));
    NamesReadBack(dialect, columns, ") VALUES " + values);
    SkipToken(") VALUES ", values);
    RowTextsRead(dialect, 1, |columns|, rows);
    JoinedRowsReadBack(dialect, RowTexts(dialect, 1, |columns|, rows), NumberRows(1, |columns|, rows), 1);
  }

  /** The placeholder of row `r`, column `c` has number `r * columns + c + 1`. */
  lemma {:induction false} NumberAt(start: nat, columns: nat, rows: nat, r: nat, c: nat)
    requires r < rows && c < columns
    ensures |NumberRows(start, columns, rows)[r]| == columns
    ensures NumberRows(start, columns, rows)[r][c] == start + r * columns + c
    decreases rows
  {
    if r == 0 {
      NumbersAt(start, columns, c);
    } else {
      NumberAt(start + columns, columns, rows - 1, r - 1, c);
      assert r * columns == (r - 1) * columns + columns;
    }
  }

  // ------------------------------------------------------------------------------------------
  // Binding and evaluation.

  function EvaluateRow<V>(numbers: seq<nat>, bound: seq<V>): Option<seq<V>> {
    if numbers == [] then Some([])
    else if !(1 <= numbers[0] <= |bound|) then None
    else
      match EvaluateRow(numbers[1..], bound)
      case None => None
      case Some(rest) => Some([bound[numbers[0] - 1]] + rest)
  }

  function Evaluate<V>(rows: seq<seq<nat>>, bound: seq<V>): Option<seq<seq<V>>> {
    if rows == [] then Some([])
    else
      match EvaluateRow(rows[0], bound)
      case None => None
      case Some(first) =>
        match Evaluate(rows[1..], bound)
        case None => None
        case Some(rest) => Some([first] + rest)
  }

  lemma {:induction false} EvaluateNumbers<V>(start: nat, row: seq<V>, bound: seq<V>)
    requires 1 <= start && start - 1 + |row| <= |bound|
    requires forall i :: 0 <= i < |row| ==> bound[start - 1 + i] == row[i]
    ensures EvaluateRow(Numbers(start, |row|), bound) == Some(row)
    decreases |row|
  {
    if row != [] {
      assert Numbers(start, |row|)[1..] == Numbers(start + 1, |row| - 1);
      EvaluateNumbers(start + 1, row[1..], bound);
      assert row == [row[0]] + row[1..];
    }
  }

  /** Rows numbered from `start` on evaluate to the rows bound from there on. */
  lemma {:induction false} EvaluateFrom<V>(start: nat, rows: seq<seq<V>>, columns: nat, bound: seq<V>)
    requires forall i :: 0 <= i < |rows| ==> |rows[i]| == columns
    requires 1 <= start <= |bound| + 1 && bound[start - 1..] == Flatten(rows)
    ensures Evaluate(NumberRows(start, columns, |rows|), bound) == Some(rows)
    decreases |rows|
  {
    if rows != [] {
      var first, rest := rows[0], Flatten(rows[1..]);
      BoundSplits(start, first, rest, bound);
      EvaluateNumbers(start, first, bound);
      EvaluateFrom(start + columns, rows[1..], columns, bound);
      FirstNumbers(start, columns, |rows|);
      assert rows == [first] + rows[1..];
    }
  }

  lemma BoundSplits<V>(start: nat, row: seq<V>, rest: seq<V>, bound: seq<V>)
    requires 1 <= start <= |bound| + 1 && bound[start - 1..] == row + rest
    ensures start - 1 + |row| <= |bound| && bound[start + |row| - 1..] == rest
    ensures forall i :: 0 <= i < |row| ==> bound[start - 1 + i] == row[i]
  {
    var later := bound[start - 1..];
    assert forall i :: 0 <= i < |row| ==> bound[start - 1 + i] == later[i];
    assert bound[start + |row| - 1..] == later[|row|..];
  }

  lemma FirstNumbers(start: nat, columns: nat, rows: nat)
    requires rows > 0
    ensures var numbers := NumberRows(start, columns, rows);
            numbers[0] == Numbers(start, columns) && numbers[1..] == NumberRows(start + columns, columns, rows - 1)
  {
  }

  /**
    Binding correctness: the database, reading the INSERT text and evaluating it against the values as
    they were bound, gets exactly the rows of the batch, for the columns they were named after.
  */
  lemma InsertMeansTheBatch<V>(dialect: Dialect, schema: string, relation: string, names: seq<string>,
                               rows: seq<seq<V>>, sql: string)
    returns (insert: Insert)
    requires InsertText(dialect, schema, relation, names, |rows|) == Ok(sql)
    requires forall r :: 0 <= r < |rows| ==> |rows[r]| == |names|
    ensures ReadInsert(dialect, sql) == Some(insert)
    ensures insert.schema == schema && insert.relation == relation && insert.columns == names
    ensures Evaluate(insert.rows, Flatten(rows)) == Some(rows)
  {
    InsertReadsBack(dialect, schema, relation, names, |rows|);
    insert := Insert(schema, relation, names, NumberRows(1, |names|, |rows|));
    assert Flatten(rows)[0..] == Flatten(rows);
    EvaluateFrom(1, rows, |names|, Flatten(rows));
  }

  /** What a text that is not built is wanting: columns, rows, or the first of the names that is not valid. */
  lemma InsertTextBlames(dialect: Dialect, schema: string, relation: string, names: seq<string>, rows: nat)
    requires InsertText(dialect, schema, relation, names, rows).Err?
    ensures var error := InsertText(dialect, schema, relation, names, rows).error;
            if names == [] then error == NoColumns
            else if rows == 0 then error == NoRows
            else BlamesFirst(error, [schema, relation] + names)
  {
    if names != [] && rows != 0 {
      var error := InsertText(dialect, schema, relation, names, rows).error;
      QualifiedBlames(dialect, schema, relation);
      QuoteAllBlames(dialect, names);
      if QualifiedName(dialect, schema, relation).Ok? {
        BlamesBehind([schema, relation], names, error);
      } else {
        BlamesInFront([schema, relation], names, error);
      }
    }
  }

  /** The text is built exactly for at least one row, at least one column, and valid names. */
  lemma InsertTextOk(dialect: Dialect, schema: string, relation: string, names: seq<string>, rows: nat)
    ensures InsertText(dialect, schema, relation, names, rows).Ok?
            <==> names != [] && rows > 0 && ValidName(schema) && ValidName(relation)
                 && forall i :: 0 <= i < |names| ==> ValidName(names[i])
  {
    QuoteAllOk(dialect, names);
  }
}

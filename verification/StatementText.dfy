/** The other two statements of an insert, emptying a table and copying into it, and readers for them. */
module StatementText {
  import opened Wrappers
  import opened Text
  import opened SqlText

  const COPY_OPTIONS: string := ") FROM STDIN WITH (FORMAT csv, NULL '\\N')"

  function ClearPrefix(dialect: Dialect): string {
    if dialect.Postgres? then "TRUNCATE TABLE " else "DELETE FROM "
  }

  function ClearText(dialect: Dialect, schema: string, relation: string): Result<string, SqlError> {
    match QualifiedName(dialect, schema, relation)
    case Err(error) => Err(error)
    case Ok(name) => Ok(ClearPrefix(dialect) + name)
  }

  function ReadClear(dialect: Dialect, sql: string): Option<(string, string)> {
    match Skip(if dialect.Postgres? then "TRUNCATE TABLE " else "DELETE FROM ", sql)
    case None => None
    case Some(s) =>
      match ReadQualified(dialect, s)
      case None => None
      case Some((name, rest)) => if rest == [] then Some(name) else None
  }

  function CopyInText(schema: string, relation: string, columns: seq<string>): Result<string, SqlError> {
    if columns == [] then Err(NoColumns)
    else
      match QualifiedName(Postgres, schema, relation)
      case Err(error) => Err(error)
      case Ok(name) =>
        match QuoteAll(Postgres, columns)
        case Err(error) => Err(error)
        case Ok(quoted) => Ok("COPY " + name + " (" + Join(quoted, ", ") + COPY_OPTIONS)
  }

  function ReadCopyIn(sql: string): Option<((string, string), seq<string>)> {
    match Skip("COPY ", sql)
    case None => None
    case Some(s) =>
      match ReadQualified(Postgres, s)
      case None => None
      case Some((name, afterName)) =>
        match Skip(" (", afterName)
        case None => None
        case Some(inner) =>
          match ReadNames(Postgres, inner)
          case None => None
          case Some((columns, rest)) =>
            if rest == ") FROM STDIN WITH (FORMAT csv, NULL '\\N')" then Some((name, columns)) else None
  }

  lemma ClearReadsBack(dialect: Dialect, schema: string, relation: string, sql: string)
    requires ClearText(dialect, schema, relation) == Ok(sql)
    ensures ReadClear(dialect, sql) == Some((schema, relation))
  {
    var name := QualifiedName(dialect, schema, relation).value;
    SkipToken(ClearPrefix(dialect), name);
    EmptyLast(name);
    QualifiedReadsBack(dialect, schema, relation, []);
  }

  lemma CopyInReadsBack(schema: string, relation: string, columns: seq<string>, sql: string)
    requires CopyInText(schema, relation, columns) == Ok(sql)
    ensures ReadCopyIn(sql) == Some(((schema, relation), columns))
  {
    var name, quoted := QualifiedName(Postgres, schema, relation).value, Join(QuoteAll(Postgres, columns).value, ", ");
    var afterName := " (" + (quoted + COPY_OPTIONS);
    Chain("COPY ", name, " (", quoted, COPY_OPTIONS);
    SkipToken("COPY ", name + afterName);
    QualifiedReadsBack(Postgres, schema, relation, afterName);
    SkipToken(" (", quoted + COPY_OPTIONS);
    NamesReadBack(Postgres, columns, COPY_OPTIONS);
  }
}

/**
  The SQL texts the program builds, and a reader for them. The reader scans delimited identifiers by the
  rule of section 5.2 of SQL-92, a doubled delimiter standing for one (MySQL: the backquote), and
  evaluates an INSERT against its bound parameters.
*/
module SqlText {
  import opened Wrappers
  import opened Text
  import opened Decimal

  datatype Dialect = Sqlite | Postgres | MySql | Generic

  datatype SqlError = InvalidIdentifier(identifier: string) | NoColumns | NoRows

  datatype SelectOptions = SelectOptions(columns: seq<string>, limit: Option<u64>, whereClause: Option<string>)

  function QuoteOf(dialect: Dialect): char {
    if dialect.MySql? then '`' else '"'
  }

  /** `replace(quote, quote quote)`. */
  function DoubleQuotes(s: string, quote: char): string {
    if s == [] then []
    else (if s[0] == quote then [quote, quote] else [s[0]]) + DoubleQuotes(s[1..], quote)
  }

  predicate ValidName(name: string) {
    name != [] && '\0' !in name
  }

  function Delimited(dialect: Dialect, name: string): string {
    [QuoteOf(dialect)] + DoubleQuotes(name, QuoteOf(dialect)) + [QuoteOf(dialect)]
  }

  function QuoteIdentifier(dialect: Dialect, name: string): Result<string, SqlError> {
    if ValidName(name) then Ok(Delimited(dialect, name)) else Err(InvalidIdentifier(name))
  }

  function QualifiedName(dialect: Dialect, schema: string, relation: string): Result<string, SqlError> {
    match QuoteIdentifier(dialect, schema)
    case Err(error) => Err(error)
    case Ok(quotedSchema) =>
      match QuoteIdentifier(dialect, relation)
      case Err(error) => Err(error)
      case Ok(quotedRelation) => Ok(quotedSchema + "." + quotedRelation)
  }

  function QuoteAll(dialect: Dialect, names: seq<string>): Result<seq<string>, SqlError> {
    if names == [] then Ok([])
    else
      match QuoteIdentifier(dialect, names[0])
      case Err(error) => Err(error)
      case Ok(first) =>
        match QuoteAll(dialect, names[1..])
        case Err(error) => Err(error)
        case Ok(rest) => Ok([first] + rest)
  }

  /** Everything after the relation name of a SELECT. */
  function SelectTail(options: SelectOptions): string {
    (if options.whereClause.Some? then " WHERE " + options.whereClause.value else [])
    + (if options.limit.Some? then " LIMIT " + NatText(options.limit.value) else [])
  }

  function Projection(columns: seq<string>, quoted: seq<string>): string {
    if columns == [] then "*" else Join(quoted, ", ")
  }

  function SelectSql(dialect: Dialect, schema: string, relation: string,
                     options: SelectOptions): Result<string, SqlError>
  {
    match QuoteAll(dialect, options.columns)
    case Err(error) => Err(error)
    case Ok(quoted) =>
      match QualifiedName(dialect, schema, relation)
      case Err(error) => Err(error)
      case Ok(name) =>
        Ok("SELECT " + Projection(options.columns, quoted) + " FROM " + name + SelectTail(options))
  }

  function Placeholder(dialect: Dialect, index: nat): string {
    if dialect.Postgres? then "$" + NatText(index) else "?"
  }

  // ------------------------------------------------------------------------------------------
  // The reader.

  /** What delimits an identifier: the quotation mark of the standard, or the backquote of MySQL. */
  function DelimiterOf(dialect: Dialect): char {
    match dialect
    case Sqlite => '"'
    case Postgres => '"'
    case MySql => '`'
    case Generic => '"'
  }

  /** Inside a delimited identifier: up to the first delimiter that is not doubled. */
  function ReadName(s: string, quote: char): Option<(string, string)> {
    if s == [] then None
    else if s[0] != quote then
      match ReadName(s[1..], quote)
      case None => None
      case Some((name, rest)) => Some(([s[0]] + name, rest))
    else if |s| > 1 && s[1] == quote then
      match ReadName(s[2..], quote)
      case None => None
      case Some((name, rest)) => Some(([quote] + name, rest))
    else Some(([], s[1..]))
  }

  function ReadIdentifier(dialect: Dialect, s: string): (r: Option<(string, string)>)
    ensures r.Some? ==> |r.value.1| < |s|
  {
    if s == [] || s[0] != DelimiterOf(dialect) then None
    else
      ReadNameShrinks(s[1..], DelimiterOf(dialect));
      ReadName(s[1..], DelimiterOf(dialect))
  }

  lemma {:induction false} ReadNameShrinks(s: string, quote: char)
    ensures ReadName(s, quote).Some? ==> |ReadName(s, quote).value.1| < |s|
    decreases |s|
  {
    if s != [] {
      if s[0] != quote {
        ReadNameShrinks(s[1..], quote);
      } else if |s| > 1 && s[1] == quote {
        ReadNameShrinks(s[2..], quote);
      }
    }
  }

  /** Skip a fixed text. */
  function Skip(token: string, s: string): Option<string> {
    if token <= s then Some(s[|token|..]) else None
  }

  /** Identifiers separated by `, `. */
  function ReadNames(dialect: Dialect, s: string): Option<(seq<string>, string)>
    decreases |s|
  {
    match ReadIdentifier(dialect, s)
    case None => None
    case Some((name, rest)) =>
      match Skip(", ", rest)
      case None => Some(([name], rest))
      case Some(later) =>
        match ReadNames(dialect, later)
        case None => None
        case Some((names, end)) => Some(([name] + names, end))
  }

  function ReadQualified(dialect: Dialect, s: string): Option<((string, string), string)> {
    match ReadIdentifier(dialect, s)
    case None => None
    case Some((schema, rest)) =>
      match Skip(".", rest)
      case None => None
      case Some(later) =>
        match ReadIdentifier(dialect, later)
        case None => None
        case Some((relation, end)) => Some(((schema, relation), end))
  }

  datatype Select = Select(columns: seq<string>, schema: string, relation: string, tail: string)

  function ReadProjection(dialect: Dialect, s: string): Option<(seq<string>, string)> {
    match Skip("*", s)
    case Some(rest) => Some(([], rest))
    case None => ReadNames(dialect, s)
  }

  function ReadSelect(dialect: Dialect, sql: string): Option<Select> {
    match Skip("SELECT ", sql)
    case None => None
    case Some(s) =>
      match ReadProjection(dialect, s)
      case None => None
      case Some((names, afterNames)) =>
        match Skip(" FROM ", afterNames)
        case None => None
        case Some(afterFrom) =>
          match ReadQualified(dialect, afterFrom)
          case None => None
          case Some(((schema, relation), tail)) => Some(Select(names, schema, relation, tail))
  }

  lemma {:induction false} NameReadsBack(name: string, quote: char, rest: string)
    requires rest == [] || rest[0] != quote
    ensures ReadName(DoubleQuotes(name, quote) + ([quote] + rest), quote) == Some((name, rest))
  {
    var s := DoubleQuotes(name, quote) + ([quote] + rest);
    if name == [] {
      assert s == [quote] + rest && s[1..] == rest;
    } else {
      var later := DoubleQuotes(name[1..], quote) + ([quote] + rest);
      NameReadsBack(name[1..], quote, rest);
      if name[0] == quote {
        assert s == [quote, quote] + later && s[2..] == later;
      } else {
        assert s == [name[0]] + later && s[1..] == later;
      }
      assert name == [name[0]] + name[1..];
    }
  }

  /** A delimited identifier reads back, quotes and all, whatever follows but its own delimiter. */
  lemma IdentifierReadsBack(dialect: Dialect, name: string, rest: string)
    requires rest == [] || rest[0] != DelimiterOf(dialect)
    ensures ReadIdentifier(dialect, Delimited(dialect, name) + rest) == Some((name, rest))
  {
    var quote := QuoteOf(dialect);
    var inner := DoubleQuotes(name, quote) + ([quote] + rest);
    assert Delimited(dialect, name) + rest == [quote] + inner && ([quote] + inner)[1..] == inner;
    NameReadsBack(name, quote, rest);
  }

  lemma SkipToken(token: string, rest: string)
    ensures Skip(token, token + rest) == Some(rest)
  {
    assert (token + rest)[|token|..] == rest;
  }

  lemma QuoteAllOk(dialect: Dialect, names: seq<string>)
    ensures QuoteAll(dialect, names).Ok? <==> forall i :: 0 <= i < |names| ==> ValidName(names[i])
    ensures QuoteAll(dialect, names).Ok? ==> |QuoteAll(dialect, names).value| == |names|
  {
    if names != [] {
      QuoteAllOk(dialect, names[1..]);
    }
  }

  /** A text that cannot continue a list of identifiers. */
  ghost predicate EndsNames(dialect: Dialect, rest: string) {
    rest != [] && rest[0] != DelimiterOf(dialect) && rest[0] != ','
  }

  lemma LastNameReadsBack(dialect: Dialect, name: string, rest: string)
    requires EndsNames(dialect, rest)
    ensures ReadNames(dialect, Delimited(dialect, name) + rest) == Some(([name], rest))
  {
    IdentifierReadsBack(dialect, name, rest);
    assert Skip(", ", rest) == None;
  }

  lemma NextNameReadsBack(dialect: Dialect, name: string, names: seq<string>, later: string, rest: string)
    requires ReadNames(dialect, later) == Some((names, rest))
    ensures ReadNames(dialect, Delimited(dialect, name) + (", " + later)) == Some(([name] + names, rest))
  {
    IdentifierReadsBack(dialect, name, ", " + later);
    SkipToken(", ", later);
  }

  lemma {:induction false} NamesReadBack(dialect: Dialect, names: seq<string>, rest: string)
    requires names != [] && QuoteAll(dialect, names).Ok? && EndsNames(dialect, rest)
    ensures ReadNames(dialect, Join(QuoteAll(dialect, names).value, ", ") + rest) == Some((names, rest))
  {
    var quoted := QuoteAll(dialect, names).value;
    var first := Delimited(dialect, names[0]);
    QuoteAllOk(dialect, names);
    assert quoted[0] == first && quoted[1..] == QuoteAll(dialect, names[1..]).value;
    if |names| == 1 {
      LastNameReadsBack(dialect, names[0], rest);
      assert names == [names[0]];
    } else {
      var later := Join(quoted[1..], ", ");
      NamesReadBack(dialect, names[1..], rest);
      Assoc(first + ", ", later, rest);
      Assoc(first, ", ", later + rest);
      NextNameReadsBack(dialect, names[0], names[1..], later + rest, rest);
      assert names == [names[0]] + names[1..];
    }
  }

  lemma QualifiedReadsBack(dialect: Dialect, schema: string, relation: string, rest: string)
    requires QualifiedName(dialect, schema, relation).Ok? && (rest == [] || rest[0] != DelimiterOf(dialect))
    ensures ReadQualified(dialect, QualifiedName(dialect, schema, relation).value + rest)
            == Some(((schema, relation), rest))
  {
    var first, second := Delimited(dialect, schema), Delimited(dialect, relation);
    Assoc(first + ".", second, rest);
    Assoc(first, ".", second + rest);
    IdentifierReadsBack(dialect, schema, "." + (second + rest));
    SkipToken(".", second + rest);
    IdentifierReadsBack(dialect, relation, rest);
  }

  /** The text is built exactly when every name is nonempty and free of NUL. */
  lemma SelectSqlOk(dialect: Dialect, schema: string, relation: string, options: SelectOptions)
    ensures SelectSql(dialect, schema, relation, options).Ok?
            <==> schema != [] && '\0' !in schema && relation != [] && '\0' !in relation
                 && forall i :: 0 <= i < |options.columns| ==> options.columns[i] != [] && '\0' !in options.columns[i]
  {
    QuoteAllOk(dialect, options.columns);
  }

  /** A text that is not built names the first name that is not valid: of the columns, the schema and the relation. */
  lemma SelectSqlBlames(dialect: Dialect, schema: string, relation: string, options: SelectOptions)
    requires SelectSql(dialect, schema, relation, options).Err?
    ensures BlamesFirst(SelectSql(dialect, schema, relation, options).error, options.columns + [schema, relation])
  {
    QuoteAllBlames(dialect, options.columns);
    QualifiedBlames(dialect, schema, relation);
    if QuoteAll(dialect, options.columns).Ok? {
      QuoteAllOk(dialect, options.columns);
      BlamesBehind(options.columns, [schema, relation], SelectSql(dialect, schema, relation, options).error);
    } else {
      BlamesInFront(options.columns, [schema, relation], SelectSql(dialect, schema, relation, options).error);
    }
  }

  /** The error is about the first of the names that is empty or holds a NUL. */
  ghost predicate BlamesFirst(error: SqlError, names: seq<string>) {
    exists i :: 0 <= i < |names| && BlamesAt(error, names, i)
  }

  ghost predicate BlamesAt(error: SqlError, names: seq<string>, i: nat)
    requires i < |names|
  {
    && error == InvalidIdentifier(names[i]) && (names[i] == [] || '\0' in names[i])
    && forall k :: 0 <= k < i ==> names[k] != [] && '\0' !in names[k]
  }

  lemma BlamesInFront(a: seq<string>, b: seq<string>, error: SqlError)
    requires BlamesFirst(error, a)
    ensures BlamesFirst(error, a + b)
  {
    var i :| 0 <= i < |a| && BlamesAt(error, a, i);
    assert BlamesAt(error, a + b, i);
  }

  lemma BlamesBehind(a: seq<string>, b: seq<string>, error: SqlError)
    requires BlamesFirst(error, b) && forall k :: 0 <= k < |a| ==> ValidName(a[k])
    ensures BlamesFirst(error, a + b)
  {
    var i :| 0 <= i < |b| && BlamesAt(error, b, i);
    forall k | 0 <= k < |a| + i ensures (a + b)[k] != [] && '\0' !in (a + b)[k] {
      if k < |a| {
        assert ValidName(a[k]);
      }
    }
    assert BlamesAt(error, a + b, |a| + i);
  }

  lemma QualifiedBlames(dialect: Dialect, schema: string, relation: string)
    ensures var r := QualifiedName(dialect, schema, relation);
            r.Err? ==> BlamesFirst(r.error, [schema, relation])
  {
    var r := QualifiedName(dialect, schema, relation);
    if r.Err? {
      assert BlamesAt(r.error, [schema, relation], if ValidName(schema) then 1 else 0);
    }
  }

  lemma {:induction false} QuoteAllBlames(dialect: Dialect, names: seq<string>)
    ensures var r := QuoteAll(dialect, names); r.Err? ==> BlamesFirst(r.error, names)
  {
    var r := QuoteAll(dialect, names);
    if names != [] && r.Err? {
      if ValidName(names[0]) {
        QuoteAllBlames(dialect, names[1..]);
        BlamesBehind([names[0]], names[1..], r.error);
        assert [names[0]] + names[1..] == names;
      } else {
        assert BlamesAt(r.error, names, 0);
      }
    }
  }

  lemma ProjectionReadsBack(dialect: Dialect, columns: seq<string>, rest: string)
    requires QuoteAll(dialect, columns).Ok? && EndsNames(dialect, rest)
    ensures ReadProjection(dialect, Projection(columns, QuoteAll(dialect, columns).value) + rest)
            == Some((columns, rest))
  {
    if columns == [] {
      SkipToken("*", rest);
    } else {
      NamesReadBack(dialect, columns, rest);
      QuoteAllOk(dialect, columns);
      var quoted := QuoteAll(dialect, columns).value;
      assert quoted[0][0] == QuoteOf(dialect);
      assert (Join(quoted, ", ") + rest)[0] == quoted[0][0];
    }
  }

  lemma Chain(a: string, b: string, c: string, d: string, e: string)
    ensures a + b + c + d + e == a + (b + (c + (d + e)))
  {
  }

  /** SELECT text reads back: the columns, schema and relation are recovered, whatever characters they contain. */
  lemma SelectReadsBack(dialect: Dialect, schema: string, relation: string, options: SelectOptions)
    requires SelectSql(dialect, schema, relation, options).Ok?
    ensures ReadSelect(dialect, SelectSql(dialect, schema, relation, options).value)
            == Some(Select(options.columns, schema, relation,
                           (if options.whereClause.Some? then " WHERE " + options.whereClause.value else [])
                           + if options.limit.Some? then " LIMIT " + NatText(options.limit.value) else []))
  {
    var name, tail := QualifiedName(dialect, schema, relation).value, SelectTail(options);
    var projection := Projection(options.columns, QuoteAll(dialect, options.columns).value);
    var afterNames := " FROM " + (name + tail);
    Chain("SELECT ", projection, " FROM ", name, tail);
    SkipToken("SELECT ", projection + afterNames);
    ProjectionReadsBack(dialect, options.columns, afterNames);
    SkipToken(" FROM ", name + tail);
    TailEndsName(dialect, options);
    QualifiedReadsBack(dialect, schema, relation, tail);
  }

  lemma TailEndsName(dialect: Dialect, options: SelectOptions)
    ensures SelectTail(options) == [] || SelectTail(options)[0] == ' '
  {
  }

  /** At the last occurrence of `token`. */
  function SplitLast(s: string, token: string): Option<(string, string)>
    requires token != []
  {
    if |s| < |token| then None
    else
      match SplitLast(s[1..], token)
      case Some((before, rest)) => Some(([s[0]] + before, rest))
      case None => if token <= s then Some(([], s[|token|..])) else None
  }

  lemma {:induction false} LastToken(before: string, token: string, rest: string)
    requires token != [] && SplitLast(token[1..] + rest, token) == None
    ensures SplitLast(before + token + rest, token) == Some((before, rest))
  {
    var s := before + token + rest;
    if before == [] {
      assert s == token + rest && s[1..] == token[1..] + rest && s[|token|..] == rest;
    } else {
      assert s[1..] == before[1..] + token + rest;
      LastToken(before[1..], token, rest);
      assert [s[0]] + before[1..] == before;
    }
  }

  lemma {:induction false} TokenNeedsItsFirst(s: string, token: string)
    requires token != [] && token[0] !in s
    ensures SplitLast(s, token) == None
  {
    if |s| >= |token| {
      TokenNeedsItsFirst(s[1..], token);
    }
  }

  const LIMIT: string := " LIMIT "

  /** Behind the last ` LIMIT `, its number; before it, the predicate. */
  function ReadLimit(tail: string): Option<(string, nat)> {
    match SplitLast(tail, " LIMIT ")
    case None => None
    case Some((before, digits)) => match ReadNat(digits) case None => None case Some(n) => Some((before, n))
  }

  lemma LastLimit(before: string, digits: string)
    requires ' ' !in digits && (digits == [] || digits[0] != 'L')
    ensures SplitLast(before + LIMIT + digits, LIMIT) == Some((before, digits))
  {
    var word, tail := "LIMIT", " " + digits;
    assert LIMIT[1..] + digits == word + tail;
    assert tail[1..] == digits;
    TokenNeedsItsFirst(digits, LIMIT);
    assert SplitLast(tail, LIMIT) == None by {
      assert |tail| >= 2 ==> tail[1] != LIMIT[1];
    }
    NoTokenInWord(word, tail);
    LastToken(before, LIMIT, digits);
  }

  lemma {:induction false} NoTokenInWord(word: string, tail: string)
    requires ' ' !in word && SplitLast(tail, LIMIT) == None
    ensures SplitLast(word + tail, LIMIT) == None
  {
    if word == [] {
      EmptyFirst(tail);
    } else {
      assert (word + tail)[1..] == word[1..] + tail;
      assert (word + tail)[0] != LIMIT[0];
      NoTokenInWord(word[1..], tail);
    }
  }

  /** The limit reads back behind any predicate, even one that speaks of limits itself. */
  lemma LimitReadsBack(dialect: Dialect, schema: string, relation: string, options: SelectOptions)
    requires SelectSql(dialect, schema, relation, options).Ok? && options.limit.Some?
    ensures ReadSelect(dialect, SelectSql(dialect, schema, relation, options).value).Some?
    ensures ReadLimit(ReadSelect(dialect, SelectSql(dialect, schema, relation, options).value).value.tail)
            == Some((if options.whereClause.Some? then " WHERE " + options.whereClause.value else [],
                     options.limit.value))
  {
    SelectReadsBack(dialect, schema, relation, options);
    TailReadsBack(if options.whereClause.Some? then " WHERE " + options.whereClause.value else [], options.limit.value);
  }

  lemma TailReadsBack(before: string, limit: nat)
    ensures ReadLimit(before + (" LIMIT " + NatText(limit))) == Some((before, limit))
  {
    var digits := NatText(limit);
    Assoc(before, LIMIT, digits);
    assert !IsDigit(' ') && IsDigit(digits[0]);
    NatReadsBack(limit);
    LastLimit(before, digits);
  }
}

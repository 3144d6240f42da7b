/**
  The path grammar: parsing a path text into a `DbPath`, printing a `DbPath` as a path text, and
  exactly when the second undoes the first.
*/
module Paths {
  import opened Wrappers
  import opened Text
  import opened QueryText

  datatype DataFormat = Parquet | Arrow | Csv | Jsonl | Sql

  datatype DbFacet = Columns | Indexes | Constraints | DependsOn

  datatype Kind =
    | Root
    | Schema
    | Relation
    | Facet(facet: DbFacet, item: Option<string>)
    | RelationData(format: DataFormat)
    | ViewDefinition

  datatype DbPath = DbPath(schema: Option<string>, relation: Option<string>, kind: Kind, query: seq<Pair>)

  datatype PathError = UnknownFacet(facet: string) | Unsupported(path: string)

  const DEFINITION: string := "definition.sql"

  function Extension(format: DataFormat): (e: string)
    ensures e != [] && '.' !in e && '/' !in e && '?' !in e && !EndsWithSpace(e)
  {
    match format
    case Parquet => "parquet"
    case Arrow => "arrow"
    case Csv => "csv"
    case Jsonl => "jsonl"
    case Sql => "sql"
  }

  function ParseFormat(value: string): (r: Option<DataFormat>)
    ensures r.Some? ==> Extension(r.value) == value
  {
    if value == "parquet" then Some(Parquet)
    else if value == "arrow" then Some(Arrow)
    else if value == "csv" then Some(Csv)
    else if value == "jsonl" then Some(Jsonl)
    else if value == "sql" then Some(Sql)
    else None
  }

  function FacetName(facet: DbFacet): (n: string)
    ensures n != [] && '/' !in n && '?' !in n && !EndsWithSpace(n)
  {
    match facet
    case Columns => "columns"
    case Indexes => "indexes"
    case Constraints => "constraints"
    case DependsOn => "depends_on"
  }

  function ParseFacet(value: string): (r: Option<DbFacet>)
    ensures r.Some? ==> FacetName(r.value) == value
  {
    if value == "columns" then Some(Columns)
    else if value == "indexes" then Some(Indexes)
    else if value == "constraints" then Some(Constraints)
    else if value == "depends_on" then Some(DependsOn)
    else None
  }

  lemma NamesReadBack(format: DataFormat, facet: DbFacet)
    ensures ParseFormat(Extension(format)) == Some(format)
    ensures ParseFacet(FacetName(facet)) == Some(facet)
    ensures FacetName(facet) != DEFINITION
  {
    assert "columns"[0] == 'c' && "constraints"[2] == 'n' && "indexes"[0] == 'i';
    assert "depends_on"[2] == 'p' && DEFINITION[2] == 'f';
    assert "parquet"[0] == 'p' && "arrow"[0] == 'a' && "csv"[0] == 'c' && "jsonl"[0] == 'j' && "sql"[0] == 's';
  }

  // ------------------------------------------------------------------------------------------
  // Parsing.

  /** `char::is_whitespace`: the White_Space property. */
  predicate IsSpace(c: char) {
    var n := c as int;
    || 0x9 <= n <= 0xD || n == 0x20 || n == 0x85 || n == 0xA0 || n == 0x1680
    || 0x2000 <= n <= 0x200A || n == 0x2028 || n == 0x2029 || n == 0x202F || n == 0x205F || n == 0x3000
  }

  predicate EndsWithSpace(s: string) {
    s != [] && IsSpace(s[|s| - 1])
  }

  function TrimStart(s: string): (t: string)
    ensures s == [] || !IsSpace(s[0]) ==> t == s
    ensures |t| <= |s| && t == s[|s| - |t|..]
  {
    if s != [] && IsSpace(s[0]) then TrimStart(s[1..]) else s
  }

  function TrimEnd(s: string): (t: string)
    ensures !EndsWithSpace(t)
    ensures !EndsWithSpace(s) ==> t == s
    ensures |t| <= |s| && t == s[..|t|]
    ensures forall i :: |t| <= i < |s| ==> IsSpace(s[i])
  {
    if EndsWithSpace(s) then TrimEnd(s[..|s| - 1]) else s
  }

  function Trim(s: string): string {
    TrimEnd(TrimStart(s))
  }

  /** Everything after the first `://`, if there is one. */
  function StripProtocol(path: string): string {
    match FindScheme(path) case Some(rest) => rest case None => path
  }

  function FindScheme(path: string): Option<string> {
    if |path| < 3 then None
    else if path[0] == ':' && path[1] == '/' && path[2] == '/' then Some(path[3..])
    else FindScheme(path[1..])
  }

  function NonEmptyParts(parts: seq<string>): seq<string> {
    if parts == [] then []
    else if parts[0] == [] then NonEmptyParts(parts[1..])
    else [parts[0]] + NonEmptyParts(parts[1..])
  }

  function NormalizePath(path: string): string {
    var trimmed := Trim(path);
    if trimmed == [] || trimmed == "/" then "/"
    else
      var collapsed := Join(NonEmptyParts(Split(trimmed, '/')), "/");
      if collapsed == [] then "/" else "/" + collapsed
  }

  function TrimSlashes(s: string): string {
    if s != [] && s[0] == '/' then TrimSlashes(s[1..]) else s
  }

  function SplitRelationFormat(value: string): (r: Option<(string, DataFormat)>)
    ensures r.Some? ==> value == r.value.0 + "." + Extension(r.value.1)
  {
    match RSplitOnce(value, '.')
    case None => None
    case Some((relation, extension)) =>
      match ParseFormat(extension)
      case None => None
      case Some(format) => Some((relation, format))
  }

  function FromParts(parts: seq<string>, query: seq<Pair>, path: string): Result<DbPath, PathError> {
    if |parts| == 1 then Ok(DbPath(Some(parts[0]), None, Schema, query))
    else if |parts| == 2 then
      match SplitRelationFormat(parts[1])
      case Some((relation, format)) => Ok(DbPath(Some(parts[0]), Some(relation), RelationData(format), query))
      case None => Ok(DbPath(Some(parts[0]), Some(parts[1]), Relation, query))
    else if |parts| == 3 && parts[2] == DEFINITION then
      Ok(DbPath(Some(parts[0]), Some(parts[1]), ViewDefinition, query))
    else if |parts| == 3 || |parts| == 4 then
      match ParseFacet(parts[2])
      case None => Err(UnknownFacet(parts[2]))
      case Some(facet) =>
        Ok(DbPath(Some(parts[0]), Some(parts[1]), Facet(facet, if |parts| == 4 then Some(parts[3]) else None), query))
    else Err(Unsupported(path))
  }

  function Parse(path: string): Result<DbPath, PathError> {
    var (pathPart, query) := SplitQuery(StripProtocol(path));
    var clean := NormalizePath(pathPart);
    if clean == "/" then Ok(DbPath(None, None, Root, query))
    else FromParts(Split(TrimSlashes(clean), '/'), query, path)
  }

  // ------------------------------------------------------------------------------------------
  // Printing.

  /** The components a path prints; none for the root and for the combinations that fall back to it. */
  function Components(p: DbPath): seq<string> {
    match p.kind
    case Schema => if p.schema.Some? then [p.schema.value] else []
    case Relation => if p.schema.Some? && p.relation.Some? then [p.schema.value, p.relation.value] else []
    case Facet(facet, item) =>
      if p.schema.Some? && p.relation.Some? then
        [p.schema.value, p.relation.value, FacetName(facet)] + if item.Some? then [item.value] else []
      else []
    case RelationData(format) =>
      if p.schema.Some? && p.relation.Some? then [p.schema.value, p.relation.value + "." + Extension(format)] else []
    case ViewDefinition =>
      if p.schema.Some? && p.relation.Some? then [p.schema.value, p.relation.value, DEFINITION] else []
    case Root => []
  }

  function PathText(components: seq<string>): string {
    "/" + Join(components, "/")
  }

  function ToPath(p: DbPath): string {
    PathText(Components(p)) + if p.query == [] then [] else "?" + Join(PairTexts(p.query), "&")
  }

  // ------------------------------------------------------------------------------------------
  // What parsing does to the components of a path.

  ghost predicate IsComponent(s: string) {
    s != [] && '/' !in s && '?' !in s
  }

  ghost predicate AreComponents(parts: seq<string>) {
    forall part <- parts :: IsComponent(part)
  }

  /** The parts that `Parse` works on. */
  function PartsOf(pathPart: string): seq<string> {
    NonEmptyParts(Split(Trim(pathPart), '/'))
  }

  /** What stands before the query. */
  function PathPart(path: string): string {
    match SplitOnce(path, '?') case Some((before, _)) => before case None => path
  }

  /** The components that the parser sees in a path text. */
  function PartsRead(path: string): seq<string> {
    PartsOf(PathPart(StripProtocol(path)))
  }

  lemma {:induction false} SplitChars(s: string, c: char)
    ensures forall part <- Split(s, c), ch <- part :: ch in s
    decreases |s|
  {
    if SplitOnce(s, c).Some? {
      var (a, b) := SplitOnce(s, c).value;
      SplitChars(b, c);
      forall part <- Split(s, c), ch <- part ensures ch in s {
        if part == a {} else { assert part in Split(b, c) && ch in b; }
      }
    }
  }

  lemma {:induction false} NonEmptyPartsAre(parts: seq<string>)
    ensures forall part <- NonEmptyParts(parts) :: part in parts && part != []
  {
    if parts != [] {
      NonEmptyPartsAre(parts[1..]);
      assert parts == [parts[0]] + parts[1..];
    }
  }

  lemma {:induction false} NonEmptyPartsKeep(parts: seq<string>)
    requires forall i :: 0 <= i < |parts| ==> parts[i] != []
    ensures NonEmptyParts(parts) == parts
  {
    if parts != [] {
      NonEmptyPartsKeep(parts[1..]);
    }
  }

  lemma PartsAreComponents(pathPart: string)
    requires '?' !in pathPart
    ensures AreComponents(PartsOf(pathPart))
  {
    var trimmed := Trim(pathPart);
    NonEmptyPartsAre(Split(trimmed, '/'));
    SplitChars(trimmed, '/');
    assert forall ch <- trimmed :: ch in pathPart;
  }

  lemma JoinOfComponents(parts: seq<string>)
    requires AreComponents(parts) && parts != []
    ensures Join(parts, "/") != [] && Join(parts, "/")[0] != '/'
    ensures Split(Join(parts, "/"), '/') == parts
  {
    assert parts[0] in parts;
    SplitInvertsJoin(parts, '/');
  }

  /** `Parse` in terms of the parts between the slashes. */
  lemma ParseByParts(path: string)
    ensures var (pathPart, query) := SplitQuery(StripProtocol(path));
            var parts := PartsOf(pathPart);
            && AreComponents(parts)
            && Parse(path) == if parts == [] then Ok(DbPath(None, None, Root, query)) else FromParts(parts, query, path)
  {
    var (pathPart, query) := SplitQuery(StripProtocol(path));
    var trimmed := Trim(pathPart);
    var parts := PartsOf(pathPart);
    PartsAreComponents(pathPart);
    if parts != [] {
      JoinOfComponents(parts);
      var joined := Join(parts, "/");
      assert trimmed != [] && trimmed != "/" by {
        assert Split([], '/') == [[]];
        assert SplitOnce("/", '/') == Some(([], []));
        assert NonEmptyParts([[], []]) == NonEmptyParts([[], []][1..]) == NonEmptyParts([[], []][1..][1..]) == [];
      }
      assert ("/" + joined)[1..] == joined;
      assert TrimSlashes("/" + joined) == TrimSlashes(joined) == joined;
      assert "/" + joined != "/";
    }
  }

  /** The same, for a path whose components are known. */
  lemma ParseByRead(path: string, parts: seq<string>)
    requires parts == PartsRead(path) && parts != []
    ensures Parse(path) == FromParts(parts, SplitQuery(StripProtocol(path)).1, path)
  {
    ParseByParts(path);
  }

  // ------------------------------------------------------------------------------------------
  // The round trip.

  /** The paths in the range of the parser, apart from their query. */
  ghost predicate Structured(p: DbPath) {
    match p.kind
    case Root => p.schema == None && p.relation == None
    case Schema => p.schema.Some? && p.relation == None && IsComponent(p.schema.value)
    case Relation =>
      && p.schema.Some? && p.relation.Some? && IsComponent(p.schema.value) && IsComponent(p.relation.value)
      && SplitRelationFormat(p.relation.value) == None
    case Facet(_, item) =>
      && p.schema.Some? && p.relation.Some? && IsComponent(p.schema.value) && IsComponent(p.relation.value)
      && (item.Some? ==> IsComponent(item.value))
    case RelationData(_) =>
      && p.schema.Some? && p.relation.Some? && IsComponent(p.schema.value)
      && '/' !in p.relation.value && '?' !in p.relation.value
    case ViewDefinition =>
      && p.schema.Some? && p.relation.Some? && IsComponent(p.schema.value) && IsComponent(p.relation.value)
  }

  /** The name that ends the printed path is not cut by trimming. */
  ghost predicate LastNameKept(p: DbPath) {
    match p.kind
    case Schema => p.schema.Some? && !EndsWithSpace(p.schema.value)
    case Relation => p.relation.Some? && !EndsWithSpace(p.relation.value)
    case Facet(_, item) => item.Some? ==> !EndsWithSpace(item.value)
    case _ => true
  }

  ghost predicate PlainQuery(pairs: seq<Pair>) {
    forall pair <- pairs :: Plain(pair.0) && Plain(pair.1)
  }

  /** What a caller can check before printing a path. */
  ghost predicate WellFormed(p: DbPath) {
    Structured(p) && LastNameKept(p) && DelimiterFree(p.query) && SchemeFree(p.query) && PlainQuery(p.query)
  }

  ghost predicate NoScheme(s: string) {
    forall i :: 0 <= i < |s| - 2 ==> !(s[i] == ':' && s[i + 1] == '/' && s[i + 2] == '/')
  }

  ghost predicate SchemeFree(pairs: seq<Pair>) {
    forall pair <- pairs :: NoScheme(pair.0) && NoScheme(pair.1)
  }

  lemma PartsGiveBackComponents(parts: seq<string>, query: seq<Pair>, path: string)
    requires AreComponents(parts) && parts != [] && FromParts(parts, query, path).Ok?
    ensures var p := FromParts(parts, query, path).value;
            Structured(p) && Components(p) == parts && p.query == query
  {
    assert forall i :: 0 <= i < |parts| ==> parts[i] in parts;
    if |parts| == 2 && SplitRelationFormat(parts[1]).Some? {
      var (relation, format) := SplitRelationFormat(parts[1]).value;
      assert forall ch <- relation :: ch in parts[1];
    }
  }

  lemma ComponentsGiveBackPath(p: DbPath, query: seq<Pair>, path: string)
    requires Structured(p) && !p.kind.Root?
    ensures AreComponents(Components(p)) && Components(p) != []
    ensures FromParts(Components(p), query, path) == Ok(p.(query := query))
  {
    match p.kind
    case Facet(facet, _) => NamesReadBack(Csv, facet);
    case RelationData(format) =>
      NamesReadBack(format, Columns);
      LastSplit(p.relation.value, '.', Extension(format));
    case _ =>
  }

  /** Only structured paths come out of the parser. */
  lemma ParsedPathsAreStructured(path: string)
    ensures Parse(path).Ok? ==> Structured(Parse(path).value)
  {
    ParseByParts(path);
    var (pathPart, query) := SplitQuery(StripProtocol(path));
    if PartsOf(pathPart) != [] && Parse(path).Ok? {
      PartsGiveBackComponents(PartsOf(pathPart), query, path);
    }
  }

  /** The components of what was parsed print back as the parts that were read, and its query is the pairs. */
  lemma ParsedPathsKeepParts(path: string)
    ensures Parse(path).Ok? ==> Components(Parse(path).value) == PartsRead(path)
    ensures Parse(path).Ok? ==> Parse(path).value.query == SplitQuery(StripProtocol(path)).1
  {
    ParseByParts(path);
    var (pathPart, query) := SplitQuery(StripProtocol(path));
    if PartsOf(pathPart) != [] && Parse(path).Ok? {
      PartsGiveBackComponents(PartsOf(pathPart), query, path);
    }
  }

  lemma PathTextSplits(parts: seq<string>)
    requires AreComponents(parts)
    ensures NonEmptyParts(Split(PathText(parts), '/')) == parts
  {
    FirstSplit([], '/', Join(parts, "/"));
    var pieces := Split(Join(parts, "/"), '/');
    assert Split(PathText(parts), '/')[1..] == pieces;
    if parts == [] {
      assert pieces == [[]] && NonEmptyParts([[]]) == NonEmptyParts([]);
    } else {
      JoinOfComponents(parts);
      assert forall i :: 0 <= i < |parts| ==> IsComponent(parts[i]);
      NonEmptyPartsKeep(parts);
    }
  }

  function NonSlash(s: string): nat {
    if s == [] then 0 else (if s[0] == '/' then 0 else 1) + NonSlash(s[1..])
  }

  function TotalLength(parts: seq<string>): nat {
    if parts == [] then 0 else |parts[0]| + TotalLength(parts[1..])
  }

  lemma {:induction false} NonSlashConcat(a: string, b: string)
    ensures NonSlash(a + b) == NonSlash(a) + NonSlash(b)
  {
    if a == [] {
      assert a + b == b;
    } else {
      assert (a + b)[1..] == a[1..] + b;
      NonSlashConcat(a[1..], b);
    }
  }

  lemma {:induction false} NonSlashAll(s: string)
    requires '/' !in s
    ensures NonSlash(s) == |s|
  {
    if s != [] {
      NonSlashAll(s[1..]);
    }
  }

  lemma {:induction false} SplitKeepsNonSlash(s: string)
    ensures TotalLength(NonEmptyParts(Split(s, '/'))) == NonSlash(s)
    decreases |s|
  {
    match SplitOnce(s, '/')
    case None =>
      NonSlashAll(s);
      assert Split(s, '/')[1..] == [];
    case Some((a, b)) =>
      NonSlashAll(a);
      NonSlashConcat(a, ['/'] + b);
      assert s == a + (['/'] + b) && (['/'] + b)[1..] == b;
      SplitKeepsNonSlash(b);
      assert Split(s, '/')[1..] == Split(b, '/');
      if a != [] {
        assert NonEmptyParts(Split(s, '/'))[1..] == NonEmptyParts(Split(b, '/'));
      }
  }

  lemma {:induction false} JoinEnd(parts: seq<string>)
    requires AreComponents(parts) && parts != []
    ensures Join(parts, "/") != [] && EndsWithSpace(Join(parts, "/")) == EndsWithSpace(parts[|parts| - 1])
  {
    assert parts[0] in parts;
    if |parts| > 1 {
      JoinEnd(parts[1..]);
    }
  }

  lemma SpaceAtEndIsLost(s: string)
    ensures NonSlash(TrimEnd(s)) <= NonSlash(s)
    ensures EndsWithSpace(s) ==> NonSlash(TrimEnd(s)) < NonSlash(s)
  {
    var kept := TrimEnd(s);
    SpacesAreNoSlashes(s, kept);
    NonSlashAll(s[|kept|..]);
    NonSlashConcat(kept, s[|kept|..]);
  }

  lemma SpacesAreNoSlashes(s: string, kept: string)
    requires kept <= s && forall i :: |kept| <= i < |s| ==> IsSpace(s[i])
    ensures s == kept + s[|kept|..] && '/' !in s[|kept|..]
  {
    assert !IsSpace('/');
  }

  /** Reading a printed path gives its components back exactly when the last one does not end in white space. */
  lemma PartsOfPathText(parts: seq<string>)
    requires AreComponents(parts)
    ensures PartsOf(PathText(parts)) == parts <==> parts == [] || !EndsWithSpace(parts[|parts| - 1])
  {
    var text := PathText(parts);
    PathTextSplits(parts);
    if parts != [] {
      JoinEnd(parts);
      assert EndsWithSpace(text) == EndsWithSpace(parts[|parts| - 1]);
      if EndsWithSpace(text) {
        SpaceAtEndIsLost(text);
        SplitKeepsNonSlash(text);
        SplitKeepsNonSlash(TrimEnd(text));
      }
    }
  }

  // ------------------------------------------------------------------------------------------
  // No `://` in a printed path.

  lemma {:induction false} StripKeeps(s: string)
    requires NoScheme(s)
    ensures FindScheme(s) == None
  {
    if |s| >= 3 {
      assert !(s[0] == ':' && s[0 + 1] == '/' && s[0 + 2] == '/');
      assert NoScheme(s[1..]) by {
        forall i | 0 <= i < |s[1..]| - 2 ensures !(s[1..][i] == ':' && s[1..][i + 1] == '/' && s[1..][i + 2] == '/') {
          assert !(s[i + 1] == ':' && s[i + 1 + 1] == '/' && s[i + 1 + 2] == '/');
        }
      }
      StripKeeps(s[1..]);
    }
  }

  ghost predicate SchemeAt(s: string, i: nat) {
    i + 2 < |s| && s[i] == ':' && s[i + 1] == '/' && s[i + 2] == '/'
  }

  /** A `://` is sought behind a text in which none begins. */
  lemma {:induction false} FindSchemeBehind(a: string, b: string)
    requires forall i :: 0 <= i < |a| ==> !SchemeAt(a + b, i)
    ensures FindScheme(a + b) == FindScheme(b)
  {
    var s := a + b;
    if a == [] {
      EmptyFirst(b);
    } else {
      assert !SchemeAt(s, 0);
      assert s[1..] == a[1..] + b;
      forall i | 0 <= i < |a[1..]| ensures !SchemeAt(a[1..] + b, i) {
        assert !SchemeAt(s, i + 1);
        assert i + 3 < |s| ==> s[1..][i] == s[i + 1] && s[1..][i + 1] == s[i + 2] && s[1..][i + 2] == s[i + 3];
      }
      FindSchemeBehind(a[1..], b);
    }
  }

  /** A character that is neither `:` nor `/` cannot be part of `://`. */
  lemma NoSchemeAcross(a: string, c: char, b: string)
    requires NoScheme(a) && NoScheme(b) && c != ':' && c != '/'
    ensures NoScheme(a + [c] + b)
  {
    var s := a + [c] + b;
    forall i | 0 <= i < |s| - 2 ensures !(s[i] == ':' && s[i + 1] == '/' && s[i + 2] == '/') {
      if i > |a| {
        var k := i - |a| - 1;
        assert s[i] == b[k] && s[i + 1] == b[k + 1] && s[i + 2] == b[k + 2];
      } else if i < |a| - 2 {
        assert s[i] == a[i] && s[i + 1] == a[i + 1] && s[i + 2] == a[i + 2];
      } else {
        assert s[|a|] == c;
      }
    }
  }

  ghost predicate NoDoubleSlash(s: string) {
    forall i :: 0 <= i < |s| - 1 ==> !(s[i] == '/' && s[i + 1] == '/')
  }

  lemma {:induction false} PathTextHasNoDoubleSlash(parts: seq<string>)
    requires AreComponents(parts)
    ensures NoDoubleSlash(PathText(parts)) && '?' !in PathText(parts)
  {
    if parts != [] {
      var first := parts[0];
      assert IsComponent(first);
      var rest := PathText(parts[1..]);
      PathTextHasNoDoubleSlash(parts[1..]);
      if |parts| == 1 {
        assert PathText(parts) == "/" + first;
      } else {
        var text := PathText(parts);
        assert text == "/" + first + rest;
        forall i | 0 <= i < |text| - 1 ensures !(text[i] == '/' && text[i + 1] == '/') {
          if i > |first| {
            assert text[i] == rest[i - 1 - |first|] && text[i + 1] == rest[i - |first|];
          } else if i == |first| {
            assert text[i] == first[i - 1];
          } else {
            assert text[i + 1] == first[i];
          }
        }
      }
    }
  }

  lemma {:induction false} PairTextsHaveNoScheme(pairs: seq<Pair>)
    requires SchemeFree(pairs)
    ensures NoScheme(Join(PairTexts(pairs), "&"))
  {
    if pairs != [] {
      var (key, value) := pairs[0];
      assert pairs[0] in pairs;
      NoSchemeAcross(key, '=', value);
      PairTextsHaveNoScheme(pairs[1..]);
      assert PairTexts(pairs)[1..] == PairTexts(pairs[1..]);
      if |pairs| > 1 {
        NoSchemeAcross(PairText(pairs[0]), '&', Join(PairTexts(pairs[1..]), "&"));
      }
    }
  }

  /** The printed path is read as its path text and its decoded pairs. */
  lemma PrintedPathSplits(p: DbPath)
    requires Structured(p) && DelimiterFree(p.query) && SchemeFree(p.query)
    ensures SplitQuery(StripProtocol(ToPath(p))) == (PathText(Components(p)), DecodePairs(p.query))
  {
    var parts := Components(p);
    if !p.kind.Root? {
      ComponentsGiveBackPath(p, p.query, []);
    }
    var text := PathText(parts);
    PathTextHasNoDoubleSlash(parts);
    assert NoScheme(text);
    if p.query == [] {
      assert ToPath(p) == text;
      StripKeeps(text);
    } else {
      var queryText := Join(PairTexts(p.query), "&");
      PairTextsHaveNoScheme(p.query);
      NoSchemeAcross(text, '?', queryText);
      assert ToPath(p) == text + "?" + queryText;
      StripKeeps(ToPath(p));
      SplitQueryOfText(text, p.query);
    }
  }

  lemma DecodePairsFixesPlain(pairs: seq<Pair>)
    ensures DecodePairs(pairs) == pairs <==> PlainQuery(pairs)
  {
    DecodePairsAt(pairs);
    forall pair <- pairs ensures (Decode(pair.0), Decode(pair.1)) == pair <==> Plain(pair.0) && Plain(pair.1) {
      DecodeFixesPlain(pair.0);
      DecodeFixesPlain(pair.1);
    }
    if DecodePairs(pairs) == pairs {
      forall pair <- pairs ensures (Decode(pair.0), Decode(pair.1)) == pair {
        var i :| 0 <= i < |pairs| && pairs[i] == pair;
        assert DecodePairs(pairs)[i] == pair;
      }
    } else if PlainQuery(pairs) {
      forall i | 0 <= i < |pairs| ensures DecodePairs(pairs)[i] == pairs[i] {
        assert pairs[i] in pairs;
      }
    }
  }

  lemma LastComponent(p: DbPath)
    requires Structured(p) && !p.kind.Root?
    ensures var parts := Components(p); parts != [] && (EndsWithSpace(parts[|parts| - 1]) <==> !LastNameKept(p))
  {
    if p.kind.RelationData? {
      var e := Extension(p.kind.format);
      var last := p.relation.value + "." + e;
      assert last[|last| - 1] == e[|e| - 1];
    }
    assert !EndsWithSpace(DEFINITION);
  }

  /** The round trip of a path whose query text holds no delimiter. */
  lemma DelimitedRoundTrip(p: DbPath)
    requires DelimiterFree(p.query) && SchemeFree(p.query)
    ensures Parse(ToPath(p)) == Ok(p) <==> WellFormed(p)
  {
    ParsedPathsAreStructured(ToPath(p));
    if Structured(p) {
      var parts, query := Components(p), DecodePairs(p.query);
      PrintedPathSplits(p);
      ParseByParts(ToPath(p));
      DecodePairsFixesPlain(p.query);
      var found := PartsOf(PathText(parts));
      if p.kind.Root? {
        PartsOfPathText(parts);
      } else {
        ComponentsGiveBackPath(p, query, ToPath(p));
        PartsOfPathText(parts);
        LastComponent(p);
        if found != [] && FromParts(found, query, ToPath(p)).Ok? {
          PartsGiveBackComponents(found, query, ToPath(p));
        }
      }
    }
  }

  /** With no query the condition is about the names alone. */
  lemma BarePathRoundTrip(p: DbPath)
    requires p.query == []
    ensures Parse(ToPath(p)) == Ok(p) <==> Structured(p) && LastNameKept(p)
  {
    DelimitedRoundTrip(p);
  }

  lemma {:induction false} TrailingSlashSplits(s: string)
    ensures Split(s + "/", '/') == Split(s, '/') + [[]]
    decreases |s|
  {
    assert Split([], '/') == [[]];
    match SplitOnce(s, '/')
    case None =>
      FirstSplit(s, '/', []);
      assert s + "/" == s + ['/'] + [];
    case Some((a, b)) =>
      FirstSplit(a, '/', b + "/");
      assert s + "/" == a + ['/'] + (b + "/");
      TrailingSlashSplits(b);
  }

  lemma {:induction false} NonEmptyPartsSnoc(parts: seq<string>)
    ensures NonEmptyParts(parts + [[]]) == NonEmptyParts(parts)
  {
    if parts == [] {
      assert NonEmptyParts([[]]) == NonEmptyParts([]);
    } else {
      assert (parts + [[]])[1..] == parts[1..] + [[]];
      NonEmptyPartsSnoc(parts[1..]);
    }
  }

  /**
    `Structured` is exactly the range of the parser: with a slash after it, any structured path text is
    parsed in full. So parsing is not idempotent: where the last name ends in white space, the slash
    protects it once, and printing the result drops the slash.
  */
  lemma TrailingSlashProtects(p: DbPath)
    requires Structured(p) && p.query == []
    ensures Parse(ToPath(p) + "/") == Ok(p)
    ensures !LastNameKept(p) ==> Parse(ToPath(p)) != Ok(p)
  {
    var text := ToPath(p) + "/";
    assert ToPath(p) == PathText(Components(p));
    if !p.kind.Root? {
      ComponentsGiveBackPath(p, [], text);
    }
    ParseSlashedText(Components(p), text);
    BarePathRoundTrip(p);
  }

  lemma ParseSlashedText(parts: seq<string>, text: string)
    requires AreComponents(parts) && text == PathText(parts) + "/"
    ensures Parse(text) == if parts == [] then Ok(DbPath(None, None, Root, [])) else FromParts(parts, [], text)
  {
    SlashedTextStays(parts);
    SlashedTextParts(parts);
    ParseByParts(text);
  }

  lemma SlashedTextStays(parts: seq<string>)
    requires AreComponents(parts)
    ensures SplitQuery(StripProtocol(PathText(parts) + "/")) == (PathText(parts) + "/", [])
  {
    var text, slashed := PathText(parts), PathText(parts) + "/";
    PathTextHasNoDoubleSlash(parts);
    forall i | 0 <= i < |slashed| - 2 ensures !(slashed[i] == ':' && slashed[i + 1] == '/' && slashed[i + 2] == '/') {
      if i == |text| - 2 {
        if text[i + 1] == '/' {
          TextEndsInSlash(parts);
        }
      } else {
        assert !(text[i + 1] == '/' && text[i + 1 + 1] == '/');
      }
    }
    StripKeeps(slashed);
  }

  lemma SlashedTextParts(parts: seq<string>)
    requires AreComponents(parts)
    ensures PartsOf(PathText(parts) + "/") == parts
  {
    var text := PathText(parts);
    TrimBetweenSlashes(text + "/");
    TrailingSlashSplits(text);
    NonEmptyPartsSnoc(Split(text, '/'));
    PathTextSplits(parts);
  }

  lemma TrimBetweenSlashes(s: string)
    requires s != [] && s[0] == s[|s| - 1] == '/'
    ensures Trim(s) == s
  {
    assert !IsSpace('/');
  }

  lemma {:induction false} TextEndsInSlash(parts: seq<string>)
    requires AreComponents(parts) && PathText(parts)[|PathText(parts)| - 1] == '/'
    ensures parts == []
  {
    if parts != [] {
      assert parts[0] in parts;
      if |parts| > 1 {
        assert PathText(parts) == "/" + parts[0] + PathText(parts[1..]);
        TextEndsInSlash(parts[1..]);
      }
    }
  }

  /** A protocol in front changes nothing, whatever it is. */
  lemma {:induction false} ProtocolIsIgnored(protocol: string, rest: string)
    requires NoScheme(protocol + ":/")
    ensures StripProtocol(protocol + "://" + rest) == rest
  {
    var path := protocol + "://" + rest;
    if protocol == [] {
      assert path[3..] == rest;
    } else {
      assert path[1..] == protocol[1..] + "://" + rest;
      var s, t := protocol + ":/", protocol[1..] + ":/";
      forall i | 0 <= i < |t| - 2 ensures !(t[i] == ':' && t[i + 1] == '/' && t[i + 2] == '/') {
        assert t[i] == s[i + 1] && t[i + 1] == s[i + 1 + 1] && t[i + 2] == s[i + 1 + 2];
      }
      assert path[0] == s[0] && path[1] == s[1] && path[2] == (if |s| > 2 then s[2] else '/');
      assert !(s[0] == ':' && s[0 + 1] == '/' && s[0 + 2] == '/');
      ProtocolIsIgnored(protocol[1..], rest);
    }
  }
}

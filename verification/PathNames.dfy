/**
  What the fixed words in a path mean, letter by letter: the endings of data files, the names of facets and of the
  definition, the marks of a query, and white space. The texts here are written out, so that they do not depend on
  how the parser and the printer look them up.
*/
module PathNames {
  import opened Wrappers
  import opened Text
  import opened Utf8
  import opened QueryText
  import opened Paths

  lemma TextOfTwo(a: string, b: string)
    ensures PathText([a, b]) == "/" + a + "/" + b
  {
    assert [a, b][1..] == [b];
    Assoc("/", a + "/", b);
    Assoc("/", a, "/");
    assert Join([a, b], "/") == a + "/" + b;
  }

  lemma TextOfOneMore(above: seq<string>, last: string)
    requires above != []
    ensures PathText(above + [last]) == PathText(above) + "/" + last
  {
    JoinSnoc(above, last, "/");
    Assoc("/", Join(above, "/") + "/", last);
    Assoc("/", Join(above, "/"), "/");
  }

  lemma TextOfThree(a: string, b: string, c: string)
    ensures PathText([a, b, c]) == "/" + a + "/" + b + "/" + c
  {
    TextOfTwo(a, b);
    TextOfOneMore([a, b], c);
    assert [a, b] + [c] == [a, b, c];
  }

  lemma TextOfFour(a: string, b: string, c: string, d: string)
    ensures PathText([a, b, c, d]) == "/" + a + "/" + b + "/" + c + "/" + d
  {
    TextOfThree(a, b, c);
    TextOfOneMore([a, b, c], d);
    assert [a, b, c] + [d] == [a, b, c, d];
  }

  lemma Printed(p: DbPath, parts: seq<string>, text: string)
    requires Components(p) == parts && p.query == [] && PathText(parts) == text
    ensures ToPath(p) == text
  {
    EmptyLast(text);
  }

  /** A structured path is printed as its text and read back from it. */
  lemma PrintedAndRead(p: DbPath, parts: seq<string>, text: string)
    requires Components(p) == parts && p.query == [] && PathText(parts) == text
    requires Structured(p) && LastNameKept(p)
    ensures ToPath(p) == text && Parse(text) == Ok(p)
  {
    Printed(p, parts, text);
    BarePathRoundTrip(p);
  }

  // ------------------------------------------------------------------------------------------
  // Data files.

  /** A relation's name with one of the five endings is its data in that format. */
  lemma FormatEndings(schema: string, name: string, format: DataFormat)
    requires IsComponent(schema) && '/' !in name && '?' !in name
    ensures var ending := match format {
                            case Parquet => ".parquet"
                            case Arrow => ".arrow"
                            case Csv => ".csv"
                            case Jsonl => ".jsonl"
                            case Sql => ".sql"
                          };
            var text := "/" + schema + "/" + name + ending;
            var p := DbPath(Some(schema), Some(name), RelationData(format), []);
            Parse(text) == Ok(p) && ToPath(p) == text
  {
    match format
    case Parquet => DataPathReads(schema, name, format, ".parquet");
    case Arrow => DataPathReads(schema, name, format, ".arrow");
    case Csv => DataPathReads(schema, name, format, ".csv");
    case Jsonl => DataPathReads(schema, name, format, ".jsonl");
    case Sql => DataPathReads(schema, name, format, ".sql");
  }

  lemma DataPathReads(schema: string, name: string, format: DataFormat, ending: string)
    requires IsComponent(schema) && '/' !in name && '?' !in name && ending == "." + Extension(format)
    ensures var text := "/" + schema + "/" + name + ending;
            var p := DbPath(Some(schema), Some(name), RelationData(format), []);
            Parse(text) == Ok(p) && ToPath(p) == text
  {
    var p := DbPath(Some(schema), Some(name), RelationData(format), []);
    Assoc(name, ".", Extension(format));
    TextOfTwo(schema, name + ending);
    Assoc("/" + schema + "/", name, ending);
    PrintedAndRead(p, [schema, name + ending], "/" + schema + "/" + name + ending);
  }

  lemma EndingsAreFive(name: string, format: DataFormat, relation: string)
    requires relation == name + "." + Extension(format)
    ensures || relation == name + ".parquet" || relation == name + ".arrow" || relation == name + ".csv"
            || relation == name + ".jsonl" || relation == name + ".sql"
  {
    Assoc(name, ".", Extension(format));
  }

  /** Without one of these endings it is the relation itself. */
  lemma OtherNamesAreRelations(schema: string, relation: string)
    requires IsComponent(schema) && IsComponent(relation) && !EndsWithSpace(relation)
    requires forall name: string ::
               && relation != name + ".parquet" && relation != name + ".arrow" && relation != name + ".csv"
               && relation != name + ".jsonl" && relation != name + ".sql"
    ensures var text, p := "/" + schema + "/" + relation, DbPath(Some(schema), Some(relation), Relation, []);
            Parse(text) == Ok(p) && ToPath(p) == text
  {
    if SplitRelationFormat(relation).Some? {
      EndingsAreFive(SplitRelationFormat(relation).value.0, SplitRelationFormat(relation).value.1, relation);
      assert false;
    }
    TextOfTwo(schema, relation);
    PrintedAndRead(DbPath(Some(schema), Some(relation), Relation, []), [schema, relation],
                   "/" + schema + "/" + relation);
  }

  lemma SchemaPathReads(schema: string)
    requires IsComponent(schema) && !EndsWithSpace(schema)
    ensures var p := DbPath(Some(schema), None, Schema, []);
            Parse("/" + schema) == Ok(p) && ToPath(p) == "/" + schema
  {
    PrintedAndRead(DbPath(Some(schema), None, Schema, []), [schema], "/" + schema);
  }

  // ------------------------------------------------------------------------------------------
  // Facets and definitions.

  /** The directories below a relation, and the files in them. */
  lemma FacetDirectories(schema: string, relation: string, facet: DbFacet, item: string)
    requires IsComponent(schema) && IsComponent(relation) && IsComponent(item) && !EndsWithSpace(item)
    ensures var name := match facet {
                          case Columns => "columns"
                          case Indexes => "indexes"
                          case Constraints => "constraints"
                          case DependsOn => "depends_on"
                        };
            var text, p := "/" + schema + "/" + relation + "/" + name,
                           DbPath(Some(schema), Some(relation), Facet(facet, None), []);
            && Parse(text) == Ok(p) && ToPath(p) == text
            && var q := DbPath(Some(schema), Some(relation), Facet(facet, Some(item)), []);
               Parse(text + "/" + item) == Ok(q) && ToPath(q) == text + "/" + item
  {
    match facet
    case Columns => FacetPathReads(schema, relation, facet, "columns", item);
    case Indexes => FacetPathReads(schema, relation, facet, "indexes", item);
    case Constraints => FacetPathReads(schema, relation, facet, "constraints", item);
    case DependsOn => FacetPathReads(schema, relation, facet, "depends_on", item);
  }

  lemma FacetPathReads(schema: string, relation: string, facet: DbFacet, name: string, item: string)
    requires IsComponent(schema) && IsComponent(relation) && IsComponent(item) && !EndsWithSpace(item)
    requires name == FacetName(facet)
    ensures var text, p := "/" + schema + "/" + relation + "/" + name,
                           DbPath(Some(schema), Some(relation), Facet(facet, None), []);
            && Parse(text) == Ok(p) && ToPath(p) == text
            && var q := DbPath(Some(schema), Some(relation), Facet(facet, Some(item)), []);
               Parse(text + "/" + item) == Ok(q) && ToPath(q) == text + "/" + item
  {
    var text := "/" + schema + "/" + relation + "/" + name;
    TextOfThree(schema, relation, name);
    PrintedAndRead(DbPath(Some(schema), Some(relation), Facet(facet, None), []), [schema, relation, name], text);
    TextOfFour(schema, relation, name, item);
    PrintedAndRead(DbPath(Some(schema), Some(relation), Facet(facet, Some(item)), []), [schema, relation, name, item],
                   text + "/" + item);
  }

  lemma DefinitionPathReads(schema: string, relation: string)
    requires IsComponent(schema) && IsComponent(relation)
    ensures var name := "definition.sql";
            var text, p := "/" + schema + "/" + relation + "/" + name,
                           DbPath(Some(schema), Some(relation), ViewDefinition, []);
            Parse(text) == Ok(p) && ToPath(p) == text
  {
    DefinitionReads(schema, relation, "definition.sql");
  }

  lemma DefinitionReads(schema: string, relation: string, name: string)
    requires IsComponent(schema) && IsComponent(relation) && name == DEFINITION
    ensures var text, p := "/" + schema + "/" + relation + "/" + name,
                           DbPath(Some(schema), Some(relation), ViewDefinition, []);
            Parse(text) == Ok(p) && ToPath(p) == text
  {
    TextOfThree(schema, relation, name);
    PrintedAndRead(DbPath(Some(schema), Some(relation), ViewDefinition, []), [schema, relation, name],
                   "/" + schema + "/" + relation + "/" + name);
  }

  /** The components of a path that is not trimmed, and what is made of them. */
  lemma ReadFromText(parts: seq<string>, text: string)
    requires AreComponents(parts) && parts != [] && !EndsWithSpace(parts[|parts| - 1]) && text == PathText(parts)
    ensures Parse(text) == FromParts(parts, [], text)
  {
    PathTextHasNoDoubleSlash(parts);
    StripKeeps(text);
    assert '?' !in text;
    PartsOfPathText(parts);
    ParseByRead(text, parts);
  }

  /** Any other name below a relation is refused, with and without one more component. */
  lemma OtherFacetsAreRefused(schema: string, relation: string, name: string, item: string)
    requires IsComponent(schema) && IsComponent(relation) && IsComponent(name) && IsComponent(item)
    requires !EndsWithSpace(name) && !EndsWithSpace(item)
    requires name != "columns" && name != "indexes" && name != "constraints" && name != "depends_on"
    ensures var text := "/" + schema + "/" + relation + "/" + name;
            && (name != "definition.sql" ==> Parse(text) == Err(UnknownFacet(name)))
            && Parse(text + "/" + item) == Err(UnknownFacet(name))
  {
    var text := "/" + schema + "/" + relation + "/" + name;
    TextOfThree(schema, relation, name);
    ReadFromText([schema, relation, name], text);
    TextOfFour(schema, relation, name, item);
    ReadFromText([schema, relation, name, item], text + "/" + item);
    if name != "definition.sql" {
      RefusedFromParts([schema, relation, name], text);
    }
    RefusedFromParts([schema, relation, name, item], text + "/" + item);
  }

  lemma RefusedFromParts(parts: seq<string>, path: string)
    requires |parts| == 4 || (|parts| == 3 && parts[2] != DEFINITION)
    requires ParseFacet(parts[2]) == None
    ensures FromParts(parts, [], path) == Err(UnknownFacet(parts[2]))
  {
  }

  lemma DeepPathsAreRefused(parts: seq<string>)
    requires AreComponents(parts) && |parts| > 4 && !EndsWithSpace(parts[|parts| - 1])
    ensures Parse("/" + Join(parts, "/")) == Err(Unsupported("/" + Join(parts, "/")))
  {
    ReadFromText(parts, "/" + Join(parts, "/"));
    TooDeep(parts, "/" + Join(parts, "/"));
  }

  lemma TooDeep(parts: seq<string>, path: string)
    requires |parts| > 4
    ensures FromParts(parts, [], path) == Err(Unsupported(path))
  {
  }

  // ------------------------------------------------------------------------------------------
  // Queries.

  ghost predicate PlainText(s: string) {
    Plain(s) && NoScheme(s) && '&' !in s && '=' !in s
  }

  /** Keys and values between `?`, `=` and `&`, for plain text. */
  lemma QueryReads(schema: string, a: string, b: string, c: string, d: string)
    requires IsComponent(schema) && !EndsWithSpace(schema)
    requires PlainText(a) && PlainText(b) && PlainText(c) && PlainText(d)
    ensures var p := DbPath(Some(schema), None, Schema, [(a, b), (c, d)]);
            var text := "/" + schema + "?" + a + "=" + b + "&" + c + "=" + d;
            Parse(text) == Ok(p) && ToPath(p) == text
  {
    var pairs := [(a, b), (c, d)];
    var p := DbPath(Some(schema), None, Schema, pairs);
    assert WellFormed(p);
    DelimitedRoundTrip(p);
    PairsText(a, b, c, d);
    TextOfPairs("/" + schema, a, b, c, d);
    assert Components(p) == [schema] && PathText([schema]) == "/" + schema;
  }

  lemma PairsText(a: string, b: string, c: string, d: string)
    ensures Join(PairTexts([(a, b), (c, d)]), "&") == (a + "=" + b) + "&" + (c + "=" + d)
  {
    assert [(a, b), (c, d)][1..] == [(c, d)] && [(c, d)][1..] == [];
    assert PairTexts([(c, d)]) == [c + "=" + d];
    assert PairTexts([(a, b), (c, d)]) == [a + "=" + b, c + "=" + d];
    assert [a + "=" + b, c + "=" + d][1..] == [c + "=" + d];
  }

  lemma TextOfPairs(front: string, a: string, b: string, c: string, d: string)
    ensures front + ("?" + ((a + "=" + b) + "&" + (c + "=" + d))) == front + "?" + a + "=" + b + "&" + c + "=" + d
  {
  }

  /** A text with every byte escaped, by the digits given. */
  function Escaped(b: bytes, digits: string): string
    requires |digits| == 16
  {
    if b == [] then [] else ['%', digits[b[0] / 16], digits[b[0] % 16]] + Escaped(b[1..], digits)
  }

  /** Two hexadecimal digits make a byte, in either case, and the bytes make the text. */
  lemma EscapesDecode(s: string, digits: string)
    requires digits == "0123456789ABCDEF" || digits == "0123456789abcdef"
    ensures Decode(Escaped(Encode(s), digits)) == s
  {
    forall n | 0 <= n < 16 ensures IsHexDigit(digits[n], n) {
      DigitIsHex(n, digits);
    }
    EscapesUnescape(Encode(s), digits);
    DecodeInvertsEncode(s);
  }

  predicate IsHexDigit(c: char, n: nat) {
    n < 16 && c as int < 0x80 && HexDigit(c as byte) == Some(n)
  }

  lemma {:induction false} EscapesUnescape(b: bytes, digits: string)
    requires |digits| == 16 && forall n :: 0 <= n < 16 ==> IsHexDigit(digits[n], n)
    ensures Unescape(Encode(Escaped(b, digits))) == b
  {
    if b != [] {
      EscapesUnescape(b[1..], digits);
      var h, l := b[0] as nat / 16, b[0] as nat % 16;
      assert IsHexDigit(digits[h], h) && IsHexDigit(digits[l], l);
      UnescapeHexPair(digits[h], h, digits[l], l, Escaped(b[1..], digits));
      TwoDigits(b[0]);
    }
  }

  lemma TwoDigits(b: byte)
    ensures (b as nat / 16 * 16 + b as nat % 16) as byte == b
  {
  }

  lemma DigitIsHex(n: nat, digits: string)
    requires n < 16 && (digits == "0123456789ABCDEF" || digits == "0123456789abcdef")
    ensures IsHexDigit(digits[n], n)
  {
    var c := digits[n];
    assert n < 10 ==> c as int == '0' as int + n;
    assert n >= 10 ==> c as int == 'A' as int + (n - 10) || c as int == 'a' as int + (n - 10);
  }

  /** The characters that are trimmed. */
  lemma WhiteSpace(c: char)
    ensures IsSpace(c) <==>
              c in "\U{9}\n\U{B}\U{C}\r \U{85}\U{A0}\U{1680}\U{2028}\U{2029}\U{202F}\U{205F}\U{3000}"
              || c in "\U{2000}\U{2001}\U{2002}\U{2003}\U{2004}\U{2005}\U{2006}\U{2007}\U{2008}\U{2009}\U{200A}"
  {
  }
}

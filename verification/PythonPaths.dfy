/**
  The Python adapter parses paths on its own, with `urlsplit` and `parse_qsl`. Its percent-decoding gives the
  same text as the Rust decoder on every input, and the whole parsers agree exactly when they look at the same
  components and pairs, or at none that make a path.
*/
module PythonPaths {
  import opened Wrappers
  import opened Text
  import opened Utf8
  import opened QueryText
  import opened Paths

  // ------------------------------------------------------------------------------------------
  // `urllib.parse.unquote_plus`.

  function HexChar(c: char): Option<nat> {
    if (c as int) < 0x80 then HexDigit(c as byte) else None
  }

  /** What follows a `%`: two hexadecimal digits and a rest, or text kept as it is. */
  function Item(item: string): bytes {
    if |item| >= 2 && HexChar(item[0]).Some? && HexChar(item[1]).Some?
    then [(HexChar(item[0]).value * 16 + HexChar(item[1]).value) as byte] + Encode(item[2..])
    else [PERCENT] + Encode(item)
  }

  function Items(items: seq<string>): bytes {
    if items == [] then [] else Item(items[0]) + Items(items[1..])
  }

  function UnquoteToBytes(s: string): bytes {
    var items := Split(s, '%');
    Encode(items[0]) + Items(items[1..])
  }

  function AsciiRun(s: string): (run: string)
    ensures run <= s
    ensures |run| < |s| ==> s[|run|] as int >= 0x80
    ensures s != [] && (s[0] as int) < 0x80 ==> run != []
  {
    if s == [] || s[0] as int >= 0x80 then [] else [s[0]] + AsciiRun(s[1..])
  }

  /** Escapes are decoded in each run of ASCII characters by itself. */
  function Unquote(s: string): string
    decreases |s|
  {
    if s == [] then []
    else if s[0] as int >= 0x80 then [s[0]] + Unquote(s[1..])
    else
      var run := AsciiRun(s);
      DecodeLossy(UnquoteToBytes(run)) + Unquote(s[|run|..])
  }

  function PlusToSpace(s: string): string {
    if s == [] then [] else [if s[0] == '+' then ' ' else s[0]] + PlusToSpace(s[1..])
  }

  function UnquotePlus(s: string): string {
    var t := PlusToSpace(s);
    if '%' !in t then t else Unquote(t)
  }

  // ------------------------------------------------------------------------------------------
  // The two decoders.

  /** The bytes that the Rust decoder makes of a text before it decodes them. */
  function Raw(s: string): bytes {
    Unescape(Encode(s))
  }

  lemma HexCharIsHex(c: char)
    ensures HexChar(c).Some? <==> IsHex(c)
    ensures (c as int) < 0x80 ==> HexChar(c) == HexDigit(EncodeChar(c)[0])
  {
  }

  lemma RawEscape(s: string)
    requires StartsEscapeText(s)
    ensures HexChar(s[1]).Some? && HexChar(s[2]).Some?
    ensures Raw(s) == [(HexChar(s[1]).value * 16 + HexChar(s[2]).value) as byte] + Raw(s[3..])
  {
    var e := Encode(s);
    EscapeIsText(s);
    HexCharIsHex(s[1]);
    HexCharIsHex(s[2]);
    assert e[1..] == Encode(s[1..]) && e[2..] == Encode(s[2..]);
    assert e[1] == EncodeChar(s[1])[0] && e[2] == EncodeChar(s[2])[0];
  }

  lemma RawOther(s: string)
    requires s != [] && !StartsEscapeText(s)
    ensures Raw(s) == if s[0] == '+' then [SPACE] + Raw(s[1..]) else EncodeChar(s[0]) + Raw(s[1..])
  {
    var e := Encode(s);
    EscapeIsText(s);
    if s[0] as int >= 0x80 {
      UnescapePassesHighBytes(EncodeChar(s[0]), Encode(s[1..]));
    } else {
      assert e[1..] == Encode(s[1..]);
    }
  }

  lemma {:induction false} PlusToSpaceAt(s: string)
    ensures |PlusToSpace(s)| == |s|
    ensures forall i :: 0 <= i < |s| ==> PlusToSpace(s)[i] == if s[i] == '+' then ' ' else s[i]
  {
    if s != [] {
      PlusToSpaceAt(s[1..]);
    }
  }

  lemma PlusToSpaceFrom(s: string, i: nat)
    requires i <= |s|
    ensures |PlusToSpace(s)| == |s| && PlusToSpace(s)[i..] == PlusToSpace(s[i..])
  {
    PlusToSpaceAt(s);
    PlusToSpaceAt(s[i..]);
  }

  /** Turning `+` into a space first changes nothing, even inside a broken escape. */
  lemma {:induction false} RawOfPlusToSpace(s: string)
    ensures Raw(PlusToSpace(s)) == Raw(s)
    decreases |s|
  {
    var t := PlusToSpace(s);
    PlusToSpaceAt(s);
    if StartsEscapeText(s) {
      RawEscape(s);
      RawEscape(t);
      PlusToSpaceFrom(s, 3);
      RawOfPlusToSpace(s[3..]);
    } else if s != [] {
      assert !StartsEscapeText(t);
      RawOther(s);
      RawOther(t);
      PlusToSpaceFrom(s, 1);
      RawOfPlusToSpace(s[1..]);
    }
  }

  lemma {:induction false} RawOfPlainFirst(a: string, rest: string)
    requires '%' !in a && '+' !in a
    ensures Raw(a + rest) == Encode(a) + Raw(rest)
  {
    if a == [] {
      EmptyFirst(rest);
      EmptyFirst(Raw(rest));
    } else {
      assert (a + rest)[1..] == a[1..] + rest;
      RawOther(a + rest);
      RawOfPlainFirst(a[1..], rest);
      Assoc(EncodeChar(a[0]), Encode(a[1..]), Raw(rest));
    }
  }

  lemma RawOfEmpty()
    ensures Raw([]) == []
  {
  }

  /** Splitting at the percent signs is the same as scanning. */
  lemma {:induction false} RawIsUnquoteToBytes(s: string)
    requires '+' !in s
    ensures Raw(s) == UnquoteToBytes(s)
    decreases |s|, 0
  {
    match SplitOnce(s, '%')
    case None =>
      RawOfPlainFirst(s, []);
      RawOfEmpty();
      EmptyLast(s);
    case Some((a, t)) =>
      assert Split(s, '%') == [a] + Split(t, '%');
      assert s == a + ("%" + t);
      assert forall ch <- t :: ch in s;
      RawOfPlainFirst(a, "%" + t);
      RawIsItems(t);
  }

  lemma {:induction false} RawIsItems(t: string)
    requires '+' !in t
    ensures Raw("%" + t) == Items(Split(t, '%'))
    decreases |t|, 1
  {
    FirstItem(t);
    if |t| >= 2 && IsHex(t[0]) && IsHex(t[1]) {
      RawIsUnquoteToBytes(t[2..]);
      EscapeItems(t, Split(t, '%'));
    } else {
      RawIsUnquoteToBytes(t);
      OtherItems(t, Split(t, '%'));
    }
  }

  lemma EscapeItems(t: string, items: seq<string>)
    requires items == Split(t, '%') && items[0] <= t && (|items[0]| < |t| ==> t[|items[0]|] == '%')
    requires |t| >= 2 && IsHex(t[0]) && IsHex(t[1]) && Raw(t[2..]) == UnquoteToBytes(t[2..])
    ensures Raw("%" + t) == Items(items)
  {
    var code := EscapeIsOneItem(t, items[0]);
    SplitLater(t, 2);
    UnquoteFrom(t[2..], items[0][2..], items[1..]);
    Assoc(code, Encode(items[0][2..]), Items(items[1..]));
  }

  lemma UnquoteFrom(s: string, first: string, later: seq<string>)
    requires Split(s, '%') == [first] + later
    ensures UnquoteToBytes(s) == Encode(first) + Items(later)
  {
    assert ([first] + later)[1..] == later;
  }

  /** Both decoders make one byte of an escape. */
  lemma EscapeIsOneItem(t: string, item: string) returns (code: bytes)
    requires item <= t && (|item| < |t| ==> t[|item|] == '%') && |t| >= 2 && IsHex(t[0]) && IsHex(t[1])
    ensures |item| >= 2 && Item(item) == code + Encode(item[2..]) && Raw("%" + t) == code + Raw(t[2..])
  {
    var s := "%" + t;
    assert s[3..] == t[2..];
    EscapeItem(t, item);
    RawEscape(s);
    code := [(HexChar(t[0]).value * 16 + HexChar(t[1]).value) as byte];
  }

  lemma OtherItems(t: string, items: seq<string>)
    requires items == Split(t, '%') && items[0] <= t
    requires !(|t| >= 2 && IsHex(t[0]) && IsHex(t[1])) && Raw(t) == UnquoteToBytes(t)
    ensures Raw("%" + t) == Items(items)
  {
    var s := "%" + t;
    assert s[1..] == t;
    OtherItem(t, items[0]);
    RawOther(s);
    Assoc([PERCENT], Encode(items[0]), Items(items[1..]));
  }

  lemma EscapeItem(t: string, item: string)
    requires item <= t && (|item| < |t| ==> t[|item|] == '%') && |t| >= 2 && IsHex(t[0]) && IsHex(t[1])
    ensures |item| >= 2 && HexChar(t[0]).Some? && HexChar(t[1]).Some?
    ensures Item(item) == [(HexChar(t[0]).value * 16 + HexChar(t[1]).value) as byte] + Encode(item[2..])
  {
    HexCharIsHex(t[0]);
    HexCharIsHex(t[1]);
    assert !IsHex('%');
    assert |item| != 0 && |item| != 1;
    assert item[0] == t[0] && item[1] == t[1];
  }

  lemma OtherItem(t: string, item: string)
    requires item <= t && !(|t| >= 2 && IsHex(t[0]) && IsHex(t[1]))
    ensures Item(item) == [PERCENT] + Encode(item)
  {
    if |item| >= 2 {
      HexCharIsHex(t[0]);
      HexCharIsHex(t[1]);
    }
  }

  /** The first item is the text up to the next percent sign. */
  lemma FirstItem(t: string)
    ensures var item := Split(t, '%')[0]; item <= t && '%' !in item && (|item| < |t| ==> t[|item|] == '%')
  {
  }

  lemma SplitLater(t: string, n: nat)
    requires n <= |Split(t, '%')[0]| <= |t|
    ensures Split(t[n..], '%') == [Split(t, '%')[0][n..]] + Split(t, '%')[1..]
  {
    match SplitOnce(t, '%')
    case None =>
      assert forall ch <- t[n..] :: ch in t;
    case Some((a, b)) =>
      assert t[n..] == a[n..] + ['%'] + b;
      assert forall ch <- a[n..] :: ch in a;
      FirstSplit(a[n..], '%', b);
  }

  /** Decoding may be cut before any byte that is not a continuation byte. */
  lemma {:induction false} DecodeCut(a: bytes, rest: bytes)
    requires rest == [] || !(0x80 <= rest[0] < 0xC0)
    ensures DecodeLossy(a + rest) == DecodeLossy(a) + DecodeLossy(rest)
    decreases |a|
  {
    if a == [] {
      EmptyFirst(rest);
      EmptyFirst(DecodeLossy(rest));
    } else {
      var used := DecodeOne(a).1;
      DecodeOneCut(a, rest);
      assert (a + rest)[used..] == a[used..] + rest;
      DecodeCut(a[used..], rest);
      Assoc([DecodeOne(a).0], DecodeLossy(a[used..]), DecodeLossy(rest));
    }
  }

  lemma DecodeOneCut(a: bytes, rest: bytes)
    requires a != [] && (rest == [] || !(0x80 <= rest[0] < 0xC0))
    ensures DecodeOne(a + rest) == DecodeOne(a)
  {
    var b := a + rest;
    assert forall i :: 0 <= i < |a| ==> b[i] == a[i];
    assert forall i :: 0 <= i <= |a| ==> (IsContinuation(b, i) <==> IsContinuation(a, i));
  }

  /** An escape does not reach into a text that begins with no hexadecimal digit. */
  lemma {:induction false} RawCut(a: string, rest: string)
    requires rest == [] || !IsHex(rest[0])
    ensures Raw(a + rest) == Raw(a) + Raw(rest)
    decreases |a|
  {
    if a == [] {
      EmptyFirst(rest);
      EmptyFirst(Raw(rest));
    } else if StartsEscapeText(a) {
      RawCut(a[3..], rest);
      EscapeBeforeCut(a, rest);
    } else {
      RawCut(a[1..], rest);
      OtherBeforeCut(a, rest);
    }
  }

  lemma EscapeBeforeCut(a: string, rest: string)
    requires StartsEscapeText(a) && Raw(a[3..] + rest) == Raw(a[3..]) + Raw(rest)
    ensures Raw(a + rest) == Raw(a) + Raw(rest)
  {
    var s := a + rest;
    assert s[3..] == a[3..] + rest;
    RawEscape(a);
    RawEscape(s);
    Assoc([(HexChar(a[1]).value * 16 + HexChar(a[2]).value) as byte], Raw(a[3..]), Raw(rest));
  }

  lemma OtherBeforeCut(a: string, rest: string)
    requires a != [] && !StartsEscapeText(a) && Raw(a[1..] + rest) == Raw(a[1..]) + Raw(rest)
    requires rest == [] || !IsHex(rest[0])
    ensures Raw(a + rest) == Raw(a) + Raw(rest)
  {
    var s := a + rest;
    assert s[1..] == a[1..] + rest;
    assert !StartsEscapeText(s);
    RawOther(a);
    RawOther(s);
    Assoc(if a[0] == '+' then [SPACE] else EncodeChar(a[0]), Raw(a[1..]), Raw(rest));
  }

  lemma LeadByte(c: char)
    requires c as int >= 0x80
    ensures EncodeChar(c)[0] >= 0xC0
  {
  }

  lemma {:induction false} UnquoteIsDecode(t: string)
    requires '+' !in t
    ensures Unquote(t) == DecodeLossy(Raw(t))
    decreases |t|
  {
    if t != [] {
      if t[0] as int >= 0x80 {
        RawOther(t);
        DecodeCharFirst(t[0], Raw(t[1..]));
        UnquoteIsDecode(t[1..]);
      } else {
        var run := AsciiRun(t);
        var rest := t[|run|..];
        assert t == run + rest;
        RawCut(run, rest);
        RawIsUnquoteToBytes(run);
        UnquoteIsDecode(rest);
        if rest != [] {
          RawOther(rest);
          LeadByte(rest[0]);
        }
        DecodeCut(Raw(run), Raw(rest));
      }
    }
  }

  lemma {:induction false} NothingToDecode(t: string)
    requires '%' !in t && '+' !in t
    ensures Plain(t)
  {
    if t != [] {
      NothingToDecode(t[1..]);
    }
  }

  /** The Rust decoder is Python's, on every text. */
  lemma DecodersAgree(s: string)
    ensures UnquotePlus(s) == Decode(s)
  {
    var t := PlusToSpace(s);
    PlusToSpaceAt(s);
    RawOfPlusToSpace(s);
    if '%' !in t {
      NothingToDecode(t);
      DecodeFixesPlain(t);
    } else {
      UnquoteIsDecode(t);
    }
  }

  // ------------------------------------------------------------------------------------------
  // `_parse_path`.

  datatype PyKind = PyRoot | PySchema | PyRelation | PyData | PyDefinition | PyFacet

  datatype PyPath = PyPath(schema: Option<string>, relation: Option<string>, kind: PyKind,
                           item: Option<string>, format: Option<string>,
                           query: seq<Pair>)

  predicate IsLetter(c: char) {
    'a' <= c <= 'z' || 'A' <= c <= 'Z'
  }

  predicate IsSchemeChar(c: char) {
    IsLetter(c) || '0' <= c <= '9' || c == '+' || c == '-' || c == '.'
  }

  /** `urlsplit` takes what stands before the first `:` for a scheme. */
  predicate HasPyScheme(path: string) {
    match SplitOnce(path, ':')
    case None => false
    case Some((before, _)) => before != [] && IsLetter(before[0]) && forall c <- before :: IsSchemeChar(c)
  }

  /** Where `urlsplit` finds no scheme, no host and nothing to delete. */
  predicate Splittable(path: string) {
    && !HasPyScheme(path) && !(|path| > 1 && path[0] == '/' && path[1] == '/')
    && '\t' !in path && '\r' !in path && '\n' !in path && (path != [] ==> path[0] as int > 0x20)
  }

  function BeforeHash(path: string): string {
    match SplitOnce(path, '#') case Some((before, _)) => before case None => path
  }

  /** What stands behind the first `?`. */
  function QueryPart(path: string): string {
    match SplitOnce(path, '?') case Some((_, query)) => query case None => []
  }

  /** The path and the query; the fragment is cut off first. */
  function UrlSplit(path: string): (string, string)
    requires Splittable(path)
  {
    var url := BeforeHash(path);
    match SplitOnce(url, '?') case Some(pair) => pair case None => (url, [])
  }

  function ParseQsl(query: string): seq<Pair> {
    if query == [] then [] else ParseParts(UnquotePlus, Split(query, '&'))
  }

  function TrimEndSlashes(s: string): string {
    if s != [] && s[|s| - 1] == '/' then TrimEndSlashes(s[..|s| - 1]) else s
  }

  function StripSlashes(s: string): string {
    TrimEndSlashes(TrimSlashes(s))
  }

  predicate IsPyFormat(e: string) {
    e == "arrow" || e == "parquet" || e == "csv" || e == "jsonl" || e == "sql"
  }

  predicate IsPyFacet(f: string) {
    f == "columns" || f == "indexes" || f == "constraints" || f == "depends_on"
  }

  /** None is the `ValueError`. */
  function PyFromParts(parts: seq<string>, query: seq<Pair>): Option<PyPath>
    requires parts != []
  {
    if |parts| == 1 then Some(PyPath(Some(parts[0]), None, PySchema, None, None, query))
    else
      var schema, relation := Some(parts[0]), parts[1];
      if |parts| == 2 then
        match RSplitOnce(relation, '.') {
          case Some((name, extension)) =>
            if IsPyFormat(extension) then Some(PyPath(schema, Some(name), PyData, None, Some(extension), query))
            else Some(PyPath(schema, Some(relation), PyRelation, None, None, query))
          case None => Some(PyPath(schema, Some(relation), PyRelation, None, None, query))
        }
      else if |parts| == 3 && parts[2] == DEFINITION then
        Some(PyPath(schema, Some(relation), PyDefinition, None, None, query))
      else if (|parts| == 3 || |parts| == 4) && IsPyFacet(parts[2]) then
        var item := if |parts| == 4 then Some(parts[3]) else None;
        Some(PyPath(schema, Some(relation), PyFacet, item, Some(parts[2]), query))
      else None
  }

  function PyParse(path: string): Option<PyPath>
    requires Splittable(path)
  {
    var (pathPart, queryPart) := UrlSplit(path);
    var clean := "/" + StripSlashes(StripProtocol(pathPart));
    var query := ParseQsl(queryPart);
    if clean == "/" then Some(PyPath(None, None, PyRoot, None, None, query))
    else PyFromParts(Split(StripSlashes(clean), '/'), query)
  }

  /** The same path in the Python adapter's terms. */
  function AsPython(p: DbPath): PyPath {
    match p.kind
    case Root => PyPath(p.schema, p.relation, PyRoot, None, None, p.query)
    case Schema => PyPath(p.schema, p.relation, PySchema, None, None, p.query)
    case Relation => PyPath(p.schema, p.relation, PyRelation, None, None, p.query)
    case RelationData(format) => PyPath(p.schema, p.relation, PyData, None, Some(Extension(format)), p.query)
    case ViewDefinition => PyPath(p.schema, p.relation, PyDefinition, None, None, p.query)
    case Facet(facet, item) => PyPath(p.schema, p.relation, PyFacet, item, Some(FacetName(facet)), p.query)
  }

  // ------------------------------------------------------------------------------------------
  // The two parsers.

  lemma SamePathFromParts(parts: seq<string>, query: seq<Pair>, path: string)
    requires parts != []
    ensures match FromParts(parts, query, path)
            case Ok(p) => PyFromParts(parts, query) == Some(AsPython(p))
            case Err(_) => PyFromParts(parts, query) == None
  {
  }

  lemma {:induction false} SamePairs(f: string -> string, g: string -> string, parts: seq<string>)
    requires forall s: string :: f(s) == g(s)
    ensures ParseParts(f, parts) == ParseParts(g, parts)
  {
    if parts != [] {
      SamePairs(f, g, parts[1..]);
    }
  }

  lemma SameQuery(query: string)
    ensures ParseQsl(query) == ParseParts(Decode, Split(query, '&'))
  {
    forall s: string ensures UnquotePlus(s) == Decode(s) {
      DecodersAgree(s);
    }
    SamePairs(UnquotePlus, Decode, Split(query, '&'));
    if query == [] {
      assert Split([], '&') == [[]] && ParseParts(Decode, [[]]) == ParseParts(Decode, []);
    }
  }

  lemma NoDoubleSlashInside(a: string, b: string, s: string)
    requires s == a + "/" + b && NoDoubleSlash(s)
    ensures NoDoubleSlash(b) && (b == [] || b[0] != '/')
  {
    forall i | 0 <= i < |b| - 1 ensures !(b[i] == '/' && b[i + 1] == '/') {
      var k := |a| + 1 + i;
      assert s[k] == b[i] && s[k + 1] == b[i + 1];
    }
    if b != [] {
      assert s[|a|] == '/' && s[|a| + 1] == b[0];
    }
  }

  lemma {:induction false} NoEmptyParts(s: string)
    requires s != [] && s[0] != '/' && s[|s| - 1] != '/' && NoDoubleSlash(s)
    ensures forall i :: 0 <= i < |Split(s, '/')| ==> Split(s, '/')[i] != []
    decreases |s|
  {
    match SplitOnce(s, '/')
    case None =>
    case Some((a, b)) =>
      NoDoubleSlashInside(a, b, s);
      NoEmptyParts(b);
  }

  lemma LeadingSlashSplits(u: string)
    ensures NonEmptyParts(Split("/" + u, '/')) == NonEmptyParts(Split(u, '/'))
  {
    FirstSplit([], '/', u);
    assert "/" + u == [] + ['/'] + u;
    assert ([[]] + Split(u, '/'))[1..] == Split(u, '/');
  }

  lemma {:induction false} TrailingSlashesSplit(u: string)
    ensures NonEmptyParts(Split(TrimEndSlashes(u), '/')) == NonEmptyParts(Split(u, '/'))
  {
    if u != [] && u[|u| - 1] == '/' {
      var v := u[..|u| - 1];
      TrailingSlashesSplit(v);
      assert u == v + "/";
      TrailingSlashSplits(v);
      NonEmptyPartsSnoc(Split(v, '/'));
    }
  }

  /** The converse of `NoEmptyParts`. */
  lemma {:induction false} NoEmptyPartsOnly(s: string)
    requires forall i :: 0 <= i < |Split(s, '/')| ==> Split(s, '/')[i] != []
    ensures NoDoubleSlash(s) && s != [] && s[0] != '/'
    decreases |s|
  {
    match SplitOnce(s, '/')
    case None =>
      assert Split(s, '/')[0] == s;
    case Some((a, b)) =>
      var parts, later := Split(s, '/'), Split(b, '/');
      assert parts[0] == a;
      forall i | 0 <= i < |later| ensures later[i] != [] {
        assert later[i] == parts[i + 1];
      }
      NoEmptyPartsOnly(b);
      forall i | 0 <= i < |s| - 1 ensures !(s[i] == '/' && s[i + 1] == '/') {
        if i > |a| {
          var k := i - |a| - 1;
          assert s[i] == b[k] && s[i + 1] == b[k + 1];
        } else if i == |a| {
          assert s[i + 1] == b[0];
        } else {
          assert s[i] == a[i];
        }
      }
  }

  /** The parts the Python parser looks at; none for the root. */
  function PyPartsOf(pathPart: string): seq<string> {
    var stripped := StripSlashes(pathPart);
    if stripped == [] then [] else Split(stripped, '/')
  }

  predicate StartsWithSpace(s: string) {
    s != [] && IsSpace(s[0])
  }

  /** No white space around the path, and no empty component left after its outer slashes are stripped. */
  ghost predicate InNormalForm(pathPart: string) {
    !StartsWithSpace(pathPart) && !EndsWithSpace(pathPart) && NoDoubleSlash(StripSlashes(pathPart))
  }

  /** The numbers of components, and the third names, that make a path at all. */
  predicate Supported(parts: seq<string>) {
    || |parts| <= 2
    || (|parts| == 3 && (parts[2] == DEFINITION || IsPyFacet(parts[2])))
    || (|parts| == 4 && IsPyFacet(parts[2]))
  }

  lemma {:induction false} TrimmedEnds(u: string)
    ensures TrimEndSlashes(u) <= u && (TrimEndSlashes(u) != [] ==> TrimEndSlashes(u)[|TrimEndSlashes(u)| - 1] != '/')
  {
    if u != [] && u[|u| - 1] == '/' {
      TrimmedEnds(u[..|u| - 1]);
    }
  }

  lemma {:induction false} LeadingSlashesSplit(s: string)
    ensures NonEmptyParts(Split(TrimSlashes(s), '/')) == NonEmptyParts(Split(s, '/'))
    ensures TrimSlashes(s) != [] ==> TrimSlashes(s)[0] != '/'
  {
    if s != [] && s[0] == '/' {
      assert s == "/" + s[1..];
      LeadingSlashSplits(s[1..]);
      LeadingSlashesSplit(s[1..]);
    }
  }

  /** What stripping leaves, and that stripping it once more behind a slash leaves it alone. */
  lemma StrippedPath(pathPart: string)
    ensures var w := StripSlashes(pathPart);
            && (w != [] ==> w[0] != '/' && w[|w| - 1] != '/')
            && StripSlashes("/" + w) == w
            && NonEmptyParts(Split(pathPart, '/')) == NonEmptyParts(Split(w, '/'))
            && NonSlash(pathPart) == NonSlash(w)
  {
    var u := TrimSlashes(pathPart);
    var w := TrimEndSlashes(u);
    LeadingSlashesSplit(pathPart);
    TrimmedEnds(u);
    TrailingSlashesSplit(u);
    SplitKeepsNonSlash(pathPart);
    SplitKeepsNonSlash(w);
    assert ("/" + w)[1..] == w && TrimSlashes("/" + w) == TrimSlashes(w) == w;
  }

  lemma EmptyHasNoParts()
    ensures NonEmptyParts(Split([], '/')) == []
  {
    assert Split([], '/') == [[]] && NonEmptyParts([[]]) == NonEmptyParts([]);
  }

  lemma NormalFormGivesSameParts(pathPart: string)
    requires InNormalForm(pathPart)
    ensures PartsOf(pathPart) == PyPartsOf(pathPart)
  {
    StrippedPath(pathPart);
    var w := StripSlashes(pathPart);
    if pathPart != [] {
      TrimKeeps(pathPart);
    }
    if w == [] {
      EmptyHasNoParts();
    } else {
      NoEmptyParts(w);
      NonEmptyPartsKeep(Split(w, '/'));
    }
  }

  lemma {:induction false} SpaceInFrontIsLost(s: string)
    requires StartsWithSpace(s)
    ensures NonSlash(TrimStart(s)) < NonSlash(s)
  {
    assert !IsSpace('/');
    if StartsWithSpace(s[1..]) {
      SpaceInFrontIsLost(s[1..]);
    }
  }

  /** Trimming white space loses characters that Python keeps in its parts. */
  lemma SpaceIsLost(pathPart: string)
    requires StartsWithSpace(pathPart) || EndsWithSpace(pathPart)
    ensures TotalLength(PartsOf(pathPart)) < NonSlash(pathPart)
  {
    SplitKeepsNonSlash(Trim(pathPart));
    SpaceAtEndIsLost(TrimStart(pathPart));
    if StartsWithSpace(pathPart) {
      SpaceInFrontIsLost(pathPart);
    }
  }

  lemma SamePartsAreNormalForm(pathPart: string)
    requires '?' !in pathPart && PartsOf(pathPart) == PyPartsOf(pathPart)
    ensures InNormalForm(pathPart)
  {
    StrippedPath(pathPart);
    var w := StripSlashes(pathPart);
    PartsAreComponents(pathPart);
    if w != [] {
      assert forall i :: 0 <= i < |PartsOf(pathPart)| ==> PartsOf(pathPart)[i] in PartsOf(pathPart);
      NonEmptyPartsKeep(Split(w, '/'));
      NoEmptyPartsOnly(w);
    }
    if StartsWithSpace(pathPart) || EndsWithSpace(pathPart) {
      SpaceIsLost(pathPart);
      SplitKeepsNonSlash(w);
    }
  }

  /** When the two parsers look at the same parts. */
  lemma SamePartsIff(pathPart: string)
    requires '?' !in pathPart
    ensures PartsOf(pathPart) == PyPartsOf(pathPart) <==> InNormalForm(pathPart)
  {
    if InNormalForm(pathPart) {
      NormalFormGivesSameParts(pathPart);
    } else if PartsOf(pathPart) == PyPartsOf(pathPart) {
      SamePartsAreNormalForm(pathPart);
    }
  }

  /** The path made of parts, or the root if there are none. */
  function PyOf(parts: seq<string>, query: seq<Pair>): Option<PyPath> {
    if parts == [] then Some(PyPath(None, None, PyRoot, None, None, query)) else PyFromParts(parts, query)
  }

  lemma PyOfSupported(parts: seq<string>, query: seq<Pair>)
    ensures PyOf(parts, query).Some? <==> Supported(parts)
  {
  }

  /** The parts can be told from the path they make. */
  function PartsOfPy(p: PyPath): seq<string> {
    if p.kind.PyRoot? || p.schema.None? then []
    else if p.kind.PySchema? || p.relation.None? then [p.schema.value]
    else if p.kind.PyRelation? then [p.schema.value, p.relation.value]
    else if p.kind.PyDefinition? then [p.schema.value, p.relation.value, DEFINITION]
    else if p.format.None? then []
    else if p.kind.PyData? then [p.schema.value, p.relation.value + "." + p.format.value]
    else [p.schema.value, p.relation.value, p.format.value] + if p.item.Some? then [p.item.value] else []
  }

  lemma PyOfGivesBackParts(parts: seq<string>, query: seq<Pair>)
    requires PyOf(parts, query).Some?
    ensures PartsOfPy(PyOf(parts, query).value) == parts && PyOf(parts, query).value.query == query
  {
  }

  /** The path text whose components the Python parser looks at. */
  function PyPathText(path: string): string {
    StripProtocol(PathPart(BeforeHash(path)))
  }

  /** The pairs of the Python parser. */
  function PyPairs(path: string): seq<Pair> {
    ParseParts(Decode, Split(QueryPart(BeforeHash(path)), '&'))
  }

  /** The pairs of the Rust parser. */
  function RustPairs(path: string): seq<Pair> {
    ParseParts(Decode, Split(QueryPart(StripProtocol(path)), '&'))
  }

  lemma RustPairsAre(path: string)
    ensures SplitQuery(StripProtocol(path)) == (PathPart(StripProtocol(path)), RustPairs(path))
  {
    if SplitOnce(StripProtocol(path), '?').None? {
      assert Split([], '&') == [[]] && ParseParts(Decode, [[]]) == ParseParts(Decode, []);
    }
  }

  /** The Python parser in terms of its parts. */
  lemma PyParseByParts(path: string)
    requires Splittable(path)
    ensures PyParse(path) == PyOf(PyPartsOf(PyPathText(path)), PyPairs(path))
  {
    StrippedPath(PyPathText(path));
    SameQuery(QueryPart(BeforeHash(path)));
    var stripped := StripSlashes(PyPathText(path));
    if stripped != [] {
      assert "/" + stripped != "/";
    }
  }

  /** The Rust parser in the same terms. */
  lemma ParseAsPython(path: string)
    ensures AsPythonResult(Parse(path)) == PyOf(PartsRead(path), RustPairs(path))
  {
    ParseByParts(path);
    RustPairsAre(path);
    if PartsRead(path) != [] {
      SamePathFromParts(PartsRead(path), RustPairs(path), path);
    }
  }

  function AsPythonResult(r: Result<DbPath, PathError>): Option<PyPath> {
    match r case Ok(p) => Some(AsPython(p)) case Err(_) => None
  }

  /** Both parsers give the same path, or both fail. */
  predicate Agree(path: string)
    requires Splittable(path)
  {
    PyParse(path) == AsPythonResult(Parse(path))
  }

  /** Neither parser finds parts that make a path. */
  predicate NoPath(path: string) {
    !Supported(PyPartsOf(PyPathText(path))) && !Supported(PartsRead(path))
  }

  /** The parsers agree exactly when they look at the same parts and pairs, or neither finds parts that make a path. */
  lemma AgreeIffSame(path: string)
    requires Splittable(path)
    ensures Agree(path) <==>
              (PyPartsOf(PyPathText(path)) == PartsRead(path) && PyPairs(path) == RustPairs(path)) || NoPath(path)
  {
    PyParseByParts(path);
    ParseAsPython(path);
    SamePyOfIff(PyPartsOf(PyPathText(path)), PyPairs(path), PartsRead(path), RustPairs(path));
  }

  lemma SamePyOfIff(a: seq<string>, p: seq<Pair>, b: seq<string>, q: seq<Pair>)
    ensures PyOf(a, p) == PyOf(b, q) <==> (a == b && p == q) || (!Supported(a) && !Supported(b))
  {
    PyOfSupported(a, p);
    PyOfSupported(b, q);
    if PyOf(a, p).Some? && PyOf(b, q).Some? {
      PyOfGivesBackParts(a, p);
      PyOfGivesBackParts(b, q);
    }
  }

  lemma DoubleSlashText(schema: string, name: string, path: string)
    requires path == "/" + schema + "//" + name
    ensures path == Join([[], schema, [], name], "/")
    ensures path[1..] == Join([schema, [], name], "/")
  {
    assert [schema, [], name][1..] == [[], name] && [[], name][1..] == [name];
    assert Join([name], "/") == name;
    assert Join([[], name], "/") == "/" + name;
    assert Join([schema, [], name], "/") == schema + "/" + ("/" + name);
    assert [[], schema, [], name][1..] == [schema, [], name];
  }

  lemma RustSkipsEmpty(schema: string, name: string, path: string)
    requires IsComponent(schema) && IsComponent(name) && !EndsWithSpace(name) && path == "/" + schema + "//" + name
    ensures PartsOf(path) == [schema, name]
  {
    assert !IsSpace('/');
    assert Trim(path) == path;
    DoubleSlashText(schema, name, path);
    var parts := [[], schema, [], name];
    SplitInvertsJoin(parts, '/');
    assert parts[1..] == [schema, [], name] && parts[1..][1..] == [[], name];
    assert [[], name][1..] == [name] && [name][1..] == [];
    assert NonEmptyParts([name]) == [name];
    assert NonEmptyParts([[], name]) == [name];
    assert NonEmptyParts([schema, [], name]) == [schema, name];
  }

  lemma PythonKeepsEmpty(schema: string, name: string, path: string)
    requires IsComponent(schema) && IsComponent(name) && path == "/" + schema + "//" + name
    ensures StripSlashes(path) == path[1..] && StripSlashes("/" + path[1..]) == path[1..]
    ensures Split(path[1..], '/') == [schema, [], name]
  {
    assert path == "/" + path[1..] && path[1] == schema[0];
    assert TrimSlashes(path) == TrimSlashes(path[1..]) == path[1..];
    DoubleSlashText(schema, name, path);
    SplitInvertsJoin([schema, [], name], '/');
  }

  /** An empty component is skipped by one parser and kept by the other, so the paths differ. */
  lemma DoubleSlashDisagrees(schema: string, facet: DbFacet, path: string)
    requires IsComponent(schema) && path == "/" + schema + "//" + FacetName(facet)
    requires Splittable(path) && '#' !in path && FindScheme(path).None?
    ensures Parse(path).Ok? && PyParse(path).Some?
    ensures Parse(path).value.kind.Relation? && PyParse(path).value.kind.PyFacet?
  {
    FacetNameIs(facet);
    RustReadsRelation(schema, FacetName(facet), path);
    PythonReadsFacet(schema, FacetName(facet), path);
  }

  lemma RustReadsRelation(schema: string, name: string, path: string)
    requires IsComponent(schema) && IsComponent(name) && !EndsWithSpace(name) && '.' !in name
    requires path == "/" + schema + "//" + name
    requires FindScheme(path).None?
    ensures Parse(path) == Ok(DbPath(Some(schema), Some(name), Relation, []))
  {
    RustSkipsEmpty(schema, name, path);
    NoQuestionMark(schema, name, path);
    TwoPartsAreRelation(schema, name, path, PartsOf(path));
  }

  lemma NoQuestionMark(schema: string, name: string, path: string)
    requires IsComponent(schema) && IsComponent(name) && path == "/" + schema + "//" + name
    ensures '?' !in path
  {
  }

  lemma TwoPartsAreRelation(schema: string, name: string, path: string, parts: seq<string>)
    requires parts == PartsOf(path) == [schema, name] && '.' !in name && '?' !in path && FindScheme(path).None?
    ensures Parse(path) == Ok(DbPath(Some(schema), Some(name), Relation, []))
  {
    ParseByParts(path);
    NoQuery(path);
    NoFormat(schema, name, path);
  }

  lemma NoQuery(path: string)
    requires '?' !in path && FindScheme(path).None?
    ensures SplitQuery(StripProtocol(path)) == (path, [])
  {
  }

  lemma NoFormat(schema: string, name: string, path: string)
    requires '.' !in name
    ensures FromParts([schema, name], [], path) == Ok(DbPath(Some(schema), Some(name), Relation, []))
  {
  }

  lemma PythonReadsFacet(schema: string, name: string, path: string)
    requires IsComponent(schema) && IsComponent(name) && IsPyFacet(name) && name != DEFINITION
    requires path == "/" + schema + "//" + name
    requires Splittable(path) && '#' !in path && FindScheme(path).None?
    ensures PyParse(path) == Some(PyPath(Some(schema), Some([]), PyFacet, None, Some(name), []))
  {
    PythonKeepsEmpty(schema, name, path);
    assert '?' !in path;
    NoQueryForPython(path);
    PyParseByParts(path);
    EmptyRelationsFacet(schema, name);
  }

  lemma NoQueryForPython(path: string)
    requires '?' !in path && '#' !in path && FindScheme(path).None?
    ensures PyPathText(path) == path && PyPairs(path) == []
  {
    assert Split([], '&') == [[]] && ParseParts(Decode, [[]]) == ParseParts(Decode, []);
  }

  lemma EmptyRelationsFacet(schema: string, name: string)
    requires IsPyFacet(name) && name != DEFINITION
    ensures PyOf([schema, [], name], []) == Some(PyPath(Some(schema), Some([]), PyFacet, None, Some(name), []))
  {
  }

  lemma FacetNameIs(facet: DbFacet)
    ensures IsComponent(FacetName(facet)) && '.' !in FacetName(facet) && IsPyFacet(FacetName(facet))
    ensures FacetName(facet) != DEFINITION
  {
    NamesReadBack(Csv, facet);
  }

  lemma TrimKeeps(s: string)
    requires s != [] && !IsSpace(s[0]) && !EndsWithSpace(s)
    ensures Trim(s) == s
  {
  }

  lemma OnePart(name: string)
    requires IsComponent(name)
    ensures NonEmptyParts(Split(name, '/')) == NonEmptyParts(Split("/" + name, '/')) == [name]
  {
    LeadingSlashSplits(name);
    assert Split(name, '/') == [name] && [name][1..] == [];
  }

  lemma OneComponent(name: string, path: string)
    requires IsComponent(name) && !EndsWithSpace(name) && (path == "/" + name || (path == name && !IsSpace(name[0])))
    ensures PartsOf(path) == [name]
  {
    assert !IsSpace('/');
    TrimKeeps(path);
    OnePart(name);
  }

  lemma RustReadsSchema(name: string, path: string)
    requires IsComponent(name) && !EndsWithSpace(name) && '?' !in StripProtocol(path)
    requires StripProtocol(path) == "/" + name || (StripProtocol(path) == name && !IsSpace(name[0]))
    ensures Parse(path) == Ok(DbPath(Some(name), None, Schema, []))
  {
    OneComponent(name, StripProtocol(path));
    ParseByParts(path);
    assert SplitQuery(StripProtocol(path)) == (StripProtocol(path), []);
  }

  lemma PythonReadsSchema(name: string, path: string)
    requires Splittable(path) && PathPart(BeforeHash(path)) == "/" + name && IsComponent(name)
    ensures PyParse(path).Some? && PyParse(path).value.kind.PySchema? && PyParse(path).value.schema == Some(name)
  {
    var pathPart := "/" + name;
    assert pathPart[1..] == name;
    OneSlashHasNoScheme(name);
    assert TrimSlashes(pathPart) == TrimSlashes(name) == name && TrimEndSlashes(name) == name;
    assert Split(name, '/') == [name];
    PyParseByParts(path);
  }

  lemma OneSlashHasNoScheme(name: string)
    requires '/' !in name
    ensures FindScheme("/" + name).None?
  {
    var s := "/" + name;
    forall i | 0 <= i < |s| - 2 ensures !(s[i] == ':' && s[i + 1] == '/' && s[i + 2] == '/') {
      assert s[i + 2] == name[i + 1];
    }
    StripKeeps(s);
  }

  /** A fragment belongs to the schema's name for one parser and is dropped by the other. */
  lemma FragmentDisagrees(schema: string, fragment: string, path: string)
    requires IsComponent(schema) && '#' !in schema && path == "/" + schema + "#" + fragment && Splittable(path)
    requires '/' !in fragment && '?' !in fragment && !EndsWithSpace(fragment)
    ensures Parse(path) == Ok(DbPath(Some(schema + "#" + fragment), None, Schema, []))
    ensures PyParse(path).Some? && PyParse(path).value.schema == Some(schema)
    ensures PyParse(path) != AsPythonResult(Parse(path))
  {
    var name := schema + "#" + fragment;
    FragmentText(schema, fragment, path);
    FragmentName(schema, fragment, name);
    RustReadsSchema(name, path);
    BeforeFragment("/" + schema, fragment, path);
    PythonReadsSchema(schema, path);
    assert |name| > |schema|;
  }

  lemma FragmentText(schema: string, fragment: string, path: string)
    requires path == "/" + schema + "#" + fragment && '/' !in schema && '/' !in fragment
    ensures path == "/" + (schema + "#" + fragment) == ("/" + schema) + ['#'] + fragment
    ensures StripProtocol(path) == path
  {
    assert path == "/" + (schema + "#" + fragment);
    OneSlashHasNoScheme(schema + "#" + fragment);
  }

  lemma FragmentName(schema: string, fragment: string, name: string)
    requires IsComponent(schema) && '/' !in fragment && '?' !in fragment && !EndsWithSpace(fragment)
    requires name == schema + "#" + fragment
    ensures IsComponent(name) && !EndsWithSpace(name) && '?' !in "/" + name
  {
    assert !IsSpace('#');
  }

  lemma BeforeFragment(head: string, fragment: string, path: string)
    requires '#' !in head && '?' !in head && path == head + ['#'] + fragment
    ensures PathPart(BeforeHash(path)) == head
  {
    FirstSplit(head, '#', fragment);
  }

  /** A `://` in the query makes one parser start behind it. */
  lemma SchemeDisagrees(schema: string, key: string, rest: string, path: string)
    requires IsComponent(schema) && IsComponent(rest) && !IsSpace(rest[0]) && !EndsWithSpace(rest) && schema != rest
    requires path == ("/" + schema + "?" + key) + "://" + rest && Splittable(path) && '#' !in path
    requires NoScheme(("/" + schema + "?" + key) + ":/")
    ensures Parse(path) == Ok(DbPath(Some(rest), None, Schema, []))
    ensures PyParse(path).Some? && PyParse(path).value.schema == Some(schema)
    ensures PyParse(path) != AsPythonResult(Parse(path))
  {
    var head := "/" + schema;
    ProtocolIsIgnored(head + "?" + key, rest);
    RustReadsSchema(rest, path);
    SchemeText(head, key, rest);
    UrlWithQuery(path, head, key + "://" + rest);
    PythonReadsSchema(schema, path);
  }

  lemma SchemeText(head: string, key: string, rest: string)
    ensures (head + "?" + key) + "://" + rest == head + ['?'] + (key + "://" + rest)
  {
  }

  lemma UrlWithQuery(path: string, head: string, query: string)
    requires '#' !in path && path == head + ['?'] + query && '?' !in head
    ensures PathPart(BeforeHash(path)) == head
  {
    FirstSplit(head, '?', query);
  }
}

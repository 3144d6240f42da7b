/**
  Exactly when the Python adapter's path parser and the Rust parser agree. They cut a fragment and a protocol off
  at different places, and what one keeps in a query and the other does not always shows: the pairs get heavier.
*/
module ParserAgreement {
  import opened Wrappers
  import opened Text
  import opened Utf8
  import opened QueryText
  import opened Paths
  import opened PathRoundTrip
  import opened PythonPaths

  // ------------------------------------------------------------------------------------------
  // The weight of pairs.

  function Weight(pairs: seq<Pair>): nat {
    if pairs == [] then 0 else |pairs[0].0| + |pairs[0].1| + 1 + Weight(pairs[1..])
  }

  lemma {:induction false} WeightConcat(a: seq<Pair>, b: seq<Pair>)
    ensures Weight(a + b) == Weight(a) + Weight(b)
  {
    if a == [] {
      assert a + b == b;
    } else {
      assert (a + b)[1..] == a[1..] + b;
      WeightConcat(a[1..], b);
    }
  }

  /** Characters that no decoding changes and no splitting of a query looks at. */
  predicate IsSolid(c: char) {
    c == '#' || c == '?' || c == ':'
  }

  /** All that matters about the decoder here. */
  ghost predicate KeepsSolid(decode: Decoder) {
    forall u: string, c: char, v: string :: IsSolid(c) || c == '=' ==>
      |decode(u + [c] + v)| == |decode(u)| + 1 + |decode(v)|
  }

  lemma DecodeKeeps(u: string, c: char, v: string)
    requires IsSolid(c) || c == '='
    ensures Decode(u + [c] + v) == Decode(u) + [c] + Decode(v)
  {
    var rest := [c] + v;
    assert rest[1..] == v;
    Assoc(u, [c], v);
    RawCut(u, rest);
    RawOther(rest);
    DecodeCut(Raw(u), Raw(rest));
    DecodeCharFirst(c, Raw(v));
    Assoc(Decode(u), [c], Decode(v));
  }

  lemma DecodeKeepsSolid()
    ensures KeepsSolid(Decode)
  {
    forall u: string, c: char, v: string | IsSolid(c) || c == '='
      ensures |Decode(u + [c] + v)| == |Decode(u)| + 1 + |Decode(v)|
    {
      DecodeKeeps(u, c, v);
    }
  }

  function PartWeight(decode: Decoder, part: string): nat {
    if part == [] then 0 else Weight([ParsePart(decode, part)])
  }

  lemma PartWeightIs(decode: Decoder, part: string)
    requires part != []
    ensures PartWeight(decode, part) == |ParsePart(decode, part).0| + |ParsePart(decode, part).1| + 1
  {
    WeightOfOne(ParsePart(decode, part));
  }

  lemma WeightOfOne(pair: Pair)
    ensures Weight([pair]) == |pair.0| + |pair.1| + 1
  {
    assert [pair][1..] == [];
  }

  lemma WeightOfPart(decode: Decoder, part: string)
    requires '&' !in part
    ensures Weight(Pairs(decode, part)) == PartWeight(decode, part)
  {
    if part == [] {
      assert Split([], '&') == [[]] && ParseParts(decode, [[]]) == ParseParts(decode, []);
    } else {
      PairsOfPart(decode, part);
    }
  }

  /** A part without `=`, and one with it. */
  lemma PartWeightBounds(decode: Decoder, part: string)
    requires KeepsSolid(decode)
    ensures PartWeight(decode, part) <= |decode(part)| + 1
  {
    if part != [] {
      PartWeightIs(decode, part);
      match SplitOnce(part, '=')
      case None =>
      case Some((key, value)) =>
        assert part == key + ['='] + value;
        assert |decode(key + ['='] + value)| == |decode(key)| + 1 + |decode(value)|;
    }
  }

  /** Two parts joined by a solid character weigh more than either. */
  lemma JoinedPart(decode: Decoder, u: string, c: char, v: string)
    requires KeepsSolid(decode) && IsSolid(c)
    ensures PartWeight(decode, u + [c] + v) > PartWeight(decode, u)
    ensures PartWeight(decode, u + [c] + v) > PartWeight(decode, v)
  {
    PartWeightIs(decode, u + [c] + v);
    if u != [] {
      PartWeightIs(decode, u);
    }
    match SplitOnce(u, '=')
    case Some((key, value)) => EqualsInFirst(decode, key, value, c, v);
    case None => EqualsInSecond(decode, u, c, v);
  }

  lemma EqualsInFirst(decode: Decoder, key: string, value: string, c: char, v: string)
    requires KeepsSolid(decode) && IsSolid(c) && '=' !in key
    ensures var u := key + ['='] + value;
            && PartWeight(decode, u + [c] + v) > PartWeight(decode, u)
            && PartWeight(decode, u + [c] + v) > PartWeight(decode, v)
  {
    var u, longer := key + ['='] + value, value + [c] + v;
    assert u + [c] + v == key + ['='] + longer;
    FirstSplit(key, '=', longer);
    FirstSplit(key, '=', value);
    PartWeightIs(decode, u + [c] + v);
    PartWeightIs(decode, u);
    PartWeightBounds(decode, v);
    assert |decode(longer)| == |decode(value)| + 1 + |decode(v)|;
  }

  lemma EqualsInSecond(decode: Decoder, u: string, c: char, v: string)
    requires KeepsSolid(decode) && IsSolid(c) && '=' !in u
    ensures PartWeight(decode, u + [c] + v) > PartWeight(decode, u)
    ensures PartWeight(decode, u + [c] + v) > PartWeight(decode, v)
  {
    var whole := u + [c] + v;
    PartWeightIs(decode, whole);
    PartWeightBounds(decode, u);
    match SplitOnce(v, '=')
    case None =>
      assert '=' !in whole;
      PartWeightBounds(decode, v);
      assert |decode(whole)| == |decode(u)| + 1 + |decode(v)|;
    case Some((key, value)) =>
      var longer := u + [c] + key;
      assert whole == longer + ['='] + value;
      FirstSplit(longer, '=', value);
      PartWeightIs(decode, v);
      assert |decode(longer)| == |decode(u)| + 1 + |decode(key)|;
      if u != [] {
        PartWeightIs(decode, u);
      }
  }

  lemma WeightOfConcat(decode: Decoder, a: string, b: string)
    ensures Weight(Pairs(decode, a + "&" + b)) == Weight(Pairs(decode, a)) + Weight(Pairs(decode, b))
  {
    PairsConcat(decode, a, b);
    WeightConcat(Pairs(decode, a), Pairs(decode, b));
  }

  /** Joined to a part in front, a query weighs more than either. */
  lemma PartBefore(decode: Decoder, u: string, c: char, b: string)
    requires KeepsSolid(decode) && IsSolid(c) && '&' !in u
    ensures Weight(Pairs(decode, u + [c] + b)) > PartWeight(decode, u)
    ensures Weight(Pairs(decode, u + [c] + b)) > Weight(Pairs(decode, b))
  {
    match SplitOnce(b, '&')
    case None =>
      JoinedPart(decode, u, c, b);
      WeightOfPart(decode, u + [c] + b);
      WeightOfPart(decode, b);
    case Some((v, later)) =>
      PartBeforeMore(decode, u, c, v, later);
  }

  lemma PartBeforeMore(decode: Decoder, u: string, c: char, v: string, later: string)
    requires KeepsSolid(decode) && IsSolid(c) && '&' !in u && '&' !in v
    ensures Weight(Pairs(decode, u + [c] + (v + "&" + later))) > PartWeight(decode, u)
    ensures Weight(Pairs(decode, u + [c] + (v + "&" + later))) > Weight(Pairs(decode, v + "&" + later))
  {
    var joined := u + [c] + v;
    JoinedPart(decode, u, c, v);
    WeightOfPart(decode, joined);
    WeightOfPart(decode, v);
    assert u + [c] + (v + "&" + later) == joined + "&" + later;
    WeightOfConcat(decode, joined, later);
    WeightOfConcat(decode, v, later);
  }

  /** Two queries joined by a solid character weigh more than either. */
  lemma Heavier(decode: Decoder, a: string, c: char, b: string)
    requires KeepsSolid(decode) && IsSolid(c)
    ensures Weight(Pairs(decode, a + [c] + b)) > Weight(Pairs(decode, a))
    ensures Weight(Pairs(decode, a + [c] + b)) > Weight(Pairs(decode, b))
  {
    match RSplitOnce(a, '&')
    case None =>
      PartBefore(decode, a, c, b);
      WeightOfPart(decode, a);
    case Some((front, u)) =>
      HeavierBehind(decode, front, u, c, b);
      Assoc(front + "&", u, [c]);
      Assoc(front + "&", u + [c], b);
  }

  lemma HeavierBehind(decode: Decoder, front: string, u: string, c: char, b: string)
    requires KeepsSolid(decode) && IsSolid(c) && '&' !in u
    ensures Weight(Pairs(decode, front + "&" + (u + [c] + b))) > Weight(Pairs(decode, front + "&" + u))
    ensures Weight(Pairs(decode, front + "&" + (u + [c] + b))) > Weight(Pairs(decode, b))
  {
    PartBefore(decode, u, c, b);
    WeightOfPart(decode, u);
    WeightOfConcat(decode, front, u + [c] + b);
    WeightOfConcat(decode, front, u);
  }

  // ------------------------------------------------------------------------------------------
  // Where the parsers cut.

  predicate IsMark(c: char) {
    c == '?' || c == '#'
  }

  ghost predicate NoMark(s: string) {
    '?' !in s && '#' !in s
  }

  ghost predicate StartsAtMark(tail: string) {
    tail == [] || IsMark(tail[0])
  }

  /** The path up to the first mark, and the rest. */
  lemma UpToMark(path: string) returns (tail: string)
    ensures var p := PathPart(BeforeHash(path)); path == p + tail && NoMark(p) && StartsAtMark(tail)
  {
    var h := BeforeHash(path);
    var p := PathPart(h);
    var behind := path[|h|..];
    assert path == h + behind && (behind == [] || behind[0] == '#') && '#' !in h;
    var query := h[|p|..];
    assert h == p + query && (query == [] || query[0] == '?');
    assert forall ch <- p :: ch in h;
    tail := query + behind;
    Assoc(p, query, behind);
  }

  lemma BeforeHashBehind(p: string, tail: string)
    requires '#' !in p
    ensures BeforeHash(p + tail) == p + BeforeHash(tail)
  {
    match SplitOnce(tail, '#')
    case None =>
    case Some((before, fragment)) =>
      assert p + tail == (p + before) + ['#'] + fragment;
      FirstSplit(p + before, '#', fragment);
  }

  /** Behind a text without marks, all is cut as it would be by itself. */
  lemma CutBehind(p: string, tail: string)
    requires '?' !in p && (tail == [] || tail[0] == '?')
    ensures PathPart(p + tail) == p && QueryPart(p + tail) == QueryPart(tail)
  {
    if tail == [] {
      EmptyLast(p);
    } else {
      var query := tail[1..];
      assert tail == ['?'] + query;
      Assoc(p, ['?'], query);
      FirstSplit(p, '?', query);
      FirstSplit([], '?', query);
      EmptyFirst(['?']);
    }
  }

  lemma MarkAt(p: string, tail: string)
    requires NoMark(p) && StartsAtMark(tail)
    ensures PathPart(BeforeHash(p + tail)) == p && QueryPart(BeforeHash(p + tail)) == QueryPart(BeforeHash(tail))
  {
    BeforeHashBehind(p, tail);
    HashFirst(tail);
    CutBehind(p, BeforeHash(tail));
  }

  lemma HashFirst(tail: string)
    requires StartsAtMark(tail)
    ensures BeforeHash(tail) == [] || BeforeHash(tail)[0] == '?'
  {
    match SplitOnce(tail, '#')
    case None =>
    case Some((before, fragment)) =>
      if before != [] {
        assert tail[0] == before[0];
      }
  }

  lemma {:induction false} FindSchemeKeeps(a: string, b: string)
    requires FindScheme(a).Some?
    ensures FindScheme(a + b) == Some(FindScheme(a).value + b)
    ensures forall c <- FindScheme(a).value :: c in a
  {
    assert (a + b)[1..] == a[1..] + b;
    if a[0] == ':' && a[1] == '/' && a[2] == '/' {
      assert (a + b)[3..] == a[3..] + b;
    } else {
      FindSchemeKeeps(a[1..], b);
    }
  }

  /** The first `://` stands behind a `?` or a `#`. */
  predicate SchemeLate(path: string) {
    FindScheme(path).Some? && FindScheme(PathPart(BeforeHash(path))).None?
  }

  function QueryPairs(query: string): seq<Pair> {
    Pairs(Decode, query)
  }

  /** Without such a one, both parsers cut the same protocol off, and then look at the same text. */
  lemma EarlyTexts(path: string) returns (p: string, tail: string)
    requires !SchemeLate(path)
    ensures StripProtocol(path) == p + tail && NoMark(p) && StartsAtMark(tail)
    ensures PyPathText(path) == p && PyPairs(path) == QueryPairs(QueryPart(BeforeHash(tail)))
    ensures '#' in path <==> '#' in tail
  {
    var front := PathPart(BeforeHash(path));
    tail := UpToMark(path);
    MarkAt(front, tail);
    p := StripProtocol(front);
    if FindScheme(front).Some? {
      FindSchemeKeeps(front, tail);
    }
    assert '#' in path <==> '#' in front + tail;
  }

  // ------------------------------------------------------------------------------------------
  // No fragment.

  lemma PlainTexts(path: string, p: string, tail: string)
    requires StripProtocol(path) == p + tail && NoMark(p) && StartsAtMark(tail) && '#' !in tail
    ensures PathPart(StripProtocol(path)) == p && BeforeHash(tail) == tail
    ensures RustPairs(path) == QueryPairs(QueryPart(tail))
  {
    CutBehind(p, tail);
  }

  lemma AgreeWithoutMarks(path: string)
    requires Splittable(path) && !SchemeLate(path) && '#' !in path
    ensures Agree(path) <==> InNormalForm(PathPart(StripProtocol(path))) || NoPath(path)
  {
    var p, tail := EarlyTexts(path);
    PlainTexts(path, p, tail);
    AgreeIffSame(path);
    SamePartsIff(p);
  }

  // ------------------------------------------------------------------------------------------
  // A fragment.

  lemma {:induction false} HashIsInAPart(s: string) returns (part: string)
    requires '#' in s
    ensures part in NonEmptyParts(Split(s, '/')) && '#' in part
    decreases |s|
  {
    match SplitOnce(s, '/') {
      case None =>
        part := s;
        assert Split(s, '/') == [s] && [s][1..] == [];
      case Some((a, b)) =>
        var parts := Split(s, '/');
        assert parts[0] == a && parts[1..] == Split(b, '/');
        if '#' in a {
          part := a;
        } else {
          assert '#' in b;
          part := HashIsInAPart(b);
        }
    }
  }

  lemma {:induction false} TrimStartKeepsHash(s: string)
    requires '#' in s
    ensures '#' in TrimStart(s)
  {
    assert !IsSpace('#');
    if StartsWithSpace(s) {
      assert s == [s[0]] + s[1..];
      TrimStartKeepsHash(s[1..]);
    }
  }

  lemma {:induction false} TrimEndKeepsHash(s: string)
    requires '#' in s
    ensures '#' in TrimEnd(s)
  {
    assert !IsSpace('#');
    if EndsWithSpace(s) {
      var n := |s| - 1;
      assert s == s[..n] + [s[n]];
      TrimEndKeepsHash(s[..n]);
    }
  }

  lemma TrimKeepsHash(s: string)
    requires '#' in s
    ensures '#' in Trim(s)
  {
    TrimStartKeepsHash(s);
    TrimEndKeepsHash(TrimStart(s));
  }

  /** The Python parser never sees a `#`. */
  lemma NoHashForPython(p: string)
    requires '#' !in p
    ensures forall part <- PyPartsOf(p) :: '#' !in part
  {
    var w := StripSlashes(p);
    StripSlashesKeeps(p);
    if w != [] {
      SplitChars(w, '/');
    }
  }

  lemma {:induction false} TrimSlashesKeeps(s: string)
    ensures forall c <- TrimSlashes(s) :: c in s
  {
    if s != [] && s[0] == '/' {
      TrimSlashesKeeps(s[1..]);
    }
  }

  lemma StripSlashesKeeps(s: string)
    ensures forall c <- StripSlashes(s) :: c in s
  {
    TrimSlashesKeeps(s);
    TrimmedEnds(TrimSlashes(s));
  }

  /** A fragment behind the path makes the parts differ. */
  lemma FragmentInPath(path: string, p: string, tail: string)
    requires StripProtocol(path) == p + tail && NoMark(p) && tail != [] && tail[0] == '#'
    ensures PyPartsOf(p) != PartsRead(path)
  {
    var text := PathPart(StripProtocol(path));
    assert '#' in text by {
      HashBeforeQuery(p, tail);
    }
    TrimKeepsHash(text);
    var part := HashIsInAPart(Trim(text));
    NoHashForPython(p);
  }

  lemma HashBeforeQuery(p: string, tail: string)
    requires '?' !in p && tail != [] && tail[0] == '#'
    ensures '#' in PathPart(p + tail)
  {
    var s := p + tail;
    assert s[|p|] == '#';
    match SplitOnce(s, '?')
    case None =>
    case Some((before, rest)) =>
      assert s[|before|] == '?';
      assert |before| > |p|;
      assert before[|p|] == s[|p|];
  }

  /** A fragment in the query makes the pairs differ. */
  lemma FragmentInQuery(path: string, p: string, tail: string)
    requires StripProtocol(path) == p + tail && NoMark(p) && tail != [] && tail[0] == '?' && '#' in tail
    ensures QueryPairs(QueryPart(BeforeHash(tail))) != RustPairs(path)
  {
    var query := tail[1..];
    assert tail == ['?'] + query;
    var (before, fragment) := SplitOnce(query, '#').value;
    assert tail == (['?'] + before) + ['#'] + fragment;
    FirstSplit(['?'] + before, '#', fragment);
    CutBehind([], ['?'] + before);
    CutBehind(p, tail);
    EmptyFirst(['?'] + before);
    FirstSplit([], '?', before);
    FirstSplit([], '?', query);
    EmptyFirst(['?']);
    DecodeKeepsSolid();
    Heavier(Decode, before, '#', fragment);
  }

  lemma AgreeWithFragment(path: string)
    requires Splittable(path) && !SchemeLate(path) && '#' in path
    ensures Agree(path) <==> NoPath(path)
  {
    var p, tail := EarlyTexts(path);
    AgreeIffSame(path);
    if tail[0] == '#' {
      FragmentInPath(path, p, tail);
    } else {
      FragmentInQuery(path, p, tail);
    }
  }

  // ------------------------------------------------------------------------------------------
  // A `://` in the query.

  lemma SchemeInQuery(path: string) returns (query: string, before: string, rest: string)
    requires SchemeLate(path) && '#' !in path
    ensures QueryPart(BeforeHash(path)) == query == before + "://" + rest && StripProtocol(path) == rest
  {
    query := QueryPart(path);
    LateScheme(path, PathPart(path), query);
    var i := SchemeIsThere(query);
    before, rest := query[..i], query[i + 3..];
    SplitAtScheme(query, i);
  }

  lemma SplitAtScheme(s: string, i: nat)
    requires SchemeAt(s, i)
    ensures s == s[..i] + "://" + s[i + 3..]
  {
    assert s == s[..i] + s[i..i + 3] + s[i + 3..];
    assert s[i..i + 3] == "://";
  }

  lemma LateScheme(path: string, p: string, query: string)
    requires '#' !in path && SchemeLate(path) && p == PathPart(path) && query == QueryPart(path)
    ensures FindScheme(query).Some? && FindScheme(path) == FindScheme(query)
  {
    assert BeforeHash(path) == path;
    assert path == (p + ['?']) + query;
    NoSchemeFound(p);
    forall i | 0 <= i < |p + ['?']| ensures !SchemeAt((p + ['?']) + query, i) {
      NoSchemeBefore(p, query, i);
    }
    FindSchemeBehind(p + ['?'], query);
  }

  lemma NoSchemeBefore(p: string, query: string, i: nat)
    requires NoScheme(p) && i <= |p|
    ensures !SchemeAt((p + ['?']) + query, i)
  {
    var s := (p + ['?']) + query;
    assert s[|p|] == '?';
    if i + 2 < |p| {
      assert s[i] == p[i] && s[i + 1] == p[i + 1] && s[i + 2] == p[i + 2];
    }
  }

  lemma SchemePairsDiffer(query: string, before: string, rest: string)
    requires query == before + "://" + rest
    ensures QueryPairs(query) != QueryPairs(QueryPart(rest))
  {
    DecodeKeepsSolid();
    match SplitOnce(rest, '?')
    case None =>
      assert query == before + [':'] + ("//" + rest);
      Heavier(Decode, before, ':', "//" + rest);
      assert Split([], '&') == [[]] && ParseParts(Decode, [[]]) == ParseParts(Decode, []);
    case Some((x, later)) =>
      assert query == (before + "://" + x) + ['?'] + later;
      Heavier(Decode, before + "://" + x, '?', later);
  }

  lemma AgreeWithLateScheme(path: string)
    requires Splittable(path) && SchemeLate(path) && '#' !in path
    ensures Agree(path) <==> NoPath(path)
  {
    var query, before, rest := SchemeInQuery(path);
    AgreeIffSame(path);
    SchemePairsDiffer(query, before, rest);
  }

  /**
    When the two parsers agree, for every path that has no scheme, host or deleted character for `urlsplit`: exactly
    when the path, behind its protocol, is in normal form, and there is neither a fragment nor a `://` in the query;
    or when neither parser finds parts that make a path. Where a `://` follows a fragment, `AgreeIffSame` is all there
    is to say.
  */
  lemma ParsersAgreeIff(path: string)
    requires Splittable(path)
    ensures !(SchemeLate(path) && '#' in path) ==>
              (Agree(path) <==>
                || (!SchemeLate(path) && '#' !in path && InNormalForm(PathPart(StripProtocol(path))))
                || NoPath(path))
  {
    if SchemeLate(path) {
      if '#' !in path {
        AgreeWithLateScheme(path);
      }
    } else if '#' in path {
      AgreeWithFragment(path);
    } else {
      AgreeWithoutMarks(path);
    }
  }

  /** A `://` in a fragment may make the parsers agree again, on the same name before and behind. */
  lemma BothMarksMayAgree(name: string, key: string, path: string)
    requires IsComponent(name) && '#' !in name && !IsSpace(name[0]) && !EndsWithSpace(name) && Splittable(path)
    requires path == (("/" + name) + "#" + key) + "://" + name && NoScheme((("/" + name) + "#" + key) + ":/")
    ensures Agree(path)
  {
    var head := "/" + name;
    ProtocolIsIgnored(head + "#" + key, name);
    BehindFragment(head, key, name, path);
    BeforeFragment(head, key + "://" + name, path);
    OneSlashHasNoScheme(name);
    FirstSplit(head, '#', key + "://" + name);
    OneComponent(name, name);
    OneComponent(name, head);
    SamePartsIff(head);
    assert head[1..] == name;
    assert StripSlashes(head) == name by {
      assert TrimSlashes(head) == TrimSlashes(name) == name;
    }
    assert Split(name, '/') == [name];
    AgreeIffSame(path);
  }

  lemma BehindFragment(head: string, key: string, name: string, path: string)
    requires path == (head + "#" + key) + "://" + name
    ensures path == head + ['#'] + (key + "://" + name)
  {
  }
}

/**
  Exactly when a printed path parses back: the condition of `Paths.WellFormed` is not only sufficient
  but necessary. The query text is the delicate half, because a delimiter inside a key or a value, or a
  `://` that makes the parser drop everything before it, might be made good by an escape further on. It
  never is: the parser would have to produce a pair that is longer than its own text.
*/
module PathRoundTrip {
  import opened Wrappers
  import opened Text
  import opened QueryText
  import opened Paths

  type Decoder = string -> string

  /** All that matters about the decoder here. */
  ghost predicate NeverLengthens(decode: Decoder) {
    forall s: string :: |decode(s)| <= |s|
  }

  function Pairs(decode: Decoder, query: string): seq<Pair> {
    ParseParts(decode, Split(query, '&'))
  }

  lemma {:induction false} ParsePartsConcat(decode: Decoder, x: seq<string>, y: seq<string>)
    ensures ParseParts(decode, x + y) == ParseParts(decode, x) + ParseParts(decode, y)
  {
    if x == [] {
      assert x + y == y;
    } else {
      assert (x + y)[1..] == x[1..] + y;
      ParsePartsConcat(decode, x[1..], y);
    }
  }

  lemma PairsConcat(decode: Decoder, a: string, b: string)
    ensures Pairs(decode, a + "&" + b) == Pairs(decode, a) + Pairs(decode, b)
  {
    SplitConcat(a, '&', b);
    ParsePartsConcat(decode, Split(a, '&'), Split(b, '&'));
  }

  lemma PairsOfPart(decode: Decoder, part: string)
    requires '&' !in part && part != []
    ensures Pairs(decode, part) == [ParsePart(decode, part)]
  {
    assert [part][1..] == [];
    assert ParseParts(decode, [part]) == [ParsePart(decode, part)] + ParseParts(decode, []);
  }

  /** A pair never takes more characters than the text it came from. */
  lemma PartBound(decode: Decoder, part: string)
    requires NeverLengthens(decode)
    ensures var (key, value) := ParsePart(decode, part);
            if '=' in part then |key| + |value| + 1 <= |part| else value == [] && |key| <= |part|
  {
    match SplitOnce(part, '=')
    case Some((k, v)) =>
      assert |decode(k)| <= |k| && |decode(v)| <= |v|;
    case None => assert |decode(part)| <= |part|;
  }

  ghost predicate Bounded(pair: Pair, query: string) {
    |pair.0| + |pair.1| + 1 <= |query| - if '&' in query then 1 else 0
  }

  lemma {:induction false} PairsBound(decode: Decoder, query: string)
    requires NeverLengthens(decode)
    ensures forall pair <- Pairs(decode, query) :: pair.1 != [] ==> Bounded(pair, query)
    ensures '=' in query ==> Pairs(decode, query) != []
    decreases |query|
  {
    match SplitOnce(query, '&')
    case None =>
      PartBound(decode, query);
      if query != [] {
        PairsOfPart(decode, query);
      }
    case Some((a, b)) =>
      PairsConcat(decode, a, b);
      PairsBound(decode, b);
      PartBound(decode, a);
      if a != [] {
        PairsOfPart(decode, a);
      }
  }

  lemma LastPairBound(decode: Decoder, query: string)
    requires NeverLengthens(decode)
    requires query != [] && query[|query| - 1] == '='
    ensures var pairs := Pairs(decode, query); pairs != [] && Bounded(pairs[|pairs| - 1], query)
  {
    match RSplitOnce(query, '&')
    case None =>
      PartBound(decode, query);
      PairsOfPart(decode, query);
    case Some((a, b)) =>
      assert b != [] && b[|b| - 1] == '=';
      PairsConcat(decode, a, b);
      PairsOfPart(decode, b);
      PartBound(decode, b);
  }

  lemma EmptyQuery(decode: Decoder)
    ensures Pairs(decode, []) == []
  {
    assert Split([], '&') == [[]] && ParseParts(decode, [[]]) == ParseParts(decode, []);
  }

  /** The end of a pair's text yields that pair only if it is the whole text and holds no `&`. */
  lemma EndOfPairText(decode: Decoder, pair: Pair, end: string)
    requires NeverLengthens(decode)
    requires |end| <= |PairText(pair)| && end == PairText(pair)[|PairText(pair)| - |end|..]
    requires Pairs(decode, end) != [] && Pairs(decode, end)[|Pairs(decode, end)| - 1] == pair
    ensures end == PairText(pair) && '&' !in end
  {
    var text := PairText(pair);
    EmptyQuery(decode);
    PairsBound(decode, end);
    assert pair in Pairs(decode, end);
    if pair.1 == [] {
      if end != [] {
        assert end[|end| - 1] == text[|text| - 1];
        LastPairBound(decode, end);
      }
    }
    assert Bounded(pair, end);
  }

  lemma {:induction false} PairTextsConcat(a: seq<Pair>, b: seq<Pair>)
    ensures PairTexts(a + b) == PairTexts(a) + PairTexts(b)
  {
    if a == [] {
      assert a + b == b;
    } else {
      assert (a + b)[1..] == a[1..] + b;
      PairTextsConcat(a[1..], b);
    }
  }

  lemma PairTextsOfOne(pair: Pair)
    ensures PairTexts([pair]) == [PairText(pair)]
  {
    assert [pair][1..] == [];
  }

  lemma PairTextsSnoc(init: seq<Pair>, last: Pair)
    requires init != []
    ensures Join(PairTexts(init + [last]), "&") == Join(PairTexts(init), "&") + "&" + PairText(last)
  {
    PairTextsConcat(init, [last]);
    PairTextsOfOne(last);
    JoinSnoc(PairTexts(init), PairText(last), "&");
  }

  ghost predicate AmpersandFree(pairs: seq<Pair>) {
    pairs == [] || ('&' !in PairText(pairs[|pairs| - 1]) && AmpersandFree(pairs[..|pairs| - 1]))
  }

  lemma {:induction false} AmpersandFreeAt(pairs: seq<Pair>, i: nat)
    requires AmpersandFree(pairs) && i < |pairs|
    ensures '&' !in PairText(pairs[i])
  {
    if i < |pairs| - 1 {
      AmpersandFreeAt(pairs[..|pairs| - 1], i);
    }
  }

  lemma ShortEnd(decode: Decoder, pairs: seq<Pair>, end: string)
    requires NeverLengthens(decode)
    requires pairs != [] && Pairs(decode, end) == pairs
    requires var last := PairText(pairs[|pairs| - 1]); |end| <= |last| && end == last[|last| - |end|..]
    ensures |pairs| == 1 && end == PairText(pairs[0]) && '&' !in end
  {
    EndOfPairText(decode, pairs[|pairs| - 1], end);
    PairsOfPart(decode, end);
  }

  lemma LongEnd(decode: Decoder, pairs: seq<Pair>, rest: string)
    requires NeverLengthens(decode)
    requires pairs != [] && Pairs(decode, rest + "&" + PairText(pairs[|pairs| - 1])) == pairs
    ensures Pairs(decode, rest) == pairs[..|pairs| - 1] && '&' !in PairText(pairs[|pairs| - 1])
  {
    var n := |pairs| - 1;
    var last := PairText(pairs[n]);
    PairsConcat(decode, rest, last);
    assert last[|pairs[n].0|] == '=';
    PairsBound(decode, last);
    assert last == last[|last| - |last|..];
    EndOfPairText(decode, pairs[n], last);
    PairsOfPart(decode, last);
    assert Pairs(decode, rest) == pairs[..|Pairs(decode, rest)|];
  }

  ghost predicate IsEndOf(end: string, s: string) {
    |end| <= |s| && end == s[|s| - |end|..]
  }

  lemma EndOfConcat(a: string, b: string, end: string)
    requires IsEndOf(end, a + b) && |end| >= |b|
    ensures end == end[..|end| - |b|] + b && IsEndOf(end[..|end| - |b|], a)
  {
    var k, from := |end| - |b|, |a + b| - |end|;
    assert end[k..] == b;
    assert end[..k] == a[from..];
  }

  lemma EndSplit(init: string, last: string, end: string)
    requires IsEndOf(end, init + "&" + last) && |end| > |last|
    ensures var k := |end| - |last| - 1; end == end[..k] + "&" + last && IsEndOf(end[..k], init)
  {
    Assoc(init, "&", last);
    EndOfConcat(init, "&" + last, end);
    Assoc(end[..|end| - |last| - 1], "&", last);
  }

  /** Take the last pair off both the pairs and an end that parses to them. */
  lemma StepBack(decode: Decoder, pairs: seq<Pair>, init: string, end: string) returns (rest: string)
    requires NeverLengthens(decode)
    requires |pairs| > 1 && Pairs(decode, end) == pairs
    requires IsEndOf(end, init + "&" + PairText(pairs[|pairs| - 1]))
    ensures end == rest + "&" + PairText(pairs[|pairs| - 1]) && IsEndOf(rest, init)
    ensures Pairs(decode, rest) == pairs[..|pairs| - 1] && '&' !in PairText(pairs[|pairs| - 1])
  {
    var last := PairText(pairs[|pairs| - 1]);
    if |end| <= |last| {
      assert end == last[|last| - |end|..];
      ShortEnd(decode, pairs, end);
    }
    EndSplit(init, last, end);
    rest := end[..|end| - |last| - 1];
    LongEnd(decode, pairs, rest);
  }

  /** No proper end of the printed pairs parses to those pairs, and the whole does so only if no pair holds `&`. */
  lemma {:induction false} OnlyTheWholeParses(decode: Decoder, pairs: seq<Pair>, end: string)
    requires NeverLengthens(decode)
    requires pairs != [] && Pairs(decode, end) == pairs
    requires IsEndOf(end, Join(PairTexts(pairs), "&"))
    ensures end == Join(PairTexts(pairs), "&") && AmpersandFree(pairs)
  {
    var earlier, last := pairs[..|pairs| - 1], pairs[|pairs| - 1];
    assert pairs == earlier + [last];
    if earlier == [] {
      EmptyFirst([last]);
      OnePairParses(decode, last, end);
    } else {
      var rest := TakeLastPair(decode, earlier, last, end);
      OnlyTheWholeParses(decode, earlier, rest);
      PairTextsSnoc(earlier, last);
    }
  }

  lemma TakeLastPair(decode: Decoder, earlier: seq<Pair>, last: Pair, end: string) returns (rest: string)
    requires NeverLengthens(decode)
    requires earlier != [] && Pairs(decode, end) == earlier + [last]
    requires IsEndOf(end, Join(PairTexts(earlier + [last]), "&"))
    ensures end == rest + "&" + PairText(last) && IsEndOf(rest, Join(PairTexts(earlier), "&"))
    ensures Pairs(decode, rest) == earlier && '&' !in PairText(last)
  {
    var pairs := earlier + [last];
    assert pairs[..|pairs| - 1] == earlier;
    PairTextsSnoc(earlier, last);
    rest := StepBack(decode, pairs, Join(PairTexts(earlier), "&"), end);
  }

  lemma OnePairParses(decode: Decoder, pair: Pair, end: string)
    requires NeverLengthens(decode) && Pairs(decode, end) == [pair]
    requires IsEndOf(end, Join(PairTexts([pair]), "&"))
    ensures end == Join(PairTexts([pair]), "&") && AmpersandFree([pair])
  {
    PairTextsOfOne(pair);
    ShortEnd(decode, [pair], end);
    assert [pair][..0] == [];
  }

  lemma KeyHasNoEquals(decode: Decoder, pair: Pair)
    requires NeverLengthens(decode)
    requires ParsePart(decode, PairText(pair)) == pair
    ensures '=' !in pair.0
  {
    if '=' in pair.0 {
      var (a, b) := SplitOnce(pair.0, '=').value;
      assert PairText(pair) == a + ['='] + (b + "=" + pair.1);
      FirstSplit(a, '=', b + "=" + pair.1);
    }
  }

  /** Printed pairs that parse back hold no delimiter. */
  lemma ParsedBackIsDelimiterFree(decode: Decoder, pairs: seq<Pair>)
    requires NeverLengthens(decode)
    requires pairs != [] && Pairs(decode, Join(PairTexts(pairs), "&")) == pairs
    ensures DelimiterFree(pairs)
  {
    OnlyTheWholeParses(decode, pairs, Join(PairTexts(pairs), "&"));
    PairTextsAt(pairs);
    forall text <- PairTexts(pairs) ensures '&' !in text {
      var i :| 0 <= i < |pairs| && text == PairTexts(pairs)[i];
      AmpersandFreeAt(pairs, i);
    }
    SplitInvertsJoin(PairTexts(pairs), '&');
    forall i | 0 <= i < |pairs| ensures '&' !in pairs[i].0 && '=' !in pairs[i].0 && '&' !in pairs[i].1 {
      AmpersandFreeAt(pairs, i);
      ParsePartsAt(decode, PairTexts(pairs), i);
      KeyHasNoEquals(decode, pairs[i]);
    }
  }

  lemma {:induction false} ParsePartsAt(decode: Decoder, parts: seq<string>, i: nat)
    requires i < |parts| && forall k :: 0 <= k < |parts| ==> parts[k] != []
    ensures |ParseParts(decode, parts)| == |parts| && ParseParts(decode, parts)[i] == ParsePart(decode, parts[i])
  {
    if i > 0 {
      ParsePartsAt(decode, parts[1..], i - 1);
    } else if |parts| > 1 {
      ParsePartsAt(decode, parts[1..], 0);
    } else {
      assert parts[1..] == [];
    }
  }

  // ------------------------------------------------------------------------------------------
  // The `://` that cuts a printed path.

  /** Whatever the scheme search returns is what follows a `://`. */
  lemma {:induction false} SchemeIsThere(s: string) returns (i: nat)
    requires FindScheme(s).Some?
    ensures i + 3 <= |s| && s[i] == ':' && s[i + 1] == '/' && s[i + 2] == '/' && FindScheme(s) == Some(s[i + 3..])
  {
    if s[0] == ':' && s[1] == '/' && s[2] == '/' {
      i := 0;
    } else {
      var k := SchemeIsThere(s[1..]);
      i := k + 1;
      assert s[1..][k + 3..] == s[i + 3..];
    }
  }

  lemma {:induction false} NoSchemeFound(s: string)
    requires FindScheme(s) == None
    ensures NoScheme(s)
  {
    if |s| >= 3 {
      NoSchemeFound(s[1..]);
      forall i | 0 <= i < |s| - 2 ensures !(s[i] == ':' && s[i + 1] == '/' && s[i + 2] == '/') {
        if i > 0 {
          var t := s[1..];
          assert !(t[i - 1] == ':' && t[i - 1 + 1] == '/' && t[i - 1 + 2] == '/');
        }
      }
    }
  }

  lemma NoSchemeInside(a: string, b: string, c: string)
    requires NoScheme(a + b + c)
    ensures NoScheme(b)
  {
    var s := a + b + c;
    forall i | 0 <= i < |b| - 2 ensures !(b[i] == ':' && b[i + 1] == '/' && b[i + 2] == '/') {
      var k := |a| + i;
      assert !(s[k] == ':' && s[k + 1] == '/' && s[k + 2] == '/');
      assert b[i] == s[k] && b[i + 1] == s[k + 1] && b[i + 2] == s[k + 2];
    }
  }

  lemma {:induction false} PairsAreSchemeFree(pairs: seq<Pair>)
    requires NoScheme(Join(PairTexts(pairs), "&"))
    ensures SchemeFree(pairs)
  {
    if pairs != [] {
      var (key, value) := pairs[0];
      var text := Join(PairTexts(pairs), "&");
      assert PairTexts(pairs)[1..] == PairTexts(pairs[1..]);
      var later := Join(PairTexts(pairs[1..]), "&");
      var tail := if |pairs| == 1 then [] else "&" + later;
      assert text == [] + key + ("=" + value + tail) == (key + "=") + value + tail;
      NoSchemeInside([], key, "=" + value + tail);
      NoSchemeInside(key + "=", value, tail);
      if |pairs| > 1 {
        assert text == (key + "=" + value + "&") + later + [];
        NoSchemeInside(key + "=" + value + "&", later, []);
      }
      PairsAreSchemeFree(pairs[1..]);
      assert pairs == [pairs[0]] + pairs[1..];
    }
  }

  lemma DecodeIsADecoder()
    ensures NeverLengthens(Decode)
  {
    forall s: string ensures |Decode(s)| <= |s| {
      DecodeNeverLengthens(s);
    }
  }

  /** A `://` can only be in the query, and what is left after it is too short to parse to the whole query. */
  lemma CutPathLosesPairs(text: string, pairs: seq<Pair>)
    requires NoDoubleSlash(text) && '?' !in text && pairs != []
    requires FindScheme(text + "?" + Join(PairTexts(pairs), "&")).Some?
    ensures SplitQuery(FindScheme(text + "?" + Join(PairTexts(pairs), "&")).value).1 != pairs
  {
    var query := Join(PairTexts(pairs), "&");
    var rest := FindScheme(text + "?" + query).value;
    CutInQuery(text, query, rest);
    match SplitOnce(rest, '?')
    case None =>
    case Some((path, end)) =>
      assert IsEndOf(end, query) && |end| < |query|;
      if Pairs(Decode, end) == pairs {
        DecodeIsADecoder();
        OnlyTheWholeParses(Decode, pairs, end);
      }
  }

  lemma CutInQuery(text: string, query: string, rest: string)
    requires NoDoubleSlash(text) && FindScheme(text + "?" + query) == Some(rest)
    ensures IsEndOf(rest, query)
  {
    var whole := text + "?" + query;
    var i := SchemeIsThere(whole);
    assert whole[|text|] == '?';
    assert forall k :: 0 <= k < |text| ==> text[k] == whole[k];
    assert whole[|text| + 1..] == query;
    assert rest == query[|query| - |rest|..];
  }

  lemma UncutQueryIsDelimiterFree(text: string, pairs: seq<Pair>)
    requires NoDoubleSlash(text) && '?' !in text && pairs != []
    requires SplitQuery(StripProtocol(text + "?" + Join(PairTexts(pairs), "&"))).1 == pairs
    ensures DelimiterFree(pairs) && SchemeFree(pairs)
  {
    var query := Join(PairTexts(pairs), "&");
    var whole := text + "?" + query;
    if FindScheme(whole).Some? {
      CutPathLosesPairs(text, pairs);
    }
    FirstSplit(text, '?', query);
    DecodeIsADecoder();
    ParsedBackIsDelimiterFree(Decode, pairs);
    NoSchemeFound(whole);
    assert whole == (text + "?") + query + [];
    NoSchemeInside(text + "?", query, []);
    PairsAreSchemeFree(pairs);
  }

  lemma ParsesBackIsWellFormed(p: DbPath)
    requires Parse(ToPath(p)) == Ok(p) && p.query != []
    ensures DelimiterFree(p.query) && SchemeFree(p.query)
  {
    ReadFrom(ToPath(p), p);
    PathTextHasNoDoubleSlash(Components(p));
    PrintedWithQuery(p);
    UncutQueryIsDelimiterFree(PathText(Components(p)), p.query);
  }

  lemma ReadFrom(path: string, p: DbPath)
    requires Parse(path) == Ok(p)
    ensures AreComponents(Components(p)) && SplitQuery(StripProtocol(path)).1 == p.query
  {
    ParsedPathsKeepParts(path);
    PartsAreComponents(PathPart(StripProtocol(path)));
  }

  lemma PrintedWithQuery(p: DbPath)
    requires p.query != []
    ensures ToPath(p) == PathText(Components(p)) + "?" + Join(PairTexts(p.query), "&")
  {
  }

  /**
    The round trip, exactly. A printed path parses back to itself if and only if it has the structure
    the parser produces, its last name does not end in white space, and no key or value holds `&`,
    `://`, `+` or a well-formed escape, nor a key `=`.
  */
  lemma PathRoundTrip(p: DbPath)
    ensures Parse(ToPath(p)) == Ok(p) <==> WellFormed(p)
  {
    if Parse(ToPath(p)) == Ok(p) && p.query != [] {
      ParsesBackIsWellFormed(p);
    }
    if DelimiterFree(p.query) && SchemeFree(p.query) {
      DelimitedRoundTrip(p);
    }
  }
}

/**
  The query part of a path: `&`-separated `key=value` pairs with form-urlencoded text. The decoder is
  proved against the serializer of section 5.2 of the WHATWG URL Standard.
*/
module QueryText {
  import opened Wrappers
  import opened Text
  import opened Utf8

  type Pair = (string, string)

  /** `char::to_digit(16)`: 0-9, a-f, A-F. */
  function HexDigit(b: byte): (r: Option<nat>)
    ensures r.Some? ==> r.value < 16 && b < 0x80
  {
    if 0x30 <= b <= 0x39 then Some(b as int - 0x30)
    else if 0x61 <= b <= 0x66 then Some(b as int - 0x61 + 10)
    else if 0x41 <= b <= 0x46 then Some(b as int - 0x41 + 10)
    else None
  }

  const PLUS: byte := 0x2B
  const PERCENT: byte := 0x25
  const SPACE: byte := 0x20

  predicate StartsEscape(b: bytes) {
    |b| > 2 && b[0] == PERCENT && HexDigit(b[1]).Some? && HexDigit(b[2]).Some?
  }

  function EscapedByte(b: bytes): byte
    requires StartsEscape(b)
  {
    (HexDigit(b[1]).value * 16 + HexDigit(b[2]).value) as byte
  }

  /** Replace `+` and well-formed escapes; keep everything else, malformed escapes included. */
  function Unescape(b: bytes): (r: bytes)
    ensures |r| <= |b|
  {
    if b == [] then []
    else if b[0] == PLUS then [SPACE] + Unescape(b[1..])
    else if StartsEscape(b) then [EscapedByte(b)] + Unescape(b[3..])
    else [b[0]] + Unescape(b[1..])
  }

  function Decode(input: string): string {
    DecodeLossy(Unescape(Encode(input)))
  }

  /** The escape at position `i`, in the terms of the index loop. */
  lemma EscapeAt(b: bytes, i: nat)
    requires i < |b|
    ensures StartsEscape(b[i..])
            <==> b[i] == PERCENT && i + 2 < |b| && HexDigit(b[i + 1]).Some? && HexDigit(b[i + 2]).Some?
    ensures StartsEscape(b[i..]) ==>
              Unescape(b[i..])
              == [(HexDigit(b[i + 1]).value * 16 + HexDigit(b[i + 2]).value) as byte] + Unescape(b[i + 3..])
    ensures !StartsEscape(b[i..]) ==> Unescape(b[i..]) == [if b[i] == PLUS then SPACE else b[i]] + Unescape(b[i + 1..])
  {
    var s := b[i..];
    assert s[0] == b[i] && s[1..] == b[i + 1..];
    if i + 2 < |b| {
      assert s[1] == b[i + 1] && s[2] == b[i + 2] && s[3..] == b[i + 3..];
    }
  }

  lemma PushBeforeRest(done: bytes, v: byte, rest: bytes)
    ensures done + ([v] + rest) == (done + [v]) + rest
  {
  }

  method PercentDecode(input: string) returns (r: string)
    ensures r == Decode(input)
  {
    var b := Encode(input);
    var out: bytes := [];
    var i := 0;
    ghost var whole := Unescape(b);
    assert b[0..] == b;
    while i < |b|
      invariant i <= |b|
      invariant out + Unescape(b[i..]) == whole
    {
      EscapeAt(b, i);
      if b[i] == PLUS {
        PushBeforeRest(out, SPACE, Unescape(b[i + 1..]));
        out := out + [SPACE];
        i := i + 1;
      } else if b[i] == PERCENT && i + 2 < |b| {
        var hi, lo := HexDigit(b[i + 1]), HexDigit(b[i + 2]);
        if hi.Some? && lo.Some? {
          var v := (hi.value * 16 + lo.value) as byte;
          PushBeforeRest(out, v, Unescape(b[i + 3..]));
          out := out + [v];
          i := i + 3;
        } else {
          PushBeforeRest(out, PERCENT, Unescape(b[i + 1..]));
          out := out + [PERCENT];
          i := i + 1;
        }
      } else {
        PushBeforeRest(out, b[i], Unescape(b[i + 1..]));
        out := out + [b[i]];
        i := i + 1;
      }
    }
    assert b[|b|..] == [] && out + [] == out;
    r := DecodeLossy(out);
  }

  // ------------------------------------------------------------------------------------------
  // The form-urlencoded serializer.

  predicate Unreserved(b: byte) {
    var c := b as char;
    '0' <= c <= '9' || 'A' <= c <= 'Z' || 'a' <= c <= 'z' || c == '*' || c == '-' || c == '.' || c == '_'
  }

  function UpperHex(n: nat): char
    requires n < 16
  {
    if n < 10 then '0' + n as char else 'A' + (n - 10) as char
  }

  function FormByte(b: byte): (s: string)
    ensures 1 <= |s| <= 3
    ensures '&' !in s && '=' !in s && '?' !in s && ':' !in s && '/' !in s
  {
    if b == SPACE then "+"
    else if Unreserved(b) then [b as char]
    else ['%', UpperHex(b as nat / 16), UpperHex(b as nat % 16)]
  }

  function FormBytes(b: bytes): (s: string)
    ensures '&' !in s && '=' !in s && '?' !in s && ':' !in s && '/' !in s
  {
    if b == [] then [] else FormByte(b[0]) + FormBytes(b[1..])
  }

  function FormEncode(s: string): string {
    FormBytes(Encode(s))
  }

  lemma HexRoundTrip(n: nat)
    requires n < 16
    ensures UpperHex(n) as int < 0x80
    ensures HexDigit(UpperHex(n) as byte) == Some(n)
  {
  }

  lemma EncodeAsciiFirst(c: char, rest: string)
    requires c as int < 0x80
    ensures Encode([c] + rest) == [c as byte] + Encode(rest)
  {
    assert ([c] + rest)[1..] == rest;
  }

  lemma UnescapeHexPair(hi: char, h: nat, lo: char, l: nat, rest: string)
    requires h < 16 && l < 16 && hi as int < 0x80 && lo as int < 0x80
    requires HexDigit(hi as byte) == Some(h) && HexDigit(lo as byte) == Some(l)
    ensures Unescape(Encode(['%', hi, lo] + rest)) == [(h * 16 + l) as byte] + Unescape(Encode(rest))
  {
    EncodeAsciiFirst(lo, rest);
    EncodeAsciiFirst(hi, [lo] + rest);
    EncodeAsciiFirst('%', [hi] + ([lo] + rest));
    assert ['%', hi, lo] + rest == ['%'] + ([hi] + ([lo] + rest));
    var e := [PERCENT] + ([hi as byte] + ([lo as byte] + Encode(rest)));
    assert e[0] == PERCENT && e[1] == hi as byte && e[2] == lo as byte;
    assert e[3..] == Encode(rest);
  }

  lemma UnescapeFormByte(b: byte, rest: string)
    ensures Unescape(Encode(FormByte(b) + rest)) == [b] + Unescape(Encode(rest))
  {
    if b == SPACE || Unreserved(b) {
      EncodeAsciiFirst(FormByte(b)[0], rest);
      assert FormByte(b) == [FormByte(b)[0]];
      assert ([FormByte(b)[0] as byte] + Encode(rest))[1..] == Encode(rest);
    } else {
      var h, l := b as nat / 16, b as nat % 16;
      HexRoundTrip(h);
      HexRoundTrip(l);
      UnescapeHexPair(UpperHex(h), h, UpperHex(l), l, rest);
    }
  }

  lemma {:induction false} UnescapeInvertsForm(b: bytes)
    ensures Unescape(Encode(FormBytes(b))) == b
  {
    if b != [] {
      UnescapeFormByte(b[0], FormBytes(b[1..]));
      UnescapeInvertsForm(b[1..]);
    }
  }

  lemma DecodeInvertsForm(s: string)
    ensures Decode(FormEncode(s)) == s
  {
    UnescapeInvertsForm(Encode(s));
    DecodeInvertsEncode(s);
  }

  // ------------------------------------------------------------------------------------------
  // Pairs.

  /** One part of a query; the text decoder is a parameter, and the program's is `Decode`. */
  function ParsePart(decode: string -> string, part: string): Pair {
    match SplitOnce(part, '=')
    case Some((key, value)) => (decode(key), decode(value))
    case None => (decode(part), [])
  }

  function ParseParts(decode: string -> string, parts: seq<string>): seq<Pair> {
    if parts == [] then []
    else if parts[0] == [] then ParseParts(decode, parts[1..])
    else [ParsePart(decode, parts[0])] + ParseParts(decode, parts[1..])
  }

  /** The path before the first `?`, and the pairs after it. */
  function SplitQuery(path: string): (string, seq<Pair>) {
    match SplitOnce(path, '?')
    case None => (path, [])
    case Some((pathPart, queryPart)) => (pathPart, ParseParts(Decode, Split(queryPart, '&')))
  }

  function PairText(pair: Pair): string {
    pair.0 + "=" + pair.1
  }

  function PairTexts(pairs: seq<Pair>): (texts: seq<string>)
    ensures |texts| == |pairs|
  {
    if pairs == [] then [] else [PairText(pairs[0])] + PairTexts(pairs[1..])
  }

  lemma {:induction false} PairTextsAt(pairs: seq<Pair>)
    ensures forall i :: 0 <= i < |pairs| ==> PairTexts(pairs)[i] == PairText(pairs[i])
  {
    if pairs != [] {
      PairTextsAt(pairs[1..]);
    }
  }

  function FormPairs(pairs: seq<Pair>): (forms: seq<Pair>)
    ensures |forms| == |pairs|
  {
    if pairs == [] then [] else [(FormEncode(pairs[0].0), FormEncode(pairs[0].1))] + FormPairs(pairs[1..])
  }

  lemma {:induction false} FormPairsAt(pairs: seq<Pair>)
    ensures forall i :: 0 <= i < |pairs| ==> FormPairs(pairs)[i] == (FormEncode(pairs[i].0), FormEncode(pairs[i].1))
  {
    if pairs != [] {
      FormPairsAt(pairs[1..]);
    }
  }

  /** Section 5.2 of the WHATWG URL Standard. */
  function FormSerialize(pairs: seq<Pair>): string {
    Join(PairTexts(FormPairs(pairs)), "&")
  }

  function DecodePairs(pairs: seq<Pair>): (decoded: seq<Pair>)
    ensures |decoded| == |pairs|
  {
    if pairs == [] then [] else [(Decode(pairs[0].0), Decode(pairs[0].1))] + DecodePairs(pairs[1..])
  }

  lemma {:induction false} DecodePairsAt(pairs: seq<Pair>)
    ensures forall i :: 0 <= i < |pairs| ==> DecodePairs(pairs)[i] == (Decode(pairs[i].0), Decode(pairs[i].1))
  {
    if pairs != [] {
      DecodePairsAt(pairs[1..]);
    }
  }

  /** No key or value contains a delimiter, so the text of the pairs splits back into them. */
  ghost predicate DelimiterFree(pairs: seq<Pair>) {
    forall pair <- pairs :: '&' !in pair.0 && '=' !in pair.0 && '&' !in pair.1
  }

  lemma {:induction false} ParsePairTexts(pairs: seq<Pair>)
    requires DelimiterFree(pairs)
    ensures ParseParts(Decode, PairTexts(pairs)) == DecodePairs(pairs)
  {
    if pairs != [] {
      var (key, value) := pairs[0];
      FirstSplit(key, '=', value);
      ParsePairTexts(pairs[1..]);
      assert PairTexts(pairs)[1..] == PairTexts(pairs[1..]);
    }
  }

  lemma SplitQueryOfText(path: string, pairs: seq<Pair>)
    requires '?' !in path && DelimiterFree(pairs)
    ensures SplitQuery(path + "?" + Join(PairTexts(pairs), "&")) == (path, DecodePairs(pairs))
  {
    FirstSplit(path, '?', Join(PairTexts(pairs), "&"));
    if pairs == [] {
      assert Split([], '&') == [[]] && ParseParts(Decode, [[]]) == ParseParts(Decode, []);
    } else {
      PairTextsAt(pairs);
      forall text | text in PairTexts(pairs) ensures '&' !in text {
        var i :| 0 <= i < |pairs| && text == PairText(pairs[i]);
        assert pairs[i] in pairs;
      }
      SplitInvertsJoin(PairTexts(pairs), '&');
      ParsePairTexts(pairs);
    }
  }

  /** Round trip: any list of pairs, with any text in them, survives serialization and parsing. */
  lemma QueryRoundTrip(path: string, pairs: seq<Pair>)
    requires '?' !in path
    ensures SplitQuery(path + "?" + FormSerialize(pairs)) == (path, pairs)
  {
    var forms := FormPairs(pairs);
    FormPairsAt(pairs);
    forall form | form in forms ensures '&' !in form.0 && '=' !in form.0 && '&' !in form.1 {
      var i :| 0 <= i < |forms| && form == forms[i];
    }
    SplitQueryOfText(path, forms);
    DecodePairsAt(forms);
    forall i | 0 <= i < |pairs| ensures DecodePairs(forms)[i] == pairs[i] {
      DecodeInvertsForm(pairs[i].0);
      DecodeInvertsForm(pairs[i].1);
    }
    assert DecodePairs(forms) == pairs;
  }

  // ------------------------------------------------------------------------------------------
  // Which text the decoder leaves alone.

  predicate IsHex(c: char) {
    '0' <= c <= '9' || 'a' <= c <= 'f' || 'A' <= c <= 'F'
  }

  predicate StartsEscapeText(s: string) {
    |s| > 2 && s[0] == '%' && IsHex(s[1]) && IsHex(s[2])
  }

  /** No `+` and no well-formed escape. */
  predicate Plain(s: string) {
    s == [] || (s[0] != '+' && !StartsEscapeText(s) && Plain(s[1..]))
  }

  lemma EscapeIsText(s: string)
    requires s != []
    ensures StartsEscape(Encode(s)) <==> StartsEscapeText(s)
    ensures StartsEscapeText(s) ==> Encode(s)[3..] == Encode(s[3..])
  {
    FirstEncoded(s);
    if s[0] == '%' && |s| > 1 {
      FirstEncoded(s[1..]);
      if s[1] as int < 0x80 && |s| > 2 {
        assert s[1..][1..] == s[2..] && s[2..][1..] == s[3..];
        FirstEncoded(s[2..]);
      }
    }
  }

  lemma FirstEncoded(s: string)
    requires s != []
    ensures Encode(s) != [] && Encode(s)[0] == EncodeChar(s[0])[0]
    ensures s[0] as int < 0x80 ==> Encode(s)[0] == s[0] as byte && Encode(s)[1..] == Encode(s[1..])
  {
  }

  lemma {:induction false} UnescapePassesHighBytes(b: bytes, rest: bytes)
    requires forall i :: 0 <= i < |b| ==> b[i] >= 0x80
    ensures Unescape(b + rest) == b + Unescape(rest)
  {
    if b == [] {
      assert b + rest == rest;
    } else {
      assert (b + rest)[1..] == b[1..] + rest;
      UnescapePassesHighBytes(b[1..], rest);
    }
  }

  /** The decoder, character by character. */
  lemma DecodeStep(s: string)
    requires s != []
    ensures s[0] == '+' ==> Decode(s) == " " + Decode(s[1..])
    ensures StartsEscapeText(s) ==> |Decode(s)| <= 1 + |Decode(s[3..])|
    ensures s[0] != '+' && !StartsEscapeText(s) ==> Decode(s) == [s[0]] + Decode(s[1..])
  {
    var e := Encode(s);
    EscapeIsText(s);
    assert s[0] as int < 0x80 ==> e[1..] == Encode(s[1..]);
    if s[0] == '+' {
      DecodeCharFirst(' ', Unescape(Encode(s[1..])));
    } else if StartsEscapeText(s) {
      OneByteAddsOneChar(EscapedByte(e), Unescape(Encode(s[3..])));
    } else {
      if s[0] as int >= 0x80 {
        UnescapePassesHighBytes(EncodeChar(s[0]), Encode(s[1..]));
      }
      DecodeCharFirst(s[0], Unescape(Encode(s[1..])));
    }
  }

  lemma {:induction false} DecodeNeverLengthens(s: string)
    ensures |Decode(s)| <= |s|
    decreases |s|
  {
    if s != [] {
      DecodeStep(s);
      DecodeNeverLengthens(s[1..]);
      if StartsEscapeText(s) {
        DecodeNeverLengthens(s[3..]);
      }
    }
  }

  /** Text decodes to itself exactly when it holds no `+` and no well-formed escape. */
  lemma {:induction false} DecodeFixesPlain(s: string)
    ensures Decode(s) == s <==> Plain(s)
  {
    if s != [] {
      DecodeStep(s);
      DecodeFixesPlain(s[1..]);
      if StartsEscapeText(s) {
        DecodeNeverLengthens(s[3..]);
      } else if s[0] != '+' {
        assert s == [s[0]] + s[1..];
      }
    }
  }
}

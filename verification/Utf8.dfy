/** UTF-8 as the program meets it: the bytes of a string, and the lossy decoding of any bytes into a string. */
module Utf8 {
  import opened Wrappers

  const REPLACEMENT: char := '\U{FFFD}'

  /** A continuation byte carries six bits. */
  function Continuation(n: nat): byte {
    (0x80 + n % 0x40) as byte
  }

  function EncodeChar(c: char): (b: bytes)
    ensures 1 <= |b| <= 4
    ensures c as int < 0x80 <==> b[0] < 0x80
    ensures c as int < 0x80 ==> b == [c as byte]
    ensures c as int >= 0x80 ==> forall i :: 0 <= i < |b| ==> b[i] >= 0x80
  {
    var n := c as int;
    if n < 0x80 then [n as byte]
    else if n < 0x800 then [(0xC0 + n / 0x40) as byte, Continuation(n)]
    else if n < 0x1_0000 then [(0xE0 + n / 0x1000) as byte, Continuation(n / 0x40), Continuation(n)]
    else [(0xF0 + n / 0x4_0000) as byte, Continuation(n / 0x1000), Continuation(n / 0x40), Continuation(n)]
  }

  function Encode(s: string): (b: bytes)
    ensures |b| >= |s|
  {
    if s == [] then [] else EncodeChar(s[0]) + Encode(s[1..])
  }

  predicate IsContinuation(b: bytes, i: nat) {
    i < |b| && 0x80 <= b[i] < 0xC0
  }

  /** The byte after a lead byte: some values are overlong, surrogates or past U+10FFFF. */
  predicate FollowsLead(b: bytes)
    requires b != []
  {
    && IsContinuation(b, 1)
    && (b[0] == 0xE0 ==> b[1] >= 0xA0)
    && (b[0] == 0xED ==> b[1] < 0xA0)
    && (b[0] == 0xF0 ==> b[1] >= 0x90)
    && (b[0] == 0xF4 ==> b[1] < 0x90)
  }

  function Scalar2(a: int, b: int): int { (a - 0xC0) * 0x40 + (b - 0x80) }

  function Scalar3(a: int, b: int, c: int): int { ((a - 0xE0) * 0x40 + (b - 0x80)) * 0x40 + (c - 0x80) }

  function Scalar4(a: int, b: int, c: int, d: int): int {
    (((a - 0xF0) * 0x40 + (b - 0x80)) * 0x40 + (c - 0x80)) * 0x40 + (d - 0x80)
  }

  /** The first character and the number of bytes it takes; an ill-formed prefix is one replacement character. */
  function DecodeOne(b: bytes): (r: (char, nat))
    requires b != []
    ensures 1 <= r.1 <= |b|
    ensures forall i :: 1 <= i < r.1 ==> IsContinuation(b, i)
    ensures b[0] < 0x80 ==> r == (b[0] as char, 1)
  {
    if b[0] < 0x80 then (b[0] as char, 1)
    else if b[0] < 0xC2 || b[0] > 0xF4 || !FollowsLead(b) then (REPLACEMENT, 1)
    else if b[0] < 0xE0 then (Scalar2(b[0] as int, b[1] as int) as char, 2)
    else if !IsContinuation(b, 2) then (REPLACEMENT, 2)
    else if b[0] < 0xF0 then (Scalar3(b[0] as int, b[1] as int, b[2] as int) as char, 3)
    else if !IsContinuation(b, 3) then (REPLACEMENT, 3)
    else (Scalar4(b[0] as int, b[1] as int, b[2] as int, b[3] as int) as char, 4)
  }

  /** `String::from_utf8_lossy`. */
  function DecodeLossy(b: bytes): (s: string)
    ensures |s| <= |b|
  {
    if b == [] then []
    else
      var (c, used) := DecodeOne(b);
      [c] + DecodeLossy(b[used..])
  }

  lemma DecodeThreeBytes(n: int, b: bytes)
    requires 0x800 <= n < 0x1_0000 && !(0xD800 <= n < 0xE000) && |b| >= 3
    requires b[0] as int == 0xE0 + n / 0x1000 && b[1] == Continuation(n / 0x40) && b[2] == Continuation(n)
    ensures DecodeOne(b) == (n as char, 3)
  {
    var m := n / 0x40;
    assert n / 0x1000 == m / 0x40;
    assert Scalar3(b[0] as int, b[1] as int, b[2] as int) == n;
    assert b[0] == 0xE0 ==> m % 0x40 >= 0x20;
    assert b[0] == 0xED ==> m % 0x40 < 0x20;
    assert IsContinuation(b, 1) && IsContinuation(b, 2);
  }

  lemma DecodeFourBytes(n: int, b: bytes)
    requires 0x1_0000 <= n < 0x11_0000 && |b| >= 4
    requires b[0] as int == 0xF0 + n / 0x4_0000 && b[1] == Continuation(n / 0x1000)
    requires b[2] == Continuation(n / 0x40) && b[3] == Continuation(n)
    ensures DecodeOne(b) == (n as char, 4)
  {
    var m := n / 0x40;
    var k := m / 0x40;
    assert n / 0x1000 == k && n / 0x4_0000 == k / 0x40;
    assert Scalar4(b[0] as int, b[1] as int, b[2] as int, b[3] as int) == n;
    assert IsContinuation(b, 1) && IsContinuation(b, 2) && IsContinuation(b, 3);
  }

  lemma DecodeEncodedChar(c: char, rest: bytes)
    ensures DecodeOne(EncodeChar(c) + rest) == (c, |EncodeChar(c)|)
  {
    var n := c as int;
    var b := EncodeChar(c) + rest;
    if n >= 0x1_0000 {
      DecodeFourBytes(n, b);
    } else if n >= 0x800 {
      DecodeThreeBytes(n, b);
    } else if n >= 0x80 {
      assert IsContinuation(b, 1);
    }
  }

  lemma DecodeCharFirst(c: char, rest: bytes)
    ensures DecodeLossy(EncodeChar(c) + rest) == [c] + DecodeLossy(rest)
  {
    DecodeEncodedChar(c, rest);
    assert (EncodeChar(c) + rest)[|EncodeChar(c)|..] == rest;
  }

  /** The bytes of a character, by the ranges of its scalar value: six bits in each byte after the first. */
  lemma EncodedCharIs(c: char)
    ensures var n, b := c as int, EncodeChar(c);
            && |b| == (if n < 0x80 then 1 else if n < 0x800 then 2 else if n < 0x1_0000 then 3 else 4)
            && (|b| == 1 ==> b[0] as int == n)
            && (|b| == 2 ==> n == (b[0] as int - 0xC0) * 64 + (b[1] as int - 0x80))
            && (|b| == 3 ==> n == ((b[0] as int - 0xE0) * 64 + (b[1] as int - 0x80)) * 64 + (b[2] as int - 0x80))
            && (forall i :: 1 <= i < |b| ==> 0x80 <= b[i] < 0xC0)
  {
    var n := c as int;
    assert n / 0x1000 == n / 0x40 / 0x40;
  }

  /** Lossy decoding loses nothing of an encoded string. */
  lemma {:induction false} DecodeInvertsEncode(s: string)
    ensures DecodeLossy(Encode(s)) == s
  {
    if s != [] {
      DecodeCharFirst(s[0], Encode(s[1..]));
      DecodeInvertsEncode(s[1..]);
    }
  }

  lemma {:induction false} StrayContinuations(b: bytes, k: nat)
    requires k <= |b| && forall i :: 0 <= i < k ==> 0x80 <= b[i] < 0xC0
    ensures |DecodeLossy(b)| == k + |DecodeLossy(b[k..])|
  {
    if k > 0 {
      assert DecodeOne(b) == (REPLACEMENT, 1);
      StrayContinuations(b[1..], k - 1);
      assert b[1..][k - 1..] == b[k..];
    } else {
      assert b[0..] == b;
    }
  }

  /** One more byte in front adds at most one character. */
  lemma OneByteAddsOneChar(v: byte, rest: bytes)
    ensures |DecodeLossy([v] + rest)| <= 1 + |DecodeLossy(rest)|
  {
    var b := [v] + rest;
    var used := DecodeOne(b).1;
    forall i | 0 <= i < used - 1 ensures 0x80 <= rest[i] < 0xC0 {
      assert IsContinuation(b, i + 1);
    }
    StrayContinuations(rest, used - 1);
    assert b[used..] == rest[used - 1..];
  }
}

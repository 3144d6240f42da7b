/** Integers as decimal text, and back. */
module Decimal {
  import opened Wrappers

  predicate IsDigit(c: char) {
    '0' <= c <= '9'
  }

  function DigitValue(c: char): nat
    requires IsDigit(c)
  {
    c as int - '0' as int
  }

  function DigitChar(n: nat): (c: char)
    requires n < 10
    ensures IsDigit(c) && DigitValue(c) == n
  {
    '0' + n as char
  }

  function NatText(n: nat): (s: string)
    ensures s != [] && forall c <- s :: IsDigit(c)
  {
    if n < 10 then [DigitChar(n)] else NatText(n / 10) + [DigitChar(n % 10)]
  }

  function IntText(n: int): (s: string)
    ensures s != []
  {
    if n < 0 then "-" + NatText(-n) else NatText(n)
  }

  function ReadNat(s: string): Option<nat> {
    if s == [] || !IsDigit(s[|s| - 1]) then None
    else if |s| == 1 then Some(DigitValue(s[0]))
    else
      match ReadNat(s[..|s| - 1])
      case None => None
      case Some(n) => Some(10 * n + DigitValue(s[|s| - 1]))
  }

  function ReadInt(s: string): Option<int> {
    if s != [] && s[0] == '-' then
      match ReadNat(s[1..]) case None => None case Some(n) => Some(-(n as int))
    else
      match ReadNat(s) case None => None case Some(n) => Some(n)
  }

  lemma {:induction false} NatReadsBack(n: nat)
    ensures ReadNat(NatText(n)) == Some(n)
  {
    if n >= 10 {
      NatReadsBack(n / 10);
      var s := NatText(n);
      assert s[..|s| - 1] == NatText(n / 10);
    }
  }

  lemma IntReadsBack(n: int)
    ensures ReadInt(IntText(n)) == Some(n)
  {
    NatReadsBack(if n < 0 then -n else n);
    if n >= 0 {
      assert IsDigit(NatText(n)[0]);
    } else {
      assert ("-" + NatText(-n))[1..] == NatText(-n);
    }
  }

  function Power10(k: nat): (p: nat)
    ensures p > 0
  {
    if k == 0 then 1 else 10 * Power10(k - 1)
  }

  /** The number without its last `k` digits. */
  function WithoutLast(n: nat, k: nat): nat {
    if k == 0 then n else WithoutLast(n / 10, k - 1)
  }

  lemma DigitCharIs(n: nat)
    requires n < 10
    ensures DigitChar(n) == "0123456789"[n]
  {
  }

  /** The digits of a number, place by place, and no more of them than it has. */
  lemma {:induction false} NatTextAt(n: nat, k: nat)
    requires k < |NatText(n)|
    ensures var s := NatText(n); s[|s| - 1 - k] == "0123456789"[WithoutLast(n, k) % 10]
  {
    if k > 0 {
      NatTextAt(n / 10, k - 1);
    } else {
      DigitCharIs(n % 10);
    }
  }

  lemma {:induction false} NatTextLength(n: nat)
    ensures n < Power10(|NatText(n)|) && (n == 0 || Power10(|NatText(n)| - 1) <= n)
  {
    if n >= 10 {
      NatTextLength(n / 10);
    }
  }

  /** The digits a text starts with, and the rest. */
  function TakeDigits(s: string): (string, string) {
    if s == [] || !IsDigit(s[0]) then ([], s)
    else
      var (digits, rest) := TakeDigits(s[1..]);
      ([s[0]] + digits, rest)
  }

  lemma {:induction false} DigitsEnd(digits: string, rest: string)
    requires (forall c <- digits :: IsDigit(c)) && (rest == [] || !IsDigit(rest[0]))
    ensures TakeDigits(digits + rest) == (digits, rest)
  {
    if digits == [] {
      assert digits + rest == rest;
    } else {
      assert (digits + rest)[1..] == digits[1..] + rest;
      assert forall c <- digits[1..] :: c in digits;
      DigitsEnd(digits[1..], rest);
      assert digits[0] in digits && [digits[0]] + digits[1..] == digits;
    }
  }
}

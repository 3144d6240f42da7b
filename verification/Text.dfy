/** Splitting and joining strings at a separator character. */
module Text {
  import opened Wrappers

  /** At the first `c`. */
  function SplitOnce(s: string, c: char): (r: Option<(string, string)>)
    ensures r.None? <==> c !in s
    ensures r.Some? ==> s == r.value.0 + [c] + r.value.1 && c !in r.value.0
  {
    if s == [] then None
    else
      assert s == [s[0]] + s[1..];
      if s[0] == c then Some(([], s[1..]))
      else
        match SplitOnce(s[1..], c)
        case None => None
        case Some((a, b)) => Some(([s[0]] + a, b))
  }

  /** At the last `c`. */
  function RSplitOnce(s: string, c: char): (r: Option<(string, string)>)
    ensures r.None? <==> c !in s
    ensures r.Some? ==> s == r.value.0 + [c] + r.value.1 && c !in r.value.1
  {
    if s == [] then None
    else
      var n := |s| - 1;
      assert s == s[..n] + [s[n]];
      if s[n] == c then Some((s[..n], []))
      else
        match RSplitOnce(s[..n], c)
        case None => None
        case Some((a, b)) => Some((a, b + [s[n]]))
  }

  function Split(s: string, c: char): (parts: seq<string>)
    ensures parts != []
    ensures forall part <- parts :: c !in part
    decreases |s|
  {
    match SplitOnce(s, c)
    case None => [s]
    case Some((a, b)) => [a] + Split(b, c)
  }

  function Join<T>(parts: seq<seq<T>>, separator: seq<T>): seq<T> {
    if parts == [] then []
    else if |parts| == 1 then parts[0]
    else parts[0] + separator + Join(parts[1..], separator)
  }

  lemma Assoc<T>(a: seq<T>, b: seq<T>, c: seq<T>)
    ensures (a + b) + c == a + (b + c)
  {
  }

  lemma EmptyFirst<T>(s: seq<T>)
    ensures [] + s == s
  {
  }

  lemma EmptyLast<T>(s: seq<T>)
    ensures s + [] == s
  {
  }

  lemma {:induction false} JoinSnoc<T>(parts: seq<seq<T>>, last: seq<T>, separator: seq<T>)
    requires parts != []
    ensures Join(parts + [last], separator) == (Join(parts, separator) + separator) + last
  {
    if |parts| == 1 {
      assert (parts + [last])[1..] == [last];
    } else {
      assert (parts + [last])[1..] == parts[1..] + [last];
      JoinSnoc(parts[1..], last, separator);
      var later := Join(parts[1..], separator);
      Assoc(parts[0] + separator, later + separator, last);
      Assoc(parts[0] + separator, later, separator);
    }
  }

  lemma FirstSplit(a: string, c: char, b: string)
    requires c !in a
    ensures SplitOnce(a + [c] + b, c) == Some((a, b))
  {
    var s := a + [c] + b;
    assert s[|a|] == c;
    var (x, y) := SplitOnce(s, c).value;
    SamePrefix(a, b, x, y, c);
  }

  lemma LastSplit(a: string, c: char, b: string)
    requires c !in b
    ensures RSplitOnce(a + [c] + b, c) == Some((a, b))
  {
    var s := a + [c] + b;
    assert s[|a|] == c;
    var (x, y) := RSplitOnce(s, c).value;
    assert s[|x|] == c;
    assert s[|a| + 1..] == b && s[|x| + 1..] == y;
    assert x == s[..|x|] && y == s[|x| + 1..];
    assert a == s[..|a|] && b == s[|a| + 1..];
  }

  lemma SamePrefix(a: string, b: string, x: string, y: string, c: char)
    requires c !in a && c !in x && a + [c] + b == x + [c] + y
    ensures a == x && b == y
  {
    var s := a + [c] + b;
    assert s[|x|] == c && s[|a|] == c;
    assert a == s[..|a|] && b == s[|a| + 1..];
    assert x == s[..|x|] && y == s[|x| + 1..];
  }

  lemma {:induction false} SplitInvertsJoin(parts: seq<string>, c: char)
    requires parts != [] && forall part <- parts :: c !in part
    ensures Split(Join(parts, [c]), c) == parts
  {
    if |parts| > 1 {
      FirstSplit(parts[0], c, Join(parts[1..], [c]));
      SplitInvertsJoin(parts[1..], c);
    }
  }

  lemma {:induction false} SplitConcat(a: string, c: char, b: string)
    ensures Split(a + [c] + b, c) == Split(a, c) + Split(b, c)
    decreases |a|
  {
    match SplitOnce(a, c)
    case None => FirstSplit(a, c, b);
    case Some((x, y)) =>
      assert a + [c] + b == x + [c] + (y + [c] + b);
      FirstSplit(x, c, y + [c] + b);
      SplitConcat(y, c, b);
  }

  /** `to_ascii_lowercase`. */
  function Lower(s: string): string {
    if s == [] then [] else [LowerChar(s[0])] + Lower(s[1..])
  }

  function LowerChar(c: char): char {
    if 'A' <= c <= 'Z' then c + 32 as char else c
  }

  lemma {:induction false} LowerIsPointwise(s: string)
    ensures |Lower(s)| == |s| && forall k :: 0 <= k < |s| ==> Lower(s)[k] == LowerChar(s[k])
  {
    if s != [] {
      LowerIsPointwise(s[1..]);
    }
  }

  /** Letters become their small counterparts, and nothing else changes. */
  lemma LowerCharIs(c: char, i: nat)
    ensures c !in "ABCDEFGHIJKLMNOPQRSTUVWXYZ" ==> LowerChar(c) == c
    ensures i < 26 ==> LowerChar("ABCDEFGHIJKLMNOPQRSTUVWXYZ"[i]) == "abcdefghijklmnopqrstuvwxyz"[i]
  {
    if 'A' <= c <= 'Z' {
      LetterAt(c as int - 'A' as int);
    }
    if i < 26 {
      LetterAt(i);
    }
  }

  lemma LetterAt(i: nat)
    requires i < 26
    ensures "ABCDEFGHIJKLMNOPQRSTUVWXYZ"[i] as int == 'A' as int + i
    ensures "abcdefghijklmnopqrstuvwxyz"[i] as int == 'a' as int + i
  {
  }

  predicate Contains(s: string, part: string) {
    part <= s || (s != [] && Contains(s[1..], part))
  }
}

/**
 * String helpers shared by the backend (Java) and the setup tool (Python):
 * prefix and substring tests, the two languages' notions of whitespace,
 * trimming, ASCII case mapping and decimal rendering of numbers.
 */
module Text {

  predicate HasPrefix(s: string, prefix: string)
  {
    |prefix| <= |s| && s[..|prefix|] == prefix
  }

  /** `part` occurs in `s` starting at index `a`. */
  predicate SliceAt(s: string, a: nat, part: string)
  {
    a + |part| <= |s| && s[a..a + |part|] == part
  }

  lemma PrefixOfPrefix(s: string, p: string, q: string)
    requires HasPrefix(s, p) && HasPrefix(p, q)
    ensures HasPrefix(s, q)
  {
    assert s[..|q|] == s[..|p|][..|q|];
  }

  /** `s.contains(part)` / `s.includes(part)` */
  predicate Contains(s: string, part: string)
  {
    HasPrefix(s, part) || (|s| > 0 && Contains(s[1..], part))
  }

  lemma {:induction false} ContainsSlice(s: string, part: string, i: nat)
    requires SliceAt(s, i, part)
    ensures Contains(s, part)
    decreases i
  {
    if i > 0 {
      assert s[1..][i - 1..i - 1 + |part|] == s[i..i + |part|];
      ContainsSlice(s[1..], part, i - 1);
    }
  }

  /** Java's `Character.isWhitespace`: the Unicode space, line and paragraph
   *  separators except the three no-break spaces, plus the ASCII controls
   *  U+0009..U+000D and U+001C..U+001F. */
  predicate IsJavaWhitespace(c: char)
  {
    var n := c as int;
    (0x09 <= n <= 0x0D) || (0x1C <= n <= 0x20) || n == 0x1680
    || (0x2000 <= n <= 0x2006) || (0x2008 <= n <= 0x200A)
    || n == 0x2028 || n == 0x2029 || n == 0x205F || n == 0x3000
  }

  /** Java's `String.isBlank` and commons-lang's `StringUtils.isBlank` on a non-null string. */
  predicate IsJavaBlank(s: string)
  {
    forall i | 0 <= i < |s| :: IsJavaWhitespace(s[i])
  }

  /** Python's `str.isspace` for one character. */
  predicate IsPythonSpace(c: char)
  {
    var n := c as int;
    (0x09 <= n <= 0x0D) || (0x1C <= n <= 0x20) || n == 0x85 || n == 0xA0
    || n == 0x1680 || (0x2000 <= n <= 0x200A) || n == 0x2028 || n == 0x2029
    || n == 0x202F || n == 0x205F || n == 0x3000
  }

  /** Characters Java's `String.trim` removes: every code unit up to U+0020. */
  predicate IsJavaTrimmable(c: char)
  {
    c <= ' '
  }

  /** Drops the longest prefix of characters satisfying `drop`. */
  function TrimLeft(s: string, drop: char -> bool): (r: string)
    ensures |r| <= |s| && r == s[|s| - |r|..]
    ensures r == [] || !drop(r[0])
    ensures forall i | 0 <= i < |s| - |r| :: drop(s[i])
  {
    if |s| > 0 && drop(s[0]) then
      var r := TrimLeft(s[1..], drop);
      assert forall i | 1 <= i < |s| - |r| :: s[i] == s[1..][i - 1];
      r
    else s
  }

  /** Drops the longest suffix of characters satisfying `drop`. */
  function TrimRight(s: string, drop: char -> bool): (r: string)
    ensures |r| <= |s| && r == s[..|r|]
    ensures r == [] || !drop(r[|r| - 1])
    ensures forall i | |r| <= i < |s| :: drop(s[i])
  {
    if |s| > 0 && drop(s[|s| - 1]) then
      var r := TrimRight(s[..|s| - 1], drop);
      assert forall i | |r| <= i < |s| - 1 :: s[i] == s[..|s| - 1][i];
      r
    else s
  }

  /** Where the trimmed slice starts in the original string. */
  function TrimOffset(s: string, drop: char -> bool): (a: nat)
    ensures a <= |s|
  {
    |s| - |TrimLeft(s, drop)|
  }

  /** Both ends; the result is a contiguous slice of `s` with no droppable end. */
  function Trim(s: string, drop: char -> bool): (r: string)
    ensures SliceAt(s, TrimOffset(s, drop), r)
    ensures r == [] || (!drop(r[0]) && !drop(r[|r| - 1]))
    ensures (forall i | 0 <= i < |s| :: drop(s[i])) <==> r == []
  {
    var left := TrimLeft(s, drop);
    var r := TrimRight(left, drop);
    TrimRightOfSuffix(s, |s| - |left|, left, r);
    TrimEmptyIffAllDropped(s, |s| - |left|, left, r, drop);
    r
  }

  lemma TrimRightOfSuffix(s: string, a: nat, left: string, r: string)
    requires a <= |s| && left == s[a..] && |r| <= |left| && r == left[..|r|]
    ensures r == s[a..a + |r|]
  {
  }

  lemma TrimEmptyIffAllDropped(s: string, a: nat, left: string, r: string, drop: char -> bool)
    requires a <= |s| && left == s[a..] && |r| <= |left|
    requires forall i | 0 <= i < a :: drop(s[i])
    requires forall i | |r| <= i < |left| :: drop(left[i])
    requires left == [] || !drop(left[0])
    requires r == [] || r[0] == left[0]
    ensures (forall i | 0 <= i < |s| :: drop(s[i])) <==> r == []
  {
    if r != [] {
      assert s[a] == left[0];
    }
  }

  /** Java's `String.trim()`. */
  function JavaTrim(s: string): (r: string)
    ensures r == [] || (r[0] > ' ' && r[|r| - 1] > ' ')
    ensures SliceAt(s, TrimOffset(s, IsJavaTrimmable), r)
    ensures (forall i | 0 <= i < |s| :: s[i] <= ' ') <==> r == []
  {
    Trim(s, IsJavaTrimmable)
  }

  /** Python's `str.strip()` with no argument. */
  function PythonStrip(s: string): (r: string)
    ensures r == [] || (!IsPythonSpace(r[0]) && !IsPythonSpace(r[|r| - 1]))
    ensures SliceAt(s, TrimOffset(s, IsPythonSpace), r)
  {
    Trim(s, IsPythonSpace)
  }

  lemma TrimKeepsCharacters(s: string, drop: char -> bool, c: char)
    requires c in Trim(s, drop)
    ensures c in s
  {
    var r := Trim(s, drop);
    var a := TrimOffset(s, drop);
    var k :| 0 <= k < |r| && r[k] == c;
    assert s[a + k] == r[k];
  }

  /** Every character of `s` not in `bad`, in order: Java's
   *  `replaceAll("[...]", "")` with a character class. */
  function RemoveAll(s: string, bad: set<char>): (r: string)
    ensures |r| <= |s|
    ensures forall i | 0 <= i < |r| :: r[i] !in bad && r[i] in s
  {
    if s == [] then []
    else
      var rest := RemoveAll(s[1..], bad);
      if s[0] in bad then rest else [s[0]] + rest
  }

  /** Every deleted character is gone; every other one is kept as often as
   *  it occurs. */
  lemma {:induction false} RemoveAllCounts(s: string, bad: set<char>)
    ensures forall c :: multiset(RemoveAll(s, bad))[c] == if c in bad then 0 else multiset(s)[c]
  {
    if s != [] {
      RemoveAllCounts(s[1..], bad);
      assert s == [s[0]] + s[1..];
      assert multiset(s) == multiset{s[0]} + multiset(s[1..]);
    }
  }

  /** Deletion works piece by piece and keeps the order of what it keeps:
   *  with the single-character cases, this pins the result down. */
  lemma {:induction false} RemoveAllConcat(a: string, b: string, bad: set<char>)
    ensures RemoveAll(a + b, bad) == RemoveAll(a, bad) + RemoveAll(b, bad)
  {
    if a == [] {
      assert a + b == b;
    } else {
      var ab := a + b;
      assert ab[0] == a[0] && ab[1..] == a[1..] + b;
      RemoveAllConcat(a[1..], b, bad);
      var tail := RemoveAll(a[1..], bad) + RemoveAll(b, bad);
      assert RemoveAll(ab, bad) == (if a[0] in bad then tail else [a[0]] + tail);
      assert RemoveAll(a, bad) == (if a[0] in bad then RemoveAll(a[1..], bad) else [a[0]] + RemoveAll(a[1..], bad));
    }
  }

  lemma RemoveAllSingle(c: char, bad: set<char>)
    ensures RemoveAll([c], bad) == if c in bad then [] else [c]
  {
  }
  /** Any slice of the deletion's result is free of the deleted characters
   *  and drawn from the original. */
  lemma RemoveAllSlice(s: string, bad: set<char>, a: nat, part: string)
    requires SliceAt(RemoveAll(s, bad), a, part)
    ensures forall i | 0 <= i < |part| :: part[i] !in bad && part[i] in s
  {
    var kept := RemoveAll(s, bad);
    forall i | 0 <= i < |part|
      ensures part[i] !in bad && part[i] in s
    {
      assert part[i] == kept[a + i];
    }
  }


  lemma {:induction false} RemoveAllNothingToRemove(s: string, bad: set<char>)
    requires forall i | 0 <= i < |s| :: s[i] !in bad
    ensures RemoveAll(s, bad) == s
  {
    if s != [] {
      RemoveAllNothingToRemove(s[1..], bad);
      assert [s[0]] + s[1..] == s;
    }
  }

  function LowerChar(c: char): (r: char)
    ensures 'A' <= c <= 'Z' ==> 'a' <= r <= 'z' && r as int == c as int + 32
    ensures !('A' <= c <= 'Z') ==> r == c
  {
    if 'A' <= c <= 'Z' then (c as int + 32) as char else c
  }

  function UpperChar(c: char): (r: char)
    ensures 'a' <= c <= 'z' ==> 'A' <= r <= 'Z' && r as int == c as int - 32
    ensures !('a' <= c <= 'z') ==> r == c
  {
    if 'a' <= c <= 'z' then (c as int - 32) as char else c
  }

  /** `toLowerCase()` restricted to ASCII letters. */
  function Lower(s: string): (r: string)
    ensures |r| == |s|
    ensures forall i | 0 <= i < |s| :: r[i] == LowerChar(s[i])
  {
    seq(|s|, i requires 0 <= i < |s| => LowerChar(s[i]))
  }

  lemma LowerIdempotent(s: string)
    ensures Lower(Lower(s)) == Lower(s)
  {
  }

  /** Python's `str.capitalize()` restricted to ASCII letters. */
  function Capitalize(s: string): (r: string)
    ensures |r| == |s|
    ensures |s| > 0 ==> r[0] == UpperChar(s[0]) && r[1..] == Lower(s[1..])
  {
    if s == [] then [] else [UpperChar(s[0])] + Lower(s[1..])
  }

  function DigitChar(d: nat): (c: char)
    requires d < 10
    ensures '0' <= c <= '9' && c as int - '0' as int == d
  {
    ('0' as int + d) as char
  }

  /** Decimal rendering of a non-negative number (`String.valueOf` / template interpolation). */
  function NatToString(n: nat): (r: string)
    ensures |r| >= 1
    ensures forall i | 0 <= i < |r| :: '0' <= r[i] <= '9'
  {
    if n < 10 then [DigitChar(n)] else NatToString(n / 10) + [DigitChar(n % 10)]
  }

  /** Reads back a string of decimal digits. */
  function DigitsValue(s: string): (n: nat)
    requires forall i | 0 <= i < |s| :: '0' <= s[i] <= '9'
  {
    if s == [] then 0 else 10 * DigitsValue(s[..|s| - 1]) + (s[|s| - 1] as int - '0' as int)
  }

  lemma {:induction false} NatToStringRoundTrip(n: nat)
    ensures DigitsValue(NatToString(n)) == n
  {
    if n >= 10 {
      var r := NatToString(n);
      assert r[..|r| - 1] == NatToString(n / 10);
      NatToStringRoundTrip(n / 10);
    }
  }

  lemma NatToStringInjective(m: nat, n: nat)
    requires NatToString(m) == NatToString(n)
    ensures m == n
  {
    NatToStringRoundTrip(m);
    NatToStringRoundTrip(n);
  }

  /** Joins `parts` with `sep` between consecutive elements. */
  function Join(parts: seq<string>, sep: string): (r: string)
    ensures parts == [] ==> r == []
    ensures |parts| == 1 ==> r == parts[0]
  {
    if parts == [] then []
    else if |parts| == 1 then parts[0]
    else parts[0] + sep + Join(parts[1..], sep)
  }
}

/**
  The parts of Python's `str` that the interface relies on: `strip`,
  `lstrip`/`rstrip` with a character set, `split` on one character,
  `join`, `replace` (one character by another, and removal of a
  substring), `startswith`, ASCII `lower` and `str(int)`.
 */
module Text {

  /** Python's `str.isspace()`: the characters `strip()` removes. */
  predicate IsSpace(c: char) {
    var n := c as int;
    (9 <= n <= 13) || (28 <= n <= 32) || n == 0x85 || n == 0xA0 || n == 0x1680 ||
    (0x2000 <= n <= 0x200A) || n == 0x2028 || n == 0x2029 || n == 0x202F ||
    n == 0x205F || n == 0x3000
  }

  /** The predicate "is the character c", for `strip(c)`. */
  function IsChar(c: char): char -> bool {
    x => x == c
  }

  /** `s.lstrip(chars)`: the longest suffix of s that does not start with a stripped character. */
  function LStrip(s: string, strip: char -> bool): (r: string)
    ensures |r| <= |s| && r == s[|s| - |r|..]
    ensures r == [] || !strip(r[0])
    ensures forall i | 0 <= i < |s| - |r| :: strip(s[i])
  {
    if s != [] && strip(s[0]) then LStrip(s[1..], strip) else s
  }

  /** `s.rstrip(chars)`: the longest prefix of s that does not end with a stripped character. */
  function RStrip(s: string, strip: char -> bool): (r: string)
    ensures |r| <= |s| && r == s[..|r|]
    ensures r == [] || !strip(r[|r| - 1])
    ensures forall i | |r| <= i < |s| :: strip(s[i])
  {
    if s != [] && strip(s[|s| - 1]) then RStrip(s[..|s| - 1], strip) else s
  }

  /** `s.strip()` */
  function Strip(s: string): string {
    RStrip(LStrip(s, IsSpace), IsSpace)
  }

  /** `s.strip(c)` for a single character c */
  function StripChar(s: string, c: char): string {
    RStrip(LStrip(s, IsChar(c)), IsChar(c))
  }

  /** Each character of s as a one-character string: iterating over a Python `str`. */
  function Chars(s: string): (r: seq<string>)
    ensures |r| == |s| && forall i | 0 <= i < |s| :: r[i] == [s[i]]
  {
    if s == [] then [] else Chars(s[..|s| - 1]) + [[s[|s| - 1]]]
  }

  /** `s.startswith(prefix)` */
  predicate StartsWith(s: string, prefix: string) {
    |prefix| <= |s| && s[..|prefix|] == prefix
  }

  /** `s.split(c)`: the pieces between occurrences of c, never an empty list. */
  function Split(s: string, c: char): (parts: seq<string>)
    ensures |parts| >= 1
    ensures forall k | 0 <= k < |parts| :: c !in parts[k]
  {
    if s == [] then [""]
    else
      var init := Split(s[..|s| - 1], c);
      var last := s[|s| - 1];
      if last == c then init + [""]
      else init[..|init| - 1] + [init[|init| - 1] + [last]]
  }

  /** `sep.join(parts)` */
  function Join(sep: string, parts: seq<string>): string {
    if |parts| == 0 then ""
    else if |parts| == 1 then parts[0]
    else Join(sep, parts[..|parts| - 1]) + sep + parts[|parts| - 1]
  }

  function Last<T>(s: seq<T>): T
    requires |s| > 0
  {
    s[|s| - 1]
  }

  /** `''.join(parts)` */
  function Concat(parts: seq<string>): string {
    if parts == [] then "" else Concat(parts[..|parts| - 1]) + parts[|parts| - 1]
  }

  /** Joining the pieces of a split with the same character gives back the string. */
  lemma {:induction false} SplitJoin(s: string, c: char)
    ensures Join([c], Split(s, c)) == s
    decreases |s|
  {
    if s != [] {
      var init := Split(s[..|s| - 1], c);
      SplitJoin(s[..|s| - 1], c);
      var last := s[|s| - 1];
      var parts := Split(s, c);
      assert s == s[..|s| - 1] + [last];
      if last == c {
        assert parts[..|parts| - 1] == init;
      } else if |init| == 1 {
        assert parts == [init[0] + [last]];
      } else {
        assert parts[..|parts| - 1] == init[..|init| - 1];
        assert Join([c], init) == Join([c], init[..|init| - 1]) + [c] + init[|init| - 1];
      }
    }
  }

  /** A split has one more piece than the string has separators. */
  lemma {:induction false} SplitCount(s: string, c: char)
    ensures |Split(s, c)| == multiset(s)[c] + 1
    decreases |s|
  {
    if s != [] {
      SplitCount(s[..|s| - 1], c);
      assert s == s[..|s| - 1] + [s[|s| - 1]];
      assert multiset(s) == multiset(s[..|s| - 1]) + multiset{s[|s| - 1]};
    }
  }

  /** The separator occurs in s exactly when the split has at least two pieces. */
  lemma {:induction false} SplitHasSeparator(s: string, c: char)
    ensures c in s <==> |Split(s, c)| >= 2
  {
    SplitCount(s, c);
    assert c in s <==> multiset(s)[c] > 0;
  }

  /**
    The last piece of a split is the text after the last separator:
    s ends with it, and it is either all of s (no separator) or preceded by one.
   */
  lemma {:induction false} LastPiece(s: string, c: char)
    ensures var p := Last(Split(s, c));
      |p| <= |s| && s[|s| - |p|..] == p && c !in p &&
      (|p| == |s| || s[|s| - |p| - 1] == c) &&
      (c !in s ==> p == s)
  {
    var parts := Split(s, c);
    SplitJoin(s, c);
    SplitHasSeparator(s, c);
    if |parts| >= 2 {
      assert s == Join([c], parts[..|parts| - 1]) + [c] + Last(parts);
    }
  }

  /** Python's `s.replace(a, b)` for single characters a and b. */
  function ReplaceChar(s: string, a: char, b: char): (r: string)
    ensures |r| == |s|
    ensures forall i | 0 <= i < |s| :: r[i] == if s[i] == a then b else s[i]
  {
    if s == [] then [] else ReplaceChar(s[..|s| - 1], a, b) + [if s[|s| - 1] == a then b else s[|s| - 1]]
  }

  /**
    Python's `s.replace(pat, "")`: scanning from the left, remove every
    non-overlapping occurrence of pat (nothing at all when pat is empty).
   */
  function RemoveAll(s: string, pat: string): (r: string)
    ensures |r| <= |s|
    ensures forall x :: x in r ==> x in s
    ensures |pat| == 1 ==> pat[0] !in r
    decreases |s|
  {
    if pat == [] || |s| < |pat| then s
    else if s[..|pat|] == pat then RemoveAll(s[|pat|..], pat)
    else [s[0]] + RemoveAll(s[1..], pat)
  }

  /** When some character of pat never occurs in s, there is nothing to remove. */
  lemma {:induction false} RemoveAllAbsent(s: string, pat: string, c: char)
    requires c in pat && c !in s
    ensures RemoveAll(s, pat) == s
    decreases |s|
  {
    if pat != [] && |s| >= |pat| {
      assert s[..|pat|] != pat by { assert c !in s[..|pat|]; }
      RemoveAllAbsent(s[1..], pat, c);
      assert s == [s[0]] + s[1..];
    }
  }

  /** Removing a prefix made of the pattern itself, then nothing of a rest that lacks one of its characters. */
  lemma {:induction false} RemoveAllLeading(pat: string, rest: string, c: char)
    requires c in pat && c !in rest
    ensures RemoveAll(pat + rest, pat) == rest
  {
    var s := pat + rest;
    assert s[..|pat|] == pat;
    assert s[|pat|..] == rest;
    RemoveAllAbsent(rest, pat, c);
  }

  /** The characters of s outside cs, in their order: what removing every character of cs leaves. */
  function Drop(s: string, cs: set<char>): string {
    if s == [] then [] else (if s[0] in cs then [] else [s[0]]) + Drop(s[1..], cs)
  }

  /** Dropping leaves no character of cs and every other character as often as before. */
  lemma {:induction false} DropCounts(s: string, cs: set<char>)
    ensures forall x :: multiset(Drop(s, cs))[x] == if x in cs then 0 else multiset(s)[x]
    decreases |s|
  {
    if s != [] {
      DropCounts(s[1..], cs);
      assert s == [s[0]] + s[1..];
    }
  }

  /** Dropping characters that do not occur changes nothing. */
  lemma {:induction false} DropNothing(s: string, cs: set<char>)
    requires forall i | 0 <= i < |s| :: s[i] !in cs
    ensures Drop(s, cs) == s
    decreases |s|
  {
    if s != [] {
      DropNothing(s[1..], cs);
      assert s == [s[0]] + s[1..];
    }
  }

  lemma {:induction false} DropAppend(a: string, b: string, cs: set<char>)
    ensures Drop(a + b, cs) == Drop(a, cs) + Drop(b, cs)
    decreases |a|
  {
    if a == [] {
      assert a + b == b;
    } else {
      assert (a + b)[0] == a[0] && (a + b)[1..] == a[1..] + b;
      DropAppend(a[1..], b, cs);
    }
  }

  /** Dropping one set of characters and then another drops both. */
  lemma {:induction false} DropTwice(s: string, a: set<char>, b: set<char>)
    ensures Drop(Drop(s, a), b) == Drop(s, a + b)
    decreases |s|
  {
    if s != [] {
      DropTwice(s[1..], a, b);
      DropAppend(if s[0] in a then [] else [s[0]], Drop(s[1..], a), b);
    }
  }

  /** Removing a one-character pattern drops that character everywhere and keeps every other one in place. */
  lemma {:induction false} RemoveAllOne(s: string, c: char)
    ensures RemoveAll(s, [c]) == Drop(s, {c})
    decreases |s|
  {
    if s != [] {
      assert s[..1] == [s[0]];
      RemoveAllOne(s[1..], c);
    }
  }

  /** Removing a one-character pattern from two pieces of text is removing it from each. */
  lemma {:induction false} RemoveAllAppend(a: string, b: string, c: char)
    ensures RemoveAll(a + b, [c]) == RemoveAll(a, [c]) + RemoveAll(b, [c])
  {
    RemoveAllOne(a + b, c);
    RemoveAllOne(a, c);
    RemoveAllOne(b, c);
    DropAppend(a, b, {c});
  }

  function LowerChar(c: char): char {
    if 'A' <= c <= 'Z' then (c as int + 32) as char else c
  }

  /** `s.lower()`, restricted to the ASCII letters. */
  function Lower(s: string): (r: string)
    ensures |r| == |s|
    ensures forall i | 0 <= i < |r| :: !('A' <= r[i] <= 'Z') && LowerChar(s[i]) == r[i]
  {
    if s == [] then [] else Lower(s[..|s| - 1]) + [LowerChar(s[|s| - 1])]
  }

  function Digit(d: nat): (c: char)
    requires d < 10
    ensures '0' <= c <= '9' && c as int - '0' as int == d
  {
    "0123456789"[d]
  }

  /** The number a string of decimal digits denotes, most significant digit first. */
  function DecimalValue(s: string): int {
    if s == [] then 0 else 10 * DecimalValue(s[..|s| - 1]) + (Last(s) as int - '0' as int)
  }

  /** The decimal digits of n, without leading zeros. */
  function Digits(n: nat): (r: string)
    ensures r != [] && (forall i | 0 <= i < |r| :: '0' <= r[i] <= '9')
    ensures r[0] == '0' ==> n == 0 && |r| == 1
    ensures DecimalValue(r) == n
  {
    if n < 10 then [Digit(n)]
    else
      var r := Digits(n / 10) + [Digit(n % 10)];
      assert r[..|r| - 1] == Digits(n / 10);
      assert r[0] == Digits(n / 10)[0];
      r
  }

  /** A decimal numeral: digits only, and no leading zero unless it is `0` itself. */
  predicate Numeral(s: string) {
    s != [] && (forall k | 0 <= k < |s| :: '0' <= s[k] <= '9') && (s[0] == '0' ==> |s| == 1)
  }

  /** A numeral is the decimal form of the number it denotes, so `Digits` is the only one. */
  lemma {:induction false} NumeralDigits(s: string)
    requires Numeral(s)
    ensures DecimalValue(s) >= 0 && Digits(DecimalValue(s)) == s
    decreases |s|
  {
    if |s| == 1 {
      assert s == [s[0]];
      NumeralOne(s[0]);
    } else {
      var p, c := s[..|s| - 1], Last(s);
      NumeralPrefix(s);
      NumeralDigits(p);
      NumeralStep(p, c);
      assert p + [c] == s;
      assert DecimalValue(p + [c]) == DecimalValue(s);
    }
  }

  /** A single digit is the numeral of its value. */
  lemma NumeralOne(c: char)
    requires '0' <= c <= '9'
    ensures DecimalValue([c]) == c as int - '0' as int && Digits(c as int - '0' as int) == [c]
  {
    assert [c][..0] == [];
  }

  /** A numeral of two digits or more is a numeral followed by a digit. */
  lemma NumeralPrefix(s: string)
    requires Numeral(s) && |s| > 1
    ensures Numeral(s[..|s| - 1]) && s[0] != '0' && '0' <= Last(s) <= '9'
  {
    assert s[..|s| - 1][0] == s[0];
  }

  /** One more digit after a numeral not starting with `0`. */
  lemma NumeralStep(p: string, c: char)
    requires Numeral(p) && p[0] != '0' && '0' <= c <= '9'
    requires DecimalValue(p) >= 0 && Digits(DecimalValue(p)) == p
    ensures DecimalValue(p + [c]) >= 0 && Digits(DecimalValue(p + [c])) == p + [c]
  {
    var v := DecimalValue(p);
    var d := c as int - '0' as int;
    assert (p + [c])[..|p|] == p;
    assert DecimalValue(p + [c]) == 10 * v + d;
    assert v >= 1;
    DigitsSnoc(v, d);
  }

  /** Appending a digit to the numeral of a positive number gives the numeral of ten times it plus the digit. */
  lemma DigitsSnoc(v: nat, d: nat)
    requires 1 <= v && d < 10
    ensures Digits(10 * v + d) == Digits(v) + [Digit(d)]
  {
    assert (10 * v + d) / 10 == v && (10 * v + d) % 10 == d;
  }

  /** `str(i)` for a Python int: a minus sign for a negative number, then its numeral. */
  function IntToString(i: int): string {
    if i < 0 then "-" + Digits(-i) else Digits(i)
  }

  /** `str(i)` is a numeral worth `i`, after a minus sign when `i` is negative. */
  lemma IntToStringNumeral(i: int)
    ensures var r := IntToString(i);
      (i < 0 ==> |r| > 1 && r[0] == '-' && Numeral(r[1..]) && DecimalValue(r[1..]) == -i) &&
      (i >= 0 ==> Numeral(r) && DecimalValue(r) == i)
  {
    if i < 0 {
      assert IntToString(i)[1..] == Digits(-i);
    }
  }
}

/**
 * The Python `str` operations the core relies on, for text modelled as
 * `seq<char>`: whitespace stripping, `rstrip` of one character,
 * `split`/`join` on a separator, ASCII case mapping, substring search and
 * decimal rendering (`str(n)`, `zfill`).
 */
module Text {

  /** The characters on which Python's `str.isspace` holds. */
  const Whitespace: set<char> := {
    '\t', '\n', '\U{0B}', '\U{0C}', '\r', '\U{1C}', '\U{1D}', '\U{1E}', '\U{1F}', ' ',
    '\U{85}', '\U{A0}', '\U{1680}',
    '\U{2000}', '\U{2001}', '\U{2002}', '\U{2003}', '\U{2004}', '\U{2005}',
    '\U{2006}', '\U{2007}', '\U{2008}', '\U{2009}', '\U{200A}',
    '\U{2028}', '\U{2029}', '\U{202F}', '\U{205F}', '\U{3000}'
  }

  /** `s.lstrip(chars)`: drops the leading characters that are in `chars`. */
  function TrimStart(s: string, chars: set<char>): (r: string)
    ensures |r| <= |s| && r == s[|s| - |r|..]
    ensures r != [] ==> r[0] !in chars
  {
    if |s| > 0 && s[0] in chars then TrimStart(s[1..], chars) else s
  }

  /** `s.rstrip(chars)`: drops the trailing characters that are in `chars`. */
  function TrimEnd(s: string, chars: set<char>): (r: string)
    ensures |r| <= |s| && r == s[..|r|]
    ensures r != [] ==> r[|r| - 1] !in chars
  {
    if |s| > 0 && s[|s| - 1] in chars then TrimEnd(s[..|s| - 1], chars) else s
  }

  /** What `lstrip` drops is in `chars`. */
  lemma {:induction false} TrimStartDrops(s: string, chars: set<char>)
    ensures forall k :: 0 <= k < |s| - |TrimStart(s, chars)| ==> s[k] in chars
  {
    if |s| > 0 && s[0] in chars {
      TrimStartDrops(s[1..], chars);
      forall k | 1 <= k < |s| - |TrimStart(s, chars)| ensures s[k] in chars {
        assert s[k] == s[1..][k - 1];
      }
    }
  }

  /** What `rstrip` drops is in `chars`. */
  lemma {:induction false} TrimEndDrops(s: string, chars: set<char>)
    ensures forall k :: |TrimEnd(s, chars)| <= k < |s| ==> s[k] in chars
  {
    if |s| > 0 && s[|s| - 1] in chars {
      TrimEndDrops(s[..|s| - 1], chars);
    }
  }

  /** `s.strip(chars)`. */
  function StripChars(s: string, chars: set<char>): string {
    TrimEnd(TrimStart(s, chars), chars)
  }

  /** `s.strip()`. */
  function Strip(s: string): string {
    StripChars(s, Whitespace)
  }

  /** `s.rstrip(ch)`. */
  function RStripChar(s: string, ch: char): string {
    TrimEnd(s, {ch})
  }

  /** Every character of the result of `strip` is a character of its input. */
  lemma StripWithin(s: string, chars: set<char>)
    ensures forall c :: c in StripChars(s, chars) ==> c in s
  {
    var t := TrimStart(s, chars);
    PieceWithin(s, t, TrimEnd(t, chars));
  }

  /** A prefix of a suffix of `s` holds only elements of `s`. */
  lemma PieceWithin<T>(s: seq<T>, t: seq<T>, r: seq<T>)
    requires |t| <= |s| && t == s[|s| - |t|..]
    requires |r| <= |t| && r == t[..|r|]
    ensures forall x :: x in r ==> x in s
  {
    forall x | x in r
      ensures x in s
    {
      var k :| 0 <= k < |r| && r[k] == x;
      assert r[k] == t[k] == s[|s| - |t| + k];
    }
  }

  /** What `strip` removes, at either end, is in `chars`. */
  lemma StripDrops(s: string, chars: set<char>)
    ensures var r, i := StripChars(s, chars), |s| - |TrimStart(s, chars)|;
      && (forall k :: 0 <= k < i ==> s[k] in chars)
      && (forall k :: i + |r| <= k < |s| ==> s[k] in chars)
  {
    TrimStartDrops(s, chars);
    var t := TrimStart(s, chars);
    var r := TrimEnd(t, chars);
    var i := |s| - |t|;
    forall k | i + |r| <= k < |s|
      ensures s[k] in chars
    {
      TrimEndDropsAt(s, t, chars, k);
    }
  }

  /** What `rstrip` drops from a suffix `t` of `s` is in `chars`, read at positions of `s`. */
  lemma TrimEndDropsAt(s: string, t: string, chars: set<char>, k: nat)
    requires |t| <= |s| && t == s[|s| - |t|..]
    requires |s| - |t| + |TrimEnd(t, chars)| <= k < |s|
    ensures s[k] in chars
  {
    var i := |s| - |t|;
    TrimEndDrops(t, chars);
    assert t[k - i] in chars;
    assert s[k] == t[k - i];
  }

  /** The result of `strip` neither starts nor ends with a character of `chars`. */
  lemma StripEnds(s: string, chars: set<char>)
    ensures var r := StripChars(s, chars); r != [] ==> r[0] !in chars && r[|r| - 1] !in chars
  {
    var t := TrimStart(s, chars);
    var r := TrimEnd(t, chars);
    if r != [] {
      assert r[0] == t[0];
    }
  }

  /** Stripping a stripped text changes nothing. */
  lemma StripIdempotent(s: string, chars: set<char>)
    ensures StripChars(StripChars(s, chars), chars) == StripChars(s, chars)
  {
    var r := StripChars(s, chars);
    StripEnds(s, chars);
    assert TrimStart(r, chars) == r;
    assert TrimEnd(r, chars) == r;
  }

  /** `n` copies of `ch`. */
  function Repeat(ch: char, n: nat): (r: string)
    ensures |r| == n && forall k :: 0 <= k < n ==> r[k] == ch
  {
    seq(n, _ => ch)
  }

  /** `rstrip(ch)` undoes appending copies of `ch` to a text that does not end in `ch`. */
  lemma {:induction false} RStripRepeat(s: string, ch: char, n: nat)
    requires s == [] || s[|s| - 1] != ch
    ensures RStripChar(s + Repeat(ch, n), ch) == s
  {
    if n > 0 {
      assert (s + Repeat(ch, n))[..|s| + n - 1] == s + Repeat(ch, n - 1);
      RStripRepeat(s, ch, n - 1);
    } else {
      assert s + Repeat(ch, 0) == s;
    }
  }

  /** The text before the first `sep` (all of `s` when there is none): `s.split(sep)[0]`. */
  function FirstField(s: string, sep: char): (r: string)
    ensures |r| <= |s| && r == s[..|r|]
    ensures sep !in r
    ensures |r| < |s| ==> s[|r|] == sep
  {
    if |s| == 0 || s[0] == sep then [] else [s[0]] + FirstField(s[1..], sep)
  }

  /** `s.split(sep)` for a one-character separator. */
  function Split(s: string, sep: char): (r: seq<string>)
    ensures |r| >= 1 && r[0] == FirstField(s, sep)
    decreases |s|
  {
    var f := FirstField(s, sep);
    if |f| == |s| then [s] else [f] + Split(s[|f| + 1..], sep)
  }

  /** No field of a split contains the separator. */
  lemma {:induction false} SplitFieldsFree(s: string, sep: char)
    ensures forall k :: 0 <= k < |Split(s, sep)| ==> sep !in Split(s, sep)[k]
    decreases |s|
  {
    var f := FirstField(s, sep);
    if |f| < |s| {
      var rest := s[|f| + 1..];
      SplitCons(s, sep);
      SplitFieldsFree(rest, sep);
      var r := Split(s, sep);
      forall k | 1 <= k < |r| ensures sep !in r[k] {
        assert r[k] == Split(rest, sep)[k - 1];
      }
    } else {
      SplitWhole(s, sep);
    }
  }

  /** `sep.join(parts)`. */
  function Join(parts: seq<string>, sep: char): string {
    if |parts| == 0 then []
    else if |parts| == 1 then parts[0]
    else parts[0] + [sep] + Join(parts[1..], sep)
  }

  /** Splitting loses nothing: joining the fields back gives the text. */
  lemma {:induction false} JoinSplit(s: string, sep: char)
    ensures Join(Split(s, sep), sep) == s
    decreases |s|
  {
    var f := FirstField(s, sep);
    if |f| < |s| {
      var rest := s[|f| + 1..];
      SplitCons(s, sep);
      JoinCons(f, Split(rest, sep), sep);
      JoinSplit(rest, sep);
    } else {
      SplitWhole(s, sep);
    }
  }

  /** Joining fields free of the separator and splitting again gives the fields back. */
  lemma {:induction false} SplitJoin(parts: seq<string>, sep: char)
    requires |parts| >= 1 && forall k :: 0 <= k < |parts| ==> sep !in parts[k]
    ensures Split(Join(parts, sep), sep) == parts
    decreases |parts|
  {
    if |parts| == 1 {
      SplitAlone(parts[0], sep);
    } else {
      JoinCons(parts[0], parts[1..], sep);
      assert [parts[0]] + parts[1..] == parts;
      SplitAfter(parts[0], Join(parts[1..], sep), sep);
      SplitJoin(parts[1..], sep);
    }
  }

  /** A separator-free text splits into itself alone. */
  lemma SplitAlone(a: string, sep: char)
    requires sep !in a
    ensures Split(a, sep) == [a]
  {
    FirstFieldFree(a, [], sep);
    assert a + [] == a;
    SplitWhole(a, sep);
  }

  /** A separator-free first field followed by the separator splits off as the first field. */
  lemma SplitAfter(a: string, rest: string, sep: char)
    requires sep !in a
    ensures Split(a + [sep] + rest, sep) == [a] + Split(rest, sep)
  {
    var s := a + [sep] + rest;
    FirstFieldFree(a, [sep] + rest, sep);
    assert s == a + ([sep] + rest);
    SplitCons(s, sep);
    assert s[|a| + 1..] == rest;
  }

  /** Two separator-free fields joined by the separator split back into the two. */
  lemma SplitPair(a: string, b: string, sep: char)
    requires sep !in a && sep !in b
    ensures Split(a + [sep] + b, sep) == [a, b]
  {
    SplitAfter(a, b, sep);
    SplitAlone(b, sep);
  }

  /** Four separator-free fields joined by the separator split back into the four. */
  lemma SplitQuad(a: string, b: string, c: string, d: string, sep: char)
    requires sep !in a && sep !in b && sep !in c && sep !in d
    ensures Split(a + [sep] + b + [sep] + c + [sep] + d, sep) == [a, b, c, d]
  {
    var cd := c + [sep] + d;
    var bcd := b + [sep] + cd;
    Regroup(a, b, c, d, sep);
    SplitPair(c, d, sep);
    SplitAfter(b, cd, sep);
    ConsList(b, [c, d]);
    SplitAfter(a, bcd, sep);
    ConsList(a, [b, c, d]);
  }

  lemma Regroup(a: string, b: string, c: string, d: string, sep: char)
    ensures a + [sep] + b + [sep] + c + [sep] + d == a + [sep] + (b + [sep] + (c + [sep] + d))
  {
  }

  lemma ConsList<T>(x: T, xs: seq<T>)
    ensures |xs| == 2 ==> [x] + xs == [x, xs[0], xs[1]]
    ensures |xs| == 3 ==> [x] + xs == [x, xs[0], xs[1], xs[2]]
  {
  }

  /** A separator-free text after a separator-free prefix. */
  lemma FreeConcat(a: string, b: string, sep: char)
    requires sep !in a && sep !in b
    ensures sep !in a + b
  {
  }

  /** The first field of `a + rest` is `a` when `a` has no separator and `rest` is empty or starts with one. */
  lemma {:induction false} FirstFieldFree(a: string, rest: string, sep: char)
    requires sep !in a && (rest == [] || rest[0] == sep)
    ensures FirstField(a + rest, sep) == a
    decreases |a|
  {
    if a != [] {
      assert (a + rest)[1..] == a[1..] + rest;
      FirstFieldFree(a[1..], rest, sep);
    }
  }

  lemma SplitCons(s: string, sep: char)
    requires |FirstField(s, sep)| < |s|
    ensures var f := FirstField(s, sep);
      && Split(s, sep) == [f] + Split(s[|f| + 1..], sep)
      && s == f + [sep] + s[|f| + 1..]
  {
    var f := FirstField(s, sep);
    Around(s, |f|);
  }

  /** A sequence is its prefix, the element at `n` and its suffix. */
  lemma Around<T>(s: seq<T>, n: nat)
    requires n < |s|
    ensures s == s[..n] + [s[n]] + s[n + 1..]
  {
  }

  lemma SplitWhole(s: string, sep: char)
    requires |FirstField(s, sep)| == |s|
    ensures Split(s, sep) == [s]
  {
  }

  lemma JoinCons(f: string, fields: seq<string>, sep: char)
    requires |fields| >= 1
    ensures Join([f] + fields, sep) == f + [sep] + Join(fields, sep)
  {
    assert ([f] + fields)[1..] == fields;
  }

  function UpperChar(c: char): char {
    if 'a' <= c <= 'z' then (c as int - 32) as char else c
  }

  function LowerChar(c: char): char {
    if 'A' <= c <= 'Z' then (c as int + 32) as char else c
  }

  /** `s.upper()` restricted to ASCII letters. */
  function Upper(s: string): (r: string)
    ensures |r| == |s| && forall k :: 0 <= k < |s| ==> r[k] == UpperChar(s[k])
  {
    seq(|s|, k requires 0 <= k < |s| => UpperChar(s[k]))
  }

  /** `s.lower()` restricted to ASCII letters. */
  function Lower(s: string): (r: string)
    ensures |r| == |s| && forall k :: 0 <= k < |s| ==> r[k] == LowerChar(s[k])
  {
    seq(|s|, k requires 0 <= k < |s| => LowerChar(s[k]))
  }

  /** `needle in hay`. */
  predicate Contains(hay: string, needle: string) {
    exists k | 0 <= k <= |hay| - |needle| :: OccursAt(hay, needle, k)
  }

  /** `needle` occurs in `hay` starting at index `k`. */
  predicate OccursAt(hay: string, needle: string, k: int) {
    0 <= k <= |hay| - |needle| && hay[k..k + |needle|] == needle
  }

  /** `s.startswith(prefix)`: the prefix occurs at index 0. */
  predicate StartsWith(s: string, prefix: string) {
    OccursAt(s, prefix, 0)
  }

  /** A case-insensitive `LIKE '%needle%'` (ASCII case folding). */
  predicate IContains(hay: string, needle: string) {
    Contains(Lower(hay), Lower(needle))
  }

  lemma ContainsEmpty(hay: string)
    ensures Contains(hay, [])
  {
    assert OccursAt(hay, [], 0);
  }

  // ---------------------------------------------------------------------------
  // Decimal rendering: str(n), int(s), zfill
  // ---------------------------------------------------------------------------

  function Pow10(n: nat): (r: nat)
    ensures r >= 1
  {
    if n == 0 then 1 else 10 * Pow10(n - 1)
  }

  predicate IsDigit(c: char) {
    '0' as int <= c as int <= '9' as int
  }

  function Digit(d: nat): (c: char)
    requires d < 10
    ensures IsDigit(c) && c as int - '0' as int == d
  {
    ('0' as int + d) as char
  }

  /** `str(n)` for a non-negative integer: no sign, no leading zeros. */
  function DecimalString(n: nat): (r: string)
    decreases n
  {
    if n < 10 then [Digit(n)] else DecimalString(n / 10) + [Digit(n % 10)]
  }

  /** `int(s)` for a string of decimal digits. */
  function DecimalValue(s: string): nat
    requires forall k :: 0 <= k < |s| ==> IsDigit(s[k])
  {
    if |s| == 0 then 0 else 10 * DecimalValue(s[..|s| - 1]) + DigitValue(s[|s| - 1])
  }

  function DigitValue(c: char): (d: nat)
    requires IsDigit(c)
    ensures d < 10
  {
    c as int - '0' as int
  }

  /** `str(n)` is made of digits, is no longer than `d` when `n < 10^d`, and reads back as `n`. */
  lemma {:induction false} DecimalStringFacts(n: nat, d: nat)
    ensures var s := DecimalString(n);
      |s| >= 1 && (forall k :: 0 <= k < |s| ==> IsDigit(s[k])) && DecimalValue(s) == n
      && (1 <= d && n < Pow10(d) ==> |s| <= d)
      && (n >= 10 ==> s[0] != '0')
    decreases n
  {
    if n >= 10 {
      DecimalStringFacts(n / 10, if d > 0 then d - 1 else 0);
      var s := DecimalString(n);
      assert s[..|s| - 1] == DecimalString(n / 10);
    }
  }

  /** Distinct numbers render to distinct strings. */
  lemma DecimalStringInjective(m: nat, n: nat)
    requires DecimalString(m) == DecimalString(n)
    ensures m == n
  {
    DecimalStringFacts(m, 0);
    DecimalStringFacts(n, 0);
  }

  /** `s.zfill(width)` for a string without a sign. */
  function ZeroFill(s: string, width: nat): (r: string)
    ensures |r| == if |s| >= width then |s| else width
    ensures |s| >= width ==> r == s
  {
    if |s| >= width then s else Repeat('0', width - |s|) + s
  }

  /** `zfill` as the number of zeros it puts in front. */
  lemma ZeroFillAsRepeat(s: string, width: nat)
    ensures ZeroFill(s, width) == Repeat('0', if |s| >= width then 0 else width - |s|) + s
  {
    if |s| >= width {
      assert Repeat('0', 0) + s == s;
    }
  }

  /** What `zfill` adds is only '0's, all in front of the unchanged input. */
  lemma ZeroFillPads(s: string, width: nat)
    ensures var r := ZeroFill(s, width);
      r[|r| - |s|..] == s && forall k :: 0 <= k < |r| - |s| ==> r[k] == '0'
  {
  }

  /** Leading zeros do not change the value that digits stand for. */
  lemma {:induction false} LeadingZerosValue(z: nat, s: string)
    requires forall k :: 0 <= k < |s| ==> IsDigit(s[k])
    ensures forall k :: 0 <= k < z + |s| ==> IsDigit((Repeat('0', z) + s)[k])
    ensures DecimalValue(Repeat('0', z) + s) == DecimalValue(s)
    decreases |s|
  {
    var t := Repeat('0', z) + s;
    assert forall k :: 0 <= k < z + |s| ==> IsDigit(t[k]) by {
      forall k | 0 <= k < z + |s| ensures IsDigit(t[k]) {
        if k >= z { assert t[k] == s[k - z]; }
      }
    }
    if |s| == 0 {
      ZerosValue(z);
      assert t == Repeat('0', z);
    } else {
      LeadingZerosValue(z, s[..|s| - 1]);
      assert t[..|t| - 1] == Repeat('0', z) + s[..|s| - 1];
    }
  }

  lemma {:induction false} ZerosValue(z: nat)
    ensures DecimalValue(Repeat('0', z)) == 0
  {
    if z > 0 {
      assert Repeat('0', z)[..z - 1] == Repeat('0', z - 1);
      ZerosValue(z - 1);
    }
  }

  /** `str(i)` for any integer. */
  function IntString(i: int): (r: string)
    ensures |r| >= 1
  {
    if i < 0 then "-" + DecimalString(-i) else DecimalString(i)
  }
}

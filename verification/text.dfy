/**
 * The handful of Python string operations the bot relies on: `str.strip()`,
 * `str.lower()`, the substring test `q in s`, `str(int)`, `int(str)`,
 * `str.split(sep, maxsplit)` and `sep.join(parts)`.
 */
module Text {
  import opened Common

  /** The characters for which Python's `str.isspace()` is true. */
  predicate IsSpace(c: char) {
    c == ' ' || ('\t' <= c <= '\r') || ('\U{1C}' <= c <= '\U{1F}') || c == '\U{85}' || c == '\U{A0}'
    || c == '\U{1680}' || ('\U{2000}' <= c <= '\U{200A}') || c == '\U{2028}' || c == '\U{2029}'
    || c == '\U{202F}' || c == '\U{205F}' || c == '\U{3000}'
  }

  function StripLeft(s: string): (r: string)
    ensures |r| <= |s| && r == s[|s| - |r|..]
    ensures r == [] || !IsSpace(r[0])
    ensures forall i :: 0 <= i < |s| - |r| ==> IsSpace(s[i])
  {
    if s != [] && IsSpace(s[0]) then StripLeft(s[1..]) else s
  }

  function StripRight(s: string): (r: string)
    ensures |r| <= |s| && r == s[..|r|]
    ensures r == [] || !IsSpace(r[|r| - 1])
    ensures forall i :: |r| <= i < |s| ==> IsSpace(s[i])
  {
    if s != [] && IsSpace(s[|s| - 1]) then StripRight(s[..|s| - 1]) else s
  }

  /**
   * Python's `s.strip()`: drops leading and trailing whitespace. The result
   * is the piece `s[a..b]` left after removing whitespace only, at both ends.
   */
  function Strip(s: string): (r: string)
    ensures |r| <= |s|
    ensures r == [] || (!IsSpace(r[0]) && !IsSpace(r[|r| - 1]))
  {
    StripRight(StripLeft(s))
  }

  /** What strip leaves is `s` less whitespace at both ends, and nothing else. */
  lemma StripMeaning(s: string)
    ensures TrimOf(s, Strip(s))
  {
    var l := StripLeft(s);
    var r := StripRight(l);
    var a := |s| - |l|;
    assert r == s[a..a + |r|];
    assert forall i :: a + |r| <= i < |s| ==> s[i] == l[i - a];
    assert TrimmedAt(s, a, a + |r|);
  }

  /** `r` is a piece `s[a..b]` of `s` with only whitespace around it. */
  predicate TrimOf(s: string, r: string) {
    exists a, b :: 0 <= a <= b <= |s| && r == s[a..b] && TrimmedAt(s, a, b)
  }

  /** Everything of `s` outside `s[a..b]` is whitespace. */
  predicate TrimmedAt(s: string, a: int, b: int)
    requires 0 <= a <= b <= |s|
  {
    (forall i :: 0 <= i < a ==> IsSpace(s[i])) && (forall i :: b <= i < |s| ==> IsSpace(s[i]))
  }

  /** A string with no whitespace at either end is its own strip. */
  lemma StripTrimmed(s: string)
    requires s == [] || (!IsSpace(s[0]) && !IsSpace(s[|s| - 1]))
    ensures Strip(s) == s
  {
  }

  lemma StripIdempotent(s: string)
    ensures Strip(Strip(s)) == Strip(s)
  {
    StripTrimmed(Strip(s));
  }

  /** Stripping only removes characters from the ends, so it brings in none. */
  lemma StripKeepsChars(s: string, c: char)
    requires c in Strip(s)
    ensures c in s
  {
    var l := StripLeft(s);
    var k :| 0 <= k < |Strip(s)| && Strip(s)[k] == c;
    assert l[k] == c;
    assert s[|s| - |l| + k] == c;
  }

  /**
   * Lower-casing of one character, for the alphabets the bot's names use:
   * ASCII and Latin-1 capitals, the Russian capitals and those of U+0400 to
   * U+040F, the paired capitals of the rest of the Cyrillic block (which hold
   * the Kazakh letters) and of the Cyrillic Supplement block, each one code
   * point below its small letter, and the palochka U+04C0, whose small
   * letter is U+04CF. On U+0000 to U+00FF and U+0400 to U+052F this is
   * Python's `str.lower`, one character for one.
   */
  function LowerChar(c: char): char {
    if 'A' <= c <= 'Z' || ('\U{C0}' <= c <= '\U{DE}' && c != '\U{D7}') || ('\U{410}' <= c <= '\U{42F}') then
      (c as int + 0x20) as char
    else if '\U{400}' <= c <= '\U{40F}' then (c as int + 0x50) as char
    else if c == '\U{4C0}' then '\U{4CF}'
    else if (('\U{460}' <= c <= '\U{481}') || ('\U{48A}' <= c <= '\U{4BF}') || ('\U{4D0}' <= c <= '\U{52F}')) && c as int % 2 == 0 then
      (c as int + 1) as char
    else if '\U{4C1}' <= c <= '\U{4CE}' && c as int % 2 == 1 then
      (c as int + 1) as char
    else c
  }

  /** Python's `s.lower()` for those alphabets, one character at a time. */
  function Lower(s: string): (r: string)
    ensures |r| == |s|
    ensures forall i :: 0 <= i < |s| ==> r[i] == LowerChar(s[i])
  {
    seq(|s|, i requires 0 <= i < |s| => LowerChar(s[i]))
  }

  /** Python's `q in text` on strings: `q` occurs as a contiguous piece of `text`. */
  predicate Contains(text: string, q: string) {
    q <= text || (text != [] && Contains(text[1..], q))
  }

  /** `q` occurs in `text` starting at position `i`. */
  predicate OccursAt(text: string, q: string, i: int) {
    0 <= i <= |text| - |q| && text[i..i + |q|] == q
  }

  /** `Contains` is exactly "occurs at some position". */
  lemma {:induction false} ContainsAt(text: string, q: string)
    ensures Contains(text, q) <==> exists i :: OccursAt(text, q, i)
  {
    if text != [] {
      ContainsAt(text[1..], q);
      if q <= text {
        assert text[0..|q|] == q;
        assert OccursAt(text, q, 0);
      } else if Contains(text, q) {
        var i :| OccursAt(text[1..], q, i);
        assert text[i + 1..i + 1 + |q|] == text[1..][i..i + |q|];
        assert OccursAt(text, q, i + 1);
      }
      if exists i :: OccursAt(text, q, i) {
        var i :| OccursAt(text, q, i);
        if i > 0 {
          var rest := text[1..];
          assert rest[i - 1..i - 1 + |q|] == text[i..i + |q|];
          assert OccursAt(rest, q, i - 1);
          assert Contains(rest, q);
        } else {
          assert q == text[..|q|];
        }
      }
    } else if q == [] {
      assert OccursAt(text, q, 0);
    }
  }

  // ----- Decimal numerals: Python's str(n) and int(s) -----

  predicate IsDigit(c: char) {
    '0' <= c <= '9'
  }

  predicate AllDigits(s: string) {
    forall i :: 0 <= i < |s| ==> IsDigit(s[i])
  }

  function DigitChar(d: nat): (c: char)
    requires d < 10
    ensures IsDigit(c)
  {
    ('0' as int + d) as char
  }

  /** The value of a string of ASCII digits, most significant first. */
  function DigitsValue(s: string): nat
    requires AllDigits(s)
  {
    if s == [] then 0 else DigitsValue(s[..|s| - 1]) * 10 + (s[|s| - 1] as int - '0' as int)
  }

  /** Python's `str(n)` for a natural number. */
  function NatToString(n: nat): (r: string)
    ensures r != [] && AllDigits(r)
    ensures DigitsValue(r) == n
    ensures |r| == 1 || r[0] != '0'
    ensures n > 0 ==> r[0] != '0'
  {
    if n < 10 then [DigitChar(n)]
    else
      var r := NatToString(n / 10) + [DigitChar(n % 10)];
      assert r[..|r| - 1] == NatToString(n / 10);
      r
  }

  lemma NatToStringInjective(m: nat, n: nat)
    requires NatToString(m) == NatToString(n)
    ensures m == n
  {
  }

  /** Python's `str(i)` for any integer. */
  function IntToString(i: int): (r: string)
    ensures r != []
  {
    if i < 0 then "-" + NatToString(-i) else NatToString(i)
  }

  /**
   * The digit part Python's `int()` accepts: ASCII digits, possibly grouped by
   * single underscores, starting and ending with a digit.
   */
  predicate DigitGroups(s: string) {
    && s != []
    && IsDigit(s[0]) && IsDigit(s[|s| - 1])
    && (forall i :: 0 <= i < |s| ==> IsDigit(s[i]) || s[i] == '_')
    && (forall i :: 0 <= i < |s| - 1 ==> s[i] == '_' ==> IsDigit(s[i + 1]))
  }

  function DropUnderscores(s: string): (r: string)
    requires forall i :: 0 <= i < |s| ==> IsDigit(s[i]) || s[i] == '_'
    ensures AllDigits(r)
    ensures AllDigits(s) ==> r == s
  {
    if s == [] then []
    else if s[0] == '_' then DropUnderscores(s[1..])
    else [s[0]] + DropUnderscores(s[1..])
  }

  function ParseUnsigned(s: string): Option<nat> {
    if DigitGroups(s) then Some(DigitsValue(DropUnderscores(s))) else None
  }

  /** An optional sign followed by digit groups. */
  function SignedValue(t: string): Option<int> {
    if t != [] && (t[0] == '-' || t[0] == '+') then
      match ParseUnsigned(t[1..])
      case None => None
      case Some(n) =>
        var v: int := if t[0] == '-' then -(n as int) else n;
        Some(v)
    else
      match ParseUnsigned(t)
      case None => None
      case Some(n) => Some(n)
  }

  /** Python's `int(s)` in base 10: surrounding whitespace, an optional sign, then digit groups. */
  function ParseInt(s: string): Option<int> {
    SignedValue(Strip(s))
  }

  /** `int(str(i)) == i`. */
  lemma ParseIntToString(i: int)
    ensures ParseInt(IntToString(i)) == Some(i)
  {
    if i < 0 {
      var t := IntToString(i);
      assert t[1..] == NatToString(-i);
      ParseNegative(t);
    } else {
      ParseDigits(NatToString(i));
    }
  }

  lemma ParseUnsignedDigits(d: string)
    requires d != [] && AllDigits(d)
    ensures ParseUnsigned(d) == Some(DigitsValue(d))
  {
    assert DigitGroups(d);
  }

  /** A string with no whitespace at either end is parsed as it stands. */
  lemma ParseTrimmed(s: string)
    requires s != [] && !IsSpace(s[0]) && !IsSpace(s[|s| - 1])
    ensures ParseInt(s) == SignedValue(s)
  {
    StripTrimmed(s);
  }

  lemma ParseDigits(d: string)
    requires d != [] && AllDigits(d)
    ensures ParseInt(d) == Some(DigitsValue(d) as int)
  {
    assert IsDigit(d[0]) && IsDigit(d[|d| - 1]);
    ParseTrimmed(d);
    ParseUnsignedDigits(d);
  }

  lemma SignedNegative(t: string, n: nat)
    requires t != [] && t[0] == '-' && ParseUnsigned(t[1..]) == Some(n)
    ensures SignedValue(t) == Some(-(n as int))
  {
  }

  lemma ParseNegative(t: string)
    requires |t| > 1 && t[0] == '-' && AllDigits(t[1..])
    ensures ParseInt(t) == Some(-(DigitsValue(t[1..]) as int))
  {
    assert IsDigit(t[1..][|t| - 2]);
    ParseUnsignedDigits(t[1..]);
    SignedNegative(t, DigitsValue(t[1..]));
    ParseTrimmed(t);
  }

  lemma ParseNatToString(n: nat)
    ensures ParseInt(NatToString(n)) == Some(n)
  {
    ParseIntToString(n);
  }

  // ----- Splitting and joining -----

  /** Position of the first `c` in `s`, or `|s|` when there is none. */
  function IndexOf(s: string, c: char): (k: nat)
    ensures k <= |s|
    ensures k < |s| ==> s[k] == c
    ensures forall j :: 0 <= j < k ==> s[j] != c
  {
    if s == [] || s[0] == c then 0 else 1 + IndexOf(s[1..], c)
  }

  /**
   * Python's `s.split(sep, maxsplit)` for a one-character separator; a negative
   * `maxsplit` means no limit, as in Python.
   */
  function Split(s: string, sep: char, maxsplit: int): (parts: seq<string>)
    ensures |parts| >= 1
    decreases |s|
  {
    var k := IndexOf(s, sep);
    if maxsplit == 0 || k == |s| then [s]
    else [s[..k]] + Split(s[k + 1..], sep, if maxsplit < 0 then maxsplit else maxsplit - 1)
  }

  /** Python's `sep.join(parts)`. */
  function Join(parts: seq<string>, sep: char): string {
    if parts == [] then []
    else if |parts| == 1 then parts[0]
    else parts[0] + [sep] + Join(parts[1..], sep)
  }

  /** Splitting at a separator that follows a separator-free head peels that head off. */
  lemma SplitHead(head: string, sep: char, tail: string, maxsplit: int)
    requires sep !in head && maxsplit != 0
    ensures Split(head + [sep] + tail, sep, maxsplit)
         == [head] + Split(tail, sep, if maxsplit < 0 then maxsplit else maxsplit - 1)
  {
    var s := head + [sep] + tail;
    assert s[|head|] == sep;
    assert forall j :: 0 <= j < |head| ==> s[j] == head[j];
    assert IndexOf(s, sep) == |head|;
    assert s[..|head|] == head && s[|head| + 1..] == tail;
  }

  /** A separator-free string is not split at all. */
  lemma SplitNone(s: string, sep: char, maxsplit: int)
    requires sep !in s
    ensures Split(s, sep, maxsplit) == [s]
  {
  }

  /** An unlimited split never leaves the separator inside a part. */
  lemma {:induction false} SplitPartsClean(s: string, sep: char)
    ensures forall p :: p in Split(s, sep, -1) ==> sep !in p
  {
    var k := IndexOf(s, sep);
    if k < |s| {
      SplitPartsClean(s[k + 1..], sep);
      assert forall c :: c in s[..k] ==> c != sep;
    } else {
      assert forall c :: c in s ==> c != sep;
    }
  }

  /** Splitting a join of separator-free parts gives the parts back. */
  lemma {:induction false} SplitJoin(parts: seq<string>, sep: char)
    requires |parts| >= 1
    requires forall p :: p in parts ==> sep !in p
    ensures Split(Join(parts, sep), sep, -1) == parts
  {
    if |parts| == 1 {
      SplitNone(parts[0], sep, -1);
    } else {
      SplitJoin(parts[1..], sep);
      SplitHead(parts[0], sep, Join(parts[1..], sep), -1);
    }
  }
}

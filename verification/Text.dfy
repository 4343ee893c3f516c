/**
 * The string operations of Python's standard library that the core relies on,
 * stated over `string` (a sequence of characters): substring search, `str.split()`
 * and `str.split(sep)`, ASCII lower-casing, `rsplit('.', 1)`, `int()` on a token
 * and `os.path.join` for two POSIX path components.
 */
module Text {
  import opened Wrappers

  // ---------------------------------------------------------------------------
  // Character classes
  // ---------------------------------------------------------------------------

  /** Python's whitespace (`str.isspace`, and `\s` in a `str` regular expression). */
  predicate IsSpace(c: char) {
    ('\t' <= c <= '\r') || ('\U{1C}' <= c <= ' ') || c == '\U{85}' || c == '\U{A0}'
    || c == '\U{1680}' || ('\U{2000}' <= c <= '\U{200A}') || c == '\U{2028}' || c == '\U{2029}'
    || c == '\U{202F}' || c == '\U{205F}' || c == '\U{3000}'
  }

  /** The ASCII part of `\w`: letters, digits and the underscore. */
  predicate IsWordChar(c: char) {
    ('a' <= c <= 'z') || ('A' <= c <= 'Z') || ('0' <= c <= '9') || c == '_'
  }

  predicate IsDigit(c: char) {
    '0' <= c <= '9'
  }

  /** The length of the longest prefix of `s` whose characters all satisfy `p`. */
  function Span(s: string, p: char -> bool): (n: nat)
    ensures n <= |s|
    ensures forall i :: 0 <= i < n ==> p(s[i])
    ensures n < |s| ==> !p(s[n])
    decreases |s|
  {
    if |s| == 0 || !p(s[0]) then 0 else 1 + Span(s[1..], p)
  }

  /** A prefix of length `n` satisfying `p` and followed by a non-`p` character is the span. */
  lemma SpanUnique(s: string, p: char -> bool, n: nat)
    requires n <= |s|
    requires forall i :: 0 <= i < n ==> p(s[i])
    requires n < |s| ==> !p(s[n])
    ensures Span(s, p) == n
  {
  }

  // ---------------------------------------------------------------------------
  // Substrings: Python's `sub in s`
  // ---------------------------------------------------------------------------

  ghost predicate OccursAt(s: string, sub: string, i: nat) {
    i + |sub| <= |s| && s[i..i + |sub|] == sub
  }

  /** `sub in s`, searched from the left. */
  function Contains(s: string, sub: string): bool
    decreases |s|
  {
    if |s| < |sub| then false
    else if s[..|sub|] == sub then true
    else Contains(s[1..], sub)
  }

  lemma {:induction false} ContainsIffOccurs(s: string, sub: string)
    ensures Contains(s, sub) <==> exists i: nat :: OccursAt(s, sub, i)
    decreases |s|
  {
    if |s| < |sub| {
    } else if s[..|sub|] == sub {
      assert OccursAt(s, sub, 0);
    } else {
      ContainsIffOccurs(s[1..], sub);
      if Contains(s[1..], sub) {
        var i: nat :| OccursAt(s[1..], sub, i);
        assert s[i + 1..i + 1 + |sub|] == s[1..][i..i + |sub|];
        assert OccursAt(s, sub, i + 1);
      } else {
        forall i: nat | OccursAt(s, sub, i)
          ensures false
        {
          if i > 0 {
            assert s[1..][i - 1..i - 1 + |sub|] == s[i..i + |sub|];
            assert OccursAt(s[1..], sub, i - 1);
          }
        }
      }
    }
  }

  /** Every character of a substring that occurs is a character of the string. */
  lemma ContainsChar(s: string, sub: string, k: nat)
    requires Contains(s, sub)
    requires k < |sub|
    ensures sub[k] in s
  {
    ContainsIffOccurs(s, sub);
    var i: nat :| OccursAt(s, sub, i);
    assert s[i + k] == sub[k];
  }

  // ---------------------------------------------------------------------------
  // `str.split()` with no argument
  // ---------------------------------------------------------------------------

  /** A non-empty run of non-whitespace characters. */
  predicate IsWord(w: string) {
    |w| > 0 && forall i :: 0 <= i < |w| ==> !IsSpace(w[i])
  }

  /** The first position at or after `i` that holds no whitespace, or `|s|`. */
  function SkipSpace(s: string, i: nat): (j: nat)
    requires i <= |s|
    ensures i <= j <= |s|
    ensures forall k :: i <= k < j ==> IsSpace(s[k])
    ensures j < |s| ==> !IsSpace(s[j])
    decreases |s| - i
  {
    if i == |s| || !IsSpace(s[i]) then i else SkipSpace(s, i + 1)
  }

  /** The first position at or after `i` that holds whitespace, or `|s|`. */
  function SkipWord(s: string, i: nat): (j: nat)
    requires i <= |s|
    ensures i <= j <= |s|
    ensures forall k :: i <= k < j ==> !IsSpace(s[k])
    ensures j < |s| ==> IsSpace(s[j])
    decreases |s| - i
  {
    if i == |s| || IsSpace(s[i]) then i else SkipWord(s, i + 1)
  }

  /** The words of `s[i..]`: skip whitespace, take a word, repeat. */
  function WordsFrom(s: string, i: nat): (ws: seq<string>)
    requires i <= |s|
    ensures forall k :: 0 <= k < |ws| ==> IsWord(ws[k])
    decreases |s| - i
  {
    var b := SkipSpace(s, i);
    if b == |s| then []
    else
      var e := SkipWord(s, b);
      assert IsWord(s[b..e]) by {
        forall k | 0 <= k < e - b ensures !IsSpace(s[b..e][k]) { assert s[b..e][k] == s[b + k]; }
      }
      [s[b..e]] + WordsFrom(s, e)
  }

  /** `s.split()`: the maximal runs of non-whitespace characters of `s`, in order (see WordsTile). */
  function Words(s: string): (ws: seq<string>)
    ensures forall k :: 0 <= k < |ws| ==> IsWord(ws[k])
  {
    WordsFrom(s, 0)
  }

  /** A run of whitespace characters, possibly empty. */
  predicate AllSpace(t: string) {
    forall i :: 0 <= i < |t| ==> IsSpace(t[i])
  }

  /** `gaps[0] + ws[0] + gaps[1] + ws[1] + ... + gaps[|ws|]`. */
  function Interleave(gaps: seq<string>, ws: seq<string>): string
    requires |gaps| == |ws| + 1
    decreases |ws|
  {
    if |ws| == 0 then gaps[0] else gaps[0] + ws[0] + Interleave(gaps[1..], ws[1..])
  }

  /** The whitespace runs around the words of `s[i..]`: before the first, between each two, after the last. */
  ghost function GapsFrom(s: string, i: nat): seq<string>
    requires i <= |s|
    decreases |s| - i
  {
    var b := SkipSpace(s, i);
    if b == |s| then [s[i..]] else [s[i..b]] + GapsFrom(s, SkipWord(s, b))
  }

  ghost function Gaps(s: string): seq<string> {
    GapsFrom(s, 0)
  }

  /** One gap more than there are words, and the first gap is the leading whitespace. */
  lemma {:induction false} GapsCountFrom(s: string, i: nat)
    requires i <= |s|
    ensures |GapsFrom(s, i)| == |WordsFrom(s, i)| + 1
    ensures GapsFrom(s, i)[0] == s[i..SkipSpace(s, i)]
    decreases |s| - i
  {
    var b := SkipSpace(s, i);
    if b < |s| {
      GapsCountFrom(s, SkipWord(s, b));
    }
  }

  lemma {:induction false} GapsAreSpaceFrom(s: string, i: nat)
    requires i <= |s|
    ensures forall g :: g in GapsFrom(s, i) ==> AllSpace(g)
    decreases |s| - i
  {
    var b := SkipSpace(s, i);
    assert AllSpace(s[i..b]) by {
      forall k | 0 <= k < b - i ensures IsSpace(s[i..b][k]) { assert s[i..b][k] == s[i + k]; }
    }
    if b < |s| {
      GapsAreSpaceFrom(s, SkipWord(s, b));
    } else {
      assert s[i..] == s[i..b];
    }
  }

  lemma {:induction false} GapsSeparateFrom(s: string, i: nat)
    requires i <= |s|
    ensures |GapsFrom(s, i)| == |WordsFrom(s, i)| + 1
    ensures forall j :: 0 < j < |WordsFrom(s, i)| ==> |GapsFrom(s, i)[j]| > 0
    decreases |s| - i
  {
    GapsCountFrom(s, i);
    var b := SkipSpace(s, i);
    if b < |s| {
      var e := SkipWord(s, b);
      GapsSeparateFrom(s, e);
      GapsCountFrom(s, e);
      if |WordsFrom(s, e)| > 0 {
        assert e < |s|;
        assert SkipSpace(s, e) > e;
      }
      forall j | 0 < j < |WordsFrom(s, i)|
        ensures |GapsFrom(s, i)[j]| > 0
      {
        assert GapsFrom(s, i)[j] == GapsFrom(s, e)[j - 1];
      }
    }
  }

  lemma {:induction false} TileFrom(s: string, i: nat)
    requires i <= |s|
    ensures |GapsFrom(s, i)| == |WordsFrom(s, i)| + 1
    ensures s[i..] == Interleave(GapsFrom(s, i), WordsFrom(s, i))
    decreases |s| - i
  {
    GapsCountFrom(s, i);
    var b := SkipSpace(s, i);
    if b == |s| {
      assert s[i..] == s[i..b];
    } else {
      var e := SkipWord(s, b);
      TileFrom(s, e);
      var gaps := GapsFrom(s, i);
      var ws := WordsFrom(s, i);
      assert gaps[0] == s[i..b] && gaps[1..] == GapsFrom(s, e);
      assert ws[0] == s[b..e] && ws[1..] == WordsFrom(s, e);
      assert Interleave(gaps, ws) == s[i..b] + s[b..e] + s[e..];
      SlicesJoin(s, i, b, e);
    }
  }

  lemma SlicesJoin(s: string, i: nat, b: nat, e: nat)
    requires i <= b <= e <= |s|
    ensures s[i..] == s[i..b] + s[b..e] + s[e..]
  {
  }

  /** Every gap is whitespace. */
  lemma GapsAreSpace(s: string)
    ensures forall g :: g in Gaps(s) ==> AllSpace(g)
  {
    GapsAreSpaceFrom(s, 0);
  }

  /** Every gap between two words is non-empty. */
  lemma GapsSeparate(s: string)
    ensures |Gaps(s)| == |Words(s)| + 1
    ensures forall j :: 0 < j < |Words(s)| ==> |Gaps(s)[j]| > 0
  {
    GapsSeparateFrom(s, 0);
  }

  /**
   * `s` is its words put back between its gaps. With GapsAreSpace and
   * GapsSeparate, and since words hold no whitespace, the words are exactly
   * the maximal runs of non-whitespace characters of `s`, in order.
   */
  lemma WordsTile(s: string)
    ensures |Gaps(s)| == |Words(s)| + 1
    ensures s == Interleave(Gaps(s), Words(s))
  {
    TileFrom(s, 0);
    assert s[0..] == s;
  }

  /**
   * A string with a non-whitespace character has a first word, and that word
   * is the first maximal run of non-whitespace characters.
   */
  lemma FirstWord(s: string, k: nat)
    requires k < |s| && !IsSpace(s[k])
    ensures var a := SkipSpace(s, 0);
            a <= k && |Words(s)| > 0 && Words(s)[0] == s[a..SkipWord(s, a)]
  {
  }

  // ---------------------------------------------------------------------------
  // `str.split(sep)` with a one-character separator
  // ---------------------------------------------------------------------------

  /** The fields of `s` between occurrences of `c`; there is always at least one. */
  function Split(s: string, c: char): (r: seq<string>)
    ensures |r| >= 1
    ensures forall i :: 0 <= i < |r| ==> c !in r[i]
    ensures |r| >= 2 <==> c in s
    decreases |s|
  {
    if s == [] then [[]]
    else
      var rest := Split(s[1..], c);
      if s[0] == c then [[]] + rest
      else [[s[0]] + rest[0]] + rest[1..]
  }

  /** `c.join(parts)`: the inverse of Split. */
  function JoinWith(parts: seq<string>, c: char): string
    requires |parts| >= 1
    decreases |parts|
  {
    if |parts| == 1 then parts[0] else parts[0] + [c] + JoinWith(parts[1..], c)
  }

  lemma {:induction false} SplitJoin(s: string, c: char)
    ensures JoinWith(Split(s, c), c) == s
    decreases |s|
  {
    if s != [] {
      var rest := Split(s[1..], c);
      SplitJoin(s[1..], c);
      if s[0] == c {
        assert Split(s, c)[1..] == rest;
      } else {
        var r := Split(s, c);
        if |rest| == 1 {
          assert r == [[s[0]] + rest[0]];
        } else {
          assert r[1..] == rest[1..];
          assert JoinWith(rest, c) == rest[0] + [c] + JoinWith(rest[1..], c);
        }
      }
    }
  }

  // ---------------------------------------------------------------------------
  // Lower-casing and `rsplit('.', 1)`
  // ---------------------------------------------------------------------------

  predicate IsUpper(c: char) {
    'A' <= c <= 'Z'
  }

  function LowerChar(c: char): char {
    if IsUpper(c) then (c as int + 32) as char else c
  }

  /** ASCII lower-casing; other characters are kept. */
  function LowerAscii(s: string): (r: string)
    ensures |r| == |s|
    ensures forall i :: 0 <= i < |r| ==> !IsUpper(r[i])
    ensures forall i :: 0 <= i < |s| ==> r[i] == LowerChar(s[i])
  {
    seq(|s|, i requires 0 <= i < |s| => LowerChar(s[i]))
  }

  /** Two characters that are equal, or an ASCII capital letter and its small letter. */
  predicate CaseMates(c: char, d: char) {
    || c == d
    || (IsUpper(c) && d as int == c as int + 32)
    || (IsUpper(d) && c as int == d as int + 32)
  }

  /** `s` and `t` are the same string up to the case of ASCII letters. */
  predicate SameUpToCase(s: string, t: string) {
    |s| == |t| && forall i :: 0 <= i < |s| ==> CaseMates(s[i], t[i])
  }

  /** Lower-casing identifies exactly the strings that differ only in the case of ASCII letters. */
  lemma LowerAsciiCaseless(s: string, t: string)
    ensures LowerAscii(s) == LowerAscii(t) <==> SameUpToCase(s, t)
  {
    if LowerAscii(s) == LowerAscii(t) {
      forall i | 0 <= i < |s|
        ensures CaseMates(s[i], t[i])
      {
        assert LowerChar(s[i]) == LowerAscii(s)[i] == LowerAscii(t)[i] == LowerChar(t[i]);
      }
    }
    if SameUpToCase(s, t) {
      forall i | 0 <= i < |s|
        ensures LowerAscii(s)[i] == LowerAscii(t)[i]
      {
        assert LowerChar(s[i]) == LowerChar(t[i]);
      }
    }
  }

  /** The position of the last occurrence of `c` in `s`, if any. */
  function LastIndexOf(s: string, c: char): (r: Option<nat>)
    ensures r.None? <==> c !in s
    ensures r.Some? ==> r.value < |s| && s[r.value] == c
    ensures r.Some? ==> forall j :: r.value < j < |s| ==> s[j] != c
    decreases |s|
  {
    if |s| == 0 then None
    else if s[|s| - 1] == c then Some(|s| - 1)
    else
      var r := LastIndexOf(s[..|s| - 1], c);
      assert c in s ==> c in s[..|s| - 1] by {
        if c in s {
          var k :| 0 <= k < |s| && s[k] == c;
          assert s[..|s| - 1][k] == c;
        }
      }
      r
  }

  // ---------------------------------------------------------------------------
  // `int(token)` for a token without whitespace
  // ---------------------------------------------------------------------------

  /**
   * The digit part accepted by `int()` in base 10: ASCII digits, with single
   * underscores allowed between two digits.
   */
  predicate DigitGroups(s: string) {
    && |s| > 0
    && IsDigit(s[0])
    && IsDigit(s[|s| - 1])
    && (forall i :: 0 <= i < |s| ==> IsDigit(s[i]) || s[i] == '_')
    && (forall i :: 0 <= i < |s| - 1 ==> s[i] == '_' ==> s[i + 1] != '_')
  }

  /** The number written by the digits of `s`, underscores skipped. */
  function DigitsValue(s: string): nat
    decreases |s|
  {
    if s == [] then 0
    else
      var high := DigitsValue(s[..|s| - 1]);
      var c := s[|s| - 1];
      if IsDigit(c) then high * 10 + (c as int - '0' as int) else high
  }

  /** `int(s)`: None where Python raises ValueError. */
  function ParseInt(s: string): Option<int> {
    if |s| > 0 && (s[0] == '+' || s[0] == '-') then
      if DigitGroups(s[1..]) then
        var v: int := DigitsValue(s[1..]);
        Some(if s[0] == '-' then -v else v)
      else None
    else if DigitGroups(s) then Some(DigitsValue(s))
    else None
  }

  function DigitChar(d: nat): char
    requires d < 10
  {
    ('0' as int + d) as char
  }

  /** `str(n)` for a natural number. */
  function Decimal(n: nat): string
    decreases n
  {
    if n < 10 then [DigitChar(n)] else Decimal(n / 10) + [DigitChar(n % 10)]
  }

  lemma {:induction false} DecimalDigits(n: nat)
    ensures |Decimal(n)| > 0
    ensures forall i :: 0 <= i < |Decimal(n)| ==> IsDigit(Decimal(n)[i])
    ensures DigitsValue(Decimal(n)) == n
    decreases n
  {
    if n >= 10 {
      DecimalDigits(n / 10);
      var s := Decimal(n);
      assert s[..|s| - 1] == Decimal(n / 10);
    }
  }

  /** `int(str(n)) == n` and `int("-" + str(n)) == -n`. */
  lemma ParseDecimal(n: nat)
    ensures ParseInt(Decimal(n)) == Some(n)
    ensures ParseInt("-" + Decimal(n)) == Some(-(n as int))
  {
    DecimalDigits(n);
    var s := Decimal(n);
    assert ("-" + s)[1..] == s;
  }

  // ---------------------------------------------------------------------------
  // `os.path.join(a, b)` on POSIX
  // ---------------------------------------------------------------------------

  predicate IsAbsolute(p: string) {
    |p| > 0 && p[0] == '/'
  }

  /** `os.path.join(a, b)` for two components. */
  function PathJoin(a: string, b: string): string {
    if IsAbsolute(b) then b
    else if a == [] || a[|a| - 1] == '/' then a + b
    else a + "/" + b
  }

  /**
   * The joined path ends with `b`; an absolute `b` replaces `a`; a relative
   * `b` lands under `a`, separated by exactly one '/' unless `a` is empty or
   * already ends in '/'.
   */
  lemma PathJoinUnder(a: string, b: string)
    ensures var r := PathJoin(a, b);
      && |b| <= |r| && r[|r| - |b|..] == b
      && (IsAbsolute(b) ==> r == b)
      && (!IsAbsolute(b) ==> a <= r)
      && (!IsAbsolute(b) && |a| > 0 && a[|a| - 1] != '/' ==> r == a + "/" + b)
  {
  }
}

/**
 The few pieces of Python's `str` that the article generator's core relies on:
 `isspace`, `strip`, `split()`, `split(sep)`, `sep.join`, `in`/`find`,
 `startswith` and `str(int)`. Strings are sequences of Unicode scalar values,
 as Python's are sequences of code points.
 */
module Text {
  import opened Wrappers

  /** The characters for which Python's `str.isspace()` holds; `split()` and `strip()` break on exactly these. */
  predicate IsSpace(c: char) {
    || c == ' '
    || ('\t' <= c <= '\r')
    || ('\U{1c}' <= c <= '\U{1f}')
    || c == '\U{85}' || c == '\U{a0}' || c == '\U{1680}'
    || ('\U{2000}' <= c <= '\U{200a}')
    || c == '\U{2028}' || c == '\U{2029}' || c == '\U{202f}' || c == '\U{205f}' || c == '\U{3000}'
  }

  /** Empty, or whitespace only. */
  predicate IsBlank(s: string) {
    forall i | 0 <= i < |s| :: IsSpace(s[i])
  }

  /** No leading and no trailing character satisfying `p`. */
  predicate TrimmedBy(s: string, p: char -> bool) {
    s == [] || (!p(s[0]) && !p(s[|s| - 1]))
  }

  /** The end of the text once the characters `p` strips are dropped from the back of `s[a..j]`. */
  function Trail(s: string, p: char -> bool, a: nat, j: nat): (b: nat)
    requires a <= j <= |s|
    ensures a <= b <= j
    ensures b > a ==> !p(s[b - 1])
    decreases j
  {
    if j > a && p(s[j - 1]) then Trail(s, p, a, j - 1) else j
  }

  /** `p` strips every character that `Trail` drops. */
  lemma {:induction false} TrailSkips(s: string, p: char -> bool, a: nat, j: nat)
    requires a <= j <= |s|
    ensures forall k | Trail(s, p, a, j) <= k < j :: p(s[k])
    decreases j
  {
    if j > a && p(s[j - 1]) {
      TrailSkips(s, p, a, j - 1);
    }
  }

  /**
   Python's `s.strip(chars)`, with the character set given as a predicate:
   the infix of `s` left once the leading and the trailing characters that
   `p` strips are dropped. Neither end of the result is a stripped
   character, and it is empty exactly when every character is stripped.
   */
  function StripBy(s: string, p: char -> bool): (r: string)
    decreases |s|
  {
    if s != [] && p(s[0]) then StripBy(s[1..], p) else s[..Trail(s, p, 0, |s|)]
  }

  lemma {:induction false} StripByShape(s: string, p: char -> bool)
    ensures TrimmedBy(StripBy(s, p), p)
    ensures StripBy(s, p) == [] <==> forall i | 0 <= i < |s| :: p(s[i])
    decreases |s|
  {
    if s != [] && p(s[0]) {
      StripByShape(s[1..], p);
      assert forall i | 1 <= i < |s| :: s[i] == s[1..][i - 1];
    } else {
      var b := Trail(s, p, 0, |s|);
      TrailSkips(s, p, 0, |s|);
      assert b > 0 ==> s[..b][0] == s[0] && s[..b][b - 1] == s[b - 1];
    }
  }

  /**
   Only characters that `p` strips are dropped, and only at the ends: the
   strip is the infix of `s` at offset `a`, everything before it and
   everything after it satisfies `p`, and neither of its ends does.
   */
  lemma {:induction false} StripByDropsEnds(s: string, p: char -> bool) returns (a: nat)
    ensures a + |StripBy(s, p)| <= |s| && StripBy(s, p) == s[a..a + |StripBy(s, p)|]
    ensures forall k | 0 <= k < a :: p(s[k])
    ensures forall k | a + |StripBy(s, p)| <= k < |s| :: p(s[k])
    decreases |s|
  {
    if s != [] && p(s[0]) {
      var a' := StripByDropsEnds(s[1..], p);
      a := a' + 1;
      assert s[1..][a'..a' + |StripBy(s, p)|] == s[a..a + |StripBy(s, p)|];
      assert forall k | 1 <= k < |s| :: s[k] == s[1..][k - 1];
    } else {
      a := 0;
      TrailSkips(s, p, 0, |s|);
    }
  }

  /** A string with no stripped character at either end is its own strip. */
  lemma StripByTrimmed(s: string, p: char -> bool)
    requires TrimmedBy(s, p)
    ensures StripBy(s, p) == s
  {
    assert Trail(s, p, 0, |s|) == |s|;
  }

  /** Python's `s.strip()`: surrounding whitespace removed. */
  function Strip(s: string): (r: string)
    ensures TrimmedBy(r, IsSpace)
    ensures r == [] <==> IsBlank(s)
  {
    StripByShape(s, IsSpace);
    StripBy(s, IsSpace)
  }

  /**
   `strip()` removes exactly the surrounding whitespace: the result is the
   infix of `s` at offset `a`, whitespace only precedes and follows it, and
   it neither starts nor ends with whitespace.
   */
  lemma StripRemovesEnds(s: string) returns (a: nat)
    ensures a + |Strip(s)| <= |s| && Strip(s) == s[a..a + |Strip(s)|]
    ensures forall k | 0 <= k < a :: IsSpace(s[k])
    ensures forall k | a + |Strip(s)| <= k < |s| :: IsSpace(s[k])
    ensures TrimmedBy(Strip(s), IsSpace)
  {
    a := StripByDropsEnds(s, IsSpace);
  }

  /** Stripping is idempotent: a string already trimmed is its own strip. */
  lemma StripTrimmed(s: string)
    requires TrimmedBy(s, IsSpace)
    ensures Strip(s) == s
  {
    StripByTrimmed(s, IsSpace);
  }

  /** `Strip(Strip(s)) == Strip(s)`. */
  lemma StripIdempotent(s: string)
    ensures Strip(Strip(s)) == Strip(s)
  {
    StripTrimmed(Strip(s));
  }

  /** A word as `str.split()` produces it: non-empty, without whitespace. */
  predicate IsWord(w: string) {
    w != [] && forall i | 0 <= i < |w| :: !IsSpace(w[i])
  }

  /** The end of the run of non-whitespace characters that starts at `i`. */
  function WordEnd(s: string, i: nat): (j: nat)
    requires i <= |s|
    ensures i <= j <= |s|
    ensures forall k | i <= k < j :: !IsSpace(s[k])
    ensures j == |s| || IsSpace(s[j])
    decreases |s| - i
  {
    if i == |s| || IsSpace(s[i]) then i else WordEnd(s, i + 1)
  }

  /**
   Python's `s.split()` without a separator: the maximal runs of
   non-whitespace characters, in order; nothing at all for blank input.
   */
  function Words(s: string): (ws: seq<string>)
    ensures forall k | 0 <= k < |ws| :: IsWord(ws[k])
    ensures ws == [] <==> IsBlank(s)
    decreases |s|
  {
    if s == [] then []
    else if IsSpace(s[0]) then
      var rest := Words(s[1..]);
      assert IsBlank(s[1..]) ==> IsBlank(s) by {
        if IsBlank(s[1..]) {
          forall i | 0 <= i < |s| ensures IsSpace(s[i]) {
            if i > 0 { assert s[i] == s[1..][i - 1]; }
          }
        }
      }
      rest
    else
      var n := WordEnd(s, 0);
      [s[..n]] + Words(s[n..])
  }

  /** Python's `sep.join(parts)`. */
  function JoinWith(sep: string, parts: seq<string>): string
  {
    if |parts| == 0 then ""
    else if |parts| == 1 then parts[0]
    else parts[0] + sep + JoinWith(sep, parts[1..])
  }

  /** Joining a concatenation of two non-empty lists puts one separator between the two joins. */
  lemma {:induction false} JoinWithAppend(sep: string, a: seq<string>, b: seq<string>)
    requires a != [] && b != []
    ensures JoinWith(sep, a + b) == JoinWith(sep, a) + sep + JoinWith(sep, b)
    decreases |a|
  {
    if |a| == 1 {
      assert (a + b)[1..] == b;
    } else {
      JoinWithAppend(sep, a[1..], b);
      assert (a + b)[1..] == a[1..] + b;
    }
  }

  /** A join begins with its first part. */
  lemma {:induction false} JoinWithStartsWithHead(sep: string, parts: seq<string>)
    requires parts != []
    ensures |parts[0]| <= |JoinWith(sep, parts)|
    ensures JoinWith(sep, parts)[..|parts[0]|] == parts[0]
  {
    if |parts| > 1 {
      var j := JoinWith(sep, parts);
      assert j == parts[0] + (sep + JoinWith(sep, parts[1..]));
    }
  }

  /** A word followed by whitespace or by nothing is split off as the first word. */
  lemma {:induction false} WordsOfLeadingWord(w: string, rest: string)
    requires IsWord(w)
    requires rest == [] || IsSpace(rest[0])
    ensures Words(w + rest) == [w] + Words(rest)
  {
    var s := w + rest;
    assert s[0] == w[0];
    assert forall k | 0 <= k < |w| :: s[k] == w[k];
    WordEndAt(s, 0, |w|);
    assert s[..|w|] == w;
    assert s[|w|..] == rest;
  }

  /** `WordEnd` stops exactly at the first whitespace at or after `i`. */
  lemma {:induction false} WordEndAt(s: string, i: nat, j: nat)
    requires i <= j <= |s|
    requires forall k | i <= k < j :: !IsSpace(s[k])
    requires j == |s| || IsSpace(s[j])
    ensures WordEnd(s, i) == j
    decreases j - i
  {
    if i < j {
      WordEndAt(s, i + 1, j);
    }
  }

  /** Splitting words joined by single spaces gives the words back. */
  lemma {:induction false} WordsOfJoin(ws: seq<string>)
    requires forall k | 0 <= k < |ws| :: IsWord(ws[k])
    ensures Words(JoinWith(" ", ws)) == ws
    decreases |ws|
  {
    if |ws| == 1 {
      WordsOfLeadingWord(ws[0], "");
      assert ws[0] + "" == ws[0];
    } else if |ws| > 1 {
      var tail := JoinWith(" ", ws[1..]);
      WordsOfJoin(ws[1..]);
      assert JoinWith(" ", ws) == ws[0] + (" " + tail);
      WordsOfLeadingWord(ws[0], " " + tail);
      assert (" " + tail)[1..] == tail;
    }
  }

  /** The position of the first `c` in `s`, or `|s|` when there is none. */
  function IndexOfChar(s: string, c: char): (i: nat)
    ensures i <= |s|
    ensures i < |s| ==> s[i] == c
    ensures forall k | 0 <= k < i :: s[k] != c
  {
    if s == [] then 0
    else if s[0] == c then 0
    else 1 + IndexOfChar(s[1..], c)
  }

  /** Python's `s.split(c)` for a one-character separator: always at least one piece, none containing `c`. */
  function Split(s: string, c: char): (parts: seq<string>)
    ensures |parts| >= 1
    ensures forall k | 0 <= k < |parts| :: c !in parts[k]
    decreases |s|
  {
    var i := IndexOfChar(s, c);
    if i == |s| then [s] else [s[..i]] + Split(s[i + 1..], c)
  }

  /** Joining the pieces of `Split` with the separator restores the string. */
  lemma {:induction false} JoinSplit(s: string, c: char)
    ensures JoinWith([c], Split(s, c)) == s
    decreases |s|
  {
    var i := IndexOfChar(s, c);
    if i < |s| {
      var parts := Split(s, c);
      var rest := Split(s[i + 1..], c);
      JoinSplit(s[i + 1..], c);
      assert parts == [s[..i]] + rest;
      assert parts[0] == s[..i] && parts[1..] == rest;
      assert JoinWith([c], parts) == s[..i] + [c] + s[i + 1..];
      assert s == s[..i] + [c] + s[i + 1..];
    }
  }

  /** `pat` occurs in `s` at position `j`. */
  predicate OccursAt(s: string, pat: string, j: int) {
    0 <= j && j + |pat| <= |s| && s[j..j + |pat|] == pat
  }

  /** An occurrence in `b` is an occurrence in `a + b`, shifted by `|a|`. */
  lemma OccursAfter(a: string, b: string, pat: string, j: int)
    requires OccursAt(b, pat, j)
    ensures OccursAt(a + b, pat, |a| + j)
  {
    assert (a + b)[|a| + j..|a| + j + |pat|] == b[j..j + |pat|];
  }

  /** Every part of a join occurs in it. */
  lemma {:induction false} JoinWithContains(sep: string, parts: seq<string>, k: nat)
    requires k < |parts|
    ensures exists j :: OccursAt(JoinWith(sep, parts), parts[k], j)
    decreases k
  {
    if k == 0 {
      JoinWithStartsWithHead(sep, parts);
      assert OccursAt(JoinWith(sep, parts), parts[0], 0);
    } else {
      JoinWithContains(sep, parts[1..], k - 1);
      var j :| OccursAt(JoinWith(sep, parts[1..]), parts[1..][k - 1], j);
      OccursAfter(parts[0] + sep, JoinWith(sep, parts[1..]), parts[k], j);
      assert JoinWith(sep, parts) == (parts[0] + sep) + JoinWith(sep, parts[1..]);
    }
  }

  /** Python's `s.find(pat, start)`: the first occurrence at or after `start`, if any. */
  function Find(s: string, pat: string, start: nat): (r: Option<nat>)
    requires start <= |s|
    ensures r.Some? ==> start <= r.value && OccursAt(s, pat, r.value)
    ensures r.Some? ==> forall j | start <= j < r.value :: !OccursAt(s, pat, j)
    ensures r.None? ==> forall j | start <= j :: !OccursAt(s, pat, j)
    decreases |s| - start
  {
    if start + |pat| > |s| then None
    else if s[start..start + |pat|] == pat then Some(start)
    else
      assert |pat| > 0;
      Find(s, pat, start + 1)
  }

  /** Python's `s.startswith(p)`. */
  predicate StartsWith(s: string, p: string) {
    |p| <= |s| && s[..|p|] == p
  }

  /** The decimal digit for `d`. */
  function DigitChar(d: nat): (c: char)
    requires d < 10
    ensures '0' <= c <= '9' && c as int - '0' as int == d
  {
    (('0' as int) + d) as char
  }

  /** A string of decimal digits. */
  predicate IsDigits(s: string) {
    forall i | 0 <= i < |s| :: '0' <= s[i] <= '9'
  }

  /** Python's `str(n)` for a non-negative integer: decimal digits without leading zeros. */
  function NatToString(n: nat): (r: string)
    ensures r != [] && IsDigits(r)
    ensures |r| > 1 ==> r[0] != '0'
    decreases n
  {
    if n < 10 then [DigitChar(n)]
    else
      var prefix := NatToString(n / 10);
      assert (prefix + [DigitChar(n % 10)])[0] == prefix[0];
      prefix + [DigitChar(n % 10)]
  }

  /** Python's `str(i)` for any integer. */
  function IntToString(i: int): string
  {
    if i < 0 then "-" + NatToString(-i) else NatToString(i)
  }

  /** The value of a string of decimal digits, as Python's `int(s)` reads it. */
  function DigitsValue(s: string): nat
    requires IsDigits(s)
  {
    if s == [] then 0
    else DigitsValue(s[..|s| - 1]) * 10 + (s[|s| - 1] as int - '0' as int)
  }

  /** Reading back the digits that `NatToString` writes gives the number. */
  lemma {:induction false} NatToStringRoundTrip(n: nat)
    ensures DigitsValue(NatToString(n)) == n
    decreases n
  {
    if n >= 10 {
      NatToStringRoundTrip(n / 10);
      var r := NatToString(n);
      assert r[..|r| - 1] == NatToString(n / 10);
    }
  }
}

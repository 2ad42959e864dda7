/** Character classes, decimal numerals and the string utilities (split on a
    separator, join, whitespace removal) that the formula and equation parsers
    are built from. Strings are sequences of characters; the input alphabet is
    ASCII upper-case letters, digits, '+', '=' and whitespace. */
module Text {

  /** Character.isUpperCase, restricted to ASCII. */
  predicate IsUpper(c: char) { 'A' <= c <= 'Z' }

  /** Character.isDigit, restricted to ASCII. */
  predicate IsDigit(c: char) { '0' <= c <= '9' }

  /** The characters of the regular-expression class \s: space, tab, newline,
      vertical tab (11), form feed (12) and carriage return. */
  predicate IsWhitespace(c: char) {
    c == ' ' || c == '\t' || c == '\n' || c == '\r' || c as int == 11 || c as int == 12
  }

  predicate AllDigits(s: string) { forall i :: 0 <= i < |s| ==> IsDigit(s[i]) }

  function DigitValue(c: char): (d: nat)
    requires IsDigit(c)
    ensures d < 10
  {
    c as int - '0' as int
  }

  function DigitChar(d: nat): (c: char)
    requires d < 10
    ensures IsDigit(c) && DigitValue(c) == d
  {
    ('0' as int + d) as char
  }

  /** The value of a run of decimal digits, as Integer.parseInt reads it
      (leading zeros are allowed). */
  function DigitsValue(s: string): nat
    requires AllDigits(s)
  {
    if s == [] then 0 else 10 * DigitsValue(s[..|s| - 1]) + DigitValue(s[|s| - 1])
  }

  /** A leading zero leaves the value unchanged, as Integer.parseInt reads "07". */
  lemma {:induction false} LeadingZero(s: string)
    requires AllDigits(s)
    ensures AllDigits(['0'] + s) && DigitsValue(['0'] + s) == DigitsValue(s)
  {
    if s != [] {
      var t := ['0'] + s;
      assert t[..|t| - 1] == ['0'] + s[..|s| - 1];
      LeadingZero(s[..|s| - 1]);
    }
  }

  function Pow10(n: nat): nat {
    if n == 0 then 1 else 10 * Pow10(n - 1)
  }

  /** A run of n digits has a value below 10^n. */
  lemma {:induction false} DigitsValueBound(s: string)
    requires AllDigits(s)
    ensures DigitsValue(s) < Pow10(|s|)
  {
    if s != [] {
      DigitsValueBound(s[..|s| - 1]);
    }
  }

  /** The decimal rendering of n, as Integer.toString writes it: at least one
      digit, no leading zero, and it reads back as n. */
  function NatToString(n: nat): (r: string)
    ensures |r| >= 1 && AllDigits(r)
    ensures n > 0 ==> r[0] != '0'
    ensures DigitsValue(r) == n
  {
    if n < 10 then [DigitChar(n)]
    else
      var prefix := NatToString(n / 10);
      var r := prefix + [DigitChar(n % 10)];
      assert r[..|r| - 1] == prefix;
      r
  }

  /** The largest index of s holding sep, or -1 when sep does not occur. */
  function LastIndexOf(s: string, sep: char): (r: int)
    ensures -1 <= r < |s|
  {
    if s == [] then -1
    else if s[|s| - 1] == sep then |s| - 1
    else LastIndexOf(s[..|s| - 1], sep)
  }

  /** LastIndexOf finds sep, and no sep follows it; -1 means sep is absent. */
  lemma {:induction false} LastIndexOfSpec(s: string, sep: char)
    ensures var r := LastIndexOf(s, sep);
      (r >= 0 ==> s[r] == sep) && forall j :: r < j < |s| ==> s[j] != sep
  {
    if s != [] && s[|s| - 1] != sep {
      LastIndexOfSpec(s[..|s| - 1], sep);
    }
  }

  /** The text with every whitespace character removed (replaceAll("\\s+", "")). */
  function StripWhitespace(s: string): (r: string)
    ensures forall i :: 0 <= i < |r| ==> !IsWhitespace(r[i])
  {
    if s == [] then []
    else
      StripWhitespace(s[..|s| - 1]) + (if IsWhitespace(s[|s| - 1]) then [] else [s[|s| - 1]])
  }

  lemma {:induction false} StripNoWhitespace(s: string)
    requires forall i :: 0 <= i < |s| ==> !IsWhitespace(s[i])
    ensures StripWhitespace(s) == s
  {
    if s != [] {
      StripNoWhitespace(s[..|s| - 1]);
    }
  }

  lemma {:induction false} StripConcat(a: string, b: string)
    ensures StripWhitespace(a + b) == StripWhitespace(a) + StripWhitespace(b)
  {
    if b != [] {
      var ab := a + b;
      assert ab[..|ab| - 1] == a + b[..|b| - 1];
      assert ab[|ab| - 1] == b[|b| - 1];
      StripConcat(a, b[..|b| - 1]);
    } else {
      assert a + b == a;
    }
  }

  /** The parts joined with sep between consecutive parts (String.join). */
  function Join(parts: seq<string>, sep: string): string
  {
    if |parts| == 0 then []
    else if |parts| == 1 then parts[0]
    else Join(parts[..|parts| - 1], sep) + sep + parts[|parts| - 1]
  }

  /** The segments of s between occurrences of sep, left to right, none
      containing sep. An empty segment stays in the result; a separator at the
      end of s leaves an empty last segment. */
  function SplitOn(s: string, sep: char): (r: seq<string>)
    ensures |r| >= 1
    decreases |s|
  {
    var k := LastIndexOf(s, sep);
    if k < 0 then [s] else SplitOn(s[..k], sep) + [s[k + 1..]]
  }

  /** No segment contains the separator, and a separator at the end of s leaves
      an empty last segment. */
  lemma {:induction false} SplitSegments(s: string, sep: char)
    ensures forall k :: 0 <= k < |SplitOn(s, sep)| ==> sep !in SplitOn(s, sep)[k]
    ensures |s| > 0 && s[|s| - 1] == sep ==> SplitOn(s, sep)[|SplitOn(s, sep)| - 1] == []
    decreases |s|
  {
    var k := LastIndexOf(s, sep);
    LastIndexOfSpec(s, sep);
    if k >= 0 {
      SplitSegments(s[..k], sep);
      var init, last := SplitOn(s[..k], sep), s[k + 1..];
      assert sep !in last;
      assert forall j :: 0 <= j < |init| ==> (init + [last])[j] == init[j];
    }
  }

  /** Joining the segments with the separator gives the text back. */
  lemma {:induction false} JoinSplit(s: string, sep: char)
    ensures Join(SplitOn(s, sep), [sep]) == s
    decreases |s|
  {
    var k := LastIndexOf(s, sep);
    LastIndexOfSpec(s, sep);
    if k >= 0 {
      var init := SplitOn(s[..k], sep);
      var r := init + [s[k + 1..]];
      assert r[..|r| - 1] == init;
      JoinSplit(s[..k], sep);
      assert s == s[..k] + [sep] + s[k + 1..];
    }
  }

  lemma {:induction false} SplitCount(s: string, sep: char)
    ensures |SplitOn(s, sep)| == multiset(s)[sep] + 1
    decreases |s|
  {
    var k := LastIndexOf(s, sep);
    LastIndexOfSpec(s, sep);
    if k < 0 {
      assert sep !in multiset(s);
    } else {
      SplitCount(s[..k], sep);
      assert s == s[..k] + [sep] + s[k + 1..];
      assert sep !in multiset(s[k + 1..]);
    }
  }

  lemma SplitNoSeparator(s: string, sep: char)
    requires sep !in s
    ensures SplitOn(s, sep) == [s]
  {
    LastIndexOfSpec(s, sep);
  }

  /** The last separator is the one with no separator after it. */
  lemma LastIndexAt(s: string, sep: char, k: int)
    requires -1 <= k < |s| && (k >= 0 ==> s[k] == sep)
    requires forall j :: k < j < |s| ==> s[j] != sep
    ensures LastIndexOf(s, sep) == k
  {
    LastIndexOfSpec(s, sep);
  }

  /** Where the last separator of a + [sep] + b sits: at |a| when b has none,
      otherwise at the last separator of b. */
  lemma LastIndexAround(a: string, b: string, sep: char)
    ensures LastIndexOf(a + [sep] + b, sep) ==
      if LastIndexOf(b, sep) < 0 then |a| else |a| + 1 + LastIndexOf(b, sep)
  {
    var s := a + [sep] + b;
    var kb := LastIndexOf(b, sep);
    LastIndexOfSpec(b, sep);
    assert forall j :: |a| < j < |s| ==> s[j] == b[j - |a| - 1];
    if kb < 0 {
      LastIndexAt(s, sep, |a|);
    } else {
      LastIndexAt(s, sep, |a| + 1 + kb);
    }
  }

  lemma AroundSlices<T>(a: seq<T>, m: T, b: seq<T>, n: nat)
    requires n <= |b|
    ensures (a + [m] + b)[..|a| + 1 + n] == a + [m] + b[..n]
    ensures (a + [m] + b)[..|a|] == a
    ensures n < |b| ==> (a + [m] + b)[|a| + 2 + n..] == b[n + 1..]
  {
  }

  lemma SeqAssoc<T>(x: seq<T>, y: seq<T>, z: seq<T>)
    ensures x + y + z == x + (y + z)
  {
  }

  /** Cutting a concatenation k places into its second part. */
  lemma ConcatSlices<T>(a: seq<T>, b: seq<T>, k: nat)
    requires k <= |b|
    ensures (a + b)[..|a| + k] == a + b[..k] && (a + b)[|a| + k..] == b[k..]
  {
  }

  lemma SplitUnfold(s: string, sep: char, k: nat)
    requires k < |s| && LastIndexOf(s, sep) == k
    ensures SplitOn(s, sep) == SplitOn(s[..k], sep) + [s[k + 1..]]
  {
  }

  lemma SplitAroundNone(a: string, b: string, sep: char)
    requires LastIndexOf(b, sep) < 0
    ensures SplitOn(a + [sep] + b, sep) == SplitOn(a, sep) + [b]
  {
    LastIndexAround(a, b, sep);
    AroundSlices(a, sep, b, |b|);
    assert b[..|b|] == b;
  }

  lemma SplitAroundLast(a: string, b: string, sep: char)
    requires LastIndexOf(b, sep) >= 0
    ensures var kb := LastIndexOf(b, sep);
      SplitOn(a + [sep] + b, sep) == SplitOn(a + [sep] + b[..kb], sep) + [b[kb + 1..]]
  {
    var s, kb := a + [sep] + b, LastIndexOf(b, sep);
    var k := |a| + 1 + kb;
    LastIndexAround(a, b, sep);
    assert LastIndexOf(s, sep) == k;
    SplitUnfold(s, sep, k);
    AroundSlices(a, sep, b, kb);
    assert s[..k] == a + [sep] + b[..kb] && s[k + 1..] == b[kb + 1..];
  }

  /** Splitting at one occurrence of sep splits the two halves independently. */
  lemma {:induction false} SplitAround(a: string, b: string, sep: char)
    ensures SplitOn(a + [sep] + b, sep) == SplitOn(a, sep) + SplitOn(b, sep)
    decreases |b|
  {
    var kb := LastIndexOf(b, sep);
    if kb < 0 {
      SplitAroundNone(a, b, sep);
    } else {
      SplitAroundLast(a, b, sep);
      SplitAround(a, b[..kb], sep);
      SplitUnfold(b, sep, kb);
      SeqAssoc(SplitOn(a, sep), SplitOn(b[..kb], sep), [b[kb + 1..]]);
    }
  }

  /** Splitting the join of separator-free parts gives the parts back. */
  lemma {:induction false} SplitJoin(parts: seq<string>, sep: char)
    requires |parts| >= 1
    requires forall k :: 0 <= k < |parts| ==> sep !in parts[k]
    ensures SplitOn(Join(parts, [sep]), sep) == parts
  {
    if |parts| == 1 {
      SplitNoSeparator(parts[0], sep);
    } else {
      var init := parts[..|parts| - 1];
      var last := parts[|parts| - 1];
      assert Join(parts, [sep]) == Join(init, [sep]) + [sep] + last;
      SplitJoin(init, sep);
      SplitAround(Join(init, [sep]), last, sep);
      SplitNoSeparator(last, sep);
      assert parts == init + [last];
    }
  }

  /** A join of parts over an alphabet, with a separator over the same
      alphabet, stays within it. */
  lemma {:induction false} JoinAlphabet(parts: seq<string>, sep: string, ok: char -> bool)
    requires forall k, i :: 0 <= k < |parts| && 0 <= i < |parts[k]| ==> ok(parts[k][i])
    requires forall i :: 0 <= i < |sep| ==> ok(sep[i])
    ensures forall i :: 0 <= i < |Join(parts, sep)| ==> ok(Join(parts, sep)[i])
  {
    if |parts| > 1 {
      var init := parts[..|parts| - 1];
      var last := parts[|parts| - 1];
      JoinAlphabet(init, sep, ok);
      var a, j := Join(init, sep), Join(parts, sep);
      assert j == a + sep + last;
      forall i | 0 <= i < |j| ensures ok(j[i]) {
        if i < |a| {
          assert j[i] == a[i];
        } else if i < |a| + |sep| {
          assert j[i] == sep[i - |a|];
        } else {
          assert j[i] == last[i - |a| - |sep|];
        }
      }
    } else if |parts| == 1 {
      assert Join(parts, sep) == parts[0];
    }
  }

  /** Removing whitespace from parts joined by " + " leaves them joined by "+". */
  lemma {:induction false} StripJoin(parts: seq<string>)
    requires forall k, i :: 0 <= k < |parts| && 0 <= i < |parts[k]| ==> !IsWhitespace(parts[k][i])
    ensures StripWhitespace(Join(parts, " + ")) == Join(parts, "+")
  {
    if |parts| == 1 {
      StripNoWhitespace(parts[0]);
    } else if |parts| > 1 {
      var init := parts[..|parts| - 1];
      var last := parts[|parts| - 1];
      assert Join(parts, " + ") == Join(init, " + ") + " + " + last;
      assert Join(parts, "+") == Join(init, "+") + "+" + last;
      StripJoin(init);
      StripConcat(Join(init, " + ") + " + ", last);
      StripConcat(Join(init, " + "), " + ");
      StripNoWhitespace(last);
      assert " + " == [' '] + ['+'] + [' '];
      StripConcat([' '] + ['+'], [' ']);
      StripConcat([' '], ['+']);
      assert StripWhitespace(" + ") == "+";
    }
  }

  /** The segments of s that end before the separator at index lo - 1; none when lo is 0. */
  function SegmentsBefore(s: string, sep: char, lo: nat): seq<string>
    requires lo <= |s|
  {
    if lo == 0 then [] else SplitOn(s[..lo - 1], sep)
  }

  /** Splitting after a separator at lo - 1 splits the two halves independently. */
  lemma SplitFrom(s: string, sep: char, lo: nat)
    requires lo <= |s|
    requires lo == 0 || s[lo - 1] == sep
    ensures SplitOn(s, sep) == SegmentsBefore(s, sep, lo) + SplitOn(s[lo..], sep)
  {
    if lo == 0 {
      assert s[lo..] == s;
    } else {
      assert s == s[..lo - 1] + [sep] + s[lo..];
      SplitAround(s[..lo - 1], s[lo..], sep);
    }
  }

  /** The first segment of t ends at the first separator, at n. */
  lemma SplitFirst(t: string, sep: char, n: nat)
    requires n <= |t|
    requires sep !in t[..n]
    requires n == |t| || t[n] == sep
    ensures SplitOn(t, sep) == [t[..n]] + (if n == |t| then [] else SplitOn(t[n + 1..], sep))
  {
    SplitNoSeparator(t[..n], sep);
    if n == |t| {
      assert t[..n] == t;
    } else {
      assert t == t[..n] + [sep] + t[n + 1..];
      SplitAround(t[..n], t[n + 1..], sep);
    }
  }

  lemma SeqParts<T>(x: seq<T>, pre: seq<T>, m: T, tail: seq<T>)
    requires x == pre + ([m] + tail)
    ensures |pre| < |x| && x[..|pre|] == pre && x[|pre|] == m
    ensures |pre| + 1 == |x| <==> tail == []
  {
    assert x[..|pre|] == pre;
  }

  /** A left-to-right scan that has passed the separators before lo and finds
      the next one at hi (or the end of s at hi) has found segment number
      |SegmentsBefore(s, sep, lo)| of SplitOn(s, sep); it is the last segment
      exactly when hi is the end of s. */
  lemma NextSegment(s: string, sep: char, lo: nat, hi: nat)
    requires lo <= hi <= |s|
    requires lo == 0 || s[lo - 1] == sep
    requires sep !in s[lo..hi]
    requires hi == |s| || s[hi] == sep
    ensures |SegmentsBefore(s, sep, lo)| < |SplitOn(s, sep)|
    ensures SplitOn(s, sep)[..|SegmentsBefore(s, sep, lo)|] == SegmentsBefore(s, sep, lo)
    ensures SplitOn(s, sep)[|SegmentsBefore(s, sep, lo)|] == s[lo..hi]
    ensures |SegmentsBefore(s, sep, lo)| + 1 == |SplitOn(s, sep)| <==> hi == |s|
  {
    var pre := SegmentsBefore(s, sep, lo);
    var rest := s[lo..];
    SplitFrom(s, sep, lo);
    assert rest[..hi - lo] == s[lo..hi];
    SplitFirst(rest, sep, hi - lo);
    var tail := if hi == |s| then [] else SplitOn(rest[hi - lo + 1..], sep);
    SeqParts(SplitOn(s, sep), pre, s[lo..hi], tail);
  }

  /** Passing the separator at hi adds the segment s[lo..hi] to those before. */
  lemma SegmentsAdvance(s: string, sep: char, lo: nat, hi: nat)
    requires lo <= hi < |s|
    requires lo == 0 || s[lo - 1] == sep
    requires sep !in s[lo..hi]
    ensures SegmentsBefore(s, sep, hi + 1) == SegmentsBefore(s, sep, lo) + [s[lo..hi]]
  {
    SplitNoSeparator(s[lo..hi], sep);
    SplitFrom(s[..hi], sep, lo);
    assert s[..hi][lo..] == s[lo..hi];
    assert lo > 0 ==> s[..hi][..lo - 1] == s[..lo - 1];
  }

  /** The state of a left-to-right scan of s for sep: the scan is at i, the
      current segment started at lo, just after a separator or at 0, no
      separator has been seen since, and n segments have been completed. */
  predicate SplitCursor(s: string, sep: char, lo: nat, i: nat, n: nat) {
    lo <= i <= |s| && (lo == 0 || s[lo - 1] == sep) && sep !in s[lo..i] &&
    n == |SegmentsBefore(s, sep, lo)|
  }

  /** Passing a character other than the separator. */
  lemma CursorSkip(s: string, sep: char, lo: nat, i: nat, n: nat)
    requires SplitCursor(s, sep, lo, i, n) && i < |s| && s[i] != sep
    ensures SplitCursor(s, sep, lo, i + 1, n)
  {
    assert s[lo..i + 1] == s[lo..i] + [s[i]];
  }

  /** Reaching a separator completes segment number n, which is s[lo..i]. */
  lemma CursorCut(s: string, sep: char, lo: nat, i: nat, n: nat)
    requires SplitCursor(s, sep, lo, i, n) && i < |s| && s[i] == sep
    ensures n + 1 < |SplitOn(s, sep)| && SplitOn(s, sep)[n] == s[lo..i]
    ensures SplitCursor(s, sep, i + 1, i + 1, n + 1)
  {
    NextSegment(s, sep, lo, i);
    SegmentsAdvance(s, sep, lo, i);
  }

  /** Reaching the end of s completes the last segment, s[lo..]. */
  lemma CursorEnd(s: string, sep: char, lo: nat, n: nat)
    requires SplitCursor(s, sep, lo, |s|, n)
    ensures n + 1 == |SplitOn(s, sep)| && SplitOn(s, sep)[n] == s[lo..]
  {
    NextSegment(s, sep, lo, |s|);
    assert s[lo..|s|] == s[lo..];
  }

  lemma PrefixSnoc<T>(s: seq<T>, n: nat)
    requires n < |s|
    ensures s[..n + 1] == s[..n] + [s[n]]
  {
  }

  /** Slicing a slice is slicing the original at shifted bounds. */
  lemma SliceOfSlice<T>(s: seq<T>, a: nat, b: nat, k: nat)
    requires a <= b <= |s| && k <= b - a
    ensures s[a..b][..k] == s[a..a + k] && s[a..b][k..] == s[a + k..b]
  {
  }
}

/** String helpers shared by every scraper version: the handful of Python
    `str` operations the scrapers use (`startswith`, `endswith`, `split`,
    `rsplit`, `strip`, `replace`, `lower`) and decimal formatting of a
    natural number (the `{i}` of an f-string). */
module Strings {

  /** Python's `s.startswith(p)`. */
  predicate StartsWith(s: string, p: string) {
    |p| <= |s| && s[..|p|] == p
  }

  /** A string whose first character is not `c` does not start with `c`. */
  lemma NotStartsWith(s: string, c: char)
    requires s != "" && s[0] != c
    ensures !StartsWith(s, [c])
  {
    assert s[..1][0] == s[0];
  }

  /** Python's `s.endswith(e)`. */
  predicate EndsWith(s: string, e: string) {
    |e| <= |s| && s[|s| - |e|..] == e
  }

  /** `m` occurs in `s` starting at index `i`. */
  predicate OccursAt(s: string, m: string, i: int) {
    0 <= i && i + |m| <= |s| && s[i..i + |m|] == m
  }

  /** Python's `m in s` for a substring `m`. */
  predicate Contains(s: string, m: string) {
    exists i | 0 <= i <= |s| - |m| :: OccursAt(s, m, i)
  }

  /** A prefix of a string that does not contain `m` does not contain it either. */
  lemma PrefixAvoids(s: string, p: string, m: string)
    requires StartsWith(s, p)
    requires !Contains(s, m)
    ensures !Contains(p, m)
  {
    forall i | OccursAt(p, m, i) ensures OccursAt(s, m, i) {
      assert s[i..i + |m|] == p[i..i + |m|];
    }
  }

  /** `s.split(sep)[0]`: the text of `s` before the first occurrence of
      `sep`, or all of `s` when `sep` does not occur.  The three ensures
      clauses pin the result down: a prefix, free of `sep`, and either all
      of `s` or followed in `s` by `sep`. */
  function Before(s: string, sep: string): (r: string)
    requires sep != ""
    ensures StartsWith(s, r)
    ensures !Contains(r, sep)
    ensures r == s || OccursAt(s, sep, |r|)
    decreases |s|
  {
    if StartsWith(s, sep) then
      assert !OccursAt("", sep, 0);
      ""
    else if s == "" then
      ""
    else
      var t := Before(s[1..], sep);
      ConsAvoids(s, t, sep);
      ConsStops(s, t, sep);
      [s[0]] + t
  }

  /** A string that does not start with `sep`, cut down to its first
      character and a `sep`-free prefix of the rest, is `sep`-free. */
  lemma ConsAvoids(s: string, t: string, sep: string)
    requires sep != "" && s != ""
    requires !StartsWith(s, sep) && StartsWith(s[1..], t) && !Contains(t, sep)
    ensures !Contains([s[0]] + t, sep)
  {
    var r := [s[0]] + t;
    assert r == s[..|r|];
    forall i | OccursAt(r, sep, i) ensures false {
      if i > 0 {
        assert r[i..i + |sep|] == t[i - 1..i - 1 + |sep|];
        assert OccursAt(t, sep, i - 1);
      }
    }
  }

  lemma ConsStops(s: string, t: string, sep: string)
    requires s != ""
    requires StartsWith(s[1..], t)
    requires t == s[1..] || OccursAt(s[1..], sep, |t|)
    ensures StartsWith(s, [s[0]] + t)
    ensures [s[0]] + t == s || OccursAt(s, sep, |t| + 1)
  {
    var r := [s[0]] + t;
    assert r == s[..|r|];
    if r != s {
      assert s[|r|..|r| + |sep|] == s[1..][|t|..|t| + |sep|];
    }
  }

  /** When `sep` does not occur in `s`, cutting at it changes nothing. */
  lemma BeforeAbsent(s: string, sep: string)
    requires sep != ""
    requires !Contains(s, sep)
    ensures Before(s, sep) == s
  {
  }

  /** Index of the first character of `s` that lies in `stop`, or `|s|`
      when there is none (Python's `find`, with "not found" read as the end). */
  function FirstIndex(s: string, stop: set<char>): (i: nat)
    ensures i <= |s|
    ensures forall k :: 0 <= k < i ==> s[k] !in stop
    ensures i < |s| ==> s[i] in stop
  {
    if s == "" then 0
    else if s[0] in stop then 0
    else 1 + FirstIndex(s[1..], stop)
  }

  /** `s.rsplit(c, 1)[-1]` (equally `s.split(c)[-1]`): the text after the
      last `c`, or all of `s` when `c` does not occur. */
  function AfterLast(s: string, c: char): (r: string)
    ensures EndsWith(s, r)
    ensures c !in r
    ensures r == s || s[|s| - |r| - 1] == c
  {
    if s == "" then ""
    else if s[|s| - 1] == c then ""
    else
      var t := AfterLast(s[..|s| - 1], c);
      var r := t + [s[|s| - 1]];
      assert s[|s| - |r|..] == s[..|s| - 1][|s| - 1 - |t|..] + [s[|s| - 1]];
      r
  }

  lemma {:induction false} AfterLastAbsent(s: string, c: char)
    requires c !in s
    ensures AfterLast(s, c) == s
  {
    if s != "" {
      AfterLastAbsent(s[..|s| - 1], c);
      assert s == s[..|s| - 1] + [s[|s| - 1]];
    }
  }

  /** The text after the last `c` lies in the last part that has a `c`
      after it, so text before a `c` does not matter. */
  lemma {:induction false} AfterLastAppend(a: string, b: string, c: char)
    requires a != [] && a[|a| - 1] == c
    ensures AfterLast(a + b, c) == AfterLast(b, c)
    decreases |b|
  {
    if b != "" {
      assert (a + b)[..|a + b| - 1] == a + b[..|b| - 1];
      if b[|b| - 1] != c {
        AfterLastAppend(a, b[..|b| - 1], c);
      }
    } else {
      assert a + b == a;
    }
  }

  /** Python's `s.split(c)` for a one-character separator (also
      JavaScript's `s.split(c)`): never empty, the pieces hold no `c`, and
      joining them back with `c` gives `s`. */
  function SplitOn(s: string, c: char): (parts: seq<string>)
    ensures |parts| >= 1
    ensures forall k :: 0 <= k < |parts| ==> c !in parts[k]
    ensures JoinWith(parts, c) == s
  {
    if s == "" then [""]
    else
      var t := SplitOn(s[1..], c);
      if s[0] == c then
        [""] + t
      else
        var parts := [[s[0]] + t[0]] + t[1..];
        assert JoinWith(parts, c) == s by {
          if |t| == 1 {
            assert t == [t[0]];
          } else {
            assert t[1..][1..] == t[2..];
            assert JoinWith(t, c) == t[0] + [c] + JoinWith(t[1..], c);
          }
        }
        parts
  }

  /** Python's `c.join(parts)` for a one-character glue. */
  function JoinWith(parts: seq<string>, c: char): string
    requires |parts| >= 1
  {
    if |parts| == 1 then parts[0] else parts[0] + [c] + JoinWith(parts[1..], c)
  }

  /** Splitting undoes joining, provided no piece holds the separator. */
  lemma {:induction false} SplitJoin(parts: seq<string>, c: char)
    requires |parts| >= 1
    requires forall k :: 0 <= k < |parts| ==> c !in parts[k]
    ensures SplitOn(JoinWith(parts, c), c) == parts
    decreases |parts|, |parts[0]|
  {
    if |parts| == 1 {
      SplitNoSep(parts[0], c);
    } else if parts[0] == "" {
      var rest := JoinWith(parts[1..], c);
      assert JoinWith(parts, c) == [c] + rest;
      assert ([c] + rest)[1..] == rest;
      SplitJoin(parts[1..], c);
      assert parts == [""] + parts[1..];
    } else {
      var s := JoinWith(parts, c);
      var p0 := parts[0][1..];
      var shorter := [p0] + parts[1..];
      assert shorter[1..] == parts[1..];
      assert s == [parts[0][0]] + JoinWith(shorter, c);
      assert s[1..] == JoinWith(shorter, c);
      SplitJoin(shorter, c);
      assert parts[0] == [parts[0][0]] + p0;
      assert parts == [[parts[0][0]] + shorter[0]] + shorter[1..];
    }
  }

  /** Joining two runs of pieces is joining each and gluing the results. */
  lemma {:induction false} JoinWithAppend(p: seq<string>, q: seq<string>, c: char)
    requires |p| >= 1 && |q| >= 1
    ensures JoinWith(p + q, c) == JoinWith(p, c) + [c] + JoinWith(q, c)
    decreases |p|
  {
    if |p| == 1 {
      assert (p + q)[1..] == q;
    } else {
      assert (p + q)[1..] == p[1..] + q;
      JoinWithAppend(p[1..], q, c);
    }
  }

  /** Splitting at one separator and then splitting both sides is
      splitting the whole. */
  lemma SplitOnSep(a: string, b: string, c: char)
    ensures SplitOn(a + [c] + b, c) == SplitOn(a, c) + SplitOn(b, c)
  {
    var p, q := SplitOn(a, c), SplitOn(b, c);
    JoinWithAppend(p, q, c);
    NoSepAppend(p, q, c);
    SplitJoin(p + q, c);
  }

  lemma NoSepAppend(p: seq<string>, q: seq<string>, c: char)
    requires forall k :: 0 <= k < |p| ==> c !in p[k]
    requires forall k :: 0 <= k < |q| ==> c !in q[k]
    ensures forall k :: 0 <= k < |p + q| ==> c !in (p + q)[k]
  {
    forall k | 0 <= k < |p + q| ensures c !in (p + q)[k] {
      if k < |p| { assert (p + q)[k] == p[k]; } else { assert (p + q)[k] == q[k - |p|]; }
    }
  }

  /** A string made only of separators splits into empty pieces. */
  lemma {:induction false} SplitAllSep(s: string, c: char)
    requires forall k :: 0 <= k < |s| ==> s[k] == c
    ensures forall k :: 0 <= k < |SplitOn(s, c)| ==> SplitOn(s, c)[k] == ""
  {
    if s != "" {
      SplitAllSep(s[1..], c);
    }
  }

  /** A trailing separator adds one empty piece at the end. */
  lemma SplitOnTrailing(s: string, c: char)
    ensures SplitOn(s + [c], c) == SplitOn(s, c) + [""]
  {
    SplitOnSep(s, "", c);
    assert s + [c] + "" == s + [c];
  }

  lemma {:induction false} SplitNoSep(s: string, c: char)
    requires c !in s
    ensures SplitOn(s, c) == [s]
  {
    if s != "" {
      SplitNoSep(s[1..], c);
      assert s == [s[0]] + s[1..];
    }
  }

  /** Python's `s.replace(pat, "")`: every occurrence of `pat`, found
      left to right without overlap, is removed. */
  function RemoveAll(s: string, pat: string): (r: string)
    requires pat != ""
    ensures |r| <= |s|
    decreases |s|
  {
    if StartsWith(s, pat) then RemoveAll(s[|pat|..], pat)
    else if s == "" then ""
    else [s[0]] + RemoveAll(s[1..], pat)
  }

  /** Text that does not hold `pat` is left alone. */
  lemma {:induction false} RemoveAllAbsent(s: string, pat: string)
    requires pat != ""
    requires !Contains(s, pat)
    ensures RemoveAll(s, pat) == s
    decreases |s|
  {
    if s != "" {
      assert !OccursAt(s, pat, 0);
      forall i | OccursAt(s[1..], pat, i) ensures OccursAt(s, pat, i + 1) {
        assert s[i + 1..i + 1 + |pat|] == s[1..][i..i + |pat|];
      }
      RemoveAllAbsent(s[1..], pat);
    }
  }

  /** An occurrence after text that cannot start one is removed too, not
      only one at the very front. */
  lemma {:induction false} RemoveAllAfter(a: string, pat: string, b: string)
    requires pat != ""
    requires pat[0] !in a
    ensures RemoveAll(a + pat + b, pat) == a + RemoveAll(b, pat)
    decreases |a|
  {
    var s := a + pat + b;
    if a == "" {
      assert s == pat + b;
      assert s[|pat|..] == b;
    } else {
      assert s[0] == a[0] != pat[0];
      assert !StartsWith(s, pat) by {
        assert s[..|pat|][0] == s[0];
      }
      assert s[1..] == a[1..] + pat + b;
      RemoveAllAfter(a[1..], pat, b);
      assert a == [a[0]] + a[1..];
      ConcatAssoc([a[0]], a[1..], RemoveAll(b, pat));
    }
  }

  lemma ConcatAssoc<T>(a: seq<T>, b: seq<T>, c: seq<T>)
    ensures (a + b) + c == a + (b + c)
  {
  }

  lemma SnocTwice<T>(a: seq<T>, x: T, y: T)
    ensures a + [x] + [y] == a + [x, y]
  {
  }

  /** The length of the run of `drop` characters that starts `s` (by
      `LeadRun`): the index where stripping from the left stops. */
  function Lead(s: string, drop: char -> bool): (i: nat)
    ensures i <= |s|
    ensures i == |s| || !drop(s[i])
  {
    if s == "" || !drop(s[0]) then 0 else 1 + Lead(s[1..], drop)
  }

  lemma {:induction false} LeadRun(s: string, drop: char -> bool)
    ensures forall k :: 0 <= k < Lead(s, drop) ==> drop(s[k])
  {
    if s != "" && drop(s[0]) {
      LeadRun(s[1..], drop);
      forall k | 1 <= k < Lead(s, drop) ensures drop(s[k]) {
        assert s[k] == s[1..][k - 1];
      }
    }
  }

  /** Where stripping from the right stops: the character before it
      does not satisfy `drop`, and (by `EndTail`) every one from there on
      does. */
  function End(s: string, drop: char -> bool): (j: nat)
    ensures j <= |s|
    ensures j == 0 || !drop(s[j - 1])
  {
    if s == "" || !drop(s[|s| - 1]) then |s| else End(s[..|s| - 1], drop)
  }

  lemma {:induction false} EndTail(s: string, drop: char -> bool)
    ensures forall k :: End(s, drop) <= k < |s| ==> drop(s[k])
  {
    if s != "" && drop(s[|s| - 1]) {
      var p := s[..|s| - 1];
      EndTail(p, drop);
      forall k | End(s, drop) <= k < |p| ensures drop(s[k]) {
        assert s[k] == p[k];
      }
    }
  }

  /** Strips from the front every character that satisfies `drop`
      (the left half of Python's `strip`). */
  function TrimLeft(s: string, drop: char -> bool): (r: string)
    ensures EndsWith(s, r)
    ensures forall k :: 0 <= k < |s| - |r| ==> drop(s[k])
    ensures r == "" || !drop(r[0])
  {
    LeadRun(s, drop);
    s[Lead(s, drop)..]
  }

  /** The run at the front of a concatenation stops inside the first part
      when that part has a kept character, and goes on into the second
      part otherwise. */
  lemma {:induction false} LeadAppend(a: string, b: string, drop: char -> bool)
    ensures Lead(a + b, drop) == if Lead(a, drop) < |a| then Lead(a, drop) else |a| + Lead(b, drop)
  {
    if a == "" {
      assert a + b == b;
    } else if drop(a[0]) {
      assert (a + b)[1..] == a[1..] + b;
      LeadAppend(a[1..], b, drop);
    }
  }

  lemma TrimLeftAppend(a: string, b: string, drop: char -> bool)
    ensures TrimLeft(a + b, drop) == if TrimLeft(a, drop) != "" then TrimLeft(a, drop) + b else TrimLeft(b, drop)
  {
    LeadAppend(a, b, drop);
    var i := Lead(a, drop);
    if i < |a| {
      assert (a + b)[i..] == a[i..] + b;
    } else {
      assert (a + b)[|a| + Lead(b, drop)..] == b[Lead(b, drop)..];
    }
  }

  /** Python's `s.strip(chars)`: both ends trimmed, the run of `drop`
      characters at the front first, then the run at the end of what is
      left. */
  function Strip(s: string, drop: char -> bool): (r: string)
    ensures r == "" || (!drop(r[0]) && !drop(r[|r| - 1]))
    ensures forall k :: 0 <= k < |r| ==> r[k] in s
  {
    var i := Lead(s, drop);
    var j := End(s[i..], drop);
    assert j > 0 ==> s[i..][j - 1] == s[i + j - 1];
    var r := s[i..i + j];
    assert forall k :: 0 <= k < |r| ==> r[k] == s[i + k];
    r
  }

  /** What stripping keeps is the slice of `s` that starts at
      `Lead(s, drop)`: every character cut off before or after it
      satisfies `drop`, and its own ends do not. */
  lemma StripSlice(s: string, drop: char -> bool)
    ensures Lead(s, drop) + |Strip(s, drop)| <= |s|
    ensures Strip(s, drop) == s[Lead(s, drop)..Lead(s, drop) + |Strip(s, drop)|]
    ensures forall k :: 0 <= k < Lead(s, drop) ==> drop(s[k])
    ensures forall k :: Lead(s, drop) + |Strip(s, drop)| <= k < |s| ==> drop(s[k])
  {
    var i := Lead(s, drop);
    LeadRun(s, drop);
    EndTail(s[i..], drop);
    DroppedAfter(s, drop, i, End(s[i..], drop));
  }

  /** What is cut from the end of the slice `s[i..]` is cut from the end
      of `s`. */
  lemma DroppedAfter(s: string, drop: char -> bool, i: nat, j: nat)
    requires i + j <= |s|
    requires forall k :: j <= k < |s[i..]| ==> drop(s[i..][k])
    ensures forall k :: i + j <= k < |s| ==> drop(s[k])
  {
    forall k | i + j <= k < |s| ensures drop(s[k]) {
      assert s[k] == s[i..][k - i];
    }
  }

  /** Stripping a string whose ends are kept leaves it alone. */
  lemma StripUntouched(s: string, drop: char -> bool)
    requires s != "" && !drop(s[0]) && !drop(s[|s| - 1])
    ensures Strip(s, drop) == s
  {
  }

  /** The characters Python's `str.isspace` accepts; the argument-less
      `strip()` and `split()` use this set. */
  predicate IsPySpace(c: char) {
    c == ' ' || ('\t' <= c <= '\r') || ('\U{1c}' <= c <= '\U{1f}')
    || c == '\U{85}' || c == '\U{a0}' || c == '\U{1680}'
    || ('\U{2000}' <= c <= '\U{200a}') || c == '\U{2028}' || c == '\U{2029}'
    || c == '\U{202f}' || c == '\U{205f}' || c == '\U{3000}'
  }

  /** The characters of JavaScript's `String.prototype.trim` and the regular
      expression class `\s` (white space and line terminators). */
  predicate IsJsSpace(c: char) {
    c == ' ' || ('\t' <= c <= '\r') || c == '\U{a0}' || c == '\U{1680}'
    || ('\U{2000}' <= c <= '\U{200a}') || c == '\U{2028}' || c == '\U{2029}'
    || c == '\U{202f}' || c == '\U{205f}' || c == '\U{3000}' || c == '\U{feff}'
  }

  /** Python's argument-less `s.strip()`. */
  function StripSpace(s: string): (r: string)
    ensures r == "" || (!IsPySpace(r[0]) && !IsPySpace(r[|r| - 1]))
  {
    Strip(s, IsPySpace)
  }

  /** `strip()` removes exactly the white space at both ends: the result
      is the slice of `s` after its leading white space, and everything
      cut off after that slice is white space too. */
  lemma StripSpaceSlice(s: string)
    ensures var i, r := Lead(s, IsPySpace), StripSpace(s);
            && i + |r| <= |s| && r == s[i..i + |r|]
            && (forall k :: 0 <= k < i ==> IsPySpace(s[k]))
            && (forall k :: i + |r| <= k < |s| ==> IsPySpace(s[k]))
            && (r == "" <==> forall k :: 0 <= k < |s| ==> IsPySpace(s[k]))
  {
    StripSlice(s, IsPySpace);
    var i, r := Lead(s, IsPySpace), StripSpace(s);
    if r != "" {
      assert s[i] == r[0];
    }
  }

  /** The longest prefix of `s` with no character satisfying `stop`. */
  function TakeUntil(s: string, stop: char -> bool): (r: string)
    ensures StartsWith(s, r)
    ensures forall k :: 0 <= k < |r| ==> !stop(r[k])
    ensures r == s || stop(s[|r|])
  {
    if s == "" || stop(s[0]) then ""
    else
      var r := [s[0]] + TakeUntil(s[1..], stop);
      assert s[..|r|] == [s[0]] + s[1..][..|r| - 1];
      r
  }

  predicate IsAsciiUpper(c: char) { 'A' <= c <= 'Z' }
  predicate IsAsciiLower(c: char) { 'a' <= c <= 'z' }
  predicate IsAsciiLetter(c: char) { IsAsciiUpper(c) || IsAsciiLower(c) }
  predicate IsDigit(c: char) { '0' <= c <= '9' }

  function LowerChar(c: char): (d: char)
    ensures !IsAsciiUpper(d)
    ensures IsAsciiUpper(c) ==> d as int == c as int + 32
    ensures !IsAsciiUpper(c) ==> d == c
  {
    if IsAsciiUpper(c) then (c as int + 32) as char else c
  }

  /** Python's `s.lower()` restricted to ASCII letters. */
  function Lower(s: string): (r: string)
    ensures |r| == |s|
    ensures forall k :: 0 <= k < |s| ==> r[k] == LowerChar(s[k])
  {
    seq(|s|, k requires 0 <= k < |s| => LowerChar(s[k]))
  }

  function DigitChar(d: nat): (c: char)
    requires d < 10
    ensures IsDigit(c)
  {
    ('0' as int + d) as char
  }

  /** Decimal notation of `n`, as Python's `str(n)` and f-strings print it. */
  function NatToString(n: nat): (r: string)
    ensures |r| >= 1
    ensures forall k :: 0 <= k < |r| ==> IsDigit(r[k])
  {
    if n < 10 then [DigitChar(n)] else NatToString(n / 10) + [DigitChar(n % 10)]
  }

  /** Reads a string of decimal digits back as a number. */
  function ParseDigits(s: string): nat
    requires forall k :: 0 <= k < |s| ==> IsDigit(s[k])
  {
    if s == "" then 0
    else
      assert IsDigit(s[|s| - 1]);
      ParseDigits(s[..|s| - 1]) * 10 + (s[|s| - 1] as int - '0' as int)
  }

  /** Decimal printing is undone by reading the digits back. */
  lemma {:induction false} ParsePrinted(n: nat)
    ensures ParseDigits(NatToString(n)) == n
  {
    if n >= 10 {
      var s := NatToString(n);
      assert s[..|s| - 1] == NatToString(n / 10);
      ParsePrinted(n / 10);
    }
  }

  /** Different numbers print differently. */
  lemma PrintedInjective(m: nat, n: nat)
    requires NatToString(m) == NatToString(n)
    ensures m == n
  {
    ParsePrinted(m);
    ParsePrinted(n);
  }
}

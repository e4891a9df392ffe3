/** `safe_folder_name`: the per-page download folder name of versions 2
    to 4, built from the page URL's host and the last segment of its path. */
module Folder {
  import opened Strings
  import opened Url

  /** The characters the regular expression `[^A-Za-z0-9._-]+` leaves alone. */
  predicate AllowedChar(c: char) {
    IsAsciiLetter(c) || IsDigit(c) || c == '.' || c == '_' || c == '-'
  }

  predicate NotAllowed(c: char) {
    !AllowedChar(c)
  }

  /** The characters `strip("._-")` removes from both ends. */
  predicate EdgeChar(c: char) {
    c == '.' || c == '_' || c == '-'
  }

  /** `re.sub(r"[^A-Za-z0-9._-]+", "_", s)`: every maximal run of
      characters outside the allowed set becomes a single `_`. */
  function Sanitize(s: string): (r: string)
    ensures forall k :: 0 <= k < |r| ==> AllowedChar(r[k])
    ensures |r| <= |s|
    decreases |s|
  {
    if s == "" then ""
    else if AllowedChar(s[0]) then [s[0]] + Sanitize(s[1..])
    else
      "_" + Sanitize(TrimLeft(s, NotAllowed))
  }

  /** Substitution changes a name exactly when it holds a character
      outside the allowed set; so substituting twice is substituting once. */
  lemma {:induction false} SanitizeFixed(s: string)
    ensures Sanitize(s) == s <==> forall k :: 0 <= k < |s| ==> AllowedChar(s[k])
    decreases |s|
  {
    if s != "" && AllowedChar(s[0]) {
      SanitizeFixed(s[1..]);
      assert forall k :: 0 <= k < |s[1..]| ==> s[1..][k] == s[k + 1];
      if forall k :: 0 <= k < |s| ==> AllowedChar(s[k]) {
        assert s == [s[0]] + s[1..];
      }
    }
  }

  /** A whole run of characters outside the allowed set becomes one `_`. */
  lemma SanitizeRun(run: string)
    requires run != ""
    requires forall k :: 0 <= k < |run| ==> NotAllowed(run[k])
    ensures Sanitize(run) == "_"
  {
    assert TrimLeft(run, NotAllowed) == "";
  }

  /** Substitution works run by run: a name cut where an allowed character
      touches the cut is substituted piece by piece. */
  lemma {:induction false} SanitizeAppend(a: string, b: string)
    requires (a != "" && AllowedChar(a[|a| - 1])) || (b != "" && AllowedChar(b[0]))
    ensures Sanitize(a + b) == Sanitize(a) + Sanitize(b)
    decreases |a|, 1
  {
    if a == "" {
      assert a + b == b;
    } else if AllowedChar(a[0]) {
      SanitizeAppendAllowed(a, b);
    } else {
      if TrimLeft(a, NotAllowed) == "" {
        SanitizeAppendWhole(a, b);
      } else {
        SanitizeAppendPart(a, b);
      }
    }
  }

  /** The case where `a` starts with an allowed character. */
  lemma {:induction false} SanitizeAppendAllowed(a: string, b: string)
    requires (a != "" && AllowedChar(a[|a| - 1])) || (b != "" && AllowedChar(b[0]))
    requires a != "" && AllowedChar(a[0])
    ensures Sanitize(a + b) == Sanitize(a) + Sanitize(b)
    decreases |a|, 0
  {
    var a' := a[1..];
    SanitizeAllowedFirst(a, b);
    if a' != "" {
      assert a'[|a'| - 1] == a[|a| - 1];
      SanitizeAppend(a', b);
    }
  }

  /** The case where all of `a` is one run, which the allowed first
      character of `b` ends. */
  lemma SanitizeAppendWhole(a: string, b: string)
    requires (a != "" && AllowedChar(a[|a| - 1])) || (b != "" && AllowedChar(b[0]))
    requires a != "" && !AllowedChar(a[0]) && TrimLeft(a, NotAllowed) == ""
    ensures Sanitize(a + b) == Sanitize(a) + Sanitize(b)
  {
    assert NotAllowed(a[|a| - 1]);
    SanitizeRun(a);
    SanitizeRunThenAllowed(a, b);
  }

  /** The case where the run `a` starts with ends inside `a`. */
  lemma {:induction false} SanitizeAppendPart(a: string, b: string)
    requires (a != "" && AllowedChar(a[|a| - 1])) || (b != "" && AllowedChar(b[0]))
    requires a != "" && !AllowedChar(a[0]) && TrimLeft(a, NotAllowed) != ""
    ensures Sanitize(a + b) == Sanitize(a) + Sanitize(b)
    decreases |a|, 0
  {
    var t := TrimLeft(a, NotAllowed);
    assert a[|a| - |t|..] == t;
    assert t[|t| - 1] == a[|a| - 1];
    SanitizeRunFirst(a, b);
    SanitizeAppend(t, b);
  }

  lemma SanitizeAllowedFirst(a: string, b: string)
    requires a != "" && AllowedChar(a[0])
    ensures Sanitize(a + b) == [a[0]] + Sanitize(a[1..] + b)
    ensures Sanitize(a) + Sanitize(b) == [a[0]] + (Sanitize(a[1..]) + Sanitize(b))
    ensures a[1..] == "" ==> Sanitize(a + b) == Sanitize(a) + Sanitize(b)
  {
    assert (a + b)[1..] == a[1..] + b;
    ConcatAssoc([a[0]], Sanitize(a[1..]), Sanitize(b));
    if a[1..] == "" {
      assert a[1..] + b == b;
    }
  }

  /** A name starting with a run that stops inside `a` is `_` and the rest. */
  lemma SanitizeRunFirst(a: string, b: string)
    requires a != "" && !AllowedChar(a[0])
    requires TrimLeft(a, NotAllowed) != ""
    ensures Sanitize(a) + Sanitize(b) == "_" + (Sanitize(TrimLeft(a, NotAllowed)) + Sanitize(b))
    ensures Sanitize(a + b) == "_" + Sanitize(TrimLeft(a, NotAllowed) + b)
  {
    TrimLeftAppend(a, b, NotAllowed);
    assert (a + b)[0] == a[0];
    ConcatAssoc("_", Sanitize(TrimLeft(a, NotAllowed)), Sanitize(b));
  }

  /** A whole run of `a` followed by an allowed character is one `_`. */
  lemma SanitizeRunThenAllowed(a: string, b: string)
    requires a != "" && !AllowedChar(a[0])
    requires TrimLeft(a, NotAllowed) == ""
    requires b != "" && AllowedChar(b[0])
    ensures Sanitize(a + b) == "_" + Sanitize(b)
  {
    TrimLeftAppend(a, b, NotAllowed);
    assert (a + b)[0] == a[0];
  }

  lemma SanitizeIdempotent(s: string)
    ensures Sanitize(Sanitize(s)) == Sanitize(s)
  {
    SanitizeFixed(Sanitize(s));
  }

  /** The non-empty pieces, in order (`[seg for seg in parts if seg]`). */
  function NonEmpty(parts: seq<string>): (r: seq<string>)
    ensures forall k :: 0 <= k < |r| ==> r[k] != ""
    ensures forall x :: x in r <==> x in parts && x != ""
  {
    if parts == [] then []
    else
      var init := NonEmpty(parts[..|parts| - 1]);
      var x := parts[|parts| - 1];
      assert forall y :: y in parts <==> y in parts[..|parts| - 1] || y == x;
      if x == "" then init else init + [x]
  }

  /** Filtering keeps the order: the pieces of two runs are filtered
      one run after the other. */
  lemma {:induction false} NonEmptyAppend(p: seq<string>, q: seq<string>)
    ensures NonEmpty(p + q) == NonEmpty(p) + NonEmpty(q)
    decreases |q|
  {
    if q == [] {
      assert p + q == p;
    } else {
      var q' := q[..|q| - 1];
      assert (p + q)[..|p + q| - 1] == p + q';
      NonEmptyAppend(p, q');
    }
  }

  /** Only empty pieces: nothing is left. */
  lemma {:induction false} NonEmptyBlank(parts: seq<string>)
    requires forall k :: 0 <= k < |parts| ==> parts[k] == ""
    ensures NonEmpty(parts) == []
  {
    if parts != [] {
      NonEmptyBlank(parts[..|parts| - 1]);
    }
  }

  /** The host with every `www.` removed, or `site` when nothing is left. */
  function HostPart(netloc: string): (h: string)
    ensures h != ""
  {
    var h := RemoveAll(netloc, "www.");
    if h == "" then "site" else h
  }

  /** A host without `www.` is used as it is. */
  lemma HostPartPlain(netloc: string)
    requires netloc != "" && !Contains(netloc, "www.")
    ensures HostPart(netloc) == netloc
  {
    RemoveAllAbsent(netloc, "www.");
  }

  /** `www.` is removed wherever it occurs, not only at the front: after a
      label without `w`, and then from the rest of the host as well. */
  lemma HostPartInner(sub: string, rest: string)
    requires 'w' !in sub
    requires sub != "" || RemoveAll(rest, "www.") != ""
    ensures HostPart(sub + "www." + rest) == sub + RemoveAll(rest, "www.")
  {
    RemoveAllAfter(sub, "www.", rest);
  }

  /** The last non-empty path segment up to its first dot, `home` when
      the path has no non-empty segment. */
  function LastPart(path: string): (r: string)
    ensures !Contains(r, ".") && '/' !in r
    ensures (forall k :: 0 <= k < |path| ==> path[k] == '/') ==> r == Home
  {
    var parts := SplitOn(path, '/');
    var segs := NonEmpty(parts);
    var last := if segs == [] then Home else segs[|segs| - 1];
    assert (forall k :: 0 <= k < |path| ==> path[k] == '/') ==> segs == [] by {
      if forall k :: 0 <= k < |path| ==> path[k] == '/' {
        SplitAllSep(path, '/');
        NonEmptyBlank(parts);
      }
    }
    HomeHasNoDot();
    assert '/' !in last by {
      if segs != [] {
        assert last in segs;
        assert last in parts;
      }
    }
    var r := Before(last, ".");
    assert r == last[..|r|];
    r
  }

  /** The name used for a path without a non-empty segment. */
  const Home: string := "home"

  lemma HomeHasNoDot()
    ensures Before(Home, ".") == Home
  {
    forall i | 0 <= i <= |Home| - 1 ensures !OccursAt(Home, ".", i) {
      assert Home[i] != '.';
    }
    BeforeAbsent(Home, ".");
  }

  /** The name comes from the last non-empty segment, cut at its first
      dot, whatever comes before it and however many slashes end the path. */
  lemma LastPartOfSegment(dir: string, seg: string, tail: string)
    requires seg != "" && '/' !in seg
    requires forall k :: 0 <= k < |tail| ==> tail[k] == '/'
    ensures LastPart(dir + "/" + seg + tail) == Before(seg, ".")
  {
    PathSegments(dir, seg, tail);
    var segs := NonEmpty(SplitOn(dir + "/" + seg + tail, '/'));
    assert segs[|segs| - 1] == seg;
  }

  lemma PathSegments(dir: string, seg: string, tail: string)
    requires seg != "" && '/' !in seg
    requires forall k :: 0 <= k < |tail| ==> tail[k] == '/'
    ensures NonEmpty(SplitOn(dir + "/" + seg + tail, '/')) == NonEmpty(SplitOn(dir, '/')) + [seg]
  {
    assert dir + "/" + seg + tail == dir + ['/'] + (seg + tail);
    SplitOnSep(dir, seg + tail, '/');
    SegmentPieces(seg, tail);
    NonEmptyAppend(SplitOn(dir, '/'), SplitOn(seg + tail, '/'));
  }

  /** A segment followed by slashes leaves just that segment. */
  lemma SegmentPieces(seg: string, tail: string)
    requires seg != "" && '/' !in seg
    requires forall k :: 0 <= k < |tail| ==> tail[k] == '/'
    ensures NonEmpty(SplitOn(seg + tail, '/')) == [seg]
  {
    assert NonEmpty([seg]) == [seg] by {
      assert [seg][..0] == [];
    }
    if tail == "" {
      assert seg + tail == seg;
      SplitNoSep(seg, '/');
    } else {
      var blanks := SplitOn(tail[1..], '/');
      SplitSegmentTail(seg, tail);
      SplitAllSep(tail[1..], '/');
      NonEmptyAppend([seg], blanks);
      NonEmptyBlank(blanks);
    }
  }

  lemma SplitSegmentTail(seg: string, tail: string)
    requires '/' !in seg
    requires tail != "" && tail[0] == '/'
    ensures SplitOn(seg + tail, '/') == [seg] + SplitOn(tail[1..], '/')
  {
    assert seg + tail == seg + ['/'] + tail[1..];
    SplitOnSep(seg, tail[1..], '/');
    SplitNoSep(seg, '/');
  }

  /** The last two steps of `safe_folder_name`: substitute, strip the
      edges, and fall back to `site_home` when nothing is left. */
  function SafeName(name: string): (r: string)
    ensures r != ""
    ensures forall k :: 0 <= k < |r| ==> AllowedChar(r[k])
    ensures !EdgeChar(r[0]) && !EdgeChar(r[|r| - 1])
  {
    var s := Sanitize(name);
    var cleaned := Strip(s, EdgeChar);
    StripKeeps(s, EdgeChar, AllowedChar);
    FallbackSafe();
    if cleaned == "" then Fallback else cleaned
  }

  /** The name used when nothing survives substitution and stripping. */
  const Fallback: string := "site_home"

  lemma FallbackSafe()
    ensures Fallback != "" && !EdgeChar(Fallback[0]) && !EdgeChar(Fallback[|Fallback| - 1])
    ensures forall k :: 0 <= k < |Fallback| ==> AllowedChar(Fallback[k])
  {
    forall k | 0 <= k < |Fallback| ensures AllowedChar(Fallback[k]) {
      assert k == 4 || IsAsciiLower(Fallback[k]);
    }
  }

  /** `safe_folder_name`: never empty, made only of `[A-Za-z0-9._-]`, and
      neither starting nor ending with `.`, `_` or `-`. */
  function SafeFolderName(url: string): (r: string)
    ensures r != ""
    ensures forall k :: 0 <= k < |r| ==> AllowedChar(r[k])
    ensures !EdgeChar(r[0]) && !EdgeChar(r[|r| - 1])
  {
    SafeName(HostPart(NetlocOf(url)) + "_" + LastPart(PathOf(url)))
  }

  /** A name that is already safe is kept as it is. */
  lemma SafeNameOfSafe(name: string)
    requires name != ""
    requires forall k :: 0 <= k < |name| ==> AllowedChar(name[k])
    requires !EdgeChar(name[0]) && !EdgeChar(name[|name| - 1])
    ensures SafeName(name) == name
  {
    SanitizeFixed(name);
    StripUntouched(name, EdgeChar);
  }

  /** When the host and the last segment are already safe, the folder
      name is exactly `host_last`. */
  lemma SafeFolderNameOfSafeParts(url: string)
    requires var h := HostPart(NetlocOf(url));
             (forall k :: 0 <= k < |h| ==> AllowedChar(h[k])) && !EdgeChar(h[0])
    requires var l := LastPart(PathOf(url));
             (forall k :: 0 <= k < |l| ==> AllowedChar(l[k])) && l != "" && !EdgeChar(l[|l| - 1])
    ensures SafeFolderName(url) == HostPart(NetlocOf(url)) + "_" + LastPart(PathOf(url))
  {
    SafeNameOfSafeJoin(HostPart(NetlocOf(url)), LastPart(PathOf(url)));
  }

  lemma SafeNameOfSafeJoin(h: string, l: string)
    requires h != "" && (forall k :: 0 <= k < |h| ==> AllowedChar(h[k])) && !EdgeChar(h[0])
    requires l != "" && (forall k :: 0 <= k < |l| ==> AllowedChar(l[k])) && !EdgeChar(l[|l| - 1])
    ensures SafeName(h + "_" + l) == h + "_" + l
  {
    var name := h + "_" + l;
    forall k | 0 <= k < |name| ensures AllowedChar(name[k]) {
      if k < |h| { assert name[k] == h[k]; }
      else if k > |h| { assert name[k] == l[k - |h| - 1]; }
    }
    assert name[0] == h[0] && name[|name| - 1] == l[|l| - 1];
    SafeNameOfSafe(name);
  }

  /** Every character that survives stripping was in the input. */
  lemma StripKeeps(s: string, drop: char -> bool, keep: char -> bool)
    requires forall k :: 0 <= k < |s| ==> keep(s[k])
    ensures forall k :: 0 <= k < |Strip(s, drop)| ==> keep(Strip(s, drop)[k])
  {
    var r := Strip(s, drop);
    forall k | 0 <= k < |r| ensures keep(r[k]) {
      var j :| 0 <= j < |s| && s[j] == r[k];
    }
  }
}

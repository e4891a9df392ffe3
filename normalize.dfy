/** URL cleaning and image classification, identical in all four scraper
    versions (`clean`, `is_img`), and the two ways a raw attribute value
    becomes an image URL: the `add` closure of versions 1 to 3 and
    `normalize_to_img` of version 4. */
module Normalize {
  import opened Strings
  import opened Url

  datatype Option<T> = None | Some(value: T)

  /** The tracking suffix that marks an image-operation URL tail. */
  const OpMarker: string := "__op__"

  /** The image extensions, lower case (`EXTS`). */
  const Exts: seq<string> := [".png", ".jpg", ".jpeg", ".webp", ".gif"]

  /** `clean`: cut at the first `__op__`, then at the first `?`.  The
      result is a prefix of the input holding neither marker. */
  function Clean(u: string): (r: string)
    ensures StartsWith(u, r)
    ensures !Contains(r, OpMarker)
    ensures !Contains(r, "?")
  {
    var a := Before(u, OpMarker);
    var r := Before(a, "?");
    PrefixAvoids(a, r, OpMarker);
    assert u[..|r|] == a[..|r|];
    r
  }

  /** Cleaning twice is cleaning once. */
  lemma CleanIdempotent(u: string)
    ensures Clean(Clean(u)) == Clean(u)
  {
    var c := Clean(u);
    BeforeAbsent(c, OpMarker);
    BeforeAbsent(c, "?");
  }

  /** A cleaned URL is cut no further: `Clean` changes a URL exactly when
      it holds `__op__` or `?`. */
  lemma CleanFixedPoint(u: string)
    ensures Clean(u) == u <==> !Contains(u, OpMarker) && !Contains(u, "?")
  {
    if !Contains(u, OpMarker) && !Contains(u, "?") {
      BeforeAbsent(u, OpMarker);
      BeforeAbsent(u, "?");
    }
  }

  /** `is_img`: the lower-cased path of the URL ends with an image
      extension; that is, the path itself ends with one of the five
      extensions once its ASCII letters are lower-cased. */
  predicate IsImg(u: string)
    ensures IsImg(u) <==> exists e :: e in Exts && EndsWithIgnoringCase(PathOf(u), e)
  {
    var p := PathOf(u);
    assert forall e :: e in Exts ==> (EndsWith(Lower(p), e) <==> EndsWithIgnoringCase(p, e)) by {
      forall e | e in Exts ensures EndsWith(Lower(p), e) <==> EndsWithIgnoringCase(p, e) {
        EndsWithLower(p, e);
      }
    }
    exists e :: e in Exts && EndsWith(Lower(p), e)
  }

  /** Two paths that differ only in the case of ASCII letters. */
  predicate SameIgnoringCase(a: string, b: string) {
    |a| == |b| && forall k :: 0 <= k < |a| ==> LowerChar(a[k]) == LowerChar(b[k])
  }

  /** The case of the path, and so of the extension, never matters. */
  lemma IsImgIgnoresCase(u: string, v: string)
    requires SameIgnoringCase(PathOf(u), PathOf(v))
    ensures IsImg(u) <==> IsImg(v)
  {
    assert Lower(PathOf(u)) == Lower(PathOf(v));
  }

  lemma EndsWithLower(p: string, e: string)
    ensures EndsWith(Lower(p), e) <==> EndsWithIgnoringCase(p, e)
  {
    if |e| <= |p| {
      var tail := Lower(p)[|p| - |e|..];
      assert forall k :: 0 <= k < |e| ==> tail[k] == LowerChar(p[|p| - |e| + k]);
      if EndsWithIgnoringCase(p, e) {
        assert tail == e;
      }
    }
  }

  /** `s` ends with `e` once ASCII letters of `s` are lower-cased. */
  predicate EndsWithIgnoringCase(s: string, e: string) {
    |e| <= |s| && forall k :: 0 <= k < |e| ==> LowerChar(s[|s| - |e| + k]) == e[k]
  }

  /** Version 4's `normalize_to_img`: empty input is skipped; otherwise the
      input is stripped, a protocol-relative `//…` gets `https:`, the
      result is resolved against the page URL, cleaned and kept only when
      it names an image.  What it returns is an image URL that cleaning
      leaves alone. */
  function NormalizeToImg(raw: string, base: string): (r: Option<string>)
    ensures raw == "" ==> r == None
    ensures r.Some? ==> IsImg(r.value) && Clean(r.value) == r.value
    ensures r.Some? <==> raw != "" && IsImg(Clean(Join(base, WithScheme(StripSpace(raw)))))
    ensures r.Some? ==> r.value == Clean(Join(base, WithScheme(StripSpace(raw))))
  {
    if raw == "" then None
    else
      var s := WithScheme(StripSpace(raw));
      var cu := Clean(Join(base, s));
      CleanIdempotent(Join(base, s));
      if IsImg(cu) then Some(cu) else None
  }

  /** A protocol-relative reference `//host/...` gets `https:` in front;
      anything else is left as it is. */
  function WithScheme(s: string): (r: string)
    ensures StartsWith(s, "//") ==> r == "https:" + s
    ensures !StartsWith(s, "//") ==> r == s
  {
    if StartsWith(s, "//") then "https:" + s else s
  }

  /** An image URL that is already absolute, clean and stripped is
      normalized to itself, whatever the page URL: normalizing is
      idempotent on its own results of that shape. */
  lemma NormalizeImageUrl(p: Parts, base: string)
    requires WellFormed(p) && p.scheme in UsesNetloc
    requires Clean(Unsplit(p)) == Unsplit(p) && IsImg(Unsplit(p))
    requires !IsPySpace(Unsplit(p)[|Unsplit(p)| - 1])
    ensures NormalizeToImg(Unsplit(p), base) == Some(Unsplit(p))
    ensures NormalizeStatic(Some(Unsplit(p)), base) == Some(Unsplit(p))
  {
    var u := Unsplit(p);
    AbsoluteUrlStripped(p);
    JoinAbsolute(p, base);
    NormalizeFixed(u, base);
  }

  /** A URL that stripping, `https:`, resolving and cleaning all leave
      alone, and that names an image, normalizes to itself. */
  lemma NormalizeFixed(u: string, base: string)
    requires u != "" && StripSpace(u) == u && !StartsWith(u, "//")
    requires Join(base, u) == u && Clean(u) == u && IsImg(u)
    ensures NormalizeToImg(u, base) == Some(u)
    ensures NormalizeStatic(Some(u), base) == Some(u)
  {
    assert WithScheme(u) == u;
  }

  /** A written-out URL starts with its scheme, so stripping it leaves it
      alone when its last character is not white space. */
  lemma AbsoluteUrlStripped(p: Parts)
    requires WellFormed(p)
    requires !IsPySpace(Unsplit(p)[|Unsplit(p)| - 1])
    ensures StripSpace(Unsplit(p)) == Unsplit(p)
    ensures !StartsWith(Unsplit(p), "//")
  {
    var u := Unsplit(p);
    assert IsAsciiLower(u[0]) by {
      UnsplitFirst(p);
    }
    LetterFirst(u);
  }

  lemma LetterFirst(u: string)
    requires u != "" && IsAsciiLower(u[0]) && !IsPySpace(u[|u| - 1])
    ensures StripSpace(u) == u && !StartsWith(u, "//")
  {
    StripUntouched(u, IsPySpace);
  }

  /** The value versions 1 to 3 hand to `add`, through their `add` closure
      up to the membership test: absent or empty values are skipped, the
      rest is stripped, resolved against the page URL, cleaned, and kept
      only when it names an image. */
  function NormalizeStatic(raw: Option<string>, base: string): (r: Option<string>)
    ensures (raw == None || raw == Some("")) ==> r == None
    ensures r.Some? ==> IsImg(r.value) && Clean(r.value) == r.value
    ensures r.Some? <==> raw.Some? && raw.value != "" && IsImg(Clean(Join(base, StripSpace(raw.value))))
    ensures r.Some? ==> r.value == Clean(Join(base, StripSpace(raw.value)))
  {
    match raw
    case None => None
    case Some(v) =>
      if v == "" then None
      else
        var cu := Clean(Join(base, StripSpace(v)));
        CleanIdempotent(Join(base, StripSpace(v)));
        if IsImg(cu) then Some(cu) else None
  }

  /** Input made only of white space is not skipped: it strips to the
      empty reference, which `urljoin` resolves to the page URL itself. */
  lemma BlankRawIsPageUrl(raw: string, base: string)
    requires raw != "" && StripSpace(raw) == ""
    ensures NormalizeToImg(raw, base) == (if IsImg(Clean(base)) then Some(Clean(base)) else None)
  {
  }

  /** `https:` followed by anything is read with scheme `https`, whatever
      default scheme the reader is given. */
  lemma HttpsPrefixScheme(s: string, default: string)
    ensures HasScheme("https:" + s)
    ensures Split("https:" + s, default) == Split("https:" + s, "")
    ensures Split("https:" + s, "").scheme == "https"
  {
    var ref := "https:" + s;
    FirstIndexAt(ref, {':'}, 5);
    assert ref[..5] == "https";
    LowerOfLower("https");
  }

  /** A protocol-relative reference with a host: whatever the page URL's
      scheme, the resolved URL reads back with scheme `https` and with the
      host, path, query and fragment of `https:` + the reference. */
  lemma ProtocolRelativeResolution(base: string, s: string)
    requires base != ""
    requires StartsWith(s, "//")
    requires NetlocOf("https:" + s) != ""
    ensures Split(Join(base, "https:" + s), "") == Split("https:" + s, "")
    ensures Split(Join(base, "https:" + s), "").scheme == "https"
  {
    var ref := "https:" + s;
    var b := Split(base, "");
    HttpsPrefixScheme(s, b.scheme);
    var r := Split(ref, b.scheme);
    assert r == Split(ref, "");
    JoinOwnScheme(base, ref, b, r);
    if b.scheme == "https" {
      assert "https" in UsesRelative && "https" in UsesNetloc;
      SplitWellFormed(ref);
      UnsplitSplit(r);
    }
  }
}

/** The parts of Python's `urllib.parse` the scrapers rely on: `urlsplit`
    (read through `urlparse(...).path` and `.netloc`), `urlunsplit`, and
    `urljoin`, which resolves a reference against the page URL in the
    manner of section 5.2 of RFC 3986.  Splitting follows Python 3.11's
    rules; joining is a simplified resolver (see README, "Left out"). */
module Url {
  import opened Strings

  /** Python's `SplitResult(scheme, netloc, path, query, fragment)`. */
  datatype Parts = Parts(scheme: string, netloc: string, path: string, query: string, fragment: string)

  /** `urllib.parse.scheme_chars`: ASCII letters, digits and `+-.`. */
  predicate IsSchemeChar(c: char) {
    IsAsciiLetter(c) || IsDigit(c) || c == '+' || c == '-' || c == '.'
  }

  /** Schemes for which `urljoin` resolves relative references (`uses_relative`). */
  const UsesRelative: set<string> :=
    {"", "ftp", "http", "gopher", "nntp", "imap", "wais", "file", "https", "shttp", "mms",
     "prospero", "rtsp", "rtsps", "rtspu", "sftp", "svn", "svn+ssh", "ws", "wss"}

  /** Schemes whose URLs carry a network location (`uses_netloc`). */
  const UsesNetloc: set<string> :=
    {"", "ftp", "http", "gopher", "nntp", "telnet", "imap", "wais", "file", "mms", "https",
     "shttp", "snews", "prospero", "rtsp", "rtsps", "rtspu", "rsync", "svn", "svn+ssh", "sftp",
     "nfs", "git", "git+ssh", "ws", "wss", "itms-services"}

  /** The characters that end a network location. */
  const NetlocEnd: set<char> := {'/', '?', '#'}

  /** True when the text before the first `:` of `url` is a scheme: not
      empty, starting with an ASCII letter, made of scheme characters. */
  predicate HasScheme(url: string) {
    var c := FirstIndex(url, {':'});
    0 < c < |url| && IsAsciiLetter(url[0]) && forall k :: 0 <= k < c ==> IsSchemeChar(url[k])
  }

  /** `url.split(c, 1)` when `c` is present, `(url, "")` otherwise: the
      text before the first `c` and the text after it. */
  function SplitAtFirst(s: string, c: char): (r: (string, string))
    ensures c !in r.0
    ensures StartsWith(s, r.0)
    ensures c !in s ==> r == (s, "")
    ensures c in s ==> s == r.0 + [c] + r.1
  {
    var i := FirstIndex(s, {c});
    if i < |s| then
      assert s == s[..i] + [c] + s[i + 1..];
      (s[..i], s[i + 1..])
    else
      assert s[..i] == s;
      (s, "")
  }

  /** Where the network location ends: after `//`, at the first `/`, `?`
      or `#` (or the end); at 0 when there is no `//`. */
  function NetlocEndAt(rest: string): (n: nat)
    ensures n <= |rest|
    ensures !StartsWith(rest, "//") ==> n == 0
    ensures StartsWith(rest, "//") ==> 2 <= n && (n == |rest| || rest[n] in NetlocEnd)
    ensures forall k :: 2 <= k < n ==> rest[k] !in NetlocEnd
  {
    if StartsWith(rest, "//") then 2 + FirstIndex(rest[2..], NetlocEnd) else 0
  }

  /** Splitting at one character leaves another one out of both halves
      when it was not in the text. */
  lemma SplitAtFirstAvoids(s: string, c: char, d: char)
    requires d !in s
    ensures d !in SplitAtFirst(s, c).0 && d !in SplitAtFirst(s, c).1
  {
    var r := SplitAtFirst(s, c);
    if c in s {
      assert forall k :: 0 <= k < |r.0| ==> r.0[k] == s[k];
      assert forall k :: 0 <= k < |r.1| ==> r.1[k] == s[|r.0| + 1 + k];
    }
  }

  /** Splits what follows the scheme into network location, path, query
      and fragment (the second half of `urlsplit`). */
  function SplitRest(scheme: string, rest: string): (p: Parts)
    ensures p.scheme == scheme
    ensures p.netloc != "" ==> StartsWith(rest, "//")
    ensures forall k :: 0 <= k < |p.netloc| ==> p.netloc[k] !in NetlocEnd
    ensures '?' !in p.path && '#' !in p.path && '#' !in p.query
    ensures StartsWith(rest, "//") ==> p.path == "" || p.path[0] == '/'
  {
    var n := NetlocEndAt(rest);
    var netloc := if StartsWith(rest, "//") then rest[2..n] else "";
    var (body, fragment) := SplitAtFirst(rest[n..], '#');
    var (path, query) := SplitAtFirst(body, '?');
    SplitAtFirstAvoids(body, '?', '#');
    PathStart(rest[n..], body, path);
    Parts(scheme, netloc, path, query, fragment)
  }

  /** The path begins where the text after the network location begins. */
  lemma PathStart(after: string, body: string, path: string)
    requires body == SplitAtFirst(after, '#').0 && path == SplitAtFirst(body, '?').0
    ensures path != "" ==> path[0] == after[0]
  {
    if path != "" {
      assert path[0] == body[0];
      assert body[0] == after[0];
    }
  }

  /** Python's `urlsplit(url, scheme=default)`. */
  function Split(url: string, default: string): (p: Parts)
    ensures HasScheme(url) ==> p.scheme == Lower(url[..FirstIndex(url, {':'})])
    ensures !HasScheme(url) ==> p.scheme == default
  {
    if HasScheme(url) then
      var c := FirstIndex(url, {':'});
      SplitRest(Lower(url[..c]), url[c + 1..])
    else
      SplitRest(default, url)
  }

  /** `urlparse(url).path`. */
  function PathOf(url: string): string {
    Split(url, "").path
  }

  /** `urlparse(url).netloc`. */
  function NetlocOf(url: string): string {
    Split(url, "").netloc
  }

  /** Python's `urlunsplit` (3.11 and earlier): a network location, or a
      scheme that uses one, brings back the `//`; empty query and fragment
      are dropped. */
  function Unsplit(p: Parts): (r: string)
    ensures p.scheme != "" ==> StartsWith(r, p.scheme + ":")
    ensures p.fragment != "" ==> EndsWith(r, "#" + p.fragment)
    ensures p.scheme == "" && p.netloc == "" && p.query == "" && p.fragment == "" ==> r == p.path
  {
    var url :=
      if p.netloc != "" || (p.scheme != "" && p.scheme in UsesNetloc && !StartsWith(p.path, "//")) then
        "//" + p.netloc + (if p.path != "" && p.path[0] != '/' then "/" + p.path else p.path)
      else p.path;
    var pre := if p.scheme != "" then p.scheme + ":" + url else url;
    var withQuery := if p.query != "" then pre + "?" + p.query else pre;
    var r := if p.fragment != "" then withQuery + "#" + p.fragment else withQuery;
    assert p.scheme != "" ==> StartsWith(r, p.scheme + ":") by {
      if p.scheme != "" {
        PrefixGrow(p.scheme + ":", p.scheme + ":", url);
        if p.query != "" {
          PrefixGrow(pre, p.scheme + ":", "?");
          PrefixGrow(pre + "?", p.scheme + ":", p.query);
        }
        if p.fragment != "" {
          PrefixGrow(withQuery, p.scheme + ":", "#");
          PrefixGrow(withQuery + "#", p.scheme + ":", p.fragment);
        }
      }
    }
    assert p.fragment != "" ==> EndsWith(r, "#" + p.fragment) by {
      if p.fragment != "" {
        SuffixOf(withQuery, "#", p.fragment);
      }
    }
    r
  }

  /** Appending keeps a prefix. */
  lemma PrefixGrow(a: string, b: string, c: string)
    requires StartsWith(a, b)
    ensures StartsWith(a + c, b)
  {
    assert (a + c)[..|b|] == a[..|b|];
  }

  lemma SuffixOf(a: string, b: string, c: string)
    ensures EndsWith(a + b + c, b + c)
  {
    assert (a + b + c)[|a|..] == b + c;
  }

  /** A URL written out with a scheme starts with the scheme's first letter. */
  lemma UnsplitFirst(p: Parts)
    requires p.scheme != ""
    ensures Unsplit(p)[0] == p.scheme[0]
  {
    var head := p.scheme + ":";
    assert Unsplit(p)[..|head|] == head;
  }

  /** The directory part of a base path that a relative path is appended
      to: up to and including its last `/`; `/` for an empty base path. */
  function BaseDir(bpath: string): (d: string)
    ensures bpath != "" ==> StartsWith(bpath, d)
    ensures d == "" || d[|d| - 1] == '/'
  {
    if bpath == "" then "/"
    else
      var name := AfterLast(bpath, '/');
      bpath[..|bpath| - |name|]
  }

  /** The directory reaches the last `/` of the base path: no `/` is left
      in what it cuts off. */
  lemma BaseDirLast(bpath: string)
    requires bpath != ""
    ensures '/' !in bpath[|BaseDir(bpath)|..]
  {
    var name := AfterLast(bpath, '/');
    assert bpath[|bpath| - |name|..] == name;
  }

  /** Path merge of `urljoin`: an absolute path replaces the base path, a
      relative one is appended to the base directory. */
  function MergePath(bpath: string, path: string): string {
    if StartsWith(path, "/") then path else BaseDir(bpath) + path
  }

  /** Python's `urljoin(base, url)` (simplified merge, see README): an
      empty side gives the other one back, and a reference whose scheme
      does not resolve relative references is returned as it is. */
  function Join(base: string, ref: string): (r: string)
    ensures base == "" ==> r == ref
    ensures ref == "" ==> r == base
    ensures HasScheme(ref) && Split(ref, "").scheme !in UsesRelative ==> r == ref
  {
    if base == "" then ref
    else if ref == "" then base
    else
      var b := Split(base, "");
      var r := Split(ref, b.scheme);
      if r.scheme != b.scheme || r.scheme !in UsesRelative then ref
      else if r.scheme in UsesNetloc && r.netloc != "" then Unsplit(r)
      else
        var netloc := if r.scheme in UsesNetloc then b.netloc else r.netloc;
        if r.path == "" then
          Unsplit(Parts(r.scheme, netloc, b.path, if r.query == "" then b.query else r.query, r.fragment))
        else
          Unsplit(Parts(r.scheme, netloc, MergePath(b.path, r.path), r.query, r.fragment))
  }

  /** The default scheme is used only when the URL has none. */
  lemma SplitDefault(url: string, default: string)
    requires HasScheme(url)
    ensures Split(url, default) == Split(url, "")
  {
  }

  /** A reference written out with a scheme and a network location is
      absolute: joining it to any page URL gives it back unchanged. */
  lemma JoinAbsolute(p: Parts, base: string)
    requires WellFormed(p) && p.scheme in UsesNetloc
    ensures Join(base, Unsplit(p)) == Unsplit(p)
  {
    var ref := Unsplit(p);
    UnsplitShape(p);
    SchemePrefix(p.scheme, "//" + p.netloc
              + ((p.path + (if p.query != "" then "?" + p.query else ""))
                 + (if p.fragment != "" then "#" + p.fragment else "")));
    UnsplitSplit(p);
    if base != "" {
      SplitDefault(ref, Split(base, "").scheme);
    }
  }

  /** A relative path (no scheme, query, fragment or leading `/`) is
      appended to the directory of a well-formed page URL; the page's
      scheme and host are kept and its query and fragment dropped. */
  lemma JoinRelative(bp: Parts, ref: string)
    requires WellFormed(bp) && bp.scheme in UsesRelative && bp.scheme in UsesNetloc
    requires ref != "" && ref[0] != '/'
    requires ':' !in ref && '?' !in ref && '#' !in ref
    ensures Join(Unsplit(bp), ref) == Unsplit(Parts(bp.scheme, bp.netloc, BaseDir(bp.path) + ref, "", ""))
  {
    var r := Parts(bp.scheme, "", ref, "", "");
    UnsplitSplit(bp);
    RelativeSplit(ref, bp.scheme);
    UnsplitFirst(bp);
    NotStartsWith(ref, '/');
    JoinUnfold(Unsplit(bp), ref, bp, r);
  }

  /** The branches of `Join` that return the reference itself: another
      scheme than the page's, or the same scheme with its own network
      location (then written out again). */
  lemma JoinOwnScheme(base: string, ref: string, b: Parts, r: Parts)
    requires base != "" && ref != ""
    requires Split(base, "") == b && Split(ref, b.scheme) == r
    ensures r.scheme != b.scheme ==> Join(base, ref) == ref
    ensures r.scheme == b.scheme && r.scheme in UsesRelative && r.scheme in UsesNetloc && r.netloc != ""
            ==> Join(base, ref) == Unsplit(r)
  {
  }

  /** The branch of `Join` that keeps the page's network location and
      merges a non-empty reference path into the page's path. */
  lemma JoinUnfold(base: string, ref: string, b: Parts, r: Parts)
    requires base != "" && ref != ""
    requires Split(base, "") == b && Split(ref, b.scheme) == r
    requires r.scheme == b.scheme && r.scheme in UsesRelative && r.scheme in UsesNetloc
    requires r.netloc == "" && r.path != ""
    ensures Join(base, ref) == Unsplit(Parts(r.scheme, b.netloc, MergePath(b.path, r.path), r.query, r.fragment))
  {
  }

  /** A relative path is read as a path alone, under the default scheme. */
  lemma RelativeSplit(ref: string, default: string)
    requires ref != "" && ref[0] != '/'
    requires ':' !in ref && '?' !in ref && '#' !in ref
    ensures Split(ref, default) == Parts(default, "", ref, "", "")
  {
    FirstIndexAt(ref, {':'}, |ref|);
    assert !StartsWith(ref, "//");
    assert ref[0..] == ref;
  }

  /** A scheme as `Split` produces it: a lower-case ASCII letter followed
      by lower-case scheme characters. */
  predicate SchemeText(s: string) {
    && |s| > 0 && IsAsciiLower(s[0])
    && (forall k :: 0 <= k < |s| ==> IsSchemeChar(s[k]) && !IsAsciiUpper(s[k]))
  }

  /** The parts that `Unsplit` writes out and `Split` reads back unchanged:
      a lower-case scheme, a network location, an absolute (or empty) path,
      and no stray delimiters. */
  predicate WellFormed(p: Parts) {
    && SchemeText(p.scheme)
    && p.netloc != ""
    && (forall k :: 0 <= k < |p.netloc| ==> p.netloc[k] !in NetlocEnd)
    && (p.path == "" || p.path[0] == '/')
    && '?' !in p.path && '#' !in p.path && '#' !in p.query
  }

  /** What `Split` yields from a URL with a scheme and a network location
      is well formed. */
  lemma SplitWellFormed(url: string)
    requires HasScheme(url)
    requires Split(url, "").netloc != ""
    ensures WellFormed(Split(url, ""))
  {
    var c := FirstIndex(url, {':'});
    var s := Lower(url[..c]);
    assert |s| == c && s[0] == LowerChar(url[0]);
    forall k | 0 <= k < |s| ensures IsSchemeChar(s[k]) && !IsAsciiUpper(s[k]) {
      assert s[k] == LowerChar(url[k]);
    }
  }

  /** A well-formed scheme followed by a colon is read back as the scheme. */
  lemma SchemeReadBack(p: Parts, rest: string)
    requires WellFormed(p)
    ensures Split(p.scheme + ":" + rest, "") == SplitRest(p.scheme, rest)
  {
    SchemeSplit(p.scheme, rest);
  }

  lemma SchemeSplit(scheme: string, rest: string)
    requires SchemeText(scheme)
    ensures Split(scheme + ":" + rest, "") == SplitRest(scheme, rest)
  {
    var url := scheme + ":" + rest;
    SchemePrefix(scheme, rest);
    LowerOfLower(scheme);
    assert Lower(url[..|scheme|]) == scheme;
  }

  /** The colon after a scheme is the first one, and what precedes it
      makes `HasScheme` hold. */
  lemma SchemePrefix(scheme: string, rest: string)
    requires SchemeText(scheme)
    ensures var url := scheme + ":" + rest;
            && FirstIndex(url, {':'}) == |scheme|
            && url[..|scheme|] == scheme && url[|scheme| + 1..] == rest
            && HasScheme(url)
  {
    var url := scheme + ":" + rest;
    forall k | 0 <= k < |scheme| ensures url[k] == scheme[k] && url[k] != ':' {
      assert IsSchemeChar(scheme[k]);
    }
    FirstIndexAt(url, {':'}, |scheme|);
    assert url[..|scheme|] == scheme;
    assert url[|scheme| + 1..] == rest;
  }

  /** The text after the `#` or `?` that `Unsplit` adds is read back. */
  lemma SplitAtFirstReadBack(a: string, c: char, b: string)
    requires c !in a
    ensures SplitAtFirst(a + (if b != "" then [c] + b else ""), c) == (a, b)
  {
    var s := a + (if b != "" then [c] + b else "");
    FirstIndexAt(s, {c}, |a|);
    assert s[..|a|] == a;
    if b != "" { assert s[|a| + 1..] == b; } else { assert s == a; }
  }

  /** After `//`, the network location runs up to the first `/`, `?` or
      `#`; the rest is split at the first `#` and then at the first `?`. */
  lemma NetlocReadBack(scheme: string, netloc: string, after: string)
    requires forall k :: 0 <= k < |netloc| ==> netloc[k] !in NetlocEnd
    requires after == "" || after[0] in NetlocEnd
    ensures SplitRest(scheme, "//" + netloc + after)
            == Parts(scheme, netloc, SplitAtFirst(SplitAtFirst(after, '#').0, '?').0,
                     SplitAtFirst(SplitAtFirst(after, '#').0, '?').1, SplitAtFirst(after, '#').1)
  {
    var rest := "//" + netloc + after;
    assert rest[2..] == netloc + after;
    FirstIndexAt(rest[2..], NetlocEnd, |netloc|);
    assert NetlocEndAt(rest) == 2 + |netloc|;
    assert rest[2..2 + |netloc|] == netloc;
    assert rest[2 + |netloc|..] == after;
  }

  /** The text `Unsplit` writes for well-formed parts. */
  lemma UnsplitShape(p: Parts)
    requires WellFormed(p)
    ensures Unsplit(p) == p.scheme + ":" + ("//" + p.netloc
              + ((p.path + (if p.query != "" then "?" + p.query else ""))
                 + (if p.fragment != "" then "#" + p.fragment else "")))
  {
    var q := if p.query != "" then "?" + p.query else "";
    var f := if p.fragment != "" then "#" + p.fragment else "";
    var w, x := p.scheme + ":", "//" + p.netloc;
    var u := w + (x + p.path);
    assert (if p.path != "" && p.path[0] != '/' then "/" + p.path else p.path) == p.path;
    var uq := if p.query != "" then u + "?" + p.query else u;
    assert uq == u + q by {
      if p.query != "" { ConcatAssoc(u, "?", p.query); }
    }
    var uf := if p.fragment != "" then uq + "#" + p.fragment else uq;
    assert uf == uq + f by {
      if p.fragment != "" { ConcatAssoc(uq, "#", p.fragment); }
    }
    assert Unsplit(p) == uf;
    Regroup(w, x, p.path, q, f);
  }

  lemma Regroup(w: string, x: string, y: string, q: string, f: string)
    ensures ((w + (x + y)) + q) + f == w + (x + ((y + q) + f))
  {
  }

  /** Round trip: splitting what `Unsplit` wrote gives the parts back. */
  lemma UnsplitSplit(p: Parts)
    requires WellFormed(p)
    ensures Split(Unsplit(p), "") == p
  {
    var body := p.path + (if p.query != "" then "?" + p.query else "");
    var after := body + (if p.fragment != "" then "#" + p.fragment else "");
    var rest := "//" + p.netloc + after;
    UnsplitShape(p);
    SchemeReadBack(p, rest);
    AfterNetloc(p.path, p.query, p.fragment);
    NetlocReadBack(p.scheme, p.netloc, after);
    SplitAtFirstReadBack(body, '#', p.fragment);
    SplitAtFirstReadBack(p.path, '?', p.query);
  }

  /** What follows the network location in `Unsplit`'s output starts
      with a delimiter, and holds no `#` before the fragment. */
  lemma AfterNetloc(path: string, query: string, fragment: string)
    requires path == "" || path[0] == '/'
    requires '?' !in path && '#' !in path && '#' !in query
    ensures var body := path + (if query != "" then "?" + query else "");
            var after := body + (if fragment != "" then "#" + fragment else "");
            && (after == "" || after[0] in NetlocEnd)
            && '#' !in body
  {
    var body := path + (if query != "" then "?" + query else "");
    if query != "" {
      forall k | 0 <= k < |body| ensures body[k] != '#' {
        if k > |path| { assert body[k] == query[k - |path| - 1]; }
        else if k < |path| { assert body[k] == path[k]; }
      }
    }
  }

  /** `FirstIndex` finds the position of a stop character that nothing
      before it matches. */
  lemma FirstIndexAt(s: string, stop: set<char>, i: nat)
    requires i <= |s|
    requires forall k :: 0 <= k < i ==> s[k] !in stop
    requires i < |s| ==> s[i] in stop
    ensures FirstIndex(s, stop) == i
  {
  }

  /** Lower-casing a string without upper-case letters changes nothing. */
  lemma LowerOfLower(s: string)
    requires forall k :: 0 <= k < |s| ==> !IsAsciiUpper(s[k])
    ensures Lower(s) == s
  {
  }
}

/** File names for downloaded images: `os.path.splitext`, `os.path.join`
    on POSIX, the target name taken from an image URL, and
    `ensure_unique_path`, which probes `base_1.ext`, `base_2.ext`, … until
    it finds a name no existing file has. */
module Paths {
  import opened Strings
  import opened Url

  /** Python's `s.rfind(c)`: the index of the last `c`, or -1 when there
      is none. */
  function RFind(s: string, c: char): (r: int)
    ensures -1 <= r < |s|
    ensures r >= 0 ==> s[r] == c
    ensures forall k :: r < k < |s| ==> s[k] != c
  {
    if s == "" then -1
    else if s[|s| - 1] == c then |s| - 1
    else RFind(s[..|s| - 1], c)
  }

  /** Where the file name, the text after the last `/`, starts in `p`. */
  function NameStart(p: string): (n: nat)
    ensures n <= |p|
    ensures forall k :: n <= k < |p| ==> p[k] != '/'
  {
    RFind(p, '/') + 1
  }

  /** Every dot of the file name has only dots before it in the name: the
      name is some leading dots followed by dot-free text. */
  predicate LeadingDotsOnly(p: string) {
    forall j, k :: NameStart(p) <= j < k < |p| && p[k] == '.' ==> p[j] == '.'
  }

  /** `os.path.splitext` with `/` as separator: the extension starts at the
      last dot of the path, provided that dot is in the file name and some
      character other than a dot comes before it in the file name (so
      `.bashrc` and `..` have no extension). */
  function SplitExt(p: string): (r: (string, string))
    ensures r.0 + r.1 == p
    ensures r.1 == "" || (r.1[0] == '.' && '/' !in r.1 && '.' !in r.1[1..])
    ensures r.1 != "" ==> exists k :: NameStart(p) <= k < |r.0| && p[k] != '.'
    ensures r.1 == "" ==> LeadingDotsOnly(p)
  {
    var sep := RFind(p, '/');
    var dot := RFind(p, '.');
    if dot > sep && exists k :: sep < k < dot && p[k] != '.' then
      ExtensionShape(p, sep, dot);
      (p[..dot], p[dot..])
    else
      NoExtension(p, sep, dot);
      (p, "")
  }

  /** The text from the last dot on, when that dot is in the file name,
      holds no other dot and no `/`. */
  lemma ExtensionShape(p: string, sep: int, dot: int)
    requires -1 <= sep < dot < |p| && p[dot] == '.'
    requires forall k :: sep < k < |p| ==> p[k] != '/'
    requires forall k :: dot < k < |p| ==> p[k] != '.'
    ensures p[dot..][0] == '.' && '/' !in p[dot..] && '.' !in p[dot..][1..]
  {
    assert forall k :: 0 <= k < |p[dot..]| ==> p[dot..][k] == p[dot + k];
  }

  /** Without an extension, the file name is leading dots and dot-free text. */
  lemma NoExtension(p: string, sep: int, dot: int)
    requires sep == RFind(p, '/') && dot == RFind(p, '.')
    requires !(dot > sep && exists k :: sep < k < dot && p[k] != '.')
    ensures LeadingDotsOnly(p)
  {
    forall j, k | NameStart(p) <= j < k < |p| && p[k] == '.' ensures p[j] == '.' {
      assert k <= dot;
    }
  }

  /** The extension is the text from a dot that is the last dot of the
      path and has a character other than a dot before it in the file name. */
  lemma SplitExtAt(p: string, j: nat, k: nat)
    requires NameStart(p) <= j < k < |p|
    requires p[j] != '.' && p[k] == '.'
    requires forall m :: k < m < |p| ==> p[m] != '.'
    ensures SplitExt(p) == (p[..k], p[k..])
  {
    assert RFind(p, '.') == k;
  }

  /** `os.path.join(a, b)` on POSIX: an absolute `b` replaces `a`; else `b`
      is appended, with a `/` in between unless `a` is empty or already
      ends with one. */
  function PathJoin(a: string, b: string): (r: string)
    ensures EndsWith(r, b)
    ensures !StartsWith(b, "/") ==> StartsWith(r, a)
    ensures !StartsWith(b, "/") && a != "" && !EndsWith(a, "/") ==> r == a + "/" + b
  {
    if StartsWith(b, "/") then b
    else if a == "" || EndsWith(a, "/") then
      assert (a + b)[..|a|] == a;
      a + b
    else
      assert (a + "/" + b)[..|a|] == a;
      a + "/" + b
  }

  /** The file name `download` and `download_one` give an image URL:
      `urlparse(u).path.rsplit("/", 1)[-1] or "image"`.  It is never empty
      and never holds a `/`, so joining it to a folder stays in that folder. */
  function TargetName(u: string): (r: string)
    ensures r != "" && '/' !in r
    ensures r == DefaultName || EndsWith(PathOf(u), r)
  {
    var last := AfterLast(PathOf(u), '/');
    DefaultNameFlat();
    if last == "" then DefaultName else last
  }

  /** The name used when the URL path ends in `/` or is empty. */
  const DefaultName: string := "image"

  lemma DefaultNameFlat()
    ensures DefaultName != "" && '/' !in DefaultName
  {
    assert forall k :: 0 <= k < |DefaultName| ==> IsAsciiLower(DefaultName[k]);
  }

  /** A URL whose path ends in `/name` is saved under `name`; one whose
      path ends in `/` is saved as `image`. */
  lemma TargetNameOfPath(u: string, dir: string, name: string)
    requires '/' !in name
    requires PathOf(u) == dir + "/" + name
    ensures TargetName(u) == (if name == "" then "image" else name)
  {
    AfterLastAppend(dir + "/", name, '/');
    AfterLastAbsent(name, '/');
    assert dir + "/" + name == (dir + "/") + name;
  }

  /** A target name never starts with `/`, so the joined path is the
      folder, a separator where needed, and the name. */
  lemma TargetInFolder(outdir: string, u: string)
    ensures StartsWith(PathJoin(outdir, TargetName(u)), outdir)
    ensures EndsWith(PathJoin(outdir, TargetName(u)), TargetName(u))
  {
    NotAbsolute(TargetName(u));
  }

  lemma NotAbsolute(n: string)
    requires n != "" && '/' !in n
    ensures !StartsWith(n, "/")
  {
    assert n[0] != '/';
  }

  /** The `i`-th probe of `ensure_unique_path`: `f"{base}_{i}{ext}"`. */
  function Numbered(base: string, i: nat, ext: string): (r: string)
    ensures StartsWith(r, base + "_") && EndsWith(r, ext)
    ensures |r| == |base| + 1 + |NatToString(i)| + |ext|
  {
    var r := base + "_" + NatToString(i) + ext;
    assert r[..|base| + 1] == base + "_";
    assert r[|r| - |ext|..] == ext;
    r
  }

  /** Different probes name different files. */
  lemma NumberedInjective(base: string, ext: string, i: nat, j: nat)
    requires Numbered(base, i, ext) == Numbered(base, j, ext)
    ensures i == j
  {
    var s := Numbered(base, i, ext);
    var lo := |base| + 1;
    assert |NatToString(i)| == |NatToString(j)|;
    var hi := lo + |NatToString(i)|;
    assert s[lo..hi] == NatToString(i);
    assert Numbered(base, j, ext)[lo..hi] == NatToString(j);
    PrintedInjective(i, j);
  }

  /** The probes `1 .. i - 1`, those a probing loop at `i` has tried. */
  function NumberedUpTo(base: string, ext: string, i: nat): set<string> {
    if i <= 1 then {} else NumberedUpTo(base, ext, i - 1) + {Numbered(base, i - 1, ext)}
  }

  lemma {:induction false} UpToBelow(base: string, ext: string, i: nat, x: string)
    requires x in NumberedUpTo(base, ext, i)
    ensures exists j :: 1 <= j < i && x == Numbered(base, j, ext)
  {
    if x != Numbered(base, i - 1, ext) {
      UpToBelow(base, ext, i - 1, x);
    }
  }

  /** The next probe is new: it has not been tried before. */
  lemma UpToFresh(base: string, ext: string, i: nat)
    ensures Numbered(base, i, ext) !in NumberedUpTo(base, ext, i)
  {
    if Numbered(base, i, ext) in NumberedUpTo(base, ext, i) {
      UpToBelow(base, ext, i, Numbered(base, i, ext));
      var j :| 1 <= j < i && Numbered(base, i, ext) == Numbered(base, j, ext);
      NumberedInjective(base, ext, i, j);
    }
  }

  /** Each probe that hits an existing file leaves fewer existing files
      untried: this is why the probing loop ends. */
  lemma UpToShrinks(base: string, ext: string, i: nat, existing: set<string>)
    requires i >= 1
    requires forall j :: 1 <= j < i ==> Numbered(base, j, ext) in existing
    requires Numbered(base, i, ext) in existing
    ensures |existing - NumberedUpTo(base, ext, i + 1)| < |existing - NumberedUpTo(base, ext, i)|
  {
    var x := Numbered(base, i, ext);
    UpToFresh(base, ext, i);
    assert existing - NumberedUpTo(base, ext, i + 1) == (existing - NumberedUpTo(base, ext, i)) - {x};
  }

  /** The least free probe number from `i` on, when every probe below `i`
      is taken. */
  function FreeFrom(base: string, ext: string, existing: set<string>, i: nat): (r: nat)
    requires i >= 1
    requires forall j :: 1 <= j < i ==> Numbered(base, j, ext) in existing
    ensures r >= i
    ensures Numbered(base, r, ext) !in existing
    ensures forall j :: 1 <= j < r ==> Numbered(base, j, ext) in existing
    decreases |existing - NumberedUpTo(base, ext, i)|
  {
    if Numbered(base, i, ext) !in existing then i
    else
      UpToShrinks(base, ext, i, existing);
      FreeFrom(base, ext, existing, i + 1)
  }

  /** There is only one least free probe number. */
  lemma LeastFreeUnique(base: string, ext: string, existing: set<string>, a: nat, b: nat)
    requires Numbered(base, a, ext) !in existing && Numbered(base, b, ext) !in existing
    requires forall j :: 1 <= j < a ==> Numbered(base, j, ext) in existing
    requires forall j :: 1 <= j < b ==> Numbered(base, j, ext) in existing
    requires a >= 1 && b >= 1
    ensures a == b
  {
  }

  /** What `ensure_unique_path` returns when the existing files are
      `existing`: the path itself when it is free, otherwise
      `base_i.ext` for the least `i >= 1` that is free.  Either way no
      existing file has that name. */
  function UniquePath(path: string, existing: set<string>): (r: string)
    ensures r !in existing
    ensures path !in existing ==> r == path
    ensures path in existing ==>
      exists i :: i >= 1 && r == Numbered(SplitExt(path).0, i, SplitExt(path).1)
        && forall j :: 1 <= j < i ==> Numbered(SplitExt(path).0, j, SplitExt(path).1) in existing
  {
    if path !in existing then path
    else
      var split := SplitExt(path);
      Numbered(split.0, FreeFrom(split.0, split.1, existing, 1), split.1)
  }

  /** `ensure_unique_path`: the `while` loop probing `base_1.ext`,
      `base_2.ext`, … against the existing files.  It ends because every
      probe that fails is a different existing file. */
  method EnsureUniquePath(path: string, existing: set<string>) returns (r: string)
    ensures r == UniquePath(path, existing)
  {
    if path !in existing {
      return path;
    }
    var split := SplitExt(path);
    var base, ext := split.0, split.1;
    var i := 1;
    while Numbered(base, i, ext) in existing
      invariant i >= 1
      invariant forall j :: 1 <= j < i ==> Numbered(base, j, ext) in existing
      decreases |existing - NumberedUpTo(base, ext, i)|
    {
      UpToShrinks(base, ext, i, existing);
      assert forall j :: 1 <= j < i + 1 ==> Numbered(base, j, ext) in existing by {
        forall j | 1 <= j < i + 1 ensures Numbered(base, j, ext) in existing {
          if j == i {
          }
        }
      }
      i := i + 1;
    }
    var least := FreeFrom(base, ext, existing, 1);
    LeastFreeUnique(base, ext, existing, i, least);
    assert UniquePath(path, existing) == Numbered(base, least, ext);
    r := Numbered(base, i, ext);
  }

  /** A file name `stem.x` in a folder `dir`, where the stem has a
      character other than a dot and `x` has no dot: the extension is `.x`. */
  lemma SplitExtOfName(dir: string, stem: string, x: string)
    requires '/' !in stem && '/' !in x && '.' !in x
    requires exists i :: 0 <= i < |stem| && stem[i] != '.'
    ensures SplitExt(dir + "/" + stem + "." + x) == (dir + "/" + stem, "." + x)
  {
    var p := dir + "/" + stem + "." + x;
    var slash := |dir|;
    var dot := |dir| + 1 + |stem|;
    NameLayout(dir, stem, x);
    assert forall m :: slash < m < |p| ==> p[m] != '/' by {
      forall m | slash < m < |p| ensures p[m] != '/' {
        if m < dot {
          assert p[m] == stem[m - slash - 1];
        } else if m > dot {
          assert p[m] == x[m - dot - 1];
        }
      }
    }
    assert forall m :: dot < m < |p| ==> p[m] != '.' by {
      forall m | dot < m < |p| ensures p[m] != '.' {
        assert p[m] == x[m - dot - 1];
      }
    }
    var i :| 0 <= i < |stem| && stem[i] != '.';
    assert p[slash + 1 + i] == stem[i];
    SplitExtBetween(p, slash, slash + 1 + i, dot);
  }

  /** The extension starts at a dot after which the path has no `/` and no
      dot, when a character other than a dot precedes it after the last `/`. */
  lemma SplitExtBetween(p: string, slash: nat, j: nat, dot: nat)
    requires slash < j < dot < |p|
    requires p[slash] == '/' && p[j] != '.' && p[dot] == '.'
    requires forall m :: slash < m < |p| ==> p[m] != '/'
    requires forall m :: dot < m < |p| ==> p[m] != '.'
    ensures SplitExt(p) == (p[..dot], p[dot..])
  {
    assert RFind(p, '/') == slash;
    SplitExtAt(p, j, dot);
  }

  /** Where the pieces of `dir/stem.x` sit. */
  lemma NameLayout(dir: string, stem: string, x: string)
    ensures var p := dir + "/" + stem + "." + x;
            var dot := |dir| + 1 + |stem|;
            && |p| == dot + 1 + |x|
            && p[|dir|] == '/' && p[dot] == '.'
            && (forall m :: |dir| < m < dot ==> p[m] == stem[m - |dir| - 1])
            && (forall m :: dot < m < |p| ==> p[m] == x[m - dot - 1])
            && p[..dot] == dir + "/" + stem && p[dot..] == "." + x
  {
    var p := dir + "/" + stem + "." + x;
    var dot := |dir| + 1 + |stem|;
    assert p == (dir + "/" + stem) + ("." + x);
  }

  /** `out/img.png` splits into `out/img` and `.png`, and its first probes
      are `out/img_1.png` and `out/img_2.png`. */
  lemma ProbesOfImg()
    ensures SplitExt("out/img.png") == ("out/img", ".png")
    ensures Numbered("out/img", 1, ".png") == "out/img_1.png"
    ensures Numbered("out/img", 2, ".png") == "out/img_2.png"
  {
    SplitOfImg();
    FirstProbe();
    SecondProbe();
  }

  lemma FirstProbe()
    ensures Numbered("out/img", 1, ".png") == "out/img_1.png"
  {
    SmallNumbers();
    assert "out/img" + "_" + "1" + ".png" == "out/img_1.png";
  }

  lemma SecondProbe()
    ensures Numbered("out/img", 2, ".png") == "out/img_2.png"
  {
    SmallNumbers();
    assert "out/img" + "_" + "2" + ".png" == "out/img_2.png";
  }

  lemma SplitOfImg()
    ensures SplitExt("out/img.png") == ("out/img", ".png")
  {
    assert "img"[0] != '.';
    SplitExtOfName("out", "img", "png");
    assert "out" + "/" + "img" + "." + "png" == "out/img.png";
    assert "out" + "/" + "img" == "out/img";
    assert "." + "png" == ".png";
  }

  lemma SmallNumbers()
    ensures NatToString(1) == "1" && NatToString(2) == "2"
  {
  }

  /** A second `img.png` in a folder becomes `img_1.png`. */
  lemma SecondCopy()
    ensures UniquePath("out/img.png", {"out/img.png"}) == "out/img_1.png"
  {
    ProbesOfImg();
    assert |"out/img_1.png"| != |"out/img.png"|;
    assert FreeFrom("out/img", ".png", {"out/img.png"}, 1) == 1;
  }

  /** A third `img.png` becomes `img_2.png`. */
  lemma ThirdCopy()
    ensures UniquePath("out/img.png", {"out/img.png", "out/img_1.png"}) == "out/img_2.png"
  {
    var p, one, two := "out/img.png", "out/img_1.png", "out/img_2.png";
    ProbesOfImg();
    assert |two| != |p|;
    assert one != two by {
      assert one[8] != two[8];
    }
    assert FreeFrom("out/img", ".png", {p, one}, 1) == 2;
  }
}

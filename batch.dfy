/** The batch driver of versions 2 to 4: `read_urls` turns the list file
    into page URLs, `run_one` decides what happens to one page's images,
    and the main loop runs the pages in file order.

    Reading the file, fetching the pages and the browser work are not
    modelled: the file is given as its lines, and each page's `extract`
    as its outcome, `None` when it raised. */
module Batch {
  import opened Strings
  import opened Normalize
  import opened Folder
  import opened Paths
  import opened Download

  /** Whether `read_urls` keeps a line: once stripped it is not empty and
      is not a `#` comment. */
  predicate Kept(line: string) {
    StripSpace(line) != "" && !StartsWith(StripSpace(line), "#")
  }

  /** A line is kept exactly when it has a character other than white
      space and the first such character is not `#`. */
  lemma KeptFirstChar(line: string)
    ensures Kept(line) <==> Lead(line, IsPySpace) < |line| && line[Lead(line, IsPySpace)] != '#'
  {
    var s := StripSpace(line);
    StripSpaceStart(line);
    if s != "" {
      assert StartsWith(s, "#") <==> s[0] == '#' by {
        assert s[..1] == [s[0]];
      }
    }
  }

  /** The stripped line is empty exactly when the line is all white
      space, and otherwise starts at the line's first other character. */
  lemma StripSpaceStart(line: string)
    ensures var s := StripSpace(line); var i := Lead(line, IsPySpace);
            (s != "" <==> i < |line|) && (s != "" ==> s[0] == line[i])
  {
    var s := StripSpace(line);
    var i := Lead(line, IsPySpace);
    StripSlice(line, IsPySpace);
  }

  /** What one line of the file contributes: its stripped text when it
      is kept, nothing otherwise. */
  function LineUrl(line: string): (r: seq<string>)
    ensures |r| <= 1
    ensures r != [] <==> Kept(line)
    ensures r != [] ==> r[0] == StripSpace(line)
    ensures r != [] ==> r[0] != "" && !StartsWith(r[0], "#")
    ensures r != [] ==> !IsPySpace(r[0][0]) && !IsPySpace(r[0][|r[0]| - 1])
  {
    if Kept(line) then [StripSpace(line)] else []
  }

  /** The contributions of the lines, in order. */
  function Collect(lines: seq<string>, f: string -> seq<string>): seq<string> {
    if lines == [] then [] else Collect(lines[..|lines| - 1], f) + f(lines[|lines| - 1])
  }

  lemma {:induction false} CollectMembership(lines: seq<string>, f: string -> seq<string>, x: string)
    ensures x in Collect(lines, f) <==> exists j :: 0 <= j < |lines| && x in f(lines[j])
  {
    if lines != [] {
      var n := |lines| - 1;
      var init := lines[..n];
      CollectMembership(init, f, x);
      assert Collect(lines, f) == Collect(init, f) + f(lines[n]);
      if x in Collect(init, f) {
        var j :| 0 <= j < n && x in f(init[j]);
        assert lines[j] == init[j];
      }
      if exists j :: 0 <= j < |lines| && x in f(lines[j]) {
        var j :| 0 <= j < |lines| && x in f(lines[j]);
        if j < n {
          assert init[j] == lines[j];
        }
      }
    }
  }

  lemma {:induction false} CollectAppend(a: seq<string>, b: seq<string>, f: string -> seq<string>)
    ensures Collect(a + b, f) == Collect(a, f) + Collect(b, f)
    decreases |b|
  {
    if b == [] {
      assert a + b == a;
    } else {
      var n := |b| - 1;
      CollectAppend(a, b[..n], f);
      assert (a + b)[..|a + b| - 1] == a + b[..n];
      assert (a + b)[|a + b| - 1] == b[n];
      assert Collect(a + b, f) == Collect(a + b[..n], f) + f(b[n]);
      assert Collect(b, f) == Collect(b[..n], f) + f(b[n]);
    }
  }

  /** What every URL `read_urls` returns looks like. */
  predicate BareUrl(x: string) {
    x != "" && !StartsWith(x, "#") && !IsPySpace(x[0]) && !IsPySpace(x[|x| - 1])
  }

  lemma {:induction false} CollectAll(lines: seq<string>, f: string -> seq<string>, p: string -> bool)
    requires forall line, x :: x in f(line) ==> p(x)
    ensures forall x :: x in Collect(lines, f) ==> p(x)
  {
    if lines != [] {
      CollectAll(lines[..|lines| - 1], f, p);
    }
  }

  lemma LineUrlBare()
    ensures forall line, x :: x in LineUrl(line) ==> BareUrl(x)
  {
    forall line, x | x in LineUrl(line) ensures BareUrl(x) {
      assert x == LineUrl(line)[0];
    }
  }

  /** `read_urls` over the file's lines: each line stripped, blank lines
      and comments dropped, file order kept. */
  function KeptLines(lines: seq<string>): (r: seq<string>)
    ensures forall k :: 0 <= k < |r| ==> r[k] != "" && !StartsWith(r[k], "#")
    ensures forall k :: 0 <= k < |r| ==> !IsPySpace(r[k][0]) && !IsPySpace(r[k][|r[k]| - 1])
  {
    var r := Collect(lines, LineUrl);
    LineUrlBare();
    CollectAll(lines, LineUrl, BareUrl);
    assert forall k :: 0 <= k < |r| ==> BareUrl(r[k]);
    r
  }

  /** A URL is read exactly when some line is kept and strips to it. */
  lemma KeptLinesMembership(lines: seq<string>, x: string)
    ensures x in KeptLines(lines) <==> exists j :: 0 <= j < |lines| && LineUrl(lines[j]) == [x]
  {
    CollectMembership(lines, LineUrl, x);
    assert forall j :: 0 <= j < |lines| ==> (x in LineUrl(lines[j]) <==> LineUrl(lines[j]) == [x]);
  }

  /** File order: the URLs of two stretches of the file are read one
      after the other. */
  lemma KeptLinesAppend(a: seq<string>, b: seq<string>)
    ensures KeptLines(a + b) == KeptLines(a) + KeptLines(b)
  {
    CollectAppend(a, b, LineUrl);
  }

  /** A line that is already a bare URL is read as it is. */
  lemma BareLineKept(line: string)
    requires BareUrl(line)
    ensures KeptLines([line]) == [line]
  {
    StripUntouched(line, IsPySpace);
    assert LineUrl(line) == [line];
    assert [line][..0] == [];
    assert Collect([line], LineUrl) == Collect([], LineUrl) + LineUrl(line);
  }

  lemma KeptLinesSnoc(lines: seq<string>, i: nat)
    requires i < |lines|
    ensures KeptLines(lines[..i + 1]) == KeptLines(lines[..i]) + LineUrl(lines[i])
  {
    assert lines[..i + 1][..i] == lines[..i];
  }

  /** `read_urls`: the loop appending each kept line. */
  method ReadUrls(lines: seq<string>) returns (urls: seq<string>)
    ensures urls == KeptLines(lines)
  {
    urls := [];
    var i := 0;
    while i < |lines|
      invariant 0 <= i <= |lines|
      invariant urls == KeptLines(lines[..i])
    {
      var line := StripSpace(lines[i]);
      KeptLinesSnoc(lines, i);
      if line != "" && !StartsWith(line, "#") {
        urls := urls + [line];
      }
      i := i + 1;
    }
    assert lines[..i] == lines;
  }

  /** What `run_one` does with one page's images: print them, report
      that there are none, or hand them to the downloader together with
      the page's folder and the items that will be attempted. */
  datatype Action = Listed(imgs: seq<string>) | NoImages | DownloadInto(folder: string, todo: seq<string>)

  /** `os.path.join(root, safe_folder_name(url))`: the page's folder is a
      direct child of the root. */
  function PageFolder(root: string, url: string): (folder: string)
    ensures StartsWith(folder, root) && EndsWith(folder, SafeFolderName(url))
    ensures root != "" && !EndsWith(root, "/") ==> folder == root + "/" + SafeFolderName(url)
  {
    var name := SafeFolderName(url);
    NotRooted(name);
    PathJoin(root, name)
  }

  /** A safe folder name is relative: it cannot start with `/`. */
  lemma NotRooted(name: string)
    requires name != "" && AllowedChar(name[0])
    ensures !StartsWith(name, "/")
  {
    assert name[0] != '/';
  }

  /** Version 2's `run_one`: a page without images downloads nothing;
      otherwise every image goes to the page's folder. */
  function RunOneV2(url: string, root: string, imgs: seq<string>): (a: Action)
    ensures a.NoImages? <==> imgs == []
    ensures a.DownloadInto? <==> imgs != []
    ensures a.DownloadInto? ==> a.folder == PageFolder(root, url) && a.todo == imgs
  {
    if imgs == [] then NoImages else DownloadInto(PageFolder(root, url), imgs)
  }

  /** Versions 3 and 4's `run_one`: `--list-only` lists and returns
      before any folder is made; an empty result downloads nothing;
      otherwise `download_many` attempts the images the limit leaves, in
      the page's folder (made even when the limit leaves none). */
  function RunOne(url: string, root: string, imgs: seq<string>, listOnly: bool, limit: Option<int>): (a: Action)
    ensures a.Listed? <==> listOnly
    ensures a.Listed? ==> a.imgs == imgs
    ensures a.DownloadInto? <==> !listOnly && imgs != []
    ensures a.DownloadInto? ==> a.folder == PageFolder(root, url)
    ensures a.DownloadInto? ==> a.todo == Todo(imgs, limit)
    ensures a.DownloadInto? ==> |a.todo| <= |imgs| && a.todo == imgs[..|a.todo|]
  {
    if listOnly then Listed(imgs)
    else if imgs == [] then NoImages
    else DownloadInto(PageFolder(root, url), Todo(imgs, limit))
  }

  /** Without `--list-only` and `--limit`, versions 3 and 4 decide as
      version 2 does. */
  lemma RunOneDefaults(url: string, root: string, imgs: seq<string>)
    ensures RunOne(url, root, imgs, false, None) == RunOneV2(url, root, imgs)
  {
  }

  /** The main loop: each URL in file order gets its `run_one`.  Nothing
      catches an exception from `extract`, so the first page whose
      extraction fails (`None`) ends the whole batch. */
  function Batch(root: string, urls: seq<string>, found: seq<Option<seq<string>>>, listOnly: bool, limit: Option<int>): (r: seq<Action>)
    requires |found| == |urls|
    ensures |r| <= |urls|
    ensures forall k :: 0 <= k < |r| ==> found[k].Some?
    ensures |r| < |urls| ==> found[|r|] == None
  {
    if urls == [] || found[0] == None then []
    else [RunOne(urls[0], root, found[0].value, listOnly, limit)] + Batch(root, urls[1..], found[1..], listOnly, limit)
  }

  /** Each page that is reached gets the action `run_one` chooses for it. */
  lemma {:induction false} BatchActions(root: string, urls: seq<string>, found: seq<Option<seq<string>>>, listOnly: bool, limit: Option<int>)
    requires |found| == |urls|
    ensures var r := Batch(root, urls, found, listOnly, limit);
      forall k :: 0 <= k < |r| ==> r[k] == RunOne(urls[k], root, found[k].value, listOnly, limit)
  {
    if urls != [] && found[0] != None {
      BatchActions(root, urls[1..], found[1..], listOnly, limit);
    }
  }

  /** When every extraction succeeds, every page is run. */
  lemma {:induction false} BatchCompletes(root: string, urls: seq<string>, found: seq<Option<seq<string>>>, listOnly: bool, limit: Option<int>)
    requires |found| == |urls|
    requires forall k :: 0 <= k < |found| ==> found[k].Some?
    ensures |Batch(root, urls, found, listOnly, limit)| == |urls|
  {
    if urls != [] {
      BatchCompletes(root, urls[1..], found[1..], listOnly, limit);
    }
  }

  /** With `--list-only` the batch downloads nothing at all. */
  lemma {:induction false} ListOnlyBatch(root: string, urls: seq<string>, found: seq<Option<seq<string>>>, limit: Option<int>)
    requires |found| == |urls|
    ensures var r := Batch(root, urls, found, true, limit);
      forall k :: 0 <= k < |r| ==> r[k] == Listed(found[k].value)
  {
    BatchActions(root, urls, found, true, limit);
  }
}

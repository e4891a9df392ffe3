/** Downloading the extracted image URLs into a folder.  Version 1's
    `download` writes each image under the last segment of its URL path and
    overwrites an earlier file of the same name; version 2's `download`
    first asks `ensure_unique_path` for a free name, so it never
    overwrites.  Versions 3 and 4 (`download_many`) cut the list to
    `limit` items, fetch them on a thread pool and count what was saved
    and what was skipped.

    The network is a parameter: each attempt's `Fetch` outcome is given.
    The folder is a map from path to what the file there holds. */
module Download {
  import opened Strings
  import opened Url
  import opened Normalize
  import opened Paths

  /** How one attempt ends: the body is streamed to the file completely;
      the request fails before the file is opened (connection error,
      non-2xx status from `raise_for_status`); or the transfer breaks off
      after `open(path, "wb")` created the file, which keeps what was
      written so far. */
  datatype Fetch = Fetched | FailsBeforeOpen | FailsAfterOpen

  /** What a file holds: the body of the image at `source`, complete or cut short. */
  datatype Stored = Stored(source: string, complete: bool)

  /** One line of the log: `saved <path>` or `skip <url> <error>`. */
  datatype Report = SavedTo(path: string) | Skipped(url: string)

  /** The folder after one attempt to write `u` to `path`. */
  function Store(files: map<string, Stored>, path: string, u: string, f: Fetch): (r: map<string, Stored>)
    ensures r.Keys == if f == FailsBeforeOpen then files.Keys else files.Keys + {path}
    ensures f != FailsBeforeOpen ==> r[path] == Stored(u, f == Fetched)
    ensures forall p :: p in files && p != path ==> r[p] == files[p]
  {
    match f
    case Fetched => files[path := Stored(u, true)]
    case FailsBeforeOpen => files
    case FailsAfterOpen => files[path := Stored(u, false)]
  }

  function ReportOf(path: string, u: string, f: Fetch): Report {
    if f == Fetched then SavedTo(path) else Skipped(u)
  }

  /** The folder and the log after a run of downloads. */
  datatype Run = Run(files: map<string, Stored>, log: seq<Report>)

  /** The path `download` aims at for each URL: the folder joined with
      the file name `name` gives the URL (`TargetName` in every version). */
  function TargetIn(outdir: string, name: string -> string): string -> string {
    u => PathJoin(outdir, name(u))
  }

  /** Version 1's `download` loop: every URL is attempted, in order, and
      each URL's file goes to its target path, replacing what was there. */
  function RunV1(files: map<string, Stored>, target: string -> string, urls: seq<string>, outcomes: seq<Fetch>): (r: Run)
    requires |outcomes| == |urls|
    ensures |r.log| == |urls|
    ensures forall p :: p in files ==> p in r.files
    decreases |urls|
  {
    if urls == [] then Run(files, [])
    else
      var n := |urls| - 1;
      var prev := RunV1(files, target, urls[..n], outcomes[..n]);
      var path := target(urls[n]);
      Run(Store(prev.files, path, urls[n], outcomes[n]), prev.log + [ReportOf(path, urls[n], outcomes[n])])
  }

  /** Fault isolation in version 1: every URL gets its own log line, in
      order; a failure is logged as a skip and the loop goes on. */
  lemma {:induction false} ReportsV1(files: map<string, Stored>, target: string -> string, urls: seq<string>, outcomes: seq<Fetch>)
    requires |outcomes| == |urls|
    ensures var r := RunV1(files, target, urls, outcomes);
      forall k :: 0 <= k < |urls| ==>
        r.log[k] == (if outcomes[k] == Fetched then SavedTo(target(urls[k])) else Skipped(urls[k]))
    decreases |urls|
  {
    if urls != [] {
      var n := |urls| - 1;
      ReportsV1(files, target, urls[..n], outcomes[..n]);
      var prev := RunV1(files, target, urls[..n], outcomes[..n]);
      var r := RunV1(files, target, urls, outcomes);
      forall k | 0 <= k < n
        ensures r.log[k] == (if outcomes[k] == Fetched then SavedTo(target(urls[k])) else Skipped(urls[k]))
      {
        assert r.log[k] == prev.log[k];
        assert urls[..n][k] == urls[k] && outcomes[..n][k] == outcomes[k];
      }
    }
  }

  /** Version 1 has no collision handling: of two images with the same
      file name, the later one is what the folder keeps. */
  lemma LaterSameNameOverwrites(files: map<string, Stored>, target: string -> string, u: string, v: string)
    requires target(u) == target(v)
    ensures RunV1(files, target, [u, v], [Fetched, Fetched]).files[target(u)] == Stored(v, true)
  {
    var first := RunV1(files, target, [u], [Fetched]);
    assert [u, v][..1] == [u];
    assert [Fetched, Fetched][..1] == [Fetched];
    assert RunV1(files, target, [u, v], [Fetched, Fetched]).files == Store(first.files, target(v), v, Fetched);
  }


  /** Two images whose URLs end in the same file name: version 1 keeps
      only the later one. */
  lemma SameFileNameOverwrites(files: map<string, Stored>, outdir: string, u: string, v: string)
    requires TargetName(u) == TargetName(v)
    ensures RunV1(files, TargetIn(outdir, TargetName), [u, v], [Fetched, Fetched]).files[PathJoin(outdir, TargetName(u))]
            == Stored(v, true)
  {
    LaterSameNameOverwrites(files, TargetIn(outdir, TargetName), u, v);
  }

  /** Version 2's `download` loop.  It never overwrites: every file the
      folder held before is still there, unchanged.  A failure is logged
      and the loop goes on with the next URL. */
  function RunV2(files: map<string, Stored>, target: string -> string, urls: seq<string>, outcomes: seq<Fetch>): (r: Run)
    requires |outcomes| == |urls|
    ensures |r.log| == |urls|
    ensures forall k :: 0 <= k < |urls| ==> (r.log[k].SavedTo? <==> outcomes[k] == Fetched)
    ensures forall k :: 0 <= k < |urls| && r.log[k].Skipped? ==> r.log[k].url == urls[k]
    ensures forall p :: p in files ==> p in r.files && r.files[p] == files[p]
    decreases |urls|
  {
    if urls == [] then Run(files, [])
    else
      var n := |urls| - 1;
      var prev := RunV2(files, target, urls[..n], outcomes[..n]);
      var path := UniquePath(target(urls[n]), prev.files.Keys);
      Run(Store(prev.files, path, urls[n], outcomes[n]), prev.log + [ReportOf(path, urls[n], outcomes[n])])
  }

  /** Every image version 2 reports as saved is in the folder at the end,
      complete, under the path it reported: a later download never
      replaces it, whatever its name. */
  lemma {:induction false} SavedImagesKept(files: map<string, Stored>, target: string -> string, urls: seq<string>, outcomes: seq<Fetch>)
    requires |outcomes| == |urls|
    ensures var r := RunV2(files, target, urls, outcomes);
      forall k :: 0 <= k < |urls| && r.log[k].SavedTo? ==>
        r.log[k].path in r.files && r.files[r.log[k].path] == Stored(urls[k], true)
    decreases |urls|
  {
    if urls != [] {
      var n := |urls| - 1;
      SavedImagesKept(files, target, urls[..n], outcomes[..n]);
      var prev := RunV2(files, target, urls[..n], outcomes[..n]);
      var r := RunV2(files, target, urls, outcomes);
      var path := UniquePath(target(urls[n]), prev.files.Keys);
      forall k | 0 <= k < |urls| && r.log[k].SavedTo?
        ensures r.log[k].path in r.files && r.files[r.log[k].path] == Stored(urls[k], true)
      {
        if k < n {
          assert r.log[k] == prev.log[k];
          assert outcomes[..n][k] == outcomes[k];
          assert r.log[k].path in prev.files;
          assert r.log[k].path != path;
        }
      }
    }
  }

  lemma RunV1Snoc(files: map<string, Stored>, target: string -> string, urls: seq<string>, outcomes: seq<Fetch>, i: nat)
    requires |outcomes| == |urls| && i < |urls|
    ensures var prev := RunV1(files, target, urls[..i], outcomes[..i]);
            var path := target(urls[i]);
            RunV1(files, target, urls[..i + 1], outcomes[..i + 1])
              == Run(Store(prev.files, path, urls[i], outcomes[i]), prev.log + [ReportOf(path, urls[i], outcomes[i])])
  {
    assert urls[..i + 1][..i] == urls[..i];
    assert outcomes[..i + 1][..i] == outcomes[..i];
  }

  lemma RunV2Snoc(files: map<string, Stored>, target: string -> string, urls: seq<string>, outcomes: seq<Fetch>, i: nat)
    requires |outcomes| == |urls| && i < |urls|
    ensures var prev := RunV2(files, target, urls[..i], outcomes[..i]);
            var path := UniquePath(target(urls[i]), prev.files.Keys);
            RunV2(files, target, urls[..i + 1], outcomes[..i + 1])
              == Run(Store(prev.files, path, urls[i], outcomes[i]), prev.log + [ReportOf(path, urls[i], outcomes[i])])
  {
    assert urls[..i + 1][..i] == urls[..i];
    assert outcomes[..i + 1][..i] == outcomes[..i];
  }

  /** The folder that the downloads write to. */
  class Disk {
    var files: map<string, Stored>

    constructor (initial: map<string, Stored>)
      ensures files == initial
    {
      files := initial;
    }

    /** One pass of the `try` block: fetch `u` and stream it to `path`. */
    method Attempt(path: string, u: string, f: Fetch) returns (report: Report)
      modifies this
      ensures files == Store(old(files), path, u, f)
      ensures report == ReportOf(path, u, f)
    {
      match f {
        case Fetched =>
          files := files[path := Stored(u, true)];
          report := SavedTo(path);
        case FailsBeforeOpen =>
          report := Skipped(u);
        case FailsAfterOpen =>
          files := files[path := Stored(u, false)];
          report := Skipped(u);
      }
    }

    /** Version 1's `download(urls, outdir)`: each URL's file goes to the
        folder under the URL's file name. */
    method DownloadV1(outdir: string, urls: seq<string>, outcomes: seq<Fetch>) returns (log: seq<Report>)
      requires |outcomes| == |urls|
      modifies this
      ensures Run(files, log) == RunV1(old(files), TargetIn(outdir, TargetName), urls, outcomes)
    {
      log := WriteEach(TargetIn(outdir, TargetName), urls, outcomes);
    }

    /** Version 2's `download(urls, outdir)`: the same name, made unique. */
    method DownloadV2(outdir: string, urls: seq<string>, outcomes: seq<Fetch>) returns (log: seq<Report>)
      requires |outcomes| == |urls|
      modifies this
      ensures Run(files, log) == RunV2(old(files), TargetIn(outdir, TargetName), urls, outcomes)
    {
      log := WriteEachUnique(TargetIn(outdir, TargetName), urls, outcomes);
    }

    /** Version 1's loop, for any choice of target path per URL. */
    method WriteEach(target: string -> string, urls: seq<string>, outcomes: seq<Fetch>) returns (log: seq<Report>)
      requires |outcomes| == |urls|
      modifies this
      ensures Run(files, log) == RunV1(old(files), target, urls, outcomes)
    {
      log := [];
      var i := 0;
      while i < |urls|
        invariant 0 <= i <= |urls|
        invariant Run(files, log) == RunV1(old(files), target, urls[..i], outcomes[..i])
      {
        var u := urls[i];
        var path := target(u);
        var report := Attempt(path, u, outcomes[i]);
        log := log + [report];
        RunV1Snoc(old(files), target, urls, outcomes, i);
        i := i + 1;
      }
      assert urls[..i] == urls && outcomes[..i] == outcomes;
    }

    /** Version 2's loop: each target is made unique against the folder as
        it is when that URL's turn comes. */
    method WriteEachUnique(target: string -> string, urls: seq<string>, outcomes: seq<Fetch>) returns (log: seq<Report>)
      requires |outcomes| == |urls|
      modifies this
      ensures Run(files, log) == RunV2(old(files), target, urls, outcomes)
    {
      log := [];
      var i := 0;
      while i < |urls|
        invariant 0 <= i <= |urls|
        invariant Run(files, log) == RunV2(old(files), target, urls[..i], outcomes[..i])
      {
        var u := urls[i];
        var path := EnsureUniquePath(target(u), files.Keys);
        var report := Attempt(path, u, outcomes[i]);
        log := log + [report];
        RunV2Snoc(old(files), target, urls, outcomes, i);
        i := i + 1;
      }
      assert urls[..i] == urls && outcomes[..i] == outcomes;
    }
  }

  /** `urls[:limit] if limit else urls`: no limit or a zero limit keeps
      every URL; a positive limit keeps at most that many from the front; a
      negative one drops that many from the end, as Python slices do. */
  function Todo(urls: seq<string>, limit: Option<int>): (r: seq<string>)
    ensures |r| <= |urls| && r == urls[..|r|]
    ensures limit == None || limit == Some(0) ==> r == urls
    ensures limit.Some? && limit.value > 0 ==>
      |r| == if limit.value < |urls| then limit.value else |urls|
    ensures limit.Some? && limit.value < 0 ==>
      |r| == if -limit.value < |urls| then |urls| + limit.value else 0
  {
    match limit
    case None => urls
    case Some(n) =>
      if n == 0 then urls
      else if n > 0 then (if n < |urls| then urls[..n] else urls)
      else if -n < |urls| then urls[..|urls| + n] else []
  }

  /** A negative limit `-d` leaves off exactly the last `d` URLs. */
  lemma NegativeLimitDropsTail(urls: seq<string>, d: nat)
    requires 0 < d <= |urls|
    ensures Todo(urls, Some(-(d as int))) + urls[|urls| - d..] == urls
  {
  }

  /** The number of attempts that end with the image saved. */
  function CountFetched(outcomes: seq<Fetch>): (n: nat)
    ensures n <= |outcomes|
  {
    if outcomes == [] then 0
    else CountFetched(outcomes[..|outcomes| - 1]) + (if outcomes[|outcomes| - 1] == Fetched then 1 else 0)
  }

  /** Counting by multiset: the count does not depend on the order. */
  lemma {:induction false} CountIsMultiplicity(outcomes: seq<Fetch>)
    ensures CountFetched(outcomes) == multiset(outcomes)[Fetched]
  {
    if outcomes != [] {
      var n := |outcomes| - 1;
      CountIsMultiplicity(outcomes[..n]);
      assert outcomes == outcomes[..n] + [outcomes[n]];
    }
  }

  /** `download_many`'s counters.  The futures complete in some order
      (`as_completed`), given as `completed`, a reordering of the
      attempts' outcomes; `saved` and `errors` count them as they come.
      Whatever the order, `saved` is the number of images fetched and
      `saved + errors` the number attempted. */
  method CountResults(outcomes: seq<Fetch>, completed: seq<Fetch>) returns (saved: nat, errors: nat)
    requires multiset(completed) == multiset(outcomes)
    ensures saved == CountFetched(outcomes)
    ensures saved + errors == |outcomes|
  {
    saved, errors := 0, 0;
    var i := 0;
    while i < |completed|
      invariant 0 <= i <= |completed|
      invariant saved == multiset(completed[..i])[Fetched]
      invariant saved + errors == i
    {
      assert completed[..i + 1] == completed[..i] + [completed[i]];
      if completed[i] == Fetched {
        saved := saved + 1;
      } else {
        errors := errors + 1;
      }
      i := i + 1;
    }
    assert completed[..i] == completed;
    CountIsMultiplicity(outcomes);
  }

  /** `download_many`: cut the list, attempt every URL left, count. */
  method DownloadMany(urls: seq<string>, limit: Option<int>, outcomes: seq<Fetch>, completed: seq<Fetch>)
    returns (saved: nat, errors: nat)
    requires |outcomes| == |Todo(urls, limit)|
    requires multiset(completed) == multiset(outcomes)
    ensures saved == CountFetched(outcomes)
    ensures saved + errors == |Todo(urls, limit)|
  {
    saved, errors := CountResults(outcomes, completed);
  }

  /** One failure among `N` attempts: `N - 1` saved, one skipped. */
  lemma {:induction false} OneFailure(outcomes: seq<Fetch>, bad: nat)
    requires bad < |outcomes| && outcomes[bad] != Fetched
    requires forall k :: 0 <= k < |outcomes| && k != bad ==> outcomes[k] == Fetched
    ensures CountFetched(outcomes) == |outcomes| - 1
    decreases |outcomes|
  {
    var n := |outcomes| - 1;
    if bad < n {
      OneFailure(outcomes[..n], bad);
    } else {
      AllFetched(outcomes[..n]);
    }
  }

  lemma {:induction false} AllFetched(outcomes: seq<Fetch>)
    requires forall k :: 0 <= k < |outcomes| ==> outcomes[k] == Fetched
    ensures CountFetched(outcomes) == |outcomes|
  {
    if outcomes != [] {
      AllFetched(outcomes[..|outcomes| - 1]);
    }
  }

  /** `download_one`'s path: the URL's file name in the folder, made unique
      against the files that exist when the worker asks. */
  function DownloadOnePath(outdir: string, u: string, existing: set<string>): (path: string)
    ensures path !in existing
    ensures PathJoin(outdir, TargetName(u)) !in existing ==> path == PathJoin(outdir, TargetName(u))
  {
    UniquePath(PathJoin(outdir, TargetName(u)), existing)
  }
}

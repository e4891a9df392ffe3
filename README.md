# Image scraper — a verified Dafny model

This project models the string and sequence logic shared by four
successive versions of a small image scraper (`scraperv1.py` to
`scraperv4.py`). Given a page URL, or a file listing page URLs, the
scraper:

- collects the image URLs the page references;
- cleans them (it cuts tracking suffixes at `__op__` and drops the query);
- keeps only the URLs whose path ends in `.png`, `.jpg`, `.jpeg`, `.webp` or `.gif`;
- removes duplicates in first-seen order;
- downloads them into a per-page folder with a safe name, without overwriting an existing file (versions 2 to 4).

Modules, one per component:

- `Strings`: the Python `str` operations the scripts use (`split`, `rsplit`, `strip`, `replace`, `lower`, `startswith`, `endswith`) and decimal printing.
- `Url`: `urlsplit`/`urlparse` and `urlunsplit` as Python 3.11 implements them, plus a simplified `urljoin`.
- `Normalize`: `clean`, `is_img`, version 4's `normalize_to_img`, and the normalisation inside the `add` closure of versions 1 to 3.
- `FirstSeen`: order-preserving de-duplication (the `seen` set plus the `out` list), with a reference definition and its characterisation.
- `Srcset`: the last-candidate choice of versions 1 to 3 and the all-candidates split of version 4's in-page script.
- `Extract`: the scan of a parsed page in versions 1 to 3, as a `Collector` class whose `add` method updates `seen` and `out`. Also version 4's harvest and its normalise-and-deduplicate loop.
- `Folder`: `safe_folder_name`.
- `Paths`: `os.path.splitext` and `os.path.join` on POSIX, the file name taken from an image URL, and `ensure_unique_path`'s probing loop.
- `Download`:
  - version 1's `download`, which overwrites a file of the same name;
  - version 2's `download`, which never overwrites and isolates each failure (a `Disk` class over a map from path to file contents);
  - `download_many`'s `limit` cut and its saved/skipped counters.
- `Batch`: `read_urls`, `run_one`'s gating and the main loop over the URL file.

The network, the HTML parser and the browser are parameters:

- a parsed page is its anchor `href`s and its `img` elements;
- version 4's in-page harvest is the sequence of attribute values it found;
- each download attempt's outcome is given;
- the URL file is given as its lines.

The only `try` blocks in the scripts wrap single downloads. In versions
2 to 4 nothing catches an exception raised by `extract`, so the first
page whose extraction raises ends the whole run (`Batch.Batch`).

## Model

| member | source | states |
|---|---|---|
| Strings.Before | scraperv4.py:27-28 | `s.split(sep)[0]` is a prefix of `s` that does not contain `sep`; it is either all of `s` or is followed in `s` by `sep` |
| Strings.AfterLast | scraperv4.py:157 | `rsplit("/", 1)[-1]` is a suffix of the text without the separator, and is either the whole text or preceded by the separator |
| Strings.SplitOn | scraperv4.py:144 | `split(c)` gives at least one piece, no piece holds `c`, and joining the pieces with `c` gives the text back |
| Strings.SplitJoin | scraperv4.py:88 | splitting a `c`-join of `c`-free pieces gives back exactly those pieces |
| Strings.Strip | scraperv4.py:148 | `strip(chars)` leaves neither end in the stripped set, and every character left comes from the input (the exact slice is `Strings.StripSlice`) |
| Strings.StripSlice | scraperv4.py:148 | `strip(chars)` is the slice of the input that starts after the leading run of stripped characters; everything cut off at either end is in the stripped set |
| Strings.StripSpace | scraperv4.py:184 | `strip()` leaves a string that is empty or has no white space at either end |
| Strings.StripSpaceSlice | scraperv4.py:184 | `strip()` removes exactly the white space at both ends: the result is the slice after the leading white space, everything cut off is white space, and the result is empty exactly when the line is all white space |
| Strings.TrimLeft | scraperv4.py:89 | the left trim is a suffix of the input, everything cut off is white space, and what remains does not start with it |
| Strings.TakeUntil | scraperv4.py:89 | the first token is a prefix free of white space, ending at the end of the input or at white space |
| Strings.RemoveAllAbsent | scraperv3.py:55 | `replace("www.", "")` leaves a host that holds no `www.` unchanged |
| Strings.RemoveAllAfter | scraperv3.py:55 | `replace` also removes an occurrence that is not at the front |
| Strings.NatToString | scraperv4.py:153 | the `{i}` of the probe name is a non-empty string of decimal digits |
| Strings.ParsePrinted | scraperv4.py:153 | reading the printed digits back gives the number, so different numbers print differently |
| Strings.PrintedInjective | scraperv4.py:153 | two numbers printed the same are equal |
| Url.SplitAtFirst | scraperv4.py:32 | splitting at the first `#` or `?` gives a prefix free of that character; the text is prefix, character, rest when the character occurs, and unchanged otherwise |
| Url.NetlocEndAt | scraperv4.py:142-143 | after `//` the network location runs to the first `/`, `?` or `#`, or to the end; without `//` there is none |
| Url.SplitRest | scraperv4.py:142 | the parts after the scheme: a host only after `//` and free of `/?#`; a path without `?` or `#` that is empty or starts with `/` whenever there is a host |
| Url.Split | scraperv4.py:32 | `urlparse(u).scheme` is the lower-cased text before the first `:` when that text is a valid scheme; otherwise it is the default |
| Url.BaseDir | scraperv4.py:41 | the directory a relative reference is resolved in is a prefix of the base path ending in `/` (`/` for an empty base path) |
| Url.BaseDirLast | scraperv4.py:41 | the directory reaches the last `/` of the base path: what it cuts off holds no `/` |
| Url.Unsplit | scraperv4.py:41 | `urlunsplit` writes the scheme and `:` first and `#fragment` last, and parts with only a path give back the path |
| Url.Join | scraperv4.py:41 | `urljoin`: an empty base gives the reference, an empty reference gives the base, and a reference whose scheme does not resolve relative references is returned unchanged |
| Url.JoinAbsolute | scraperv4.py:41 | a written-out reference with a scheme and a host resolves to itself against any page URL |
| Url.JoinRelative | scraperv3.py:38 | a relative path keeps the page's scheme and host, is appended to the page's directory, and drops the page's query and fragment |
| Url.RelativeSplit | scraperv3.py:38 | a reference without `:`, `?`, `#` or a leading `/` reads as a path alone, with the default scheme |
| Url.SplitWellFormed | scraperv4.py:142 | a URL with a scheme and a host splits into parts that `urlunsplit` writes out and `urlparse` reads back |
| Url.UnsplitSplit | scraperv4.py:41 | round trip: splitting the unsplit form of well-formed parts gives the same parts |
| Url.NetlocReadBack | scraperv4.py:143 | `//host` followed by `/`, `?`, `#` or nothing reads back with exactly that host |
| Url.SchemeSplit | scraperv4.py:32 | a lower-case scheme followed by `:` is read back as that scheme, with the rest split as usual |
| Normalize.Clean | scraperv4.py:26-29 | `clean(u)` is a prefix of `u` that contains neither `__op__` nor `?` |
| Normalize.CleanIdempotent | scraperv4.py:26-29 | cleaning twice is cleaning once |
| Normalize.CleanFixedPoint | scraperv1.py:10-13 | `clean` changes a URL exactly when it holds `__op__` or `?` |
| Normalize.IsImg | scraperv4.py:31-33 | `is_img(u)` holds exactly when the parsed path ends, ignoring ASCII case, with one of the five extensions |
| Normalize.IsImgIgnoresCase | scraperv1.py:15-17 | two URLs whose paths differ only in letter case are classified alike |
| Normalize.EndsWithLower | scraperv4.py:33 | a lower-cased path ends with a lower-case extension exactly when the original path ends with it, ignoring case |
| Normalize.NormalizeToImg | scraperv4.py:35-43 | empty input gives `None`; otherwise the result is present exactly when the stripped, `https:`-prefixed, resolved and cleaned URL names an image, and it is that URL; any result is left unchanged by `clean` |
| Normalize.WithScheme | scraperv4.py:39-40 | a `//` reference gets `https:` in front; anything else is unchanged |
| Normalize.NormalizeImageUrl | scraperv4.py:35-43 | idempotence: a well-formed absolute image URL that `clean` and `strip` leave alone normalises to itself in both the version 4 and the versions 1 to 3 normaliser, whatever the page URL |
| Normalize.NormalizeFixed | scraperv3.py:37-40 | a URL that stripping, resolving and cleaning leave alone and that names an image normalises to itself |
| Normalize.NormalizeStatic | scraperv3.py:37-40 | in `add`, a missing or empty value gives nothing; otherwise the result is present exactly when the stripped, resolved and cleaned URL names an image, and it is that URL |
| Normalize.BlankRawIsPageUrl | scraperv4.py:36-41 | input made only of white space is not skipped: it resolves to the cleaned page URL itself |
| Normalize.HttpsPrefixScheme | scraperv4.py:39-40 | `https:` followed by anything has scheme `https`, whatever the default scheme |
| Normalize.ProtocolRelativeResolution | scraperv4.py:39-41 | a `//host…` reference resolves to `https:` plus the reference, with scheme `https`, whatever the page URL's scheme |
| FirstSeen.Dedup | scraperv4.py:133-138 | the de-duplicated sequence has no repeats, holds exactly the input's values, and is no longer than the input |
| FirstSeen.Somes | scraperv4.py:136 | `if u`: the present values are exactly those of the input |
| FirstSeen.DedupPrefix | scraperv4.py:134-137 | more input only appends: de-duplicating a prefix gives a prefix of the result |
| FirstSeen.DedupSnoc | scraperv4.py:136-137 | one more value is appended exactly when it is new |
| FirstSeen.DedupOrder | scraperv4.py:133-138 | first-seen order: the output lists values in the order of their first occurrence in the input |
| FirstSeen.DedupUnique | scraperv4.py:133-138 | any duplicate-free sequence that has the input's values in first-seen order is the de-duplicated sequence |
| FirstSeen.DedupBeforeMap | scraperv4.py:125 | the script's own `Set` de-duplication before normalising changes nothing in the final result |
| FirstSeen.GatherIsDedup | scraperv4.py:133-138 | a `seen` set and an `out` list fed one optional value at a time build the reference de-duplication |
| FirstSeen.DedupSomesSnoc | scraperv4.py:135-137 | one more optional value is appended exactly when it is present and new |
| Srcset.FirstToken | scraperv3.py:49 | the first token has no white space, is made of the piece's characters, and is empty exactly when the piece is blank |
| Srcset.LastCandidate | scraperv3.py:47-50 | the choice fails exactly when the last comma-separated piece is blank; otherwise it is a non-empty token with no comma and no white space |
| Srcset.TrailingCommaFails | scraperv3.py:49 | a trailing comma makes the choice fail (`IndexError`) |
| Srcset.Tokens | scraperv4.py:88-91 | the kept tokens are non-empty, have no white space, and there are at most as many as pieces |
| Srcset.TokensAppend | scraperv4.py:88-91 | order: the tokens of two runs of pieces are the first run's followed by the second's |
| Srcset.TokensOne | scraperv4.py:89-90 | one piece gives its first token, or nothing when that is empty (`if (u)`) |
| Srcset.SrcsetUrls | scraperv4.py:87-91 | every URL taken from a `srcset` is non-empty, has no comma and no white space |
| Srcset.SrcsetTrailingComma | scraperv4.py:90 | a trailing comma changes nothing: its blank piece is dropped |
| Srcset.Urls | scraperv4.py:90 | the non-empty candidate URLs: all of them when none is blank, none when all are |
| Srcset.FirstTokenOfCandidate | scraperv4.py:89 | the first token of a written-out candidate is its URL, and empty for a blank candidate |
| Srcset.SrcsetRoundTrip | scraperv4.py:87-91 | splitting a `srcset` written from candidates, blank ones included, gives back the non-empty candidate URLs, in order |
| Srcset.TokensOfCandidates | scraperv4.py:88-91 | the tokens of written-out candidates are their URLs, in order |
| Srcset.LastCandidateOfWritten | scraperv3.py:49 | of a `srcset` written from well-formed candidates, the last candidate's URL is chosen, and a blank last candidate makes the choice fail |
| Srcset.AfterLastOfJoin | scraperv3.py:49 | `split(",")[-1]` of a join of comma-free pieces is the last piece |
| Extract.TagRaws | scraperv3.py:46-50 | one `img` hands `add` its `src`, then its last `srcset` candidate; it fails exactly on a blank last candidate |
| Extract.ScanFailure | scraperv3.py:45-50 | the element loop fails at the first element that fails, and succeeds when none does |
| Extract.ScanFailureStays | scraperv3.py:45-50 | a failure among the first elements is the failure of the whole loop |
| Extract.ImgRaws | scraperv3.py:45-50 | the `img` loop succeeds exactly when no `img` has a blank last candidate, and otherwise fails at the first one that has |
| Extract.ImgRawsFailureStays | scraperv3.py:49 | an `IndexError` at one `img` ends the extraction, whatever follows |
| Extract.AnchorRaws | scraperv3.py:43-44 | every anchor's `href` is handed to `add`, in document order |
| Extract.ScanRaws | scraperv3.py:43-50 | scan order: every anchor first, then the `img` elements; the scan fails exactly when the `img` loop does |
| Extract.NormalizeAll | scraperv3.py:37-40 | each raw value is normalised on its own, in order |
| Extract.ExtractSpec | scraperv3.py:31-51 | extraction fails exactly when some `img` has a blank last candidate; otherwise the result has no duplicates and holds exactly the images the scanned values normalise to |
| Extract.ExtractedAreImages | scraperv2.py:26-32 | every URL kept names an image and is left unchanged by `clean` |
| Extract.AnchorsFirst | scraperv1.py:34-44 | the images found through anchors lead the result, in their own first-seen order |
| Extract.AddStep | scraperv2.py:26-32 | one more value to `add` appends its normalisation exactly when that is an image not already in `out` |
| Extract.CollectedIsDedup | scraperv1.py:24-32 | the list `add` builds step by step is the reference de-duplication of the normalised values |
| Extract.Collector.constructor | scraperv1.py:24 | `seen` and `out` start empty |
| Extract.Collector.Add | scraperv3.py:37-41 | `add` appends a value's normalisation exactly when it is an image not yet in `out`, and keeps `seen` equal to the values of `out` |
| Extract.Collector.AddAnchors | scraperv3.py:43-44 | the anchor loop hands every `href` to `add`, in order |
| Extract.Collector.AddImg | scraperv3.py:46-50 | one `img`: its `src`, then its last candidate, or the `IndexError` raised after the `src` was added |
| Extract.Collector.AddImgs | scraperv3.py:45-50 | the `img` loop hands each element's values to `add`, stopping at the first blank last candidate |
| Extract.ExtractStatic | scraperv1.py:19-46 | `extract` over a parsed page returns what the reference definition gives: the failure, or the de-duplicated images in scan order |
| Extract.FoundValues | scraperv4.py:84-121 | a found attribute value adds nothing when empty, and its `srcset` candidates' URLs when it is a `srcset` |
| Extract.Flatten | scraperv4.py:81-123 | the script never adds an empty value to its `Set` |
| Extract.Harvest | scraperv4.py:81-125 | `Array.from(set)` has no repeats and holds exactly the values added |
| Extract.DedupNormalized | scraperv4.py:133-138 | the normalising loop returns the reference de-duplication of the normalised values |
| Extract.KeepNew | scraperv4.py:133-138 | the `seen`/`out` loop over any normaliser returns the reference de-duplication of the present normalised values |
| Extract.ImagesOfMap | scraperv4.py:133-138 | every URL version 4 keeps names an image and is left unchanged by `clean` |
| Extract.ExtractDynamic | scraperv4.py:79-138 | version 4's result has no duplicates, and the script's `Set` changes nothing: it equals de-duplicating all harvested values |
| Extract.DynamicComplete | scraperv4.py:133-138 | a URL is in version 4's result exactly when some harvested value normalises to it |
| Folder.Sanitize | scraperv4.py:148 | `re.sub` leaves only `[A-Za-z0-9._-]` and never lengthens the name |
| Folder.SanitizeRun | scraperv4.py:148 | a whole run of disallowed characters becomes exactly one `_` |
| Folder.SanitizeAppend | scraperv4.py:148 | substitution works run by run: cut next to an allowed character, a name is substituted piece by piece |
| Folder.SanitizeFixed | scraperv4.py:148 | the substitution changes a name exactly when it holds a character outside the allowed set |
| Folder.SanitizeIdempotent | scraperv4.py:148 | substituting twice is substituting once |
| Folder.NonEmpty | scraperv4.py:144 | the kept segments are exactly the non-empty ones |
| Folder.NonEmptyAppend | scraperv4.py:144 | the filter keeps order: the segments of two runs are filtered one run after the other |
| Folder.NonEmptyBlank | scraperv4.py:144 | only empty segments leave nothing |
| Folder.HostPart | scraperv4.py:143 | the host part is never empty (`site` is the fallback) |
| Folder.HostPartPlain | scraperv3.py:55 | a host without `www.` is used as it is |
| Folder.HostPartInner | scraperv3.py:55 | `www.` is removed after a label, not only at the front |
| Folder.LastPart | scraperv3.py:56-58 | the last segment is cut at its first dot: it holds no `.` and no `/`; a path of only slashes gives `home` |
| Folder.LastPartOfSegment | scraperv4.py:144-146 | the name is the last non-empty segment cut at its first dot, whatever precedes it and however many slashes follow it |
| Folder.SafeName | scraperv4.py:148 | after substitution, stripping and the `site_home` fallback the name is non-empty, allowed characters only, with no `.`, `_` or `-` at either end |
| Folder.FallbackSafe | scraperv4.py:148 | `site_home` itself is a safe name |
| Folder.SafeFolderName | scraperv4.py:141-148 | `safe_folder_name` is never empty, uses only `[A-Za-z0-9._-]`, and neither starts nor ends with `.`, `_` or `-` |
| Folder.SafeNameOfSafe | scraperv2.py:53-54 | a name that is already safe is kept unchanged |
| Folder.SafeFolderNameOfSafeParts | scraperv3.py:53-60 | when host and last segment are already safe, the folder name is exactly `host_last` |
| Paths.SplitExt | scraperv4.py:152 | `splitext`: base plus extension is the path; the extension is empty or a dot followed by no dot and no `/`; a leading-dots name has none |
| Paths.SplitExtAt | scraperv4.py:152 | the extension starts at the last dot when a non-dot character precedes it in the file name |
| Paths.SplitExtOfName | scraperv4.py:152 | `dir/stem.x` splits into `dir/stem` and `.x` |
| Paths.PathJoin | scraperv4.py:158 | `os.path.join(a, b)` ends with `b`; a relative `b` lands under `a`, with one `/` between |
| Paths.TargetName | scraperv4.py:157 | the file name is non-empty, has no `/`, and is `image` or a suffix of the URL path |
| Paths.TargetNameOfPath | scraperv2.py:68 | a path ending in `/name` gives `name`; one ending in `/` gives `image` |
| Paths.TargetInFolder | scraperv1.py:51-52 | the target path is the folder followed by the file name |
| Paths.Numbered | scraperv4.py:153-154 | the probe `base_i.ext` starts with `base_` and ends with the extension |
| Paths.NumberedInjective | scraperv4.py:153 | different probe numbers name different files |
| Paths.UpToShrinks | scraperv2.py:61-62 | every failed probe is a different existing file, so the loop ends for any finite set of files |
| Paths.FreeFrom | scraperv4.py:153 | the probing from `i` ends at a free probe, with every probe before it taken |
| Paths.LeastFreeUnique | scraperv4.py:153 | there is only one least free probe number |
| Paths.UniquePath | scraperv4.py:150-154 | the path itself when free, otherwise `base_i.ext` for the least free `i >= 1`; the result is never an existing file |
| Paths.EnsureUniquePath | scraperv2.py:56-63 | the probing `while` loop returns exactly that path |
| Paths.ProbesOfImg | scraperv4.py:152-153 | `out/img.png` splits into `out/img` and `.png`, and its first probes are `out/img_1.png` and `out/img_2.png` |
| Paths.SecondCopy | scraperv4.py:150-154 | a second `img.png` becomes `img_1.png` |
| Paths.ThirdCopy | scraperv4.py:150-154 | a third `img.png` becomes `img_2.png` |
| Download.Store | scraperv2.py:70-76 | one attempt replaces the file at its path (complete, or cut short after `open`), or leaves the folder alone when it fails before `open`; other files are untouched |
| Download.RunV1 | scraperv1.py:48-61 | every URL is attempted and logged; no file that existed goes away |
| Download.ReportsV1 | scraperv1.py:53-61 | each URL gets its own log line, in order: `saved` with its target path, or `skip` |
| Download.LaterSameNameOverwrites | scraperv1.py:51-52 | of two URLs with the same target, the folder keeps the later one |
| Download.SameFileNameOverwrites | scraperv1.py:51-52 | two image URLs ending in the same file name: version 1 keeps only the later image |
| Download.RunV2 | scraperv2.py:65-79 | every URL is logged in order, as saved exactly when its fetch succeeded; a failure is logged as a skip and the loop goes on; no existing file is changed |
| Download.SavedImagesKept | scraperv2.py:67-79 | every image reported as saved is in the folder at the end, complete, under the reported path |
| Download.Disk.constructor | scraperv2.py:66 | the folder starts with the given files |
| Download.Disk.Attempt | scraperv2.py:70-79 | one `try` block: the folder becomes `Store` of the old folder, and the log line matches the outcome |
| Download.Disk.DownloadV1 | scraperv1.py:48-61 | version 1's `download` leaves the folder and log that the reference run gives |
| Download.Disk.DownloadV2 | scraperv2.py:65-79 | version 2's `download` leaves the folder and log that the reference run gives |
| Download.Disk.WriteEach | scraperv1.py:50-61 | the loop writing each URL to its target, as the reference run |
| Download.Disk.WriteEachUnique | scraperv2.py:67-79 | the loop writing each URL to a path made unique against the folder at that moment, as the reference run |
| Download.Todo | scraperv4.py:168 | `urls[:limit] if limit else urls`: no limit or 0 keeps all; a positive limit keeps at most that many from the front; a negative one drops that many from the end |
| Download.NegativeLimitDropsTail | scraperv4.py:168 | a limit of `-d` leaves off exactly the last `d` URLs |
| Download.CountFetched | scraperv4.py:175 | at most as many saves as attempts |
| Download.CountIsMultiplicity | scraperv4.py:172 | the save count does not depend on completion order |
| Download.CountResults | scraperv4.py:169-177 | whatever order the futures complete in, `saved` is the number fetched and `saved + errors` the number attempted |
| Download.DownloadMany | scraperv3.py:78-93 | `saved + errors` equals the number of items the limit leaves |
| Download.OneFailure | scraperv3.py:84-92 | one failure among `N` attempts gives `N - 1` saved |
| Download.AllFetched | scraperv3.py:84-92 | when every attempt succeeds, all are counted as saved |
| Download.DownloadOnePath | scraperv4.py:157-158 | `download_one`'s path is not an existing file, and is the plain target when that is free |
| Batch.LineUrl | scraperv4.py:184-186 | a line contributes exactly its stripped text, and does so exactly when that is non-empty and not a `#` comment |
| Batch.KeptFirstChar | scraperv4.py:185 | a line is kept exactly when it has a character other than white space and the first such character is not `#` |
| Batch.KeptLines | scraperv2.py:81-89 | no URL read is empty, starts with `#`, or has white space at either end |
| Batch.KeptLinesMembership | scraperv3.py:95-102 | a URL is read exactly when some line is kept and strips to it |
| Batch.KeptLinesAppend | scraperv3.py:98-101 | file order: the URLs of two stretches of the file are read one after the other |
| Batch.BareLineKept | scraperv4.py:184-186 | a line that is already a bare URL is read as it is |
| Batch.ReadUrls | scraperv4.py:180-187 | the appending loop returns the kept lines |
| Batch.PageFolder | scraperv4.py:193 | the page's folder is the root joined with the safe folder name, directly below the root |
| Batch.RunOneV2 | scraperv2.py:91-97 | an empty result downloads nothing; otherwise every image goes to the page's folder |
| Batch.RunOne | scraperv3.py:104-114 | `--list-only` lists and never downloads; an empty result downloads nothing; otherwise exactly `Todo(imgs, limit)`, the items the limit leaves, go to the page's folder |
| Batch.RunOneDefaults | scraperv4.py:189-199 | without `--list-only` and `--limit`, versions 3 and 4 act as version 2 |
| Batch.Batch | scraperv4.py:211-213 | pages run in file order; the batch stops at the first page whose extraction raised |
| Batch.BatchActions | scraperv2.py:108-110 | each page reached gets the action `run_one` chooses for it |
| Batch.BatchCompletes | scraperv4.py:212-213 | when every extraction succeeds, every page is run |
| Batch.ListOnlyBatch | scraperv3.py:110-112 | with `--list-only` the batch downloads nothing at all |

## Left out

- Network access is not modelled: page fetches, `raise_for_status`, retries and the session pool. Each download attempt's outcome is a parameter (`Download.Fetch`).
- HTML parsing is not modelled. A parsed page is given as its anchor `href`s and its `img` elements.
- Browser automation in version 4 is not modelled: launch, navigation, waits, auto-scroll and computed styles. What the in-page script found is given as a sequence of `Extract.Found` items. The background-image regular expression is not modelled; its match is a plain found value.
- Concurrency is not modelled. `download_many` runs the downloads on a thread pool; the model takes the completion order as a given permutation and counts sequentially.
- Download.DownloadOnePath: makes the path unique against one snapshot of the folder. In the threaded versions, two workers can compute the same free path before either creates the file, so "never overwrites" is proved only for the sequential version 2 (`Download.SavedImagesKept`).
- Download.DownloadMany: states the counters only. The files a threaded run leaves depend on the interleaving and are not modelled; version 2's sequential loop models them (`Download.Disk.WriteEachUnique`).
- File I/O is not modelled: reading the URL file (its lines are given), chunked writing (a file is complete or cut short), `os.makedirs`, and the UTF-8 decoding of the list file.
- Printing, timing (`time.perf_counter`), `argparse` and the CLI defaults are not modelled. Version 1's single-URL entry point and version 2's "no urls found" and "no images found" messages are not modelled either. Only their effects on what is downloaded are.
- Url.Join: a simplified `urljoin`. It follows Python's structure:
  - empty base or reference;
  - a scheme that differs or does not allow relative references;
  - a reference with a host;
  - an empty reference path keeps the base path and query;
  - otherwise the reference path is merged into the base's directory.

  It does not remove `.` and `..` segments (section 5.2.4 of RFC 3986), so references containing them resolve to a different string than Python gives.
  It also keeps empty interior segments, which Python's `urljoin` drops when it merges paths. So `Join("https://s/dir/page", "x//y.png")` gives `https://s/dir/x//y.png` where Python gives `https://s/dir/x/y.png`. A base path `//p` resolves `x.png` to `//x.png` where Python gives `/x.png`.
- Url.Split: no separation of `;params`. No IPv6 bracket validation (Python raises `ValueError` on a malformed one). No removal of leading C0 controls and spaces, or of tab and newline characters, which newer Python versions strip before splitting.
- Strip: its own `ensures` states only the ends and where the characters come from. That the result is exactly the slice between the two stripped runs is stated separately, in `Strings.StripSlice` and `Strings.StripSpaceSlice`.
- Strings.Lower: lower-cases ASCII letters only. This only matters for `is_img`, whose extensions are ASCII, and non-ASCII letters whose lower case is ASCII (such as the Kelvin sign) are not treated as Python treats them.
- Normalize.IsImg: reads the path from the model's `urlparse`, with the limits listed for `Url.Split`.
- `make_session` and the user-agent headers are configuration for the network and are not modelled.

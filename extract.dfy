/** Extraction of image URLs from a page.  Versions 1 to 3 walk a parsed
    page (every anchor `href`, then for each `img` its `src` and the last
    `srcset` candidate) through the `add` closure; version 4 normalises
    the raw values its in-page script harvested and de-duplicates them. */
module Extract {
  import opened Strings
  import opened Url
  import opened Normalize
  import opened FirstSeen
  import opened Srcset

  /** An `img` element: its `src` and `srcset` attributes, when present. */
  datatype ImgTag = ImgTag(src: Option<string>, srcset: Option<string>)

  /** A parsed page: the `href` of every anchor that has one, and every
      `img` element, each in document order. */
  datatype Page = Page(hrefs: seq<string>, imgs: seq<ImgTag>)

  /** The outcome of a scan: a value, or the index of the first `img`
      whose non-empty `srcset` ends in a blank candidate, where Python's
      `split()[0]` raises `IndexError` and the extraction is lost. */
  datatype Outcome<T> = Ok(value: T) | BlankSrcset(img: nat)

  /** A truthy `srcset` whose last comma-separated piece is blank. */
  predicate BlankChoice(img: ImgTag) {
    img.srcset.Some? && img.srcset.value != "" && LastCandidate(img.srcset.value) == None
  }

  /** What one `img` hands to `add`: its `src`, then the last `srcset`
      candidate when the attribute is truthy. */
  function TagRaws(img: ImgTag): (r: Outcome<seq<Option<string>>>)
    ensures r.BlankSrcset? <==> BlankChoice(img)
    ensures r.Ok? ==> 1 <= |r.value| <= 2 && r.value[0] == img.src
  {
    if img.srcset.Some? && img.srcset.value != "" then
      match LastCandidate(img.srcset.value)
      case None => BlankSrcset(0)
      case Some(t) => Ok([img.src, Some(t)])
    else Ok([img.src])
  }

  /** Running `step` over the elements in order and concatenating what
      each yields, up to the first element at which it fails. */
  function Scan(xs: seq<ImgTag>, step: ImgTag -> Outcome<seq<Option<string>>>): Outcome<seq<Option<string>>> {
    if xs == [] then Ok([])
    else
      match Scan(xs[..|xs| - 1], step)
      case BlankSrcset(k) => BlankSrcset(k)
      case Ok(rs) =>
        match step(xs[|xs| - 1])
        case BlankSrcset(_) => BlankSrcset(|xs| - 1)
        case Ok(ts) => Ok(rs + ts)
  }

  /** A scan fails at the first element at which `step` fails, and
      succeeds when `step` fails nowhere. */
  lemma {:induction false} ScanFailure(xs: seq<ImgTag>, step: ImgTag -> Outcome<seq<Option<string>>>)
    ensures Scan(xs, step).Ok? ==> forall k :: 0 <= k < |xs| ==> step(xs[k]).Ok?
    ensures Scan(xs, step).BlankSrcset? ==>
              var j := Scan(xs, step).img;
              j < |xs| && step(xs[j]).BlankSrcset? && forall k :: 0 <= k < j ==> step(xs[k]).Ok?
  {
    if xs != [] {
      var init := xs[..|xs| - 1];
      ScanFailure(init, step);
      assert forall k :: 0 <= k < |init| ==> init[k] == xs[k];
    }
  }

  /** A failure in a prefix is the failure of the whole scan. */
  lemma {:induction false} ScanFailureStays(xs: seq<ImgTag>, n: nat, step: ImgTag -> Outcome<seq<Option<string>>>)
    requires n <= |xs|
    requires Scan(xs[..n], step).BlankSrcset?
    ensures Scan(xs, step) == Scan(xs[..n], step)
    decreases |xs|
  {
    if n < |xs| {
      var init := xs[..|xs| - 1];
      assert init[..n] == xs[..n];
      ScanFailureStays(init, n, step);
    } else {
      assert xs[..n] == xs;
    }
  }

  /** One more element: the scan of a prefix grows by what `step` yields
      for it, or fails at it. */
  lemma ScanSnoc(xs: seq<ImgTag>, j: nat, step: ImgTag -> Outcome<seq<Option<string>>>)
    requires j < |xs|
    ensures Scan(xs[..j + 1], step) ==
            match Scan(xs[..j], step)
            case BlankSrcset(k) => BlankSrcset(k)
            case Ok(rs) =>
              match step(xs[j])
              case BlankSrcset(_) => BlankSrcset(j)
              case Ok(ts) => Ok(rs + ts)
  {
    assert xs[..j + 1][..j] == xs[..j];
  }

  /** What the `img` loop hands to `add`, in order; it stops at the first
      blank `srcset` choice. */
  function ImgRaws(imgs: seq<ImgTag>): (r: Outcome<seq<Option<string>>>)
    ensures r.Ok? ==> forall k :: 0 <= k < |imgs| ==> !BlankChoice(imgs[k])
    ensures r.BlankSrcset? ==> r.img < |imgs| && BlankChoice(imgs[r.img])
    ensures r.BlankSrcset? ==> forall k :: 0 <= k < r.img ==> !BlankChoice(imgs[k])
  {
    ScanFailure(imgs, TagRaws);
    Scan(imgs, TagRaws)
  }

  /** A failure in a prefix of the `img` elements is the failure of all. */
  lemma ImgRawsFailureStays(imgs: seq<ImgTag>, n: nat)
    requires n <= |imgs|
    requires ImgRaws(imgs[..n]).BlankSrcset?
    ensures ImgRaws(imgs) == ImgRaws(imgs[..n])
  {
    ScanFailureStays(imgs, n, TagRaws);
  }

  /** One more `img`: the scan of a prefix grows by what that `img`
      contributes, or fails at it. */
  lemma ImgRawsSnoc(imgs: seq<ImgTag>, j: nat)
    requires j < |imgs|
    ensures ImgRaws(imgs[..j + 1]) ==
            match ImgRaws(imgs[..j])
            case BlankSrcset(k) => BlankSrcset(k)
            case Ok(rs) =>
              match TagRaws(imgs[j])
              case BlankSrcset(_) => BlankSrcset(j)
              case Ok(ts) => Ok(rs + ts)
  {
    ScanSnoc(imgs, j, TagRaws);
  }

  function AnchorRaws(hrefs: seq<string>): (r: seq<Option<string>>)
    ensures |r| == |hrefs|
    ensures forall k :: 0 <= k < |hrefs| ==> r[k] == Some(hrefs[k])
  {
    seq(|hrefs|, k requires 0 <= k < |hrefs| => Some(hrefs[k]))
  }


  lemma AnchorRawsSnoc(hrefs: seq<string>, i: nat)
    requires i < |hrefs|
    ensures AnchorRaws(hrefs[..i + 1]) == AnchorRaws(hrefs[..i]) + [Some(hrefs[i])]
  {
  }

  /** Scan order: every anchor's `href`, then what each `img` contributes. */
  function ScanRaws(page: Page): (r: Outcome<seq<Option<string>>>)
    ensures r.BlankSrcset? <==> ImgRaws(page.imgs).BlankSrcset?
    ensures r.Ok? ==> |page.hrefs| <= |r.value| && r.value[..|page.hrefs|] == AnchorRaws(page.hrefs)
  {
    match ImgRaws(page.imgs)
    case BlankSrcset(k) => BlankSrcset(k)
    case Ok(ts) => Ok(AnchorRaws(page.hrefs) + ts)
  }

  /** The `add` closure's normalisation for one page, as a function value. */
  function AddNormalizer(base: string): Option<string> -> Option<string> {
    raw => NormalizeStatic(raw, base)
  }

  /** `normalize_to_img` for one page, as a function value. */
  function ImgNormalizer(base: string): string -> Option<string> {
    raw => NormalizeToImg(raw, base)
  }

  /** The `add` closure's normalisation applied to each raw value. */
  function NormalizeAll(raws: seq<Option<string>>, base: string): (r: seq<Option<string>>)
    ensures |r| == |raws|
    ensures forall k :: 0 <= k < |raws| ==> r[k] == NormalizeStatic(raws[k], base)
  {
    MapSeq(raws, AddNormalizer(base))
  }

  lemma NormalizeAllAppend(xs: seq<Option<string>>, ys: seq<Option<string>>, base: string)
    ensures NormalizeAll(xs + ys, base) == NormalizeAll(xs, base) + NormalizeAll(ys, base)
  {
    MapAppend(xs, ys, AddNormalizer(base));
  }

  /** The reference result of versions 1 to 3's `extract`: the normalised
      raw values of the scan, present ones only, de-duplicated in
      first-seen order. */
  function ExtractSpec(page: Page, base: string): (r: Outcome<seq<string>>)
    ensures r.BlankSrcset? <==> exists k :: 0 <= k < |page.imgs| && BlankChoice(page.imgs[k])
    ensures r.Ok? ==> NoDup(r.value)
    ensures r.Ok? ==> forall x :: x in r.value <==> Some(x) in NormalizeAll(ScanRaws(page).value, base)
  {
    match ScanRaws(page)
    case BlankSrcset(k) => BlankSrcset(k)
    case Ok(raws) => Ok(Dedup(Somes(NormalizeAll(raws, base))))
  }

  /** Every URL versions 1 to 3 keep names an image and is left alone by
      cleaning. */
  lemma ExtractedAreImages(page: Page, base: string)
    requires ExtractSpec(page, base).Ok?
    ensures var out := ExtractSpec(page, base).value;
            forall k :: 0 <= k < |out| ==> IsImg(out[k]) && Clean(out[k]) == out[k]
  {
    var out := ExtractSpec(page, base).value;
    var n := NormalizeAll(ScanRaws(page).value, base);
    forall k | 0 <= k < |out| ensures IsImg(out[k]) && Clean(out[k]) == out[k] {
      assert out[k] in out;
      var j :| 0 <= j < |n| && n[j] == Some(out[k]);
    }
  }

  /** Anchors come first: the images found through anchors alone lead the
      result of the whole page, in their own first-seen order. */
  lemma AnchorsFirst(page: Page, base: string)
    requires ExtractSpec(page, base).Ok?
    ensures var a := Dedup(Somes(NormalizeAll(AnchorRaws(page.hrefs), base)));
            var r := ExtractSpec(page, base).value;
            |a| <= |r| && r[..|a|] == a
  {
    var raws := ScanRaws(page).value;
    var anchors := AnchorRaws(page.hrefs);
    var rest := raws[|anchors|..];
    assert raws == anchors + rest;
    NormalizeAllAppend(anchors, rest, base);
    SomesAppend(NormalizeAll(anchors, base), NormalizeAll(rest, base));
    DedupPrefix(Somes(NormalizeAll(anchors, base)), Somes(NormalizeAll(rest, base)));
  }

  /** One more raw value for the `add` closure: the output grows by its
      normalisation exactly when that is an image not already kept. */
  lemma AddStep(prev: seq<Option<string>>, raw: Option<string>, base: string)
    ensures Dedup(Somes(NormalizeAll(prev + [raw], base))) ==
            match NormalizeStatic(raw, base)
            case None => Dedup(Somes(NormalizeAll(prev, base)))
            case Some(v) =>
              if v in Dedup(Somes(NormalizeAll(prev, base))) then Dedup(Somes(NormalizeAll(prev, base)))
              else Dedup(Somes(NormalizeAll(prev, base))) + [v]
  {
    NormalizeAllAppend(prev, [raw], base);
    DedupSomesSnoc(NormalizeAll(prev, base), NormalizeStatic(raw, base));
  }

  lemma NormalizeStaticOf(v: string, base: string)
    requires v != ""
    ensures var cu := Clean(Join(base, StripSpace(v)));
            NormalizeStatic(Some(v), base) == if IsImg(cu) then Some(cu) else None
  {
  }

  /** The `out` list after `add` has been handed each raw value in turn:
      a value is appended when its normalisation is an image not in the
      list yet. */
  function Collected(raws: seq<Option<string>>, base: string): seq<string> {
    if raws == [] then []
    else
      var prev := Collected(raws[..|raws| - 1], base);
      match NormalizeStatic(raws[|raws| - 1], base)
      case None => prev
      case Some(u) => if u in prev then prev else prev + [u]
  }

  /** One more raw value: its normalisation is appended when it is an
      image not collected yet. */
  lemma CollectedSnoc(raws: seq<Option<string>>, raw: Option<string>, base: string)
    ensures Collected(raws + [raw], base)
            == match NormalizeStatic(raw, base)
               case Some(u) => if u in Collected(raws, base) then Collected(raws, base) else Collected(raws, base) + [u]
               case None => Collected(raws, base)
  {
    assert (raws + [raw])[..|raws|] == raws;
  }

  /** Appending step by step builds the reference de-duplication. */
  lemma CollectedIsDedup(raws: seq<Option<string>>, base: string)
    ensures Collected(raws, base) == Dedup(Somes(NormalizeAll(raws, base)))
  {
    CollectedIsGather(raws, base);
    GatherIsDedup(NormalizeAll(raws, base));
  }

  lemma {:induction false} CollectedIsGather(raws: seq<Option<string>>, base: string)
    ensures Collected(raws, base) == Gather(NormalizeAll(raws, base))
  {
    if raws != [] {
      var n := |raws| - 1;
      CollectedIsGather(raws[..n], base);
      var m := NormalizeAll(raws, base);
      assert m[..n] == NormalizeAll(raws[..n], base);
    }
  }

  /** The state of the `add` closure of versions 1 to 3: the page URL it
      resolves against, and the `seen` set and `out` list it fills. */
  class Collector {
    const pageUrl: string
    var seen: set<string>
    var out: seq<string>
    /** Every raw value handed to `add` so far. */
    ghost var offered: seq<Option<string>>

    /** `out` is what `add` has collected from the values offered, and
        `seen` holds exactly the values of `out`. */
    ghost predicate Valid()
      reads this
    {
      && out == Collected(offered, pageUrl)
      && (forall x :: x in seen <==> x in out)
    }

    constructor (pageUrl: string)
      ensures Valid()
      ensures this.pageUrl == pageUrl && offered == [] && out == []
    {
      this.pageUrl := pageUrl;
      seen := {};
      out := [];
      offered := [];
    }

    /** `add`: skip an absent or empty value; otherwise strip, resolve,
        clean, and append when the result names an image not seen yet. */
    method Add(raw: Option<string>)
      requires Valid()
      modifies this
      ensures Valid()
      ensures offered == old(offered) + [raw]
      ensures out == (match NormalizeStatic(raw, pageUrl)
                      case Some(u) => if u in old(out) then old(out) else old(out) + [u]
                      case None => old(out))
    {
      if raw.Some? && raw.value != "" {
        var cu := Clean(Join(pageUrl, StripSpace(raw.value)));
        NormalizeStaticOf(raw.value, pageUrl);
        if cu !in seen && IsImg(cu) {
          seen := seen + {cu};
          out := out + [cu];
        }
      }
      CollectedSnoc(offered, raw, pageUrl);
      offered := offered + [raw];
    }

    /** The anchor loop: `add` each `href` in document order. */
    method AddAnchors(hrefs: seq<string>)
      requires Valid()
      modifies this
      ensures Valid()
      ensures offered == old(offered) + AnchorRaws(hrefs)
    {
      var i := 0;
      while i < |hrefs|
        invariant 0 <= i <= |hrefs|
        invariant Valid()
        invariant offered == old(offered) + AnchorRaws(hrefs[..i])
      {
        ghost var a := AnchorRaws(hrefs[..i]);
        Add(Some(hrefs[i]));
        AnchorRawsSnoc(hrefs, i);
        ConcatAssoc(old(offered), a, [Some(hrefs[i])]);
        i := i + 1;
      }
      assert hrefs[..i] == hrefs;
    }

    /** The body of the `img` loop for one element: `add` its `src`, then
        its last `srcset` candidate when the attribute is truthy.  `blank`
        reports the `IndexError` of a blank last candidate, raised after
        the `src` was added. */
    method AddImg(img: ImgTag) returns (blank: bool)
      requires Valid()
      modifies this
      ensures Valid()
      ensures blank <==> TagRaws(img).BlankSrcset?
      ensures !blank ==> offered == old(offered) + TagRaws(img).value
    {
      Add(img.src);
      blank := false;
      if img.srcset.Some? && img.srcset.value != "" {
        match LastCandidate(img.srcset.value)
        case None =>
          blank := true;
        case Some(t) =>
          Add(Some(t));
          SnocTwice(old(offered), img.src, Some(t));
          assert TagRaws(img) == Ok([img.src, Some(t)]);
      } else {
        assert TagRaws(img) == Ok([img.src]);
      }
    }

    /** The `img` loop: each element in document order, stopping at the
        first blank last `srcset` candidate, reported by its index. */
    method AddImgs(imgs: seq<ImgTag>) returns (failed: Option<nat>)
      requires Valid()
      modifies this
      ensures Valid()
      ensures failed == None <==> ImgRaws(imgs).Ok?
      ensures failed == None ==> offered == old(offered) + ImgRaws(imgs).value
      ensures failed.Some? ==> ImgRaws(imgs) == BlankSrcset(failed.value)
    {
      var j := 0;
      ghost var tail: seq<Option<string>> := [];
      while j < |imgs|
        invariant 0 <= j <= |imgs|
        invariant Valid()
        invariant ImgRaws(imgs[..j]) == Ok(tail)
        invariant offered == old(offered) + tail
      {
        ImgRawsSnoc(imgs, j);
        var blank := AddImg(imgs[j]);
        if blank {
          ImgRawsFailureStays(imgs, j + 1);
          return Some(j);
        }
        ConcatAssoc(old(offered), tail, TagRaws(imgs[j]).value);
        tail := tail + TagRaws(imgs[j]).value;
        j := j + 1;
      }
      assert imgs[..j] == imgs;
      return None;
    }
  }

  /** Versions 1 to 3's `extract` over a parsed page.  It returns what the
      reference definition says: the blank-`srcset` failure, or the
      de-duplicated images in scan order. */
  method ExtractStatic(page: Page, pageUrl: string) returns (r: Outcome<seq<string>>)
    ensures r == ExtractSpec(page, pageUrl)
  {
    var c := new Collector(pageUrl);
    c.AddAnchors(page.hrefs);
    var failed := c.AddImgs(page.imgs);
    match failed
    case Some(j) =>
      SpecFails(page, pageUrl, j);
      r := BlankSrcset(j);
    case None =>
      var raws := AnchorRaws(page.hrefs) + ImgRaws(page.imgs).value;
      assert c.offered == [] + AnchorRaws(page.hrefs) + ImgRaws(page.imgs).value;
      assert [] + AnchorRaws(page.hrefs) == AnchorRaws(page.hrefs);
      SpecSucceeds(page, pageUrl, ImgRaws(page.imgs).value);
      CollectedIsDedup(c.offered, pageUrl);
      r := Ok(c.out);
  }

  lemma SpecFails(page: Page, base: string, j: nat)
    requires ImgRaws(page.imgs) == BlankSrcset(j)
    ensures ExtractSpec(page, base) == BlankSrcset(j)
  {
  }

  lemma SpecSucceeds(page: Page, base: string, tail: seq<Option<string>>)
    requires ImgRaws(page.imgs) == Ok(tail)
    ensures ExtractSpec(page, base) == Ok(Dedup(Somes(NormalizeAll(AnchorRaws(page.hrefs) + tail, base))))
  {
  }

  /** One item version 4's in-page script found: a plain URL-valued
      attribute (`currentSrc`, `src`, a lazy-load attribute, a background
      image) or a `srcset`-valued one. */
  datatype Found = Plain(v: string) | SrcsetAttr(ss: string)

  /** The values one item adds to the script's `Set`: empty values add
      nothing, a `srcset` adds each of its candidates' URLs. */
  function FoundValues(f: Found): (r: seq<string>)
    ensures forall k :: 0 <= k < |r| ==> r[k] != ""
  {
    match f
    case Plain(v) => if v == "" then [] else [v]
    case SrcsetAttr(ss) => if ss == "" then [] else SrcsetUrls(ss)
  }

  function Flatten(fs: seq<Found>): (r: seq<string>)
    ensures forall x :: x in r ==> x != ""
  {
    if fs == [] then [] else Flatten(fs[..|fs| - 1]) + FoundValues(fs[|fs| - 1])
  }

  /** `Array.from(urls)`: a JavaScript `Set` keeps the first insertion of
      each value, in insertion order. */
  function Harvest(fs: seq<Found>): (r: seq<string>)
    ensures NoDup(r)
    ensures forall x :: x in r <==> x in Flatten(fs)
    ensures forall x :: x in r ==> x != ""
  {
    Dedup(Flatten(fs))
  }

  /** Version 4's post-harvest loop: normalise each raw value and keep the
      images not seen yet, in order.  The result is the reference
      de-duplication of the normalised values. */
  method DedupNormalized(raws: seq<string>, pageUrl: string) returns (out: seq<string>)
    ensures out == Dedup(Somes(MapSeq(raws, ImgNormalizer(pageUrl))))
  {
    out := KeepNew(raws, ImgNormalizer(pageUrl));
  }

  /** The loop itself, for any normalisation `f`: a `seen` set and an
      `out` list, each present value not seen yet appended. */
  method KeepNew(raws: seq<string>, f: string -> Option<string>) returns (out: seq<string>)
    ensures out == Dedup(Somes(MapSeq(raws, f)))
  {
    var seen: set<string> := {};
    out := [];
    var i := 0;
    while i < |raws|
      invariant 0 <= i <= |raws|
      invariant out == Gather(MapSeq(raws[..i], f))
      invariant forall x :: x in seen <==> x in out
    {
      var u := f(raws[i]);
      ghost var prev := MapSeq(raws[..i], f);
      MapSeqSnoc(raws, i, f);
      GatherSnoc(prev, u);
      // `if u` tests truthiness; the image normaliser never gives `Some("")`,
      // since `IsImg("")` is false, so testing `Some?` is the same test.
      if u.Some? && u.value !in seen {
        seen := seen + {u.value};
        out := out + [u.value];
      }
      i := i + 1;
    }
    assert raws[..i] == raws;
    GatherIsDedup(MapSeq(raws, f));
  }

  /** Every URL version 4 keeps names an image and is left alone by
      cleaning. */
  lemma ImagesOfMap(raws: seq<string>, pageUrl: string)
    ensures var out := Dedup(Somes(MapSeq(raws, ImgNormalizer(pageUrl))));
            forall k :: 0 <= k < |out| ==> IsImg(out[k]) && Clean(out[k]) == out[k]
  {
    var m := MapSeq(raws, ImgNormalizer(pageUrl));
    var out := Dedup(Somes(m));
    forall k | 0 <= k < |out| ensures IsImg(out[k]) && Clean(out[k]) == out[k] {
      assert out[k] in out;
      var j :| 0 <= j < |m| && m[j] == Some(out[k]);
      assert NormalizeToImg(raws[j], pageUrl) == Some(out[k]);
    }
  }

  /** Version 4's `extract` after the browser work: the harvested items,
      their values in `Set` order, then the normalising loop. */
  method ExtractDynamic(fs: seq<Found>, pageUrl: string) returns (out: seq<string>)
    ensures out == Dedup(Somes(MapSeq(Flatten(fs), ImgNormalizer(pageUrl))))
    ensures NoDup(out)
  {
    out := DedupNormalized(Harvest(fs), pageUrl);
    DedupBeforeMap(Flatten(fs), ImgNormalizer(pageUrl));
  }

  /** Version 4's result holds every harvested value whose normalisation
      is an image, and nothing else. */
  lemma DynamicComplete(fs: seq<Found>, pageUrl: string, x: string)
    ensures x in Dedup(Somes(MapSeq(Flatten(fs), ImgNormalizer(pageUrl))))
            <==> exists v :: v in Flatten(fs) && NormalizeToImg(v, pageUrl) == Some(x)
  {
    var f := ImgNormalizer(pageUrl);
    var m := MapSeq(Flatten(fs), f);
    if Some(x) in m {
      var j :| 0 <= j < |m| && m[j] == Some(x);
      assert Flatten(fs)[j] in Flatten(fs);
    }
    if exists v :: v in Flatten(fs) && NormalizeToImg(v, pageUrl) == Some(x) {
      var v :| v in Flatten(fs) && NormalizeToImg(v, pageUrl) == Some(x);
      MapHas(Flatten(fs), f, v);
    }
  }
}

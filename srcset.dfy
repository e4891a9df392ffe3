/** Choosing URLs out of a `srcset` attribute, a comma-separated list of
    candidates, each a URL optionally followed by white space and a width
    or density descriptor.  Versions 1 to 3 take only the last candidate;
    version 4's in-page script takes every candidate. */
module Srcset {
  import opened Strings
  import opened Normalize

  /** The first white-space-separated token of a piece: Python's
      `p.strip().split()[0]` when there is one, JavaScript's
      `p.trim().split(/\s+/)[0]` in every case (empty when the piece is blank). */
  function FirstToken(p: string, ws: char -> bool): (t: string)
    ensures forall k :: 0 <= k < |t| ==> !ws(t[k])
    ensures forall k :: 0 <= k < |t| ==> t[k] in p
    ensures t == "" <==> forall k :: 0 <= k < |p| ==> ws(p[k])
  {
    FirstTokenFacts(p, ws);
    TakeUntil(TrimLeft(p, ws), ws)
  }

  lemma FirstTokenFacts(p: string, ws: char -> bool)
    ensures forall k :: 0 <= k < |TakeUntil(TrimLeft(p, ws), ws)| ==> TakeUntil(TrimLeft(p, ws), ws)[k] in p
    ensures TakeUntil(TrimLeft(p, ws), ws) == "" <==> forall k :: 0 <= k < |p| ==> ws(p[k])
  {
    var l := TrimLeft(p, ws);
    var t := TakeUntil(l, ws);
    forall k | 0 <= k < |t| ensures t[k] in p {
      assert t[k] == l[k] == p[|p| - |l| + k];
    }
    if l != "" {
      assert p[|p| - |l|] == l[0];
    }
  }

  /** Versions 1 to 3: `ss.split(",")[-1].strip().split()[0]`, the first
      token of the last piece.  `None` stands for the `IndexError` Python
      raises when that piece is blank, which aborts the whole extraction. */
  function LastCandidate(ss: string): (r: Option<string>)
    ensures r == None <==> forall k :: 0 <= k < |AfterLast(ss, ',')| ==> IsPySpace(AfterLast(ss, ',')[k])
    ensures r.Some? ==> r.value != "" && ',' !in r.value
    ensures r.Some? ==> forall k :: 0 <= k < |r.value| ==> !IsPySpace(r.value[k])
  {
    var last := AfterLast(ss, ',');
    var t := FirstToken(last, IsPySpace);
    if t == "" then None else Some(t)
  }

  /** A trailing comma leaves a blank last piece: the choice fails. */
  lemma TrailingCommaFails(ss: string)
    ensures LastCandidate(ss + ",") == None
  {
    assert AfterLast(ss + ",", ',') == "";
  }

  /** The non-empty first tokens of the pieces, in order. */
  function Tokens(pieces: seq<string>, ws: char -> bool): (r: seq<string>)
    ensures |r| <= |pieces|
    ensures forall k :: 0 <= k < |r| ==> r[k] != ""
    ensures forall k :: 0 <= k < |r| ==> forall m :: 0 <= m < |r[k]| ==> !ws(r[k][m])
  {
    if pieces == [] then []
    else
      var t := FirstToken(pieces[0], ws);
      var rest := Tokens(pieces[1..], ws);
      if t == "" then rest else [t] + rest
  }

  /** Tokens are taken piece by piece: the tokens of two runs of pieces
      are those of the first run followed by those of the second. */
  lemma {:induction false} TokensAppend(a: seq<string>, b: seq<string>, ws: char -> bool)
    ensures Tokens(a + b, ws) == Tokens(a, ws) + Tokens(b, ws)
  {
    if a == [] {
      assert a + b == b;
    } else {
      assert (a + b)[0] == a[0];
      assert (a + b)[1..] == a[1..] + b;
      TokensAppend(a[1..], b, ws);
    }
  }

  /** One piece contributes its first token, or nothing when it is blank. */
  lemma TokensOne(p: string, ws: char -> bool)
    ensures Tokens([p], ws) == if FirstToken(p, ws) == "" then [] else [FirstToken(p, ws)]
  {
    assert [p][1..] == [];
  }

  /** Version 4's in-page split: every comma-separated piece contributes
      its first token, blank pieces contribute nothing. */
  function SrcsetUrls(ss: string): (r: seq<string>)
    ensures forall k :: 0 <= k < |r| ==> r[k] != "" && ',' !in r[k]
    ensures forall k :: 0 <= k < |r| ==> forall m :: 0 <= m < |r[k]| ==> !IsJsSpace(r[k][m])
  {
    var pieces := SplitOn(ss, ',');
    var r := Tokens(pieces, IsJsSpace);
    assert forall k :: 0 <= k < |r| ==> ',' !in r[k] by {
      TokensFromPieces(pieces, IsJsSpace, ',');
    }
    r
  }

  /** A trailing comma only adds a blank piece, which contributes
      nothing: unlike versions 1 to 3, version 4 keeps every URL. */
  lemma SrcsetTrailingComma(ss: string)
    ensures SrcsetUrls(ss + ",") == SrcsetUrls(ss)
  {
    SplitOnTrailing(ss, ',');
    assert SplitOn(ss + ",", ',') == SplitOn(ss, ',') + [""];
    TokensAppend(SplitOn(ss, ','), [""], IsJsSpace);
    TokensOne("", IsJsSpace);
  }

  lemma {:induction false} TokensFromPieces(pieces: seq<string>, ws: char -> bool, c: char)
    requires forall k :: 0 <= k < |pieces| ==> c !in pieces[k]
    ensures forall k :: 0 <= k < |Tokens(pieces, ws)| ==> c !in Tokens(pieces, ws)[k]
  {
    if pieces != [] {
      TokensFromPieces(pieces[1..], ws, c);
    }
  }

  /** One written-out candidate: leading white space, the URL, and an
      optional descriptor that starts with white space.  A blank candidate
      (what an empty piece between two commas is) has an empty URL and
      only white space around it. */
  datatype Candidate = Candidate(lead: string, url: string, descriptor: string)

  predicate WellFormedCandidate(c: Candidate, ws: char -> bool) {
    && (forall k :: 0 <= k < |c.lead| ==> ws(c.lead[k]))
    && (forall k :: 0 <= k < |c.url| ==> !ws(c.url[k]))
    && (c.descriptor == "" || ws(c.descriptor[0]))
    && (c.url == "" ==> forall k :: 0 <= k < |c.descriptor| ==> ws(c.descriptor[k]))
    && ',' !in c.lead && ',' !in c.url && ',' !in c.descriptor
  }

  function Text(c: Candidate): string {
    c.lead + c.url + c.descriptor
  }

  function Texts(cs: seq<Candidate>): (r: seq<string>)
    ensures |r| == |cs|
    ensures forall k :: 0 <= k < |cs| ==> r[k] == Text(cs[k])
  {
    seq(|cs|, k requires 0 <= k < |cs| => Text(cs[k]))
  }

  /** The URLs of the candidates that have one, in order. */
  function Urls(cs: seq<Candidate>): (r: seq<string>)
    ensures |r| <= |cs|
    ensures forall k :: 0 <= k < |r| ==> r[k] != ""
    ensures (forall k :: 0 <= k < |cs| ==> cs[k].url != "") ==>
              |r| == |cs| && forall k :: 0 <= k < |cs| ==> r[k] == cs[k].url
    ensures (forall k :: 0 <= k < |cs| ==> cs[k].url == "") ==> r == []
  {
    if cs == [] then []
    else (if cs[0].url == "" then [] else [cs[0].url]) + Urls(cs[1..])
  }

  /** The first token of a written-out candidate is its URL, and a blank
      candidate has none. */
  lemma FirstTokenOfCandidate(c: Candidate, ws: char -> bool)
    requires WellFormedCandidate(c, ws)
    ensures FirstToken(Text(c), ws) == c.url
  {
    if c.url == "" {
      BlankCandidate(c, ws);
    } else {
      FirstTokenOfUrl(c, ws);
    }
  }

  lemma BlankCandidate(c: Candidate, ws: char -> bool)
    requires WellFormedCandidate(c, ws) && c.url == ""
    ensures FirstToken(Text(c), ws) == ""
  {
    var s := Text(c);
    forall k | 0 <= k < |s| ensures ws(s[k]) {
      if k < |c.lead| {
        assert s[k] == c.lead[k];
      } else {
        assert s[k] == c.descriptor[k - |c.lead|];
      }
    }
  }

  lemma FirstTokenOfUrl(c: Candidate, ws: char -> bool)
    requires WellFormedCandidate(c, ws) && c.url != ""
    ensures FirstToken(Text(c), ws) == c.url
  {
    var l := c.url + c.descriptor;
    var s := c.lead + l;
    assert Text(c) == s;
    forall k | 0 <= k < |c.lead| ensures ws(s[k]) {
      assert s[k] == c.lead[k];
    }
    assert s[|c.lead|] == c.url[0];
    TrimLeftAt(s, ws, |c.lead|);
    assert s[|c.lead|..] == l;
    forall k | 0 <= k < |c.url| ensures !ws(l[k]) {
      assert l[k] == c.url[k];
    }
    if |c.url| < |l| {
      assert l[|c.url|] == c.descriptor[0];
    }
    TakeUntilAt(l, ws, |c.url|);
    assert l[..|c.url|] == c.url;
  }

  lemma TrimLeftAt(s: string, ws: char -> bool, n: nat)
    requires n <= |s|
    requires forall k :: 0 <= k < n ==> ws(s[k])
    requires n < |s| ==> !ws(s[n])
    ensures TrimLeft(s, ws) == s[n..]
  {
    LeadRun(s, ws);
    assert TrimLeft(s, ws) == s[Lead(s, ws)..];
  }

  lemma TakeUntilAt(s: string, stop: char -> bool, n: nat)
    requires n <= |s|
    requires forall k :: 0 <= k < n ==> !stop(s[k])
    requires n < |s| ==> stop(s[n])
    ensures TakeUntil(s, stop) == s[..n]
  {
  }

  /** Round trip for version 4: writing well-formed candidates out as a
      `srcset` and splitting it again gives back their URLs, in order,
      with the blank candidates left out. */
  lemma SrcsetRoundTrip(cs: seq<Candidate>)
    requires |cs| >= 1
    requires forall k :: 0 <= k < |cs| ==> WellFormedCandidate(cs[k], IsJsSpace)
    ensures SrcsetUrls(JoinWith(Texts(cs), ',')) == Urls(cs)
  {
    var texts := Texts(cs);
    forall k | 0 <= k < |texts| ensures ',' !in texts[k] {
      assert texts[k] == cs[k].lead + cs[k].url + cs[k].descriptor;
    }
    SplitJoin(texts, ',');
    TokensOfCandidates(cs, IsJsSpace);
  }

  lemma {:induction false} TokensOfCandidates(cs: seq<Candidate>, ws: char -> bool)
    requires forall k :: 0 <= k < |cs| ==> WellFormedCandidate(cs[k], ws)
    ensures Tokens(Texts(cs), ws) == Urls(cs)
  {
    if cs != [] {
      var texts := Texts(cs);
      var rest := cs[1..];
      assert texts[0] == Text(cs[0]);
      assert texts[1..] == Texts(rest);
      FirstTokenOfCandidate(cs[0], ws);
      assert forall k :: 0 <= k < |rest| ==> WellFormedCandidate(rest[k], ws) by {
        forall k | 0 <= k < |rest| ensures WellFormedCandidate(rest[k], ws) {
          assert rest[k] == cs[k + 1];
        }
      }
      TokensOfCandidates(rest, ws);
    }
  }

  /** Round trip for versions 1 to 3: of well-formed candidates written
      out as a `srcset`, the last candidate's URL is chosen, and a blank
      last candidate makes the choice fail. */
  lemma LastCandidateOfWritten(cs: seq<Candidate>)
    requires |cs| >= 1
    requires forall k :: 0 <= k < |cs| ==> WellFormedCandidate(cs[k], IsPySpace)
    ensures cs[|cs| - 1].url != "" ==> LastCandidate(JoinWith(Texts(cs), ',')) == Some(cs[|cs| - 1].url)
    ensures cs[|cs| - 1].url == "" ==> LastCandidate(JoinWith(Texts(cs), ',')) == None
  {
    var texts := Texts(cs);
    forall k | 0 <= k < |texts| ensures ',' !in texts[k] {
      assert texts[k] == cs[k].lead + cs[k].url + cs[k].descriptor;
    }
    AfterLastOfJoin(texts, ',');
    var c := cs[|cs| - 1];
    assert AfterLast(JoinWith(texts, ','), ',') == Text(c);
    FirstTokenOfCandidate(c, IsPySpace);
    assert FirstToken(Text(c), IsPySpace) == c.url;
  }

  /** The text after the last separator of a join is its last piece. */
  lemma {:induction false} AfterLastOfJoin(parts: seq<string>, c: char)
    requires |parts| >= 1
    requires forall k :: 0 <= k < |parts| ==> c !in parts[k]
    ensures AfterLast(JoinWith(parts, c), c) == parts[|parts| - 1]
  {
    if |parts| == 1 {
      AfterLastAbsent(parts[0], c);
    } else {
      var rest := parts[1..];
      assert forall k :: 0 <= k < |rest| ==> rest[k] == parts[k + 1];
      assert rest[|rest| - 1] == parts[|parts| - 1];
      AfterLastOfJoin(rest, c);
      var head := parts[0] + [c];
      assert JoinWith(parts, c) == head + JoinWith(rest, c);
      AfterLastAppend(head, JoinWith(rest, c), c);
    }
  }
}

/**
 The URL harvesting step of `PerplexityClient.extract_urls`: the answer of
 the search service is read line by line, and every line that carries the
 `**URL:**` marker contributes the text after it, cleaned of spaces and
 markdown asterisks, when that text starts with `http`.
 */
module UrlExtraction {
  import opened Wrappers
  import opened Text

  /** The label the search prompt asks the service to put before each link. */
  const MARKER := "**URL:**"

  /** `MARKER in line`. */
  predicate HasMarker(line: string) {
    Find(line, MARKER, 0).Some?
  }

  /** The characters `strip('* ')` removes. */
  predicate StarOrSpace(c: char) {
    c == '*' || c == ' '
  }

  /** An occurrence in a prefix of `s` is an occurrence in `s`. */
  lemma OccursInPrefix(s: string, n: nat, pat: string, p: int)
    requires n <= |s| && OccursAt(s[..n], pat, p)
    ensures OccursAt(s, pat, p)
  {
    assert s[..n][p..p + |pat|] == s[p..p + |pat|];
  }

  /** An occurrence in an infix of `s` is an occurrence in `s`. */
  lemma OccursInInfix(s: string, a: nat, t: string, pat: string, p: int)
    requires a + |t| <= |s| && t == s[a..a + |t|] && OccursAt(t, pat, p)
    ensures OccursAt(s, pat, a + p)
  {
    var u, v := s[a + p..a + p + |pat|], t[p..p + |pat|];
    assert forall m | 0 <= m < |u| :: u[m] == v[m];
  }

  /**
   `line.split('**URL:**')[1]`: the text after the first marker, cut at
   the first place after it where the marker starts again (which may
   overlap the end of the part) or at the end of the line; it never
   contains the marker.
   */
  function UrlPart(line: string): (part: string)
    requires HasMarker(line)
    ensures forall p :: !OccursAt(part, MARKER, p)
    ensures var i := Find(line, MARKER, 0).value;
      i + |MARKER| + |part| <= |line| && part == line[i + |MARKER|..i + |MARKER| + |part|]
    ensures var rest := line[Find(line, MARKER, 0).value + |MARKER|..];
      && (forall j | 0 <= j < |part| :: !OccursAt(rest, MARKER, j))
      && (|part| == |rest| || OccursAt(rest, MARKER, |part|))
  {
    var i := Find(line, MARKER, 0).value;
    var rest := line[i + |MARKER|..];
    match Find(rest, MARKER, 0)
    case None => rest
    case Some(j) =>
      var part := rest[..j];
      assert forall p :: !OccursAt(part, MARKER, p) by {
        forall p | OccursAt(part, MARKER, p) ensures false {
          OccursInPrefix(rest, j, MARKER, p);
        }
      }
      part
  }

  /** `url_part.strip('* ').strip()` applied to the stripped part. */
  function CleanUrl(part: string): string {
    Strip(StripBy(Strip(part), StarOrSpace))
  }

  /** An infix of an infix is an infix. */
  lemma InfixOfInfix(s: string, a: nat, t: string, b: nat, u: string)
    requires a + |t| <= |s| && t == s[a..a + |t|]
    requires b + |u| <= |t| && u == t[b..b + |u|]
    ensures a + b + |u| <= |s| && u == s[a + b..a + b + |u|]
  {
    assert forall m | 0 <= m < |u| :: u[m] == s[a + b + m];
  }

  /** `strip('* ').strip()` keeps an infix of its input, starting at `a`. */
  lemma StarStripOffset(s: string) returns (a: nat)
    ensures var t := Strip(StripBy(s, StarOrSpace));
      a + |t| <= |s| && t == s[a..a + |t|]
  {
    var s2 := StripBy(s, StarOrSpace);
    var a2 := StripByDropsEnds(s, StarOrSpace);
    var a3 := StripRemovesEnds(s2);
    InfixOfInfix(s, a2, s2, a3, Strip(s2));
    a := a2 + a3;
  }

  /** The three strips keep an infix of their input, starting at `a`. */
  lemma CleanUrlInfix(part: string) returns (a: nat)
    ensures a + |CleanUrl(part)| <= |part| && CleanUrl(part) == part[a..a + |CleanUrl(part)|]
  {
    var a1 := StripRemovesEnds(part);
    var a2 := StarStripOffset(Strip(part));
    InfixOfInfix(part, a1, Strip(part), a2, CleanUrl(part));
    a := a1 + a2;
  }

  /**
   The URL a line contributes, if any: the line has the marker and the
   cleaned text after it starts with `http`.
   */
  function LineUrl(line: string): Option<string> {
    if HasMarker(line) && StartsWith(CleanUrl(UrlPart(line)), "http") then Some(CleanUrl(UrlPart(line))) else None
  }

  /**
   A URL read from a line starts with `http`, has no surrounding
   whitespace, never contains the marker, and uses only characters of the
   line.
   */
  lemma LineUrlSound(line: string)
    requires LineUrl(line).Some?
    ensures var url := LineUrl(line).value;
      && StartsWith(url, "http")
      && TrimmedBy(url, IsSpace)
      && (forall p :: !OccursAt(url, MARKER, p))
      && (forall k | 0 <= k < |url| :: url[k] in line)
  {
    var part := UrlPart(line);
    var url := CleanUrl(part);
    assert LineUrl(line).value == url;
    var a := CleanUrlInfix(part);
    var i := Find(line, MARKER, 0).value;
    forall p | OccursAt(url, MARKER, p) ensures false {
      OccursInInfix(part, a, url, MARKER, p);
    }
    forall k | 0 <= k < |url| ensures url[k] in line {
      assert url[k] == part[a + k] == line[i + |MARKER| + a + k];
    }
  }

  /** The present results of `f` over the lines, in line order: the loop's `if ...: urls.append(...)` pattern. */
  function Harvest(f: string -> Option<string>, lines: seq<string>): (r: seq<string>)
    ensures |r| <= |lines|
  {
    if lines == [] then []
    else
      var last := f(lines[|lines| - 1]);
      Harvest(f, lines[..|lines| - 1]) + (if last.Some? then [last.value] else [])
  }

  /** Reading one more line adds that line's result, if any. */
  lemma HarvestSnoc(f: string -> Option<string>, lines: seq<string>, k: nat)
    requires k < |lines|
    ensures Harvest(f, lines[..k + 1]) == Harvest(f, lines[..k]) + (if f(lines[k]).Some? then [f(lines[k]).value] else [])
  {
    assert lines[..k + 1][..k] == lines[..k];
  }

  /** Lines are read independently: the results of two blocks of lines are the results of each, in order. */
  lemma {:induction false} HarvestAppend(f: string -> Option<string>, a: seq<string>, b: seq<string>)
    ensures Harvest(f, a + b) == Harvest(f, a) + Harvest(f, b)
    decreases |b|
  {
    if b == [] {
      assert a + b == a;
    } else {
      var b' := b[..|b| - 1];
      HarvestAppend(f, a, b');
      assert (a + b)[..|a + b| - 1] == a + b';
      assert (a + b)[|a + b| - 1] == b[|b| - 1];
    }
  }

  /** Every result comes from some line: result `m` is the result of line `k`. */
  lemma {:induction false} HarvestSource(f: string -> Option<string>, lines: seq<string>, m: nat) returns (k: nat)
    requires m < |Harvest(f, lines)|
    ensures k < |lines| && f(lines[k]) == Some(Harvest(f, lines)[m])
  {
    var init := lines[..|lines| - 1];
    if m < |Harvest(f, init)| {
      k := HarvestSource(f, init, m);
      assert lines[k] == init[k];
    } else {
      k := |lines| - 1;
    }
  }

  /** When every line has a result, the results are exactly those, in order. */
  lemma {:induction false} HarvestAll(f: string -> Option<string>, lines: seq<string>, r: seq<string>)
    requires |r| == |lines|
    requires forall k | 0 <= k < |lines| :: f(lines[k]) == Some(r[k])
    ensures Harvest(f, lines) == r
  {
    if lines != [] {
      var n := |lines| - 1;
      HarvestAll(f, lines[..n], r[..n]);
      assert r == r[..n] + [r[n]];
    }
  }

  /** The URLs of the lines, in line order. */
  function UrlsOf(lines: seq<string>): seq<string> {
    Harvest(LineUrl, lines)
  }

  /**
   The loop of `extract_urls` over the response content; `None` stands for
   every way of getting no content (no response, a missing key, a raised
   error), all of which give the empty list.
   */
  method ExtractUrls(content: Option<string>) returns (urls: seq<string>)
    ensures content.None? ==> urls == []
    ensures content.Some? ==> urls == UrlsOf(Split(content.value, '\n'))
  {
    if content.None? {
      return [];
    }
    var lines := Split(content.value, '\n');
    urls := [];
    for k := 0 to |lines|
      invariant urls == Harvest(LineUrl, lines[..k])
    {
      HarvestSnoc(LineUrl, lines, k);
      var line := lines[k];
      if Find(line, MARKER, 0).Some? {
        var urlPart := Strip(UrlPart(line));
        var url := Strip(StripBy(urlPart, StarOrSpace));
        if StartsWith(url, "http") {
          urls := urls + [url];
        }
      }
    }
    assert lines[..|lines|] == lines;
  }

  /**
   Every extracted URL starts with `http`, has no surrounding whitespace,
   contains neither the marker nor a line break, and is the URL of some
   line of the content.
   */
  lemma UrlsSound(lines: seq<string>)
    requires forall k | 0 <= k < |lines| :: '\n' !in lines[k]
    ensures var urls := UrlsOf(lines);
      forall m | 0 <= m < |urls| ::
        && StartsWith(urls[m], "http") && TrimmedBy(urls[m], IsSpace)
        && (forall p :: !OccursAt(urls[m], MARKER, p))
        && '\n' !in urls[m]
        && (exists k :: 0 <= k < |lines| && LineUrl(lines[k]) == Some(urls[m]))
  {
    var urls := Harvest(LineUrl, lines);
    forall m | 0 <= m < |urls|
      ensures && StartsWith(urls[m], "http") && TrimmedBy(urls[m], IsSpace)
              && (forall p :: !OccursAt(urls[m], MARKER, p))
              && '\n' !in urls[m]
              && (exists k :: 0 <= k < |lines| && LineUrl(lines[k]) == Some(urls[m]))
    {
      var k := HarvestSource(LineUrl, lines, m);
      LineUrlSound(lines[k]);
      forall i | 0 <= i < |urls[m]| ensures urls[m][i] != '\n' {
        assert urls[m][i] in lines[k];
      }
    }
  }

  /** Lines are read independently: the URLs of two blocks of lines are the URLs of each, in order. */
  lemma UrlsOfAppend(a: seq<string>, b: seq<string>)
    ensures UrlsOf(a + b) == UrlsOf(a) + UrlsOf(b)
  {
    HarvestAppend(LineUrl, a, b);
  }

  /** `Find` returns the first occurrence when every earlier position from `start` fails. */
  lemma {:induction false} FindFirst(s: string, pat: string, start: nat, i: nat)
    requires start <= i && OccursAt(s, pat, i)
    requires forall j | start <= j < i :: !OccursAt(s, pat, j)
    ensures Find(s, pat, start) == Some(i)
    decreases i - start
  {
    if start < i {
      assert !OccursAt(s, pat, start);
      FindFirst(s, pat, start + 1, i);
    }
  }

  /** In a line of the form lead-in, marker, space, URL, the text after the marker is the space and the URL. */
  lemma UrlPartOfFormatted(lead: string, url: string)
    requires '*' !in lead
    requires url != [] && url[0] == 'h'
    requires forall p :: !OccursAt(url, MARKER, p)
    ensures HasMarker(lead + MARKER + " " + url)
    ensures UrlPart(lead + MARKER + " " + url) == " " + url
  {
    var line := lead + MARKER + " " + url;
    var rest := " " + url;
    assert line[|lead|..|lead| + |MARKER|] == MARKER;
    forall j | 0 <= j < |lead| ensures !OccursAt(line, MARKER, j) {
      assert line[j] == lead[j] != '*';
      if j + |MARKER| <= |line| {
        assert line[j..j + |MARKER|][0] == line[j];
      }
    }
    FindFirst(line, MARKER, 0, |lead|);
    assert line[|lead| + |MARKER|..] == rest;
    forall p | 0 <= p && p + |MARKER| <= |rest| ensures !OccursAt(rest, MARKER, p) {
      if p == 0 {
        assert rest[0..|MARKER|][0] == rest[0] == ' ';
      } else {
        assert rest[p..p + |MARKER|] == url[p - 1..p - 1 + |MARKER|];
        assert !OccursAt(url, MARKER, p - 1);
      }
    }
    assert Find(rest, MARKER, 0).None?;
  }

  /** Cleaning a space followed by a URL that starts with `h`, has no trailing whitespace and does not end in `*` gives the URL. */
  lemma CleanSpacedUrl(url: string)
    requires url != [] && url[0] == 'h'
    requires !IsSpace(url[|url| - 1]) && url[|url| - 1] != '*'
    ensures CleanUrl(" " + url) == url
  {
    var rest := " " + url;
    assert rest[1..] == url;
    StripByTrimmed(url, IsSpace);
    assert Strip(rest) == url;
    StripByTrimmed(url, StarOrSpace);
    StripTrimmed(url);
  }

  /**
   The format the search prompt asks for is read back exactly: a line made
   of a lead-in without asterisks, the marker, a space and a URL gives that
   URL back, provided the URL starts with `http`, has no surrounding
   whitespace, does not end in `*` and does not contain the marker.
   */
  lemma LineUrlRoundTrip(lead: string, url: string)
    requires '*' !in lead
    requires StartsWith(url, "http") && TrimmedBy(url, IsSpace) && url[|url| - 1] != '*'
    requires forall p :: !OccursAt(url, MARKER, p)
    ensures LineUrl(lead + MARKER + " " + url) == Some(url)
  {
    assert url[0] == 'h';
    UrlPartOfFormatted(lead, url);
    CleanSpacedUrl(url);
  }

  /** A list of lines in that format gives back its URLs, in order. */
  lemma UrlsOfListing(leads: seq<string>, urls: seq<string>, lines: seq<string>)
    requires |leads| == |urls| == |lines|
    requires forall k | 0 <= k < |lines| :: lines[k] == leads[k] + MARKER + " " + urls[k]
    requires forall k | 0 <= k < |lines| :: '*' !in leads[k]
    requires forall k | 0 <= k < |urls| ::
      StartsWith(urls[k], "http") && TrimmedBy(urls[k], IsSpace) && urls[k][|urls[k]| - 1] != '*'
    requires forall k | 0 <= k < |urls| :: forall p :: !OccursAt(urls[k], MARKER, p)
    ensures UrlsOf(lines) == urls
  {
    forall k | 0 <= k < |lines| ensures LineUrl(lines[k]) == Some(urls[k]) {
      LineUrlRoundTrip(leads[k], urls[k]);
    }
    HarvestAll(LineUrl, lines, urls);
  }
}

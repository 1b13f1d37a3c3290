/**
 The citation ledger (`CitationManager`): a dictionary from integer ids to
 normalised citation records and a counter that mints the next id. Ids are
 dense: the stored ids are exactly 1 .. counter - 1, and a rejected citation
 consumes none.
 */
module CitationLedger {
  import opened Wrappers
  import opened Text

  /** A stored citation. Every field but `year` may be missing; `year` is always a string, possibly empty. */
  datatype CitationRecord = CitationRecord(
    title: Option<string>,
    url: Option<string>,
    authors: Option<string>,
    year: string,
    journal: Option<string>)

  /** The `ValueError` raised for a citation whose every normalised field is falsy. */
  datatype CitationError = EmptyCitation

  /** Python truthiness of an optional string: present and not empty. */
  predicate Truthy(f: Option<string>) {
    f.Some? && f.value != ""
  }

  /** Absent, or whitespace only. */
  predicate BlankOrAbsent(f: Option<string>) {
    f.None? || IsBlank(f.value)
  }

  /** `str(f).strip() if f else None`. */
  function Clean(f: Option<string>): Option<string> {
    if Truthy(f) then Some(Strip(f.value)) else None
  }

  /** `any(citation_data.values())`: some field is truthy. */
  predicate HasContent(rec: CitationRecord) {
    Truthy(rec.title) || Truthy(rec.url) || Truthy(rec.authors) || rec.year != "" || Truthy(rec.journal)
  }

  /**
   The validation and cleaning step of `add_citation`. Truthy fields are
   stripped, falsy ones become `None`, a falsy `year` becomes the current
   year, and the call is rejected when nothing truthy is left. Because the
   year defaults to a non-empty string, that only happens when `year` is
   given as a non-empty, whitespace-only string and every other field is
   absent or blank.
   */
  function Normalize(title: Option<string>, url: Option<string>, authors: Option<string>,
                     year: Option<string>, journal: Option<string>, currentYear: nat): (r: Result<CitationRecord, CitationError>)
    ensures r.Failure? <==>
      && Truthy(year) && IsBlank(year.value)
      && BlankOrAbsent(title) && BlankOrAbsent(url) && BlankOrAbsent(authors) && BlankOrAbsent(journal)
    ensures r.Success? ==> HasContent(r.value)
    ensures r.Success? ==>
      && r.value.title == Clean(title) && r.value.url == Clean(url)
      && r.value.authors == Clean(authors) && r.value.journal == Clean(journal)
      && r.value.year == (if Truthy(year) then Strip(year.value) else NatToString(currentYear))
  {
    var rec := CitationRecord(
      Clean(title), Clean(url), Clean(authors),
      if Truthy(year) then Strip(year.value) else NatToString(currentYear),
      Clean(journal));
    if HasContent(rec) then Success(rec) else Failure(EmptyCitation)
  }

  /** The rendered components of a reference, in order, skipping falsy fields. */
  function Parts(rec: CitationRecord): seq<string> {
    (if Truthy(rec.authors) then [rec.authors.value] else [])
    + (if rec.year != "" then ["(" + rec.year + ")"] else [])
    + (if Truthy(rec.title) then ["*" + rec.title.value + "*"] else [])
    + (if Truthy(rec.journal) then [rec.journal.value] else [])
    + (if Truthy(rec.url) then ["[Available online](" + rec.url.value + ")"] else [])
  }

  /** A reference line: `[id] ` then the parts joined by `". "` and a blank line, or nothing when there are no parts. */
  function Line(id: int, parts: seq<string>): string {
    if parts == [] then "" else "[" + IntToString(id) + "] " + JoinWith(". ", parts) + "\n\n"
  }

  /** The reference line for one citation. */
  function Entry(id: int, rec: CitationRecord): string {
    Line(id, Parts(rec))
  }

  /** `f(lo) + f(lo + 1) + ... + f(hi - 1)`. */
  function Catenation(f: int -> string, lo: int, hi: int): string
    decreases hi - lo
  {
    if hi <= lo then "" else Catenation(f, lo, hi - 1) + f(hi - 1)
  }

  /** The reference line of each id, empty for an id the ledger does not hold. */
  function EntryAt(cits: map<int, CitationRecord>): int -> string {
    id => if id in cits then Entry(id, cits[id]) else ""
  }

  /** The reference lines of the ids `lo .. hi - 1`, in ascending order. */
  function Listing(cits: map<int, CitationRecord>, lo: int, hi: int): string {
    Catenation(EntryAt(cits), lo, hi)
  }

  /** The heading that opens a non-empty reference list. */
  const HEADING := "## References\n\n"

  class CitationManager {
    var citations: map<int, CitationRecord>
    var counter: int

    /** Ids are dense, 1 .. counter - 1, and every stored record has some truthy field. */
    ghost predicate Valid()
      reads this
    {
      && counter >= 1
      && (forall id :: id in citations <==> 1 <= id < counter)
      && (forall id | id in citations :: HasContent(citations[id]))
    }

    /** An empty ledger whose first id will be 1. */
    constructor ()
      ensures Valid()
      ensures citations == map[] && counter == 1
    {
      citations := map[];
      counter := 1;
    }

    /**
     Stores the normalised record under the current counter and returns that
     id, incrementing the counter by one; a rejected citation changes nothing.
     */
    method AddCitation(title: Option<string>, url: Option<string>, authors: Option<string>,
                       year: Option<string>, journal: Option<string>, currentYear: nat)
      returns (r: Result<int, CitationError>)
      requires Valid()
      modifies this
      ensures Valid()
      ensures match Normalize(title, url, authors, year, journal, currentYear)
        case Failure(e) =>
          && r == Failure(e)
          && citations == old(citations) && counter == old(counter)
        case Success(rec) =>
          && r == Success(old(counter))
          && old(counter) !in old(citations)
          && citations == old(citations)[old(counter) := rec]
          && counter == old(counter) + 1
    {
      var data := Normalize(title, url, authors, year, journal, currentYear);
      if data.Failure? {
        return Failure(data.error);
      }
      var id := counter;
      citations := citations[id := data.value];
      counter := counter + 1;
      r := Success(id);
    }

    /** The markdown reference list: empty for an empty ledger, else the heading and one line per citation in id order. */
    method GetReferences() returns (refs: string)
      requires Valid()
      ensures citations == map[] ==> refs == ""
      ensures citations != map[] ==> refs == HEADING + Listing(citations, 1, counter)
    {
      if |citations| == 0 {
        return "";
      }
      refs := HEADING;
      var id := 1;
      while id < counter
        invariant 1 <= id <= counter
        invariant refs == HEADING + Listing(citations, 1, id)
      {
        var parts := Parts(citations[id]);
        assert EntryAt(citations)(id) == Line(id, parts);
        if parts != [] {
          refs := refs + Line(id, parts);
        }
        id := id + 1;
      }
    }

    /** `citations.get(id)`: the stored record, or `None` for an unknown id. */
    function GetCitationById(id: int): (r: Option<CitationRecord>)
      reads this
      ensures r.Some? <==> id in citations
      ensures r.Some? ==> r.value == citations[id]
    {
      if id in citations then Some(citations[id]) else None
    }
  }

  /** A record renders to at least one part exactly when it has a truthy field. */
  lemma PartsNonEmptyIff(rec: CitationRecord)
    ensures Parts(rec) != [] <==> HasContent(rec)
  {
  }

  /** A catenation over `lo .. hi` splits at any `m` in between. */
  lemma {:induction false} CatenationSplit(f: int -> string, lo: int, m: int, hi: int)
    requires lo <= m <= hi
    ensures Catenation(f, lo, hi) == Catenation(f, lo, m) + Catenation(f, m, hi)
    decreases hi - m
  {
    if m < hi {
      CatenationSplit(f, lo, m, hi - 1);
      calc {
        Catenation(f, lo, hi);
        Catenation(f, lo, hi - 1) + f(hi - 1);
        (Catenation(f, lo, m) + Catenation(f, m, hi - 1)) + f(hi - 1);
        Catenation(f, lo, m) + (Catenation(f, m, hi - 1) + f(hi - 1));
        Catenation(f, lo, m) + Catenation(f, m, hi);
      }
    } else {
      assert Catenation(f, m, hi) == "";
    }
  }

  /** Term `k` of a catenation sits between the terms before it and those after it. */
  lemma CatenationAround(f: int -> string, lo: int, k: int, hi: int)
    requires lo <= k < hi
    ensures Catenation(f, lo, hi) == Catenation(f, lo, k) + f(k) + Catenation(f, k + 1, hi)
  {
    CatenationSplit(f, lo, k, hi);
    CatenationSplit(f, k, k + 1, hi);
    assert Catenation(f, k, k + 1) == Catenation(f, k, k) + f(k);
  }

  /**
   The reference list of a valid ledger: after the heading, the line of each
   citation `k` sits between the lines of the citations before it and those
   after it, and it is a non-empty line that starts `[k] ` and ends with a
   blank line: one line per citation, in ascending id order.
   */
  lemma ReferencesLayout(cits: map<int, CitationRecord>, counter: int, k: int)
    requires forall id :: id in cits <==> 1 <= id < counter
    requires forall id | id in cits :: HasContent(cits[id])
    requires 1 <= k < counter
    ensures Listing(cits, 1, counter) == Listing(cits, 1, k) + Line(k, Parts(cits[k])) + Listing(cits, k + 1, counter)
    ensures Parts(cits[k]) != []
  {
    CatenationAround(EntryAt(cits), 1, k, counter);
    assert EntryAt(cits)(k) == Line(k, Parts(cits[k]));
    PartsNonEmptyIff(cits[k]);
  }

  /** A citation whose given fields are all non-empty and already trimmed is stored exactly as given. */
  lemma NormalizeTrimmed(title: string, url: string, authors: string, year: string, currentYear: nat)
    requires title != [] && TrimmedBy(title, IsSpace)
    requires url != [] && TrimmedBy(url, IsSpace)
    requires authors != [] && TrimmedBy(authors, IsSpace)
    requires year != [] && TrimmedBy(year, IsSpace)
    ensures Normalize(Some(title), Some(url), Some(authors), Some(year), None, currentYear)
         == Success(CitationRecord(Some(title), Some(url), Some(authors), year, None))
  {
    CleanTrimmed(title);
    CleanTrimmed(url);
    CleanTrimmed(authors);
    CleanTrimmed(year);
  }

  /** A present, non-empty, already trimmed field is kept as it is. */
  lemma CleanTrimmed(s: string)
    requires s != [] && TrimmedBy(s, IsSpace)
    ensures Clean(Some(s)) == Some(s) && Strip(s) == s
  {
    StripTrimmed(s);
  }

  /** The line of a citation without a journal: authors, `(year)`, `*title*` and the link, joined by `". "`. */
  lemma EntryWithoutJournal(id: int, title: string, url: string, authors: string, year: string)
    requires title != [] && url != [] && authors != [] && year != []
    ensures Entry(id, CitationRecord(Some(title), Some(url), Some(authors), year, None)) ==
      "[" + IntToString(id) + "] "
      + (authors + ". " + ("(" + year + ")") + ". " + ("*" + title + "*") + ". " + ("[Available online](" + url + ")"))
      + "\n\n"
  {
    var b, c, d := "(" + year + ")", "*" + title + "*", "[Available online](" + url + ")";
    var rec := CitationRecord(Some(title), Some(url), Some(authors), year, None);
    assert Parts(rec) == [authors] + [b] + [c] + [] + [d];
    assert [authors] + [b] + [c] + [] + [d] == [authors, b, c, d];
    JoinFour(". ", authors, b, c, d);
  }

  /** Joining four parts puts the separator between each neighbouring pair. */
  lemma JoinFour(sep: string, a: string, b: string, c: string, d: string)
    ensures JoinWith(sep, [a, b, c, d]) == a + sep + b + sep + c + sep + d
  {
    assert [a, b, c, d][1..] == [b, c, d];
    assert [b, c, d][1..] == [c, d];
    assert [c, d][1..] == [d];
    assert JoinWith(sep, [c, d]) == c + sep + d;
    assert JoinWith(sep, [b, c, d]) == b + sep + (c + sep + d);
    assert JoinWith(sep, [a, b, c, d]) == a + sep + (b + sep + (c + sep + d));
  }

  /**
   The documented example renders with a doubled period after the initials,
   because the authors' own trailing `.` meets the `". "` joiner: the line
   reads `[1] Smith, J.. (2023). *Example Paper*. [Available online](https://example.com)`.
   */
  lemma ReferenceExample(currentYear: nat)
    ensures var r := Normalize(Some("Example Paper"), Some("https://example.com"), Some("Smith, J."), Some("2023"), None, currentYear);
      && r.Success?
      && Entry(1, r.value) ==
         "[" + IntToString(1) + "] "
         + ("Smith, J." + ". " + ("(" + "2023" + ")") + ". " + ("*" + "Example Paper" + "*") + ". "
            + ("[Available online](" + "https://example.com" + ")"))
         + "\n\n"
  {
    NormalizeTrimmed("Example Paper", "https://example.com", "Smith, J.", "2023", currentYear);
    EntryWithoutJournal(1, "Example Paper", "https://example.com", "Smith, J.", "2023");
  }

  /**
   Ids across a run of calls: the first accepted citation gets 1; a
   rejected one (year given as blanks, nothing else) consumes no id, so the
   next gets 2; and a call with every field absent is accepted, because the
   year defaults to the current year, and gets 3.
   */
  method IdsAreDense() returns (first: Result<int, CitationError>, rejected: Result<int, CitationError>,
                                second: Result<int, CitationError>, absent: Result<int, CitationError>)
    ensures first == Success(1) && rejected == Failure(EmptyCitation)
    ensures second == Success(2) && absent == Success(3)
  {
    assert Normalize(Some("X"), None, None, None, None, 2024).Success?;
    assert Normalize(None, None, None, Some("  "), None, 2024).Failure?;
    assert Normalize(Some("Y"), None, None, None, None, 2024).Success?;
    assert Normalize(None, None, None, None, None, 2024).Success?;
    var ledger := new CitationManager();
    first := ledger.AddCitation(Some("X"), None, None, None, None, 2024);
    rejected := ledger.AddCitation(None, None, None, Some("  "), None, 2024);
    second := ledger.AddCitation(Some("Y"), None, None, None, None, 2024);
    absent := ledger.AddCitation(None, None, None, None, None, 2024);
  }
}

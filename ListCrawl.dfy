/**
 * The search-result crawl (`scrape_inmate_list`). The site is seen as the
 * sequence of result pages the crawler would reach by following `a.Next`
 * links from the first one; an empty sequence means the first results
 * table never appeared, and a `Next` link on the last page of the sequence
 * leads to a page whose results never appear.
 */
module ListCrawl {
  import opened PyStr
  import opened Names

  /** `max_pages`: the crawl reads at most this many result pages. */
  const MaxPages: nat := 3

  /** The `td.Name a` link of a result row: its text and its `href`
      attribute, which may be missing. */
  datatype NameLink = NameLink(text: string, href: Option<string>)

  /** A result row: the name link, if the row has one, and the text of each
      other cell present, by cell class (`SubjectNumber`, `Race`, ...). */
  datatype ListRow = ListRow(nameLink: Option<NameLink>, cells: map<string, string>)

  /** One page of results: whether it shows "No records found", its
      `tbody tr` rows, and whether it has an `a.Next[href]` link. */
  datatype ResultPage = ResultPage(noRecords: bool, rows: seq<ListRow>, hasNext: bool)

  /** The dictionary built for each listed inmate. */
  datatype SummaryEntry = SummaryEntry(
    name: string,
    detailLink: Option<string>,
    subjectNumber: string,
    lastName: string,
    firstName: string,
    middleName: string,
    suffix: string,
    race: string,
    gender: string,
    dob: string,
    height: string,
    weight: string)

  /** Waiting for the results after clicking `Next` timed out; nothing
      inside the crawl catches it. */
  datatype CrawlError = NextPageTimeout

  datatype Result<T> = Ok(value: T) | Err(error: CrawlError)

  /** The inner text of the cell of class `cls`, or "" when the row has none. */
  function CellText(row: ListRow, cls: string): (t: string)
    ensures cls !in row.cells ==> t == ""
    ensures cls in row.cells ==> t == row.cells[cls]
  {
    if cls in row.cells then row.cells[cls] else ""
  }

  /** One row: an entry only when the row has a name link; every missing
      secondary cell reads as "". */
  function EntryOf(row: ListRow): (r: Option<SummaryEntry>)
    ensures r.Some? <==> row.nameLink.Some?
    ensures r.Some? ==>
      && r.value.name == row.nameLink.value.text
      && r.value.detailLink == row.nameLink.value.href
      && NameParts(r.value.lastName, r.value.firstName, r.value.middleName, r.value.suffix)
         == ParseName(r.value.name)
      && r.value.suffix == ""
      && r.value.subjectNumber == CellText(row, "SubjectNumber")
      && r.value.race == CellText(row, "Race")
      && r.value.gender == CellText(row, "Gender")
      && r.value.dob == CellText(row, "DateOfBirth")
      && r.value.height == CellText(row, "Height")
      && r.value.weight == CellText(row, "Weight")
  {
    match row.nameLink
    case None => None
    case Some(link) =>
      var n := ParseName(link.text);
      Some(SummaryEntry(link.text, link.href, CellText(row, "SubjectNumber"),
                        n.last, n.first, n.middle, n.suffix,
                        CellText(row, "Race"), CellText(row, "Gender"), CellText(row, "DateOfBirth"),
                        CellText(row, "Height"), CellText(row, "Weight")))
  }

  /** The entries of a page's rows, in row order. */
  function EntriesOf(rows: seq<ListRow>): seq<SummaryEntry> {
    if rows == [] then []
    else
      var e := EntryOf(rows[|rows| - 1]);
      EntriesOf(rows[..|rows| - 1]) + (if e.Some? then [e.value] else [])
  }

  /** The page shows rows to collect. */
  predicate HasRows(p: ResultPage) {
    !p.noRecords && |p.rows| > 0
  }

  /** After this page the crawler asks for the next one. */
  predicate Continues(p: ResultPage) {
    HasRows(p) && p.hasNext
  }

  function PageEntries(p: ResultPage): seq<SummaryEntry> {
    if HasRows(p) then EntriesOf(p.rows) else []
  }

  /** The entries of the given pages, in page order and then row order. */
  function Collect(pages: seq<ResultPage>): seq<SummaryEntry> {
    if pages == [] then []
    else Collect(pages[..|pages| - 1]) + PageEntries(pages[|pages| - 1])
  }

  /** How many pages at the front of the sequence lead on to the next one. */
  function LeadingContinues(pages: seq<ResultPage>): (n: nat)
    ensures n <= |pages|
    ensures forall i :: 0 <= i < n ==> Continues(pages[i])
    ensures n < |pages| ==> !Continues(pages[n])
  {
    if pages != [] && Continues(pages[0]) then 1 + LeadingContinues(pages[1..]) else 0
  }

  /** How many pages the crawler looks at: up to and including the first
      page that does not lead on, and never more than `MaxPages`. */
  function PagesRead(pages: seq<ResultPage>): (n: nat)
    ensures n <= MaxPages
    ensures pages == [] <==> n == 0
  {
    if pages == [] then 0
    else if LeadingContinues(pages) + 1 < MaxPages then LeadingContinues(pages) + 1
    else MaxPages
  }

  /** What the crawl returns: the entries of the pages it read, or the
      timeout raised when a `Next` link leads past the last page. */
  function CrawlList(pages: seq<ResultPage>): Result<seq<SummaryEntry>> {
    if PagesRead(pages) > |pages| then Err(NextPageTimeout)
    else Ok(Collect(pages[..PagesRead(pages)]))
  }

  /** When page `k` (counting from 1) is the first not to lead on, or is
      the last allowed, the crawler has read exactly `k` pages. */
  lemma {:induction false} PagesReadAt(pages: seq<ResultPage>, k: nat)
    requires 1 <= k <= |pages| && k <= MaxPages
    requires forall i :: 0 <= i < k - 1 ==> Continues(pages[i])
    requires !Continues(pages[k - 1]) || k == MaxPages
    ensures PagesRead(pages) == k
  {
    LeadingAtLeast(pages, k - 1);
  }

  /** The crawl that stops after page `k` returns the entries of the first
      `k` pages. */
  lemma CrawlEndsAt(pages: seq<ResultPage>, k: nat)
    requires 1 <= k <= |pages| && k <= MaxPages
    requires forall i :: 0 <= i < k - 1 ==> Continues(pages[i])
    requires !Continues(pages[k - 1]) || k == MaxPages
    ensures PagesRead(pages) == k && CrawlList(pages) == Ok(Collect(pages[..k]))
  {
    PagesReadAt(pages, k);
  }

  /** One more page adds its entries at the end. */
  lemma CollectNext(pages: seq<ResultPage>, k: nat)
    requires 1 <= k <= |pages|
    ensures Collect(pages[..k]) == Collect(pages[..k - 1]) + PageEntries(pages[k - 1])
  {
    assert pages[..k][..k - 1] == pages[..k - 1];
  }

  lemma {:induction false} LeadingAtLeast(pages: seq<ResultPage>, k: nat)
    requires k <= |pages|
    requires forall i :: 0 <= i < k ==> Continues(pages[i])
    ensures LeadingContinues(pages) >= k
  {
    if k > 0 {
      LeadingAtLeast(pages[1..], k - 1);
    }
  }

  /** The loop over one page's rows: a row with a name link gives an entry
      (its name split by `ParseName`), any other row is skipped. */
  method ScrapeRows(rows: seq<ListRow>) returns (entries: seq<SummaryEntry>)
    ensures entries == EntriesOf(rows)
  {
    entries := [];
    for j := 0 to |rows|
      invariant entries == EntriesOf(rows[..j])
    {
      var row := rows[j];
      if row.nameLink.Some? {
        var name := row.nameLink.value.text;
        var n := ParseName(name);
        var entry := SummaryEntry(name, row.nameLink.value.href, CellText(row, "SubjectNumber"),
                                  n.last, n.first, n.middle, n.suffix,
                                  CellText(row, "Race"), CellText(row, "Gender"),
                                  CellText(row, "DateOfBirth"), CellText(row, "Height"),
                                  CellText(row, "Weight"));
        entries := entries + [entry];
      }
      assert rows[..j + 1][..j] == rows[..j];
    }
    assert rows[..|rows|] == rows;
  }

  /** The result-page loop. `currentPage` is the page counter the source
      logs at the end. */
  method ScrapeInmateList(pages: seq<ResultPage>) returns (r: Result<seq<SummaryEntry>>, currentPage: nat)
    ensures r == CrawlList(pages)
    ensures currentPage <= MaxPages
    ensures r.Ok? ==> currentPage == PagesRead(pages)
  {
    if |pages| == 0 {
      assert CrawlList(pages) == Ok([]);
      return Ok([]), 0;
    }
    var inmatesData: seq<SummaryEntry> := [];
    currentPage := 1;
    while currentPage <= MaxPages
      invariant 1 <= currentPage <= MaxPages && currentPage <= |pages|
      invariant forall i :: 0 <= i < currentPage - 1 ==> Continues(pages[i])
      invariant inmatesData == Collect(pages[..currentPage - 1])
      decreases MaxPages - currentPage
    {
      var page := pages[currentPage - 1];
      CollectNext(pages, currentPage);
      if page.noRecords {
        CrawlEndsAt(pages, currentPage);
        assert inmatesData == Collect(pages[..currentPage]);
        break;
      }
      if |page.rows| == 0 {
        CrawlEndsAt(pages, currentPage);
        assert inmatesData == Collect(pages[..currentPage]);
        break;
      }
      var entries := ScrapeRows(page.rows);
      inmatesData := inmatesData + entries;
      assert inmatesData == Collect(pages[..currentPage]);
      if currentPage < MaxPages {
        if page.hasNext {
          if currentPage == |pages| {
            assert Continues(page);
            LeadingAtLeast(pages, currentPage);
            return Err(NextPageTimeout), currentPage;
          }
          currentPage := currentPage + 1;
        } else {
          CrawlEndsAt(pages, currentPage);
          break;
        }
      } else {
        CrawlEndsAt(pages, currentPage);
        break;
      }
    }
    r := Ok(inmatesData);
  }

  // ---------------------------------------------------------------------
  // Properties of the crawl

  /** Entries keep page order, then row order. */
  lemma {:induction false} CollectAppend(a: seq<ResultPage>, b: seq<ResultPage>)
    ensures Collect(a + b) == Collect(a) + Collect(b)
    decreases |b|
  {
    if b == [] {
      assert a + b == a;
    } else {
      assert (a + b)[..|a + b| - 1] == a + b[..|b| - 1];
      CollectAppend(a, b[..|b| - 1]);
    }
  }

  /** Row entries keep row order; a row without a name link adds nothing. */
  lemma {:induction false} EntriesOfAppend(a: seq<ListRow>, b: seq<ListRow>)
    ensures EntriesOf(a + b) == EntriesOf(a) + EntriesOf(b)
    decreases |b|
  {
    if b == [] {
      assert a + b == a;
    } else {
      assert (a + b)[..|a + b| - 1] == a + b[..|b| - 1];
      EntriesOfAppend(a, b[..|b| - 1]);
    }
  }

  /** The number of entries of a page is the number of its rows that have a
      name link. */
  function LinkedRows(rows: seq<ListRow>): (n: nat)
    ensures n <= |rows|
  {
    if rows == [] then 0
    else LinkedRows(rows[..|rows| - 1]) + (if rows[|rows| - 1].nameLink.Some? then 1 else 0)
  }

  lemma {:induction false} EntriesOfCount(rows: seq<ListRow>)
    ensures |EntriesOf(rows)| == LinkedRows(rows) <= |rows|
  {
    if rows != [] {
      EntriesOfCount(rows[..|rows| - 1]);
    }
  }

  lemma {:induction false} LeadingContinuesPrefix(pages: seq<ResultPage>, m: nat)
    requires m <= |pages|
    ensures LeadingContinues(pages[..m]) == if LeadingContinues(pages) < m then LeadingContinues(pages) else m
  {
    if m > 0 && Continues(pages[0]) {
      assert pages[..m][1..] == pages[1..][..m - 1];
      LeadingContinuesPrefix(pages[1..], m - 1);
    }
  }

  /** Pages beyond the third never influence the crawl, even when the third
      still has a `Next` link; with three pages or more it always succeeds. */
  lemma CrawlIgnoresLaterPages(pages: seq<ResultPage>)
    requires |pages| >= MaxPages
    ensures CrawlList(pages) == CrawlList(pages[..MaxPages])
    ensures CrawlList(pages).Ok?
  {
    LeadingContinuesPrefix(pages, MaxPages);
    var n := PagesRead(pages);
    assert PagesRead(pages[..MaxPages]) == n;
    assert pages[..MaxPages][..n] == pages[..n];
  }

  /** A page that shows "No records found" or no rows, or has no `Next`
      link, ends the crawl: later pages are never read. */
  lemma CrawlStopsAt(pages: seq<ResultPage>, k: nat)
    requires k < |pages| && k < MaxPages
    requires forall i :: 0 <= i < k ==> Continues(pages[i])
    requires !Continues(pages[k])
    ensures CrawlList(pages) == Ok(Collect(pages[..k + 1]))
    ensures CrawlList(pages) == CrawlList(pages[..k + 1])
  {
    PagesReadAt(pages, k + 1);
    var p := pages[..k + 1];
    PagesReadAt(p, k + 1);
    assert p[..k + 1] == p;
  }

  /** The "No records found" message on the first page gives no entries. */
  lemma CrawlNoRecords(pages: seq<ResultPage>)
    requires |pages| > 0 && pages[0].noRecords
    ensures CrawlList(pages) == Ok([])
  {
    CrawlStopsAt(pages, 0);
    var p := pages[..1];
    assert p[..0] == [] && p[0] == pages[0];
    assert PageEntries(pages[0]) == [];
    assert Collect(p) == Collect(p[..0]) + PageEntries(p[0]);
    assert Collect(p) == [];
  }

  /** A `Next` link on every page of a sequence shorter than `MaxPages`
      makes the crawl fail: the click leads to a page that never loads. */
  lemma CrawlRunsOffTheEnd(pages: seq<ResultPage>)
    requires 0 < |pages| < MaxPages
    requires forall i :: 0 <= i < |pages| ==> Continues(pages[i])
    ensures CrawlList(pages) == Err(NextPageTimeout)
  {
    LeadingAtLeast(pages, |pages|);
  }
}

/**
 * The top-level scrape (`run`): crawl the result list, cap it at
 * `max_inmates` when that is truthy, fetch every inmate's detail page,
 * keep the ones that loaded (in list order) and save them. The browser is
 * replaced by the result pages the crawl would meet and by the detail pages
 * the site serves, by URL.
 */
module Runner {
  import opened PyStr
  import opened ListCrawl
  import opened Details
  import opened Persist

  /** The site origin that detail links are relative to. */
  const Origin: string := "https://nwwebcad.fcpsn.org"

  /** `xs[:n]` with Python's slice bounds: a negative `n` counts from the
      end, and bounds past either end are clipped. */
  function PySlicePrefix<T>(xs: seq<T>, n: int): (r: seq<T>)
    ensures |r| <= |xs| && r == xs[..|r|]
    ensures 0 <= n <= |xs| ==> |r| == n
    ensures n > |xs| ==> r == xs
    ensures n < 0 ==> |r| == if |xs| + n > 0 then |xs| + n else 0
  {
    if n >= 0 then (if n <= |xs| then xs[..n] else xs)
    else if |xs| + n > 0 then xs[..|xs| + n]
    else []
  }

  /** `inmates_list[:max_inmates]` under `if max_inmates:`, so neither
      `None` nor `0` caps the list. */
  function Cap<T>(xs: seq<T>, maxInmates: Option<int>): (r: seq<T>)
    ensures |r| <= |xs| && r == xs[..|r|]
    ensures maxInmates.None? || maxInmates == Some(0) ==> r == xs
    ensures maxInmates.Some? && maxInmates.value > 0 ==>
      |r| == if maxInmates.value < |xs| then maxInmates.value else |xs|
  {
    if maxInmates.Some? && maxInmates.value != 0 then PySlicePrefix(xs, maxInmates.value) else xs
  }

  /** A negative cap drops that many inmates from the end of the list. */
  lemma CapNegative<T>(xs: seq<T>, k: int)
    requires 0 < k
    ensures Cap(xs, Some(-k)) == if k < |xs| then xs[..|xs| - k] else []
  {
  }

  /** The URL the detail scrape navigates to; a missing `href` is formatted
      as the text "None". */
  function DetailUrl(entry: SummaryEntry): (url: string)
    ensures |Origin| <= |url| && url[..|Origin|] == Origin
    ensures entry.detailLink.Some? ==> url == Origin + entry.detailLink.value
    ensures entry.detailLink.None? ==> url == Origin + "None"
  {
    Origin + (if entry.detailLink.Some? then entry.detailLink.value else "None")
  }

  /** The detail page the browser reaches for an entry, or nothing when
      navigation or the wait for the detail section fails. */
  function Visit(site: map<string, DetailPage>, entry: SummaryEntry): Option<DetailPage> {
    var url := DetailUrl(entry);
    if url in site then Some(site[url]) else None
  }

  /** The detail records of the listed inmates whose detail page loaded, in
      list order. */
  function DetailsAll(entries: seq<SummaryEntry>, site: map<string, DetailPage>): seq<DetailedInmate> {
    if entries == [] then []
    else
      var d := DetailsOf(entries[|entries| - 1], Visit(site, entries[|entries| - 1]));
      DetailsAll(entries[..|entries| - 1], site) + (if d.Some? then [d.value] else [])
  }

  /** The loop of `run` that collects `detailed_inmates`. */
  method ScrapeAllDetails(entries: seq<SummaryEntry>, site: map<string, DetailPage>) returns (detailed: seq<DetailedInmate>)
    ensures detailed == DetailsAll(entries, site)
  {
    detailed := [];
    for i := 0 to |entries|
      invariant detailed == DetailsAll(entries[..i], site)
    {
      var d := ScrapeInmateDetails(entries[i], Visit(site, entries[i]));
      if d.Some? {
        detailed := detailed + [d.value];
      }
      assert entries[..i + 1][..i] == entries[..i];
    }
    assert entries[..|entries|] == entries;
  }

  /** The inmates a run saves. A crawl that raised aborts the whole run;
      an empty list saves nothing. `days_back` plays no part: the crawl
      always asks for the default date range. */
  function Saved(maxInmates: Option<int>, pages: seq<ResultPage>, site: map<string, DetailPage>): seq<DetailedInmate> {
    match CrawlList(pages)
    case Err(_) => []
    case Ok(list) => DetailsAll(Cap(list, maxInmates), site)
  }

  /** `run`: the database afterwards holds the upsert of every saved
      inmate's record, in order; when nothing is saved it is untouched. */
  method Run(db: InmateDb, maxInmates: Option<int>, daysBack: int,
             pages: seq<ResultPage>, site: map<string, DetailPage>)
    requires db.Valid()
    modifies db
    ensures db.Valid()
    ensures db.Records() == Upserted(old(db.Records()), RecordsOf(Saved(maxInmates, pages, site)))
    ensures db.nextId == old(db.nextId) + |Saved(maxInmates, pages, site)|
    ensures Saved(maxInmates, pages, site) == [] ==> db.rows == old(db.rows)
  {
    var crawl, _ := ScrapeInmateList(pages);
    if crawl.Err? {
      return;
    }
    var inmatesList := crawl.value;
    if inmatesList == [] {
      return;
    }
    if maxInmates.Some? && maxInmates.value != 0 {
      inmatesList := PySlicePrefix(inmatesList, maxInmates.value);
    }
    var detailedInmates := ScrapeAllDetails(inmatesList, site);
    if detailedInmates != [] {
      db.SaveToDatabase(detailedInmates);
    }
  }

  // ---------------------------------------------------------------------
  // Properties of a run

  /** Detail records come out in list order: the details of two lists are
      those of the first followed by those of the second. */
  lemma {:induction false} DetailsAllAppend(a: seq<SummaryEntry>, b: seq<SummaryEntry>, site: map<string, DetailPage>)
    ensures DetailsAll(a + b, site) == DetailsAll(a, site) + DetailsAll(b, site)
    decreases |b|
  {
    if b == [] {
      assert a + b == a;
    } else {
      assert (a + b)[..|a + b| - 1] == a + b[..|b| - 1];
      DetailsAllAppend(a, b[..|b| - 1], site);
    }
  }

  /** At most one record per listed inmate, each one belonging to a listed
      inmate. */
  lemma {:induction false} DetailsAllFromList(entries: seq<SummaryEntry>, site: map<string, DetailPage>)
    ensures |DetailsAll(entries, site)| <= |entries|
    ensures forall d :: d in DetailsAll(entries, site) ==> d.entry in entries
  {
    if entries != [] {
      var init := entries[..|entries| - 1];
      DetailsAllFromList(init, site);
      assert forall e :: e in init ==> e in entries;
    }
  }

  /** When every detail page loads, the records match the list one for one. */
  lemma {:induction false} DetailsAllLoaded(entries: seq<SummaryEntry>, site: map<string, DetailPage>)
    requires forall i :: 0 <= i < |entries| ==> DetailUrl(entries[i]) in site
    ensures |DetailsAll(entries, site)| == |entries|
    ensures forall i :: 0 <= i < |entries| ==> DetailsAll(entries, site)[i].entry == entries[i]
  {
    if entries != [] {
      var init, last := entries[..|entries| - 1], entries[|entries| - 1];
      assert forall i :: 0 <= i < |init| ==> DetailUrl(init[i]) in site by {
        assert forall i :: 0 <= i < |init| ==> init[i] == entries[i];
      }
      DetailsAllLoaded(init, site);
      assert Visit(site, last) == Some(site[DetailUrl(last)]);
      var d := DetailsOf(last, Visit(site, last));
      assert d.Some? && d.value.entry == last;
      var all := DetailsAll(entries, site);
      assert all == DetailsAll(init, site) + [d.value];
      forall i | 0 <= i < |entries|
        ensures all[i].entry == entries[i]
      {
        if i < |init| {
          assert all[i] == DetailsAll(init, site)[i];
        }
      }
    }
  }

  /** An inmate whose detail page fails is dropped and nobody else is. */
  lemma DetailsAllSkipsFailure(a: seq<SummaryEntry>, e: SummaryEntry, b: seq<SummaryEntry>, site: map<string, DetailPage>)
    requires DetailUrl(e) !in site
    ensures DetailsAll(a + [e] + b, site) == DetailsAll(a + b, site)
  {
    DetailsAllAppend(a + [e], b, site);
    DetailsAllAppend(a, b, site);
    assert (a + [e])[..|a|] == a;
  }

  /** A positive cap bounds the number of inmates saved, and every saved
      inmate was among the first `max_inmates` listed. */
  lemma SavedWithinCap(n: int, pages: seq<ResultPage>, site: map<string, DetailPage>)
    requires n > 0 && CrawlList(pages).Ok?
    ensures |Saved(Some(n), pages, site)| <= n
    ensures forall d :: d in Saved(Some(n), pages, site) ==>
      d.entry in CrawlList(pages).value[..if n < |CrawlList(pages).value| then n else |CrawlList(pages).value|]
  {
    DetailsAllFromList(Cap(CrawlList(pages).value, Some(n)), site);
  }
}

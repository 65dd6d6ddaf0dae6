# Flagler inmate scraper — a Dafny model

This project models the core of a jail-roster scraper and its web viewer.

The scraper (`scraper.py`) does four things:

- It crawls up to three pages of search results and builds one summary entry per listed inmate. The entry's name is split into last, first and middle parts.
- It opens each inmate's detail page. From it, it reads the demographic field list and every booking section: the header number, the label/value fields and the 13-column charge rows.
- It turns each inmate into one row of the `inmates` table.
- It writes that row with `INSERT OR REPLACE`, keyed by the unique booking number.

The viewer's listing route (`app.py`) builds a filtered SQL query and its parameters from three search boxes. It also derives a count query and computes the pagination numbers.

The browser is replaced by data. The result pages the crawl would meet form a sequence of `ResultPage` values. The detail pages the site serves form a map from URL to `DetailPage`. A page that fails to load is a missing entry in that map. The database table is a class `InmateDb` that holds rows by booking number and the next AUTOINCREMENT id.

Modules, in dependency order:

- `PyStr`: the Python string built-ins the code relies on.
- `Names`: `parse_name`.
- `Fields`: label normalisation and the field-list loop.
- `Charges`: charge rows.
- `ListCrawl`: `scrape_inmate_list`.
- `Details`: `scrape_inmate_details`.
- `Persist`: `save_to_database` and the table.
- `Runner`: `run`.
- `InmateIndex`: the `index` route's query builder and pagination.

Each loop of the source is a method proved equal to a specification function. The properties are proved about those functions.

Behaviour of the code that is easy to misread, and that the model keeps:

- A charge row is accepted when it has thirteen or more cells. Cells past the thirteenth are ignored.
- Suppose page 1 or 2 has a `Next` link, but the results never appear after the click. That wait is not caught inside the crawl, so `run` catches it at its outer handler and saves nothing.
- A field whose label normalises to `booking_number` overwrites the number taken from the section header. The last such field wins.
- `run` never forwards `days_back`; the crawl always uses the default range. Because of `if max_inmates:`, a cap of `0` does not limit the list. A negative cap drops that many inmates from the end.
- Every inmate without bookings is written under the booking number `""`, so such inmates overwrite one another.
- A page number of 0 or below is not clamped; its offset is negative.

## Model

| member | source | states |
|---|---|---|
| PyStr.Strip | scraper.py:63-64 | `strip()`: the result has no surrounding whitespace and is never longer than the input |
| PyStr.StripIsMiddle | scraper.py:63-64 | the stripped string is a middle slice of the input, and everything cut off on either side is whitespace |
| PyStr.StripTrimmed | scraper.py:63-64 | stripping a string without surrounding whitespace changes nothing |
| PyStr.Words | scraper.py:67 | `split()`: every piece is a non-empty run of non-whitespace characters |
| PyStr.WordsAtSpace | scraper.py:67 | `split()` cuts at every whitespace character: the words of `a + [c] + b` for whitespace `c` are the words of `a` followed by those of `b` |
| PyStr.WordsOfWord | scraper.py:67 | a single word splits into itself |
| PyStr.WordsOfSpace | scraper.py:67 | an all-whitespace string splits into no words |
| PyStr.WordsAfterSpace | scraper.py:67 | leading whitespace of any length does not change the words |
| PyStr.WordsOfJoin | scraper.py:67-69 | splitting words joined with single spaces gives back exactly those words |
| PyStr.JoinOfWordsTrimmed | scraper.py:69 | words joined with single spaces form a trimmed string, empty exactly when there are no words, that starts with the first word |
| PyStr.Split | scraper.py:61 | `split(', ')`: at least one piece; no piece contains `", "`; the pieces joined with `", "` give back the input; without a separator the only piece is the input |
| PyStr.SplitAfterHead | scraper.py:61 | a first piece without a separator is split off, and the rest is split on its own |
| PyStr.ReplaceAllAbsent | app.py:85 | `replace` leaves a string unchanged when it lacks a character of the pattern |
| PyStr.ReplaceLeading | app.py:85 | in `pat + t`, where `t` lacks a character of `pat`, `replace` rewrites only the leading occurrence |
| PyStr.NatToString | app.py:90 | `str(n)` is a non-empty run of decimal digits with no leading zero |
| PyStr.NatToStringRoundTrip | app.py:90 | reading the digits of `str(n)` back gives `n` |
| Names.ParseName | scraper.py:59-73 | suffix is always empty; without `", "` the whole name is the last name, untouched; otherwise the last name is the stripped first piece, the first name has no whitespace, the middle name is trimmed, and there is no middle name without a first name |
| Names.ParseTwoPieces | scraper.py:61-71 | for two pieces, last = `strip(a)`, first = first word of `strip(b)`, middle = the remaining words joined by single spaces |
| Names.ParseNameRoundTrip | scraper.py:61-71 | for `"L, W1 W2 …"` with trimmed `L` and words `Wi`, parsing gives `(L, W1, "W2 …", "")`, and reassembling `L + ", " + first + (" " + middle if middle)` gives back the input |
| Names.WordsSplitUp | scraper.py:67-69 | from the words of the rest, the first name has no whitespace and is empty only without words; the middle name is trimmed and is empty exactly when there is at most one word |
| Names.ReassembleWords | scraper.py:67-69 | first word plus the others joined by single spaces is the whole word list joined by single spaces |
| Names.WordsOfTrimmedJoin | scraper.py:64-67 | stripping and re-splitting words joined with single spaces gives back the words |
| Names.ParseNameDropsThirdPiece | scraper.py:61-64 | text after a second `", "` has no effect on the result |
| Names.ParseNameAnyGap | scraper.py:61-71 | for `"L, F<gap>M"` where the gap is any non-empty run of whitespace (two spaces, a tab), the parse is `(L, F, M, "")`, as with a single space |
| Names.GapWords | scraper.py:67 | two words with any whitespace between them split into exactly those two words |
| Fields.NormalizeKey | scraper.py:208 | `label.lower().replace(' ', '_')`: same length, no spaces, no upper-case ASCII letters, each character normalised in place |
| Fields.NormalizeKeyIdempotent | scraper.py:208 | normalising a key again changes nothing |
| Fields.NormalizeKeyCollision | scraper.py:231 | two labels give the same key exactly when they agree letter by letter up to ASCII case, with space and underscore equal |
| Fields.CollectFields | scraper.py:201-208 | the field-list loop builds exactly the dictionary `FieldsOf(init, items)` |
| Fields.FieldsOfKeys | scraper.py:224-231 | a key is present afterwards exactly when it was before or some item has both a label normalising to it and a span |
| Fields.FieldsOfLastWins | scraper.py:224-231 | for a repeated key, the last item providing it decides the value |
| Fields.FieldsOfUntouched | scraper.py:224-231 | a key that no item provides keeps its presence and value |
| Fields.FieldsOfKeysNormalised | scraper.py:201-208 | every key of a field dictionary has no spaces and no upper-case ASCII letters |
| Charges.CellsOf | scraper.py:242-254 | a charge has exactly thirteen fields, in column order |
| Charges.ChargeOfRow | scraper.py:239-256 | a row yields a charge exactly when it has at least 13 cells, and the charge's fields are cells 0..12 in order |
| Charges.ChargeRoundTrip | scraper.py:241-254 | a charge written out as cells, with any extra cells, reads back as the same charge |
| Charges.ExtractCharges | scraper.py:234-256 | the charge loop produces exactly `ChargesOf(rows)` |
| Charges.ChargesOfAppend | scraper.py:237-256 | charges keep row order: the charges of `a + b` are those of `a` followed by those of `b` |
| Charges.ChargesOfRow | scraper.py:237-256 | a single row gives its one charge when it has at least 13 cells, and nothing otherwise |
| Charges.ChargesOfCount | scraper.py:237-256 | the number of charges is the number of rows with at least 13 cells, never more than the rows; all-short rows give none |
| ListCrawl.CellText | scraper.py:129-144 | a missing secondary cell reads as `""` |
| ListCrawl.EntryOf | scraper.py:128-164 | a row gives an entry exactly when it has a name link; the name parts are `parse_name` of the link text, the suffix is empty, and each other field is its cell's text or `""` |
| ListCrawl.LeadingContinues | scraper.py:103-183 | counts the leading pages that have rows and a `Next` link; the page after them does not lead on |
| ListCrawl.PagesRead | scraper.py:100-183 | the crawl reads at most 3 pages, and none only when there is no first page |
| ListCrawl.PagesReadAt | scraper.py:103-183 | if page `k` is the first that does not lead on, or is the third, exactly `k` pages are read |
| ListCrawl.CrawlEndsAt | scraper.py:103-183 | a crawl that stops after page `k` returns the entries of the first `k` pages |
| ListCrawl.CollectNext | scraper.py:164 | reading one more page appends its entries at the end |
| ListCrawl.ScrapeRows | scraper.py:125-168 | the row loop produces exactly the entries of the linked rows, in row order |
| ListCrawl.ScrapeInmateList | scraper.py:99-186 | the page loop returns `CrawlList(pages)`: either the timeout, or the entries of the pages read; `current_page` never exceeds 3 |
| ListCrawl.CollectAppend | scraper.py:164 | entries come in page order, then row order |
| ListCrawl.EntriesOfAppend | scraper.py:125-164 | entries of consecutive rows are concatenated in order |
| ListCrawl.EntriesOfCount | scraper.py:136 | the number of entries is the number of rows with a name link, at most the number of rows |
| ListCrawl.LeadingContinuesPrefix | scraper.py:103-183 | cutting the page sequence short only shortens the leading run of pages that lead on |
| ListCrawl.CrawlIgnoresLaterPages | scraper.py:101-103 | with three or more pages available, pages past the third never matter and the crawl succeeds |
| ListCrawl.CrawlStopsAt | scraper.py:110-180 | the crawl stops at the first page with no records, no rows or no `Next` link, and later pages never matter |
| ListCrawl.CrawlNoRecords | scraper.py:109-112 | a first page saying "No records found" gives an empty list |
| ListCrawl.CrawlRunsOffTheEnd | scraper.py:171-177 | if every page before the limit has rows and a `Next` link that leads nowhere, the crawl raises the timeout |
| Details.BookingOf | scraper.py:214-259 | a booking's text fields never include `charges`, and its charge list is the extracted charge rows; BookingKeys and BookingFieldValue give its keys and their values |
| Details.AssembleBooking | scraper.py:215-258 | the loop body for one booking section builds exactly `BookingOf(section)` |
| Details.BookingsOf | scraper.py:211-259 | one booking per section, in section order |
| Details.DetailsOf | scraper.py:188-272 | a detail record exists exactly when the page loaded; it keeps the list entry, its demographics are the field dictionary of the demographic list, and booking `i` is the booking of section `i` |
| Details.ScrapeInmateDetails | scraper.py:188-272 | the detail scrape returns exactly `DetailsOf(entry, page)` |
| Details.BookingNumberFromHeader | scraper.py:218-220 | when no field is labelled booking number, `booking_number` is present exactly when there is a header, and it holds the header text |
| Details.BookingFieldValue | scraper.py:220-231 | every text field of a booking holds the value of the last label/value item that provides its key |
| Details.BookingNumberOverridden | scraper.py:220-231 | a field labelled "Booking Number" overwrites the header number, and the last such field wins |
| Details.BookingKeys | scraper.py:215-231 | apart from `charges`, a booking holds exactly the header number, if any, and the keys its complete label/value items provide |
| Persist.RecordOf | scraper.py:279-318 | with no bookings, booking number and dates are empty and custody is "No"; otherwise they come from `bookings[0]`; custody is "Yes" exactly when there are bookings and the release date is empty; charges are all bookings' charges in order; inmate id = subject number, sex = gender, photo link empty |
| Persist.DeriveRecord | scraper.py:280-318 | the per-inmate loop body, including the `all_charges` loop, builds exactly `RecordOf(inmate)` |
| Persist.RecordsOf | scraper.py:279-318 | one record per inmate, in order: record `i` is `RecordOf(inmates[i])` |
| Persist.UpsertedAt | scraper.py:299-303 | after a save, a booking number is present exactly when it was before or some record has it; the last record with it decides its row; other rows are unchanged |
| Persist.UpsertedAppend | scraper.py:279-303 | saving `a` and then `b` is saving `a + b` |
| Persist.UpsertedIdempotent | scraper.py:299-303 | saving the same records again changes no record |
| Persist.SaveTwice | scraper.py:299-303 | saving one record twice leaves one row under its booking number, holding that record |
| Persist.NoBookingsShareKey | scraper.py:300 | two inmates without bookings share key `""`, and the later one's row is kept |
| Persist.FlatChargesAppend | scraper.py:293-295 | the charges of consecutive booking lists are concatenated in order |
| Persist.FlatChargesTwo | scraper.py:293-295 | two bookings' charges come out as the first booking's followed by the second's |
| Persist.InmateDb.constructor | scraper.py:19-45 | the table that `CREATE TABLE IF NOT EXISTS` makes in a fresh database file: empty and valid, with the next id 1 |
| Persist.InmateDb.InsertOrReplace | scraper.py:299-318 | `INSERT OR REPLACE` puts the record under its booking number with the next id, replacing any old row, and keeps the table valid |
| Persist.InmateDb.SaveToDatabase | scraper.py:274-326 | the table's records become `Upserted(old records, records of the inmates)`; the table stays valid; a booking number no inmate has keeps its row, id included; every written booking number holds a row with an id not used before |
| Runner.PySlicePrefix | scraper.py:343 | `xs[:n]` is a prefix of `xs`: length `n` when it fits, all of `xs` when `n` is larger, and `len(xs)+n` (at least 0) when `n` is negative |
| Runner.Cap | scraper.py:342-343 | no cap for `None` or `0`; a positive cap keeps the first `min(n, len)` entries; the result is always a prefix |
| Runner.CapNegative | scraper.py:342-343 | a negative cap `-k` drops `k` inmates from the end |
| Runner.DetailUrl | scraper.py:190 | the detail URL is the site origin followed by the link, or by the text "None" when the row had no link |
| Runner.ScrapeAllDetails | scraper.py:346-355 | the detail loop keeps exactly the inmates whose detail page loaded, in list order |
| Runner.Run | scraper.py:328-367 | afterwards the table holds the upsert of the saved inmates' records, in order; when nothing is saved the table is untouched |
| Runner.DetailsAllAppend | scraper.py:346-352 | detail records keep list order |
| Runner.DetailsAllFromList | scraper.py:346-352 | at most one record per listed inmate, each belonging to a listed inmate |
| Runner.DetailsAllLoaded | scraper.py:346-352 | when every page loads, the records match the list one for one |
| Runner.DetailsAllSkipsFailure | scraper.py:350-352 | an inmate whose detail page fails is dropped, and no one else is |
| Runner.SavedWithinCap | scraper.py:342-355 | a positive cap `n` bounds the number saved by `n`, and every saved inmate is among the first `n` listed |
| InmateIndex.Like | app.py:70-80 | a parameter is the term between two `%` wildcards |
| InmateIndex.Params | app.py:68-80 | 2 parameters for a name, 1 each for race and gender, in the order name, name, race, gender; each is a wrapped non-empty term |
| InmateIndex.PlaceholdersMatchParams | app.py:67-82 | the query has exactly one `?` per bound parameter |
| InmateIndex.NoFilters | app.py:67-82 | with no search terms the query is the base query plus the ordering, and binds nothing |
| InmateIndex.TailHasNoStar | app.py:67-82 | the query is `SELECT * FROM inmates` followed by text with no `*` |
| InmateIndex.CountQueryRewrite | app.py:85 | the count query is the query with only its leading select rewritten |
| InmateIndex.TailPlaceholders | app.py:67-85 | the query text after its leading select holds all of the query's placeholders |
| InmateIndex.CountQueryPlaceholders | app.py:85 | the count query has one placeholder per parameter |
| InmateIndex.Offset | app.py:89 | from page 1 on, the offset is non-negative, and page 1 starts at row 0 |
| InmateIndex.LimitClauseNoPlaceholder | app.py:90 | the `LIMIT … OFFSET …` suffix binds nothing |
| InmateIndex.BuildFilter | app.py:67-82 | the filter-building lines produce exactly `QueryText` and `Params` of the (stripped) terms: one clause and its parameters per non-empty term, in order |
| InmateIndex.BuildQueries | app.py:60-90 | the query is the filtered, ordered query plus the limit suffix; the count query is the rewritten query; the parameters are the wrapped stripped terms; both queries have one placeholder per parameter |
| InmateIndex.TotalPages | app.py:128 | 0 pages exactly when there are no rows; otherwise `(n-1)*50 < total <= n*50` |
| InmateIndex.HasPrev | app.py:129 | there is a previous page exactly when the offset is positive |
| InmateIndex.HasNextIff | app.py:130 | from page 1 on, there is a next page exactly when rows remain past this page |
| InmateIndex.PageWindowsDisjoint | app.py:89 | pages from 1 on cover disjoint 50-row windows, in order |
| InmateIndex.RowOnOnePage | app.py:89 | every row index lies in the window of exactly one page, `row // 50 + 1` |
| InmateIndex.LastPageHoldsRest | app.py:128 | when there are rows, the last page starts inside them and reaches their end |

Proof steps with no row of their own: `PyStr.WordLenBeforeSpace` and `Names.GapStrip` serve `Names.ParseNameAnyGap`; `Persist.LastWriteSnoc`, `Persist.WriteStep`, `Persist.InsertRowValid`, `Persist.InsertRowRecords` and `Persist.SaveStep` serve `Persist.InmateDb.SaveToDatabase`; the placeholder counts of the fixed query pieces (`InmateIndex.NamePlaceholders` and its siblings) serve `InmateIndex.PlaceholdersMatchParams`.

## Left out

- Browser automation is replaced by the page datatypes: navigation, form filling, clicks, waits, `asyncio` and the one-second sleep (scraper.py:75-98, 194-195, 330-367). A failing wait or navigation is a missing page.
- `get_date_range` is not modelled (scraper.py:47-57). It reads the clock and formats dates through the standard library, and its result reaches only the search form.
- The catch-all handlers that skip a row (scraper.py:166-168) or an inmate's save (scraper.py:320-322) are not modelled. Nothing in the model raises where they apply. The handler of the result check (scraper.py:121-123) is folded into the "no rows" stop.
- SQLite connection handling, commit and close are not modelled (scraper.py:21-22, 43-44, 276, 324-325). The table is `InmateDb`. Its constructor stands for table creation in a fresh database file. On an existing file `CREATE TABLE IF NOT EXISTS` keeps the rows, which the model covers by letting `run` start from any valid table.
- Charges are kept as a sequence rather than serialised to JSON. JSON decoding in the viewer is not modelled (scraper.py:297, app.py:95-100).
- The viewer's Flask routing, templates, the database existence check and the empty-database notice are not modelled. Neither is query execution, SQL `LIKE` matching, nor the `int()` parse of the page argument (app.py:1-58, 86, 92-126, 132-195). `page` is taken as an integer and the row count as a natural number.
- `PyStr.LowerChar`: it folds only ASCII letters; Python's `lower()` also folds other Unicode letters.
- Logging is not modelled.

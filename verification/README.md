# ScrapersHub download logic in Dafny

ScrapersHub is a set of Selenium scripts. They pull file-transfer and SharePoint
links out of a Google Sheet, then drive a browser to download what those links point at.
Under the browser calls sits a layer of ordinary decision logic:

- how a spreadsheet cell is cut into links;
- how links are classified and numbered;
- how the link registry `transfer_links.json` is read and patched;
- how the resumable scraper run moves each record from `pending` through
  `processing` to a final status;
- how a download is judged to have started and to have finished from
  directory listings;
- which button or dialog a downloader clicks from its ordered selector lists;
- how the runner counts and groups the records in its final report.

This project models that layer. The browser, the clock and the filesystem are
replaced by plain inputs:

- A page is an oracle from a selector (or an element) to what the browser
  would report.
- A directory is the set of names it lists.
- A wait is the finite sequence of listings seen at the polls that fit in its
  timeout.
- A timestamp is an opaque string taken from a `clock` parameter.
- Sheet data is the `seq<seq<string>>` the Sheets API returns, with the header
  row first.
- The registry file is what `json.load` would produce: a wrapped object, the
  older bare list, a missing file or an unreadable one.

Modules, one per component:

- `Wrappers`, `Seqs` (wrappers.dfy, seqs.dfy): `Option`, filtering, counting, first match
- `Strings` (strings.dfy): Python `lower`, `strip`, `split`, substring tests
- `CellLinks` (cell_links.dfy): `split_cell_links` and its one-shot reference
- `SheetExtract` (sheet_extract.dfy): column lookup, classification, both extractors' row walks
- `Registry` (registry.dfy): the registry file, `save_links_to_file`, `load_links_from_json`, `update_link_status`
- `RunLoop` (run_loop.dfy): `process_link` and the `main` loop of the transfer scraper
- `Completion` (completion.dfy): the start and completion checks, zip and archive extraction
- `Locators` (locators.dfy): every selector loop and the SharePoint button tiers
- `Providers` (providers.dfy): the per-site download paths end to end, the standalone `main`
- `Batch` (batch.dfy): the SharePoint downloader's batch loops and the sheet scraper
- `Summary` (summary.dfy): `main_runner.py`: dependencies, exit code, report counts and grouping

Most operations also have an independent characterisation, proved equal to the
operation or connected to it by a lemma. Examples:

- `split_cell_links` is proved equal to "cut at every delimiter character,
  strip, drop blanks, keep URL-like pieces".
- The update loop is proved to patch exactly the first record with the id.
- The report's row groups are proved to be a partition of the links.

## Model

| member | source | states |
|---|---|---|
| `Strings.Lower` | GoogleSheetsExtractorWeTransfer/google_sheets_extractor.py:80 | lower-casing keeps the length and maps every character, leaving no upper-case ASCII letter |
| `Strings.StripDecompose` | GoogleSheetsExtractorWeTransfer/google_sheets_extractor.py:101 | every string is whitespace, then its stripped form, then whitespace |
| `Strings.StripUnique` | GoogleSheetsExtractorWeTransfer/google_sheets_extractor.py:101 | stripping a stripped core surrounded by whitespace gives back exactly that core |
| `Strings.StripIdempotent` | GoogleSheetsExtractorWeTransfer/google_sheets_extractor.py:101 | stripping twice is stripping once |
| `Strings.SplitJoin` | GoogleSheetsExtractorWeTransfer/google_sheets_extractor.py:101 | joining the pieces of `str.split(sep)` with `sep` gives back the string |
| `Strings.SplitPiecesAvoidSep` | GoogleSheetsExtractorWeTransfer/google_sheets_extractor.py:101 | no piece of `str.split(sep)` contains `sep` |
| `Strings.KeepStrippedMembers` | GoogleSheetsExtractorWeTransfer/google_sheets_extractor.py:101 | the comprehension `[l.strip() for l in ... if l.strip()]` holds a string exactly when it is non-empty and the strip of some input |
| `Strings.KeepStrippedAppend` | GoogleSheetsExtractorWeTransfer/google_sheets_extractor.py:99-101 | the strip-and-drop-blanks comprehension distributes over concatenation, so `extend` order is kept |
| `Strings.NatToStringInjective` | GoogleSheetsExtractorWeTransfer/google_sheets_extractor.py:152 | distinct counters print as distinct decimal strings |
| `CellLinks.SplitEach` | GoogleSheetsExtractorWeTransfer/google_sheets_extractor.py:99-102 | after one delimiter pass every piece is stripped and non-empty |
| `CellLinks.KeepUrls` | GoogleSheetsExtractorWeTransfer/google_sheets_extractor.py:104-109 | the final loop keeps only non-empty stripped pieces containing `http://` or `https://`, each the strip of an input piece |
| `CellLinks.SplitCellLinks` | GoogleSheetsExtractorWeTransfer/google_sheets_extractor.py:89-111 | every returned link is stripped, non-empty and contains `http://` or `https://` |
| `CellLinks.SplitCellLinksIsReference` | GoogleSheetsExtractorWeTransfer/google_sheets_extractor.py:95-111 | the six passes give the same links, in the same left-to-right order, as cutting the cell at every delimiter character at once, stripping, dropping blanks and keeping URL-like pieces |
| `CellLinks.SplitCellLinksPieces` | GoogleSheetsExtractorWeTransfer/google_sheets_extractor.py:95-102 | no returned link contains a newline, carriage return, `\|`, `;` or `,`, and every character of it comes from the cell |
| `CellLinks.SplitCharsRefine` | GoogleSheetsExtractorWeTransfer/google_sheets_extractor.py:98-102 | cutting at one character set and then cutting each piece at a second set is cutting at their union |
| `CellLinks.KeepPiecesIgnoreOuterSpace` | GoogleSheetsExtractorWeTransfer/google_sheets_extractor.py:101 | surrounding whitespace of a piece changes nothing once a later pass strips and drops blanks |
| `SheetExtract.FindColumnIndex` | GoogleSheetsExtractorWeTransfer/google_sheets_extractor.py:67-76 | the result is -1 or a valid index; it is the first exact header match when one exists, else the first header containing the name case-insensitively, and -1 exactly when neither exists |
| `SheetExtract.FindColumnPrefersExact` | GoogleSheetsExtractor/google_sheets_extractor.py:66-75 | an exact header match anywhere wins over every partial match, and no later exact match is chosen |
| `SheetExtract.ClassifyLinkTypeSpec` | GoogleSheetsExtractorWeTransfer/google_sheets_extractor.py:78-87 | `transfernow` iff the lower-cased URL contains `transfernow.net`; `wetransfer` iff it contains `wetransfer.com` and not `transfernow.net`; `unknown` otherwise |
| `SheetExtract.ClassifyIgnoresCase` | GoogleSheetsExtractorWeTransfer/google_sheets_extractor.py:80 | classifying the lower-cased URL gives the same type |
| `SheetExtract.ClassifyTransferNowFirst` | GoogleSheetsExtractorWeTransfer/google_sheets_extractor.py:82-85 | a URL naming both services is a TransferNow link |
| `SheetExtract.LinkIdInjective` | GoogleSheetsExtractorWeTransfer/google_sheets_extractor.py:152 | `link_{a}` and `link_{b}` are equal only when `a == b` |
| `SheetExtract.OriginalCell` | GoogleSheetsExtractorWeTransfer/google_sheets_extractor.py:154 | a cell of at most 100 characters is kept whole; a longer one becomes its first 100 characters followed by `...` |
| `SheetExtract.CellRecordsSound` | GoogleSheetsExtractorWeTransfer/google_sheets_extractor.py:145-160 | the `i`-th record of a cell gets id `link_{counter+i}`, is pending with processed 0, names the cell's row and text, and holds one of the cell's links of a known type |
| `SheetExtract.ExtractTransferLinksWith` | GoogleSheetsExtractorWeTransfer/google_sheets_extractor.py:113-130 | no data, or no matching column, gives no records |
| `SheetExtract.ExtractedRecord` | GoogleSheetsExtractorWeTransfer/google_sheets_extractor.py:136-160 | record `i` is `link_{i+1}`, pending with processed 0, of type transfernow or wetransfer, with a row from 2 to the last data row, taken from the named column of that row, with its `original_cell` |
| `SheetExtract.ExtractedInRowOrder` | GoogleSheetsExtractorWeTransfer/google_sheets_extractor.py:138-160 | rows never decrease in output order |
| `SheetExtract.ExtractedIdsUnique` | GoogleSheetsExtractorWeTransfer/google_sheets_extractor.py:136-160 | no two extracted records share an id |
| `SheetExtract.ExtractedUrls` | GoogleSheetsExtractorWeTransfer/google_sheets_extractor.py:138-160 | the records' URLs are exactly the known-type links of the column's cells, row by row and in cell order, so the counter moves only for kept links |
| `SheetExtract.ExtractedMetadataTotal` | GoogleSheetsExtractorWeTransfer/google_sheets_extractor.py:169-172 | for extracted links the two per-type counts add up to the total |
| `SheetExtract.ExtractSharePointLinks` | GoogleSheetsExtractor/google_sheets_extractor.py:77-113 | no data or no column gives no records; there is at most one record per data row |
| `SheetExtract.ExtractedSharePointRecord` | GoogleSheetsExtractor/google_sheets_extractor.py:99-111 | each record names a data row, from 2 on, whose column cell exists, is non-empty and mentions `sharepoint.com` in any case, and stores that cell stripped |
| `SheetExtract.ExtractedSharePointOrdered` | GoogleSheetsExtractor/google_sheets_extractor.py:101-111 | row numbers strictly increase |
| `SheetExtract.ExtractedSharePointComplete` | GoogleSheetsExtractor/google_sheets_extractor.py:101-107 | every data row whose cell mentions `sharepoint.com` gets a record |
| `Registry.MetadataOf` | GoogleSheetsExtractorWeTransfer/google_sheets_extractor.py:169-174 | the total is the number of links and each per-type count filters on the exact type, so the two never exceed the total |
| `Registry.SaveLinks` | GoogleSheetsExtractorWeTransfer/google_sheets_extractor.py:164-179 | the file is replaced by a wrapped object holding exactly the given links, in order, with a metadata block |
| `Registry.LoadLinks` | GoogleSheetsExtractorWeTransfer/transfer_scraper.py:311-332 | a wrapped file yields its links and its metadata; a bare list yields itself; a missing or unreadable file yields no links; only a wrapped file yields metadata |
| `Registry.SaveLoadRoundTrip` | GoogleSheetsExtractorWeTransfer/transfer_scraper.py:317-320 | loading what the extractor saved gives back the same links and metadata |
| `Registry.Patch` | GoogleSheetsExtractorWeTransfer/transfer_scraper.py:343-348 | status and `processed_at` are always set; `processed` only for a given value; `error` only for a non-empty message, otherwise the old one stays; identity fields are untouched |
| `Registry.UpdateLinksAt` | GoogleSheetsExtractorWeTransfer/transfer_scraper.py:341-349 | the loop patches the first record with the id and leaves every other record as it was |
| `Registry.UpdateLinkStatus` | GoogleSheetsExtractorWeTransfer/transfer_scraper.py:334-356 | a file without a `links` key is left unchanged; a wrapped file keeps its metadata and its number of records |
| `Registry.UpdateLinkStatusAt` | GoogleSheetsExtractorWeTransfer/transfer_scraper.py:334-353 | in a wrapped file, record `j` is patched iff it is the first with the id |
| `Registry.UpdateLinkStatusIdempotent` | GoogleSheetsExtractorWeTransfer/transfer_scraper.py:341-353 | applying the same update twice is applying it once |
| `Registry.UpdateUnknownIdNoop` | GoogleSheetsExtractorWeTransfer/transfer_scraper.py:341-353 | an update for an id no record has leaves the file unchanged |
| `RunLoop.ProcessLink` | GoogleSheetsExtractorWeTransfer/transfer_scraper.py:285-302 | only a `transfernow` or `wetransfer` record can succeed, and for those the result is the site download's |
| `RunLoop.LinkOutcome` | GoogleSheetsExtractorWeTransfer/transfer_scraper.py:411-430 | the attempt raises exactly when browser setup raises, carrying its text; it succeeds exactly when setup works and the link is processed |
| `RunLoop.MarkProcessing` | GoogleSheetsExtractorWeTransfer/transfer_scraper.py:402 | between a link's two updates its record reads `processing` with processed 0 and the first timestamp, every other record is unchanged, and the record is still among those a new run would select |
| `RunLoop.Resolve` | GoogleSheetsExtractorWeTransfer/transfer_scraper.py:402-430 | after its two updates a record keeps its identity, has the final status of its outcome and processed 1, and is no longer unprocessed |
| `RunLoop.HandleLink` | GoogleSheetsExtractorWeTransfer/transfer_scraper.py:397-438 | one pass of the loop body has the link's outcome, leaves the file as one step of the run does, and emits that link's events, so the whole-run lemmas apply to the loop |
| `RunLoop.ProcessSelected` | GoogleSheetsExtractorWeTransfer/transfer_scraper.py:394-438 | the loop leaves the file as the links' updates in order make it; successes count the links that succeed, failures the rest, and the two add up to the number of links |
| `RunLoop.RunTransferScraper` | GoogleSheetsExtractorWeTransfer/transfer_scraper.py:358-438 | the selected links are those with `processed` missing or 0, in file order; the already-processed count is total minus selected; successes and failures add up to the selected links |
| `RunLoop.SelectedIdsUnique` | GoogleSheetsExtractorWeTransfer/transfer_scraper.py:376 | selecting the unprocessed records keeps ids distinct |
| `RunLoop.RunRecordsOutcomes` | GoogleSheetsExtractorWeTransfer/transfer_scraper.py:376-430 | with distinct ids, every unprocessed record ends resolved by its own outcome, with the timestamps of its position in the run; every other record and the metadata stay as they were |
| `RunLoop.RunLeavesNothingUnprocessed` | GoogleSheetsExtractorWeTransfer/transfer_scraper.py:376-430 | after a run over a wrapped registry with distinct ids, the next run selects nothing |
| `RunLoop.RunKeepsUnwrappedFile` | GoogleSheetsExtractorWeTransfer/transfer_scraper.py:341-356 | on a bare, missing or unreadable file every update fails quietly, so a run leaves the file as it was |
| `RunLoop.EventsShape` | GoogleSheetsExtractorWeTransfer/transfer_scraper.py:397-438 | after `i` links the trace has one `processing` mark per link, and one pause per link except after the last of the run |
| `RunLoop.EventsLast` | GoogleSheetsExtractorWeTransfer/transfer_scraper.py:435-438 | the trace ends with a pause exactly when links remain, so a run never ends with one |
| `Completion.WaitForDownloads` | GoogleSheetsExtractorWeTransfer/transfer_scraper.py:45-71 | the wait succeeds iff some poll within the timeout has no marker name; it stops at the first such poll, and on a timeout every poll had one |
| `Completion.EmptyFolderCompletes` | Scraper_TransferFlow.py:36-62 | an empty folder completes at the first poll, even when nothing was downloaded |
| `Completion.PartialCoversCrDownload` | WeTransferScraper/Scraper_WeTransfer.py:45-73 | a folder quiet for `.crdownload`, `.tmp` and `.part` is quiet for `.crdownload`, and a start seen through `.crdownload` is a start for the wider markers |
| `Completion.MonitorDownloadProgress` | GoogleSheetsExtractorWeTransfer/transfer_scraper.py:246-283 | success iff a name appeared or a `.crdownload` name is present, and the completion wait succeeds |
| `Completion.WeTransferMonitor` | WeTransferScraper/Scraper_WeTransfer.py:268-305 | success iff the download started and completed over the three markers, and the final listing holds a non-marker file |
| `Completion.SuccessWithoutFiles` | Scraper_TransferFlow.py:177-202 | a partial file that appears and then vanishes counts as a TransferNow success with an empty folder |
| `Completion.ExtractZipFiles` | GoogleSheetsExtractorWeTransfer/transfer_scraper.py:73-103 | the result is false iff there is no non-hidden `.zip`; a zip is extracted iff it opens, and one that fails does not stop the others |
| `Completion.ReportFor` | WeTransferScraper/Scraper_WeTransfer.py:85-102 | only a `.zip` is opened: it is extracted or reported failed; anything else is reported unsupported |
| `Completion.ExtractArchivesReports` | WeTransferScraper/Scraper_WeTransfer.py:75-102 | one report per archive in glob order, every archive from the folder; exactly the zips that open are extracted, and `.rar` and `.7z` files are reported unsupported |
| `Completion.ArchiveFileKind` | WeTransferScraper/Scraper_WeTransfer.py:77-79 | each collected archive is a folder name of one of the three kinds |
| `Completion.OtherArchivesAreNotZips` | WeTransferScraper/Scraper_WeTransfer.py:88 | a `.rar` or `.7z` name never passes the `.zip` test |
| `Locators.FirstAccepted` | Scraper_TransferFlow.py:124-139 | the first selector the page accepts, none exactly when no selector is accepted |
| `Locators.FirstAcceptedIgnoresLater` | GoogleSheetsExtractorWeTransfer/transfer_scraper.py:125-131 | what the page offers after the chosen selector cannot change the choice |
| `Locators.DisplayedClick` | WeTransferScraper/Scraper_WeTransfer.py:147-156 | at most one button is clicked: the first selector whose element exists and is displayed |
| `Locators.ChooseFromSpec` | GoogleSheetsExtractorWeTransfer/transfer_scraper.py:177-187 | the loop as written keeps the first selector whose element passes the scan check; failing that, it keeps the last selector that found any element |
| `Locators.TransferScraperButtonSpec` | GoogleSheetsExtractorWeTransfer/transfer_scraper.py:177-189 | the chosen selector passes the scan check and no earlier one does; otherwise it is the last selector that found an element, or none |
| `Locators.ScanButtonCanRemainChosen` | GoogleSheetsExtractorWeTransfer/transfer_scraper.py:178-187 | when the only selector that finds anything finds a "Scan and download" button, that button stays selected |
| `Locators.ScanElements` | WeTransferScraper/Scraper_WeTransfer.py:197-205 | the pick is a displayed, enabled element with no "scan" in its text and "download" in its text or class, and no earlier element is eligible or raises; the scan is exhausted exactly when no element is eligible or raises |
| `Locators.WeTransferButton` | WeTransferScraper/Scraper_WeTransfer.py:191-212 | the button is the first eligible element over selectors, then over elements; a selector whose scan raises is skipped |
| `Locators.WeTransferButtonFirstEligible` | WeTransferScraper/Scraper_WeTransfer.py:192-208 | when every candidate has a class attribute, the choice is exactly the first eligible element in selector-then-element order |
| `Locators.MissingClassHidesButton` | WeTransferScraper/Scraper_WeTransfer.py:202 | a candidate without a class attribute placed before the real button makes the selector fail, hiding the button |
| `Locators.PrimaryLocator` | GoogleSheetsExtractor/selenium_downloader.py:104-114 | a `:contains` selector is replaced by the fixed XPath; every other selector is used as CSS |
| `Locators.Label` | GoogleSheetsExtractor/selenium_downloader.py:140 | a button's label is the first non-empty of aria-label, text and title, else the empty string |
| `Locators.TopFive` | GoogleSheetsExtractor/selenium_downloader.py:155 | the retry list is the first five selectors, in order |
| `Locators.ResolveDownloadButton` | GoogleSheetsExtractor/selenium_downloader.py:102-172 | the primary pass wins when any selector is clickable; the keyword tier runs only when it fails and takes the first button whose label mentions "download"; the refresh tier runs only when both fail and takes the first of the first five selectors that is clickable on the refreshed page |
| `Locators.RefreshTierTopFiveOnly` | GoogleSheetsExtractor/selenium_downloader.py:155-168 | what the refreshed page offers for selectors past the fifth changes nothing |
| `Locators.AriaLabelHidesText` | GoogleSheetsExtractor/selenium_downloader.py:140-141 | a non-empty aria-label wins over the text, so a "Download" button labelled "Share" is passed over |
| `Locators.DownloadVideo` | GoogleSheetsExtractor/selenium_downloader.py:51-210 | success iff the page loaded, some tier found a button and the click went through; the click result is the last step |
| `Locators.DialogLocator` | GoogleSheetsExtractor/selenium_downloader.py:276-285 | a dialog selector is XPath iff it starts with `//`, CSS otherwise |
| `Locators.HandleDownloadDialogs` | GoogleSheetsExtractor/selenium_downloader.py:212-323 | no dialog within the wait means no click; otherwise at most one dialog button and at most one allow button, each the first clickable in its list |
| `Locators.SelectSheetTab` | Scraper.py:66-95 | the clicked tab is one whose selector finds and clicks it; none is clicked exactly when no selector does; the result is true either way |
| `Locators.ScraperDownload` | Scraper.py:187-251 | success iff some download selector is clickable and the click on it goes through |
| `Locators.ScraperDialogs` | Scraper.py:253-298 | at most one dialog click and one allow click, each the first selector that is clickable and whose click goes through; none exactly when no selector of that list qualifies |
| `Providers.TransferNowDownload` | GoogleSheetsExtractorWeTransfer/transfer_scraper.py:105-154 | no clickable "Download all" button means failure without a confirmation; otherwise the first present confirmation button is clicked, and success is the monitor's verdict |
| `Providers.TransferScraperWeTransfer` | GoogleSheetsExtractorWeTransfer/transfer_scraper.py:156-219 | the button loop as written, no button exactly when no selector finds an element, and then failure with no confirmation; otherwise the first present confirmation and the monitor's verdict |
| `Providers.TransferScraperButtonFound` | GoogleSheetsExtractorWeTransfer/transfer_scraper.py:177-189 | the button loop ends without a button exactly when no selector finds an element |
| `Providers.FlowDownload` | Scraper_TransferFlow.py:95-212 | the first clickable selector is used; with none the result is false and nothing is confirmed; otherwise the first present confirmation; success iff started and completed, however many files remain |
| `Providers.StandaloneDownload` | WeTransferScraper/Scraper_WeTransfer.py:104-309 | consent click, button search, confirmation click; no button is a failure; success iff a button was found, a confirmation click made did not raise, and the download started, completed and left a finished file |
| `Providers.IsWeTransferUrlSpec` | WeTransferScraper/Scraper_WeTransfer.py:323-324 | the URL is accepted iff its lower-cased form contains `wetransfer.com` or `we.tl` at some position |
| `Providers.StandaloneMainRuns` | WeTransferScraper/Scraper_WeTransfer.py:317-342 | the download runs iff the URL is accepted and the trimmed, lower-cased answer is `y` or `yes` |
| `Batch.JobOf` | GoogleSheetsExtractor/selenium_downloader.py:340-341 | a missing `link` becomes the empty URL and a missing `row` becomes `Unknown` |
| `Batch.RunBatch` | GoogleSheetsExtractor/selenium_downloader.py:336-353 | one attempt per job in order with a pause between attempts and none after the last; successes count the jobs that download, and successes plus failures is the number of jobs |
| `Batch.DownloadFromFile` | GoogleSheetsExtractor/selenium_downloader.py:325-367 | a missing or unparsable file does nothing; otherwise every entry is attempted with its defaults, and the tallies add up to the entries |
| `Batch.DownloadFromTextFile` | GoogleSheetsExtractor/selenium_downloader.py:369-405 | the URLs are the stripped non-blank lines in file order; each is attempted once in that order with a pause between attempts (a trace of 2n-1 events); successes count the URLs that download, and the tallies add up to the URLs |
| `Batch.SharePointMain` | GoogleSheetsExtractor/selenium_downloader.py:413-445 | an existing JSON file's entries are attempted in order, with the defaults and a pause between attempts, and successes count the entries that download; a JSON file that does not parse means nothing runs; without it the same holds for the text file's URLs, and without that nothing runs |
| `Batch.AddHrefsSpec` | Scraper.py:130-134 | the accumulated links gain exactly the truthy hrefs not already present, and never hold a duplicate |
| `Batch.CollectFromCells` | Scraper.py:113-165 | only SharePoint cells are processed, in order, and at most 21 of them; the links are exactly the hrefs those cells showed, without duplicates |
| `Batch.TrimPunctuation` | Scraper.py:175 | the result is a prefix without a trailing `.`, `,` or `;`, and only such characters were dropped |
| `Batch.AddMatchesSpec` | Scraper.py:174-178 | a page-source match is kept iff its trimmed form is longer than 50 characters, with no duplicates |
| `Batch.ExtractVideoLinks` | Scraper.py:97-185 | the scanned cells are exactly the SharePoint cells in order, up to the first 21; when they showed any link the result is exactly those links; when they showed none it is exactly the kept page-source matches |
| `Batch.ScraperRun` | Scraper.py:300-339 | nothing runs without the sheet or without links; otherwise the attempts are exactly the links, in order, failures are total minus successes, and a pause follows each success and nothing else |
| `Batch.ScraperStep` | Scraper.py:317-324 | one link adds one attempt and a pause exactly when it succeeded |
| `Summary.CountsOf` | GoogleSheetsExtractorWeTransfer/main_runner.py:125-130 | the total is the number of links, and neither group of counts exceeds it |
| `Summary.StatusCountsPartition` | GoogleSheetsExtractorWeTransfer/main_runner.py:125-128 | the four status counts (completed, failed, error, pending) and the records with any other or no status together add up to the number of records, so no record is counted twice |
| `Summary.ProcessedCountsPartition` | GoogleSheetsExtractorWeTransfer/main_runner.py:129-130 | the records with flag 1, those with a missing or 0 flag, and those with any other value add up to the number of records |
| `Summary.CountsAfterRun` | GoogleSheetsExtractorWeTransfer/main_runner.py:129-130 | when every record has processed 1, the report shows all as processed and none as unprocessed |
| `Summary.GroupsAt` | GoogleSheetsExtractorWeTransfer/main_runner.py:133-138 | the dictionary has a key exactly for each row that occurs, and a row's list is its links in file order |
| `Summary.InsertSpec` | GoogleSheetsExtractorWeTransfer/main_runner.py:167 | inserting a row keeps the row list strictly increasing and adds exactly that row |
| `Summary.SortedRows` | GoogleSheetsExtractorWeTransfer/main_runner.py:167 | the report's rows are the distinct rows, strictly increasing |
| `Summary.RowGroupsAt` | GoogleSheetsExtractorWeTransfer/main_runner.py:167-171 | groups come in ascending row order, and each lists exactly its row's links in file order |
| `Summary.RowGroupsPartition` | GoogleSheetsExtractorWeTransfer/main_runner.py:133-138 | every link is in the group of its own row and in no other group |
| `Summary.RowGroupsCoverAll` | GoogleSheetsExtractorWeTransfer/main_runner.py:167-169 | the printed group sizes add up to the number of links |
| `Summary.StatusSymbol` | GoogleSheetsExtractorWeTransfer/main_runner.py:172-178 | a missing status shows the pending symbol, a status outside the five known ones shows the question mark, and only `completed` shows success |
| `Summary.FinalStatusesKnown` | GoogleSheetsExtractorWeTransfer/main_runner.py:172-178 | every final status a run writes shows neither the unknown nor the pending symbol |
| `Summary.ResolvedErrorLine` | GoogleSheetsExtractorWeTransfer/main_runner.py:183-184 | after a run a failed record shows an error line; a completed record, or one whose exception text was empty, keeps the error line it had before |
| `Summary.CheckFiles` | GoogleSheetsExtractorWeTransfer/main_runner.py:15-36 | true iff every required file exists; the missing files are exactly the absent required ones |
| `Summary.RunnerMain` | GoogleSheetsExtractorWeTransfer/main_runner.py:200-254 | exit code 1 iff dependencies are missing, extraction failed or no links were extracted; otherwise 0, and the scraper and report run only after a "y" or "yes" answer |
| `Summary.BareRegistryStopsRunner` | GoogleSheetsExtractorWeTransfer/main_runner.py:63-87 | a registry in the bare-list format stops the runner with code 1, although the scraper itself would load its links |
| `Summary.ReportAfterRun` | GoogleSheetsExtractorWeTransfer/main_runner.py:129-130 | the report of the file a run leaves, over a wrapped registry with distinct ids, counts no unprocessed record |
| `Summary.SummaryReport` | GoogleSheetsExtractorWeTransfer/main_runner.py:115-198 | a report is produced iff the file is a wrapped object; it counts every link, its groups come in ascending row order, each names a row some link has, and their sizes add up to the number of links |

## Left out

- Browser setup, Chrome options, JavaScript execution, tabs and
  `driver.quit()` are not modelled. Every script quits its browser in a
  `finally` block, so "the browser is quit on every exit path" holds by the
  language. The transfer scraper's `close` is modelled as a `BrowserClosed`
  event that happens only when setup succeeded.
- Real waits and `time.sleep` are not modelled. A wait is its sequence of
  in-bound polls. A pause is a `Paused`/`Pause` event in a trace.
- Each poll of a wait is one listing. The standalone downloader's wait lists
  the folder once per marker, so three times per poll. A file that finishes
  between those three reads is not modelled.
- Timestamps are opaque strings from a `clock` parameter, because `datetime`
  formatting is I/O.
- Google Sheets authentication, `get_sheet_data`, `.env` loading and the
  runner's `subprocess` calls are not modelled. The sheet is given data, and
  the extraction result is a boolean parameter of `Summary.RunnerMain`.
- JSON parsing and serialisation are not modelled. The registry file is given
  in its parsed form.
  - The registry write is a plain overwrite: not atomic, and re-extraction
    does not merge with earlier state.
  - No property about either is stated.
  - A record always has `id`, `row`, `url` and `type`, because the extractor
    writes them. The `KeyError` on a record missing one is not modelled.
- Exceptions other than those the model names are not modelled. The named ones
  are browser setup in the run loop, a missing class attribute in the
  standalone button scan, a click that raises (a SharePoint click, and the
  standalone downloader's native confirmation click), and update failures on
  non-wrapped files. An unexpected exception elsewhere in a selector loop, or
  during `os.listdir`, is outside the model.
- Floating-point MB size displays, `print` output, debug listings of buttons
  and dialogs, and the text layout of the summary report are output only.
  Report contents are modelled; the report's text is not.
- The `zipfile` and `glob` internals are not modelled. Whether an archive
  opens is an oracle. `glob('*.ext')` is modelled as "ends with the
  extension and is not hidden". The folder listing order is a given
  sequence.
- `Scraper.py`'s regular expression is not modelled: its matches are an input
  sequence. The hover and click passes over a cell are assumed to see the same
  hrefs, one `hrefsAt(i)` per cell.
- `Strings.Lower` and `Strings.Strip` are exact on ASCII only, because Unicode
  tables are out of scope. `Lower` lowers `A`-`Z` only. `Strip` removes the
  ASCII characters Python counts as whitespace: space, tab, newline, carriage
  return, vertical tab, form feed, and 0x1C to 0x1F. It leaves non-ASCII
  whitespace such as U+00A0 and U+2028, which Python also strips.
- The selector-list constants of the SharePoint downloader and the sheet
  scraper are parameters rather than constants, because the decisions do not
  depend on their text.
- `Summary.SummaryReport` does not model the report's `[TYPE]` column or the
  60-character URL cut, which are text formatting only.
- `Summary.CountsOf` does not state the exact per-status counts itself. They
  are stated by `Summary.StatusCountsPartition` and
  `Summary.ProcessedCountsPartition`.

/** The batch drivers around a single download: reading the link files of
    the SharePoint downloader, walking a list of links with a pause between
    them, and the sheet scraper's own link collection and run.

    A download is an oracle from the job to its result; the pauses
    (`time.sleep`) appear as events in the trace a run returns. */
module Batch {
  import opened Wrappers
  import opened Seqs
  import opened Strings
  import opened Registry

  /** The row a job reports: a number from the links file, the `Unknown`
      default for an entry without one, or none at all for a text file. */
  datatype RowLabel = RowNumber(n: int) | UnknownRow | NoRow

  /** One download to attempt. */
  datatype Job = Job(url: string, row: RowLabel)

  datatype Event = Attempt(job: Job) | Pause

  /** An entry of `sharepoint_links.json`; either key may be absent. */
  datatype LinkEntry = LinkEntry(link: Option<string>, row: Option<int>)

  /** `sharepoint_links.json` as the downloader finds it. */
  datatype LinksFile = NoFile | BadJson | Entries(entries: seq<LinkEntry>)

  /** `link_info.get('link', '')` and `link_info.get('row', 'Unknown')`. */
  function JobOf(e: LinkEntry): (j: Job)
    ensures e.link.Some? ==> j.url == e.link.value
    ensures e.link.None? ==> j.url == ""
    ensures j.row.UnknownRow? <==> e.row.None?
    ensures e.row.Some? ==> j.row == RowNumber(e.row.value)
  {
    Job(e.link.GetOr(""), if e.row.Some? then RowNumber(e.row.value) else UnknownRow)
  }

  /** The loop shared by `download_from_file` and `download_from_text_file`:
      one attempt per job in order, every attempt counted as a success or a
      failure, and a pause after every attempt but the last. */
  method RunBatch(jobs: seq<Job>, download: Job -> bool) returns (successful: nat, failed: nat, events: seq<Event>)
    ensures successful == Count(download, jobs)
    ensures successful + failed == |jobs|
    ensures |events| == if |jobs| == 0 then 0 else 2 * |jobs| - 1
    ensures forall k :: 0 <= k < |events| && k % 2 == 0 ==> events[k] == Attempt(jobs[k / 2])
    ensures forall k :: 0 <= k < |events| && k % 2 == 1 ==> events[k] == Pause
  {
    successful, failed, events := 0, 0, [];
    for i := 0 to |jobs|
      invariant successful == Count(download, jobs[..i])
      invariant successful + failed == i
      invariant i == 0 ==> events == []
      invariant 0 < i < |jobs| ==> |events| == 2 * i
      invariant 0 < i == |jobs| ==> |events| == 2 * i - 1
      invariant forall k :: 0 <= k < |events| && k % 2 == 0 ==> events[k] == Attempt(jobs[k / 2])
      invariant forall k :: 0 <= k < |events| && k % 2 == 1 ==> events[k] == Pause
    {
      events := events + [Attempt(jobs[i])];
      CountSnoc(download, jobs[..i], jobs[i]);
      assert jobs[..i + 1] == jobs[..i] + [jobs[i]];
      if download(jobs[i]) {
        successful := successful + 1;
      } else {
        failed := failed + 1;
      }
      if i + 1 < |jobs| {
        events := events + [Pause];
      }
    }
    assert jobs[..|jobs|] == jobs;
  }

  /** What a batch reports at its end, when it got that far. */
  datatype Tally = Tally(successful: nat, failed: nat)

  /** The jobs of a links file: one per entry, in file order, with the
      defaults of `JobOf`. */
  function FileJobs(entries: seq<LinkEntry>): (jobs: seq<Job>)
    ensures |jobs| == |entries|
    ensures forall i :: 0 <= i < |jobs| ==> jobs[i] == JobOf(entries[i])
  {
    seq(|entries|, i requires 0 <= i < |entries| => JobOf(entries[i]))
  }

  /** `download_from_file`: a missing or unparsable file ends the call with
      a message and no downloads; otherwise every entry becomes a job with
      the defaults above. */
  method DownloadFromFile(file: LinksFile, download: Job -> bool) returns (tally: Option<Tally>, events: seq<Event>)
    ensures !file.Entries? ==> tally.None? && events == []
    ensures file.Entries? ==> tally.Some? && tally.value.successful + tally.value.failed == |file.entries|
    ensures file.Entries? ==> tally.value.successful == Count(download, FileJobs(file.entries))
    ensures file.Entries? ==> forall k :: 0 <= k < |events| && k % 2 == 0 ==> k / 2 < |file.entries| && events[k] == Attempt(JobOf(file.entries[k / 2]))
    ensures file.Entries? ==> forall k :: 0 <= k < |events| && k % 2 == 1 ==> events[k] == Pause
    ensures file.Entries? ==> |events| == if |file.entries| == 0 then 0 else 2 * |file.entries| - 1
  {
    if !file.Entries? {
      return None, [];
    }
    var jobs := FileJobs(file.entries);
    var successful, failed;
    successful, failed, events := RunBatch(jobs, download);
    tally := Some(Tally(successful, failed));
  }

  /** The jobs of a text file: its stripped non-blank lines in file order,
      each without a row. */
  function TextJobs(lines: seq<string>): (jobs: seq<Job>)
    ensures |jobs| == |KeepStripped(lines)|
    ensures forall i :: 0 <= i < |jobs| ==> jobs[i] == Job(KeepStripped(lines)[i], NoRow)
  {
    var urls := KeepStripped(lines);
    seq(|urls|, i requires 0 <= i < |urls| => Job(urls[i], NoRow))
  }

  /** `download_from_text_file`: the URLs are the stripped non-blank lines in
      file order, each a job without a row. */
  method DownloadFromTextFile(lines: Option<seq<string>>, download: Job -> bool) returns (tally: Option<Tally>, events: seq<Event>)
    ensures lines.None? ==> tally.None? && events == []
    ensures lines.Some? ==> tally.Some? && tally.value.successful + tally.value.failed == |KeepStripped(lines.value)|
    ensures lines.Some? ==> tally.value.successful == Count(download, TextJobs(lines.value))
    ensures lines.Some? ==> |events| == if |KeepStripped(lines.value)| == 0 then 0 else 2 * |KeepStripped(lines.value)| - 1
    ensures lines.Some? ==> forall k :: 0 <= k < |events| && k % 2 == 0 ==>
      k / 2 < |KeepStripped(lines.value)| && events[k] == Attempt(Job(KeepStripped(lines.value)[k / 2], NoRow))
    ensures lines.Some? ==> forall k :: 0 <= k < |events| && k % 2 == 1 ==> events[k] == Pause
  {
    if lines.None? {
      return None, [];
    }
    var jobs := TextJobs(lines.value);
    var successful, failed;
    successful, failed, events := RunBatch(jobs, download);
    tally := Some(Tally(successful, failed));
  }

  /** `main` of the SharePoint downloader: the JSON file when it exists,
      else the text file when it exists, else nothing. */
  method SharePointMain(json: LinksFile, text: Option<seq<string>>, download: Job -> bool)
    returns (tally: Option<Tally>, events: seq<Event>)
    ensures json.Entries? ==> tally.Some? && tally.value.successful + tally.value.failed == |json.entries|
    ensures json.Entries? ==> tally.value.successful == Count(download, FileJobs(json.entries))
    ensures json.Entries? ==> |events| == if |json.entries| == 0 then 0 else 2 * |json.entries| - 1
    ensures json.Entries? ==> forall k :: 0 <= k < |events| && k % 2 == 0 ==>
      k / 2 < |json.entries| && events[k] == Attempt(JobOf(json.entries[k / 2]))
    ensures json.BadJson? ==> tally.None? && events == []
    ensures json.NoFile? && text.Some? ==> tally.Some? && tally.value.successful + tally.value.failed == |KeepStripped(text.value)|
    ensures json.NoFile? && text.Some? ==> tally.value.successful == Count(download, TextJobs(text.value))
    ensures json.NoFile? && text.Some? ==> |events| == if |KeepStripped(text.value)| == 0 then 0 else 2 * |KeepStripped(text.value)| - 1
    ensures json.NoFile? && text.Some? ==> forall k :: 0 <= k < |events| && k % 2 == 0 ==>
      k / 2 < |KeepStripped(text.value)| && events[k] == Attempt(Job(KeepStripped(text.value)[k / 2], NoRow))
    ensures json.NoFile? && text.None? ==> tally.None? && events == []
    ensures forall k :: 0 <= k < |events| && k % 2 == 1 ==> events[k] == Pause
  {
    if !json.NoFile? {
      tally, events := DownloadFromFile(json, download);
    } else {
      tally, events := DownloadFromTextFile(text, download);
    }
  }

  // ---------------------------------------------------------------------
  // The sheet scraper
  // ---------------------------------------------------------------------

  /** The cells whose text marks them as holding a video link. */
  predicate IsSharePointCell(text: string) {
    Contains(text, "setindia-my.sharepoint.com")
  }

  /** The number of SharePoint cells after which the scan stops. */
  const MaxCells: nat := 21

  /** `href` is among the elements' hrefs and is truthy. */
  predicate HrefIn(hrefs: seq<Option<string>>, href: string) {
    exists t :: 0 <= t < |hrefs| && Truthy(hrefs[t]) && hrefs[t].value == href
  }

  /** Appending each truthy href that is not yet in the list. */
  function AddHrefs(acc: seq<string>, hrefs: seq<Option<string>>): (r: seq<string>)
    ensures acc <= r
    decreases |hrefs|
  {
    if |hrefs| == 0 then acc
    else
      var h := hrefs[0];
      AddHrefs(if Truthy(h) && h.value !in acc then acc + [h.value] else acc, hrefs[1..])
  }

  /** The list grows by exactly the truthy hrefs, and never holds a
      duplicate. */
  lemma {:induction false} AddHrefsSpec(acc: seq<string>, hrefs: seq<Option<string>>)
    ensures NoDup(acc) ==> NoDup(AddHrefs(acc, hrefs))
    ensures forall x :: x in AddHrefs(acc, hrefs) <==> x in acc || HrefIn(hrefs, x)
    decreases |hrefs|
  {
    if |hrefs| > 0 {
      var h := hrefs[0];
      var next := if Truthy(h) && h.value !in acc then acc + [h.value] else acc;
      AddHrefsSpec(next, hrefs[1..]);
      forall x ensures HrefIn(hrefs, x) <==> (Truthy(h) && h.value == x) || HrefIn(hrefs[1..], x) {
        if HrefIn(hrefs, x) {
          var t :| 0 <= t < |hrefs| && Truthy(hrefs[t]) && hrefs[t].value == x;
          if t > 0 {
            assert hrefs[1..][t - 1] == hrefs[t];
          }
        }
        if HrefIn(hrefs[1..], x) {
          var t :| 0 <= t < |hrefs[1..]| && Truthy(hrefs[1..][t]) && hrefs[1..][t].value == x;
          assert hrefs[t + 1] == hrefs[1..][t];
        }
      }
    }
  }

  /** Some processed cell showed `href`. */
  predicate FoundIn(hrefsAt: nat -> seq<Option<string>>, processed: seq<nat>, href: string) {
    exists k :: 0 <= k < |processed| && HrefIn(hrefsAt(processed[k]), href)
  }

  lemma FoundInSnoc(hrefsAt: nat -> seq<Option<string>>, processed: seq<nat>, i: nat, href: string)
    ensures FoundIn(hrefsAt, processed + [i], href) <==> FoundIn(hrefsAt, processed, href) || HrefIn(hrefsAt(i), href)
  {
    var ps := processed + [i];
    if FoundIn(hrefsAt, processed, href) {
      var k :| 0 <= k < |processed| && HrefIn(hrefsAt(processed[k]), href);
      assert ps[k] == processed[k];
    }
    if HrefIn(hrefsAt(i), href) {
      assert ps[|processed|] == i;
    }
    if FoundIn(hrefsAt, ps, href) {
      var k :| 0 <= k < |ps| && HrefIn(hrefsAt(ps[k]), href);
      if k < |processed| {
        assert processed[k] == ps[k];
      }
    }
  }

  /** The state of the cell scan after the first `i` cells: the cells taken
      so far are the `isCell` cells before `i`, in order, and the links are
      exactly what they showed, without duplicates. */
  ghost predicate ScanState(isCell: string -> bool, cells: seq<string>, hrefsAt: nat -> seq<Option<string>>,
                            links: seq<string>, processed: seq<nat>, i: nat) {
    i <= |cells| &&
    (forall k :: 0 <= k < |processed| ==> processed[k] < i && isCell(cells[processed[k]])) &&
    (forall k, m :: 0 <= k < m < |processed| ==> processed[k] < processed[m]) &&
    (forall j :: 0 <= j < i && isCell(cells[j]) ==> j in processed) &&
    NoDup(links) &&
    (forall x :: x in links <==> FoundIn(hrefsAt, processed, x))
  }

  /** Taking cell `i` keeps the scan state. */
  lemma ScanTake(isCell: string -> bool, cells: seq<string>, hrefsAt: nat -> seq<Option<string>>,
                 links: seq<string>, processed: seq<nat>, i: nat)
    requires ScanState(isCell, cells, hrefsAt, links, processed, i) && i < |cells| && isCell(cells[i])
    ensures ScanState(isCell, cells, hrefsAt, AddHrefs(links, hrefsAt(i)), processed + [i], i + 1)
  {
    var ps := processed + [i];
    AddHrefsSpec(links, hrefsAt(i));
    forall x {
      FoundInSnoc(hrefsAt, processed, i, x);
    }
    forall k | 0 <= k < |ps| ensures ps[k] < i + 1 && isCell(cells[ps[k]]) {
      if k < |processed| {
        assert ps[k] == processed[k];
      }
    }
    forall j | 0 <= j < i + 1 && isCell(cells[j]) ensures j in ps {
      if j < i {
        assert j in processed;
      } else {
        assert ps[|processed|] == j;
      }
    }
  }

  /** Passing over a cell that is not taken keeps the scan state. */
  lemma ScanSkip(isCell: string -> bool, cells: seq<string>, hrefsAt: nat -> seq<Option<string>>,
                 links: seq<string>, processed: seq<nat>, i: nat)
    requires ScanState(isCell, cells, hrefsAt, links, processed, i) && i < |cells| && !isCell(cells[i])
    ensures ScanState(isCell, cells, hrefsAt, links, processed, i + 1)
  {
  }

  /** The hover and click passes over the cells: for the first `MaxCells`
      SharePoint cells in order, the hrefs seen on the page after touching
      that cell are added. `hrefsAt(i)` is what both passes see for cell `i`. */
  method CollectFromCells(cells: seq<string>, hrefsAt: nat -> seq<Option<string>>)
    returns (links: seq<string>, processed: seq<nat>)
    ensures |processed| <= MaxCells
    ensures forall k :: 0 <= k < |processed| ==> processed[k] < |cells| && IsSharePointCell(cells[processed[k]])
    ensures forall k, m :: 0 <= k < m < |processed| ==> processed[k] < processed[m]
    ensures forall j :: 0 <= j < |cells| && IsSharePointCell(cells[j]) ==>
      j in processed || (|processed| == MaxCells && processed[MaxCells - 1] < j)
    ensures NoDup(links)
    ensures forall x :: x in links <==> FoundIn(hrefsAt, processed, x)
  {
    links, processed := [], [];
    var i := 0;
    while i < |cells|
      invariant |processed| < MaxCells
      invariant ScanState(IsSharePointCell, cells, hrefsAt, links, processed, i)
    {
      if IsSharePointCell(cells[i]) {
        ScanTake(IsSharePointCell, cells, hrefsAt, links, processed, i);
        links := AddHrefs(links, hrefsAt(i));
        processed := processed + [i];
        if |processed| == MaxCells {
          assert processed[MaxCells - 1] == i;
          return;
        }
      } else {
        ScanSkip(IsSharePointCell, cells, hrefsAt, links, processed, i);
      }
      i := i + 1;
    }
  }

  /** `rstrip('.,;')`: drop the trailing run of those characters. */
  function TrimPunctuation(s: string): (r: string)
    ensures r <= s
    ensures |r| == 0 || r[|r| - 1] !in {'.', ',', ';'}
    ensures forall k :: |r| <= k < |s| ==> s[k] in {'.', ',', ';'}
  {
    if |s| > 0 && s[|s| - 1] in {'.', ',', ';'} then TrimPunctuation(s[..|s| - 1]) else s
  }

  /** A page-source match is kept when its trimmed form is longer than 50. */
  predicate Keeps(matches: seq<string>, x: string) {
    exists t :: 0 <= t < |matches| && TrimPunctuation(matches[t]) == x && |x| > 50
  }

  /** The page-source fallback: each trimmed match longer than 50 characters
      that is not yet in the list is appended. */
  function AddMatches(acc: seq<string>, matches: seq<string>): (r: seq<string>)
    ensures acc <= r
    decreases |matches|
  {
    if |matches| == 0 then acc
    else
      var clean := TrimPunctuation(matches[0]);
      AddMatches(if clean !in acc && |clean| > 50 then acc + [clean] else acc, matches[1..])
  }

  lemma {:induction false} AddMatchesSpec(acc: seq<string>, matches: seq<string>)
    ensures NoDup(acc) ==> NoDup(AddMatches(acc, matches))
    ensures forall x :: x in AddMatches(acc, matches) <==> x in acc || Keeps(matches, x)
    decreases |matches|
  {
    if |matches| > 0 {
      var clean := TrimPunctuation(matches[0]);
      var next := if clean !in acc && |clean| > 50 then acc + [clean] else acc;
      AddMatchesSpec(next, matches[1..]);
      forall x ensures Keeps(matches, x) <==> (clean == x && |x| > 50) || Keeps(matches[1..], x) {
        if Keeps(matches, x) {
          var t :| 0 <= t < |matches| && TrimPunctuation(matches[t]) == x && |x| > 50;
          if t > 0 {
            assert matches[1..][t - 1] == matches[t];
          }
        }
        if Keeps(matches[1..], x) {
          var t :| 0 <= t < |matches[1..]| && TrimPunctuation(matches[1..][t]) == x && |x| > 50;
          assert matches[t + 1] == matches[1..][t];
        }
      }
    }
  }

  /** `extract_video_links`: the cell passes, then, only when they found
      nothing, the page-source matches (`matches` stands for what the regular
      expression finds). */
  method ExtractVideoLinks(cells: seq<string>, hrefsAt: nat -> seq<Option<string>>, matches: seq<string>)
    returns (links: seq<string>, processed: seq<nat>)
    ensures NoDup(links)
    ensures |processed| <= MaxCells
    ensures forall k :: 0 <= k < |processed| ==> processed[k] < |cells| && IsSharePointCell(cells[processed[k]])
    ensures forall k, m :: 0 <= k < m < |processed| ==> processed[k] < processed[m]
    ensures forall j :: 0 <= j < |cells| && IsSharePointCell(cells[j]) ==>
      j in processed || (|processed| == MaxCells && processed[MaxCells - 1] < j)
    ensures (exists x :: FoundIn(hrefsAt, processed, x)) ==>
      forall x :: x in links <==> FoundIn(hrefsAt, processed, x)
    ensures (forall k :: 0 <= k < |processed| ==> forall t :: 0 <= t < |hrefsAt(processed[k])| ==> !Truthy(hrefsAt(processed[k])[t])) ==>
      forall x :: x in links <==> Keeps(matches, x)
  {
    links, processed := CollectFromCells(cells, hrefsAt);
    if |links| == 0 {
      AddMatchesSpec([], matches);
      links := AddMatches([], matches);
    } else {
      assert links[0] in links;
    }
  }

  /** `run` of the sheet scraper: nothing happens without the sheet or
      without links; otherwise every link is attempted in order, the
      failures are the links that did not succeed, and a pause follows each
      success (the last one included) and nothing else. */
  method ScraperRun(navigated: bool, links: seq<string>, download: string -> bool)
    returns (ok: bool, successful: nat, failed: nat, events: seq<Event>)
    ensures ok <==> navigated && |links| > 0
    ensures !ok ==> events == []
    ensures ok ==> successful == Count(download, links) && failed == |links| - successful
    ensures ok ==> Filter(IsAttempt, events) == Attempts(links)
    ensures Count(IsAttempt, events) == (if ok then |links| else 0)
    ensures Count(IsPause, events) == (if ok then successful else 0)
    ensures PauseFollows(events, download)
  {
    successful, failed, events := 0, 0, [];
    if !navigated || |links| == 0 {
      return false, 0, 0, [];
    }
    for i := 0 to |links|
      invariant successful == Count(download, links[..i])
      invariant Filter(IsAttempt, events) == Attempts(links[..i])
      invariant Count(IsAttempt, events) == i
      invariant Count(IsPause, events) == successful
      invariant PauseFollows(events, download)
    {
      CountSnoc(download, links[..i], links[i]);
      assert links[..i + 1] == links[..i] + [links[i]];
      ScraperStep(events, links[i], download);
      assert Attempts(links[..i + 1]) == Attempts(links[..i]) + [Attempt(Job(links[i], NoRow))];
      if download(links[i]) {
        successful := successful + 1;
      }
      events := LinkEvents(events, links[i], download);
    }
    assert links[..|links|] == links;
    CountComplement(download, x => !download(x), links);
    failed := |links| - successful;
    ok := true;
  }

  /** The attempts of a run over `links`: one per link, in order. */
  function Attempts(links: seq<string>): (r: seq<Event>)
    ensures |r| == |links|
    ensures forall i :: 0 <= i < |links| ==> r[i] == Attempt(Job(links[i], NoRow))
  {
    seq(|links|, i requires 0 <= i < |links| => Attempt(Job(links[i], NoRow)))
  }

  /** Every pause comes right after the attempt of a link that succeeded. */
  predicate PauseFollows(events: seq<Event>, download: string -> bool) {
    forall k :: 0 <= k < |events| && events[k].Pause? ==> 0 < k && events[k - 1].Attempt? && download(events[k - 1].job.url)
  }

  /** The events of one link of the sheet scraper: the attempt, then a pause
      if it succeeded. */
  function LinkEvents(events: seq<Event>, url: string, download: string -> bool): seq<Event> {
    events + [Attempt(Job(url, NoRow))] + (if download(url) then [Pause] else [])
  }

  /** One link adds one attempt, a pause exactly on success, and keeps every
      pause behind a successful attempt. */
  lemma ScraperStep(events: seq<Event>, url: string, download: string -> bool)
    requires PauseFollows(events, download)
    ensures Filter(IsAttempt, LinkEvents(events, url, download)) == Filter(IsAttempt, events) + [Attempt(Job(url, NoRow))]
    ensures Count(IsAttempt, LinkEvents(events, url, download)) == Count(IsAttempt, events) + 1
    ensures Count(IsPause, LinkEvents(events, url, download)) == Count(IsPause, events) + (if download(url) then 1 else 0)
    ensures PauseFollows(LinkEvents(events, url, download), download)
  {
    var a := events + [Attempt(Job(url, NoRow))];
    CountSnoc(IsAttempt, events, Attempt(Job(url, NoRow)));
    FilterAppend(IsAttempt, events, [Attempt(Job(url, NoRow))]);
    CountSnoc(IsPause, events, Attempt(Job(url, NoRow)));
    assert PauseFollows(a, download);
    if download(url) {
      CountSnoc(IsAttempt, a, Pause);
      FilterAppend(IsAttempt, a, [Pause]);
      CountSnoc(IsPause, a, Pause);
      assert LinkEvents(events, url, download) == a + [Pause];
    } else {
      assert LinkEvents(events, url, download) == a;
    }
  }

  predicate IsAttempt(e: Event) {
    e.Attempt?
  }

  predicate IsPause(e: Event) {
    e.Pause?
  }
}

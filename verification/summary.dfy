/** The runner of the transfer scraper (`main_runner.py`): the dependency
    check, the exit code of `main`, and the summary report's counts, row
    grouping and per-link symbols. The report's text layout is not modelled;
    what it shows is. */
module Summary {
  import opened Wrappers
  import opened Seqs
  import opened Strings
  import opened Registry
  import RunLoop

  // ---------------------------------------------------------------------
  // Counts
  // ---------------------------------------------------------------------

  /** `l.get('status') == s` */
  function HasStatus(s: string): Link -> bool {
    (l: Link) => l.status == Some(s)
  }

  /** `l.get('processed', 0) == 1` */
  predicate IsProcessedOne(l: Link) {
    l.processed.GetOr(0) == 1
  }

  /** The statuses the report counts. */
  predicate IsCountedStatus(status: Option<string>) {
    status == Some("completed") || status == Some("failed") || status == Some("error") || status == Some("pending")
  }

  datatype Counts = Counts(total: nat, completed: nat, failed: nat, error: nat, pending: nat,
                           processed: nat, unprocessed: nat)

  /** The processing summary of the report. */
  function CountsOf(links: seq<Link>): (c: Counts)
    ensures c.total == |links|
    ensures c.completed + c.failed + c.error + c.pending <= c.total
    ensures c.processed + c.unprocessed <= c.total
  {
    StatusCountsPartition(links);
    ProcessedCountsPartition(links);
    Counts(|links|, Count(HasStatus("completed"), links), Count(HasStatus("failed"), links),
           Count(HasStatus("error"), links), Count(HasStatus("pending"), links),
           Count(IsProcessedOne, links), Count(IsUnprocessed, links))
  }

  /** The four status counts and the count of the records they leave out
      (no status, `processing`, anything else) add up to the total: each
      record is counted under its exact status and nowhere else. */
  lemma StatusCountsPartition(links: seq<Link>)
    ensures Count(HasStatus("completed"), links) + Count(HasStatus("failed"), links) +
            Count(HasStatus("error"), links) + Count(HasStatus("pending"), links) +
            Count((l: Link) => !IsCountedStatus(l.status), links) == |links|
  {
    var cf := (l: Link) => l.status == Some("completed") || l.status == Some("failed");
    var cfe := (l: Link) => cf(l) || l.status == Some("error");
    var all := (l: Link) => IsCountedStatus(l.status);
    CountDisjoint(HasStatus("completed"), HasStatus("failed"), cf, links);
    CountDisjoint(cf, HasStatus("error"), cfe, links);
    CountDisjoint(cfe, HasStatus("pending"), all, links);
    CountComplement(all, (l: Link) => !IsCountedStatus(l.status), links);
  }

  /** `processed` counts the records whose flag is 1 and `unprocessed` those
      whose flag is missing or 0; a record with any other value is in
      neither. */
  lemma ProcessedCountsPartition(links: seq<Link>)
    ensures Count(IsProcessedOne, links) + Count(IsUnprocessed, links) +
            Count((l: Link) => !IsProcessedOne(l) && !IsUnprocessed(l), links) == |links|
  {
    var either := (l: Link) => IsProcessedOne(l) || IsUnprocessed(l);
    CountDisjoint(IsProcessedOne, IsUnprocessed, either, links);
    CountComplement(either, (l: Link) => !IsProcessedOne(l) && !IsUnprocessed(l), links);
  }

  /** When every record carries processed 1, the report counts all of them
      as processed and none as unprocessed. */
  lemma CountsAfterRun(links: seq<Link>)
    requires forall i :: 0 <= i < |links| ==> links[i].processed == Some(1)
    ensures CountsOf(links).processed == |links| && CountsOf(links).unprocessed == 0
  {
    FilterAll(IsProcessedOne, links);
    FilterNone(IsUnprocessed, links);
  }

  // ---------------------------------------------------------------------
  // Grouping by row
  // ---------------------------------------------------------------------

  /** `link['row'] == r` */
  function InRow(r: int): Link -> bool {
    (l: Link) => l.row == r
  }

  /** One step of the grouping loop: append the link to its row's list,
      opening the list when the row is new. */
  function AddToGroup(m: map<int, seq<Link>>, l: Link): map<int, seq<Link>> {
    if l.row in m then m[l.row := m[l.row] + [l]] else m[l.row := [l]]
  }

  /** The `rows` dictionary after the loop has seen `links`, in order. */
  function Groups(links: seq<Link>): map<int, seq<Link>> {
    if |links| == 0 then map[] else AddToGroup(Groups(links[..|links| - 1]), links[|links| - 1])
  }

  /** The dictionary has a key for each row that occurs, and the list of a
      row is the links of that row in their original order. */
  lemma {:induction false} GroupsAt(links: seq<Link>, r: int)
    ensures r in Groups(links) <==> HasRow(links, r)
    ensures r in Groups(links) ==> Groups(links)[r] == Filter(InRow(r), links)
  {
    if |links| > 0 {
      var init := links[..|links| - 1];
      var last := links[|links| - 1];
      GroupsAt(init, r);
      assert links == init + [last];
      FilterAppend(InRow(r), init, [last]);
      assert Filter(InRow(r), [last]) == (if last.row == r then [last] else []) by {
        assert [last][1..] == [];
      }
      if r !in Groups(init) {
        FilterNone(InRow(r), init);
      }
      forall i | 0 <= i < |init| ensures init[i] == links[i] {
      }
    }
  }

  predicate StrictlyIncreasing(xs: seq<int>) {
    forall i, j :: 0 <= i < j < |xs| ==> xs[i] < xs[j]
  }

  /** Insert `x` into a strictly increasing sequence, unless it is there. */
  function Insert(x: int, xs: seq<int>): seq<int>
    requires StrictlyIncreasing(xs)
  {
    if |xs| == 0 then [x]
    else if x < xs[0] then [x] + xs
    else if x == xs[0] then xs
    else [xs[0]] + Insert(x, xs[1..])
  }

  /** Inserting keeps the sequence strictly increasing and adds exactly `x`. */
  lemma {:induction false} InsertSpec(x: int, xs: seq<int>)
    requires StrictlyIncreasing(xs)
    ensures StrictlyIncreasing(Insert(x, xs))
    ensures forall y :: y in Insert(x, xs) <==> y == x || y in xs
  {
    if |xs| > 0 && x > xs[0] {
      var t := Insert(x, xs[1..]);
      InsertSpec(x, xs[1..]);
      forall y | y in t ensures xs[0] < y {
        if y != x {
          var k :| 0 <= k < |xs[1..]| && xs[1..][k] == y;
          assert xs[k + 1] == y;
        }
      }
      var r := [xs[0]] + t;
      forall i, j | 0 <= i < j < |r| ensures r[i] < r[j] {
        assert r[j] == t[j - 1];
        assert r[j] in t;
        if i > 0 {
          assert r[i] == t[i - 1];
        }
      }
      assert forall y :: y in xs <==> y == xs[0] || y in xs[1..];
    } else if |xs| > 0 && x < xs[0] {
      var r := [x] + xs;
      forall i, j | 0 <= i < j < |r| ensures r[i] < r[j] {
        assert r[j] == xs[j - 1];
        if i > 0 {
          assert r[i] == xs[i - 1];
        }
      }
    }
  }

  /** Some link is in row `x`. */
  predicate HasRow(links: seq<Link>, x: int) {
    exists i :: 0 <= i < |links| && links[i].row == x
  }

  lemma HasRowCons(links: seq<Link>, x: int)
    requires |links| > 0
    ensures HasRow(links, x) <==> x == links[0].row || HasRow(links[1..], x)
  {
    if HasRow(links[1..], x) {
      var i :| 0 <= i < |links[1..]| && links[1..][i].row == x;
      assert links[i + 1].row == x;
    }
    if HasRow(links, x) && x != links[0].row {
      var i :| 0 <= i < |links| && links[i].row == x;
      assert links[1..][i - 1].row == x;
    }
  }

  /** `sorted(rows.keys())`: the distinct rows in ascending order. */
  function SortedRows(links: seq<Link>): (r: seq<int>)
    ensures StrictlyIncreasing(r)
    ensures forall x :: x in r <==> HasRow(links, x)
  {
    if |links| == 0 then []
    else
      var rest := SortedRows(links[1..]);
      forall x ensures HasRow(links, x) <==> x == links[0].row || HasRow(links[1..], x) {
        HasRowCons(links, x);
      }
      InsertSpec(links[0].row, rest);
      Insert(links[0].row, rest)
  }

  datatype Group = Group(row: int, links: seq<Link>)

  function GroupsFor(rows: seq<int>, m: map<int, seq<Link>>): (r: seq<Group>)
    requires forall k :: 0 <= k < |rows| ==> rows[k] in m
    ensures |r| == |rows|
  {
    if |rows| == 0 then [] else [Group(rows[0], m[rows[0]])] + GroupsFor(rows[1..], m)
  }

  lemma {:induction false} GroupsForAt(rows: seq<int>, m: map<int, seq<Link>>, k: nat)
    requires forall j :: 0 <= j < |rows| ==> rows[j] in m
    requires k < |rows|
    ensures GroupsFor(rows, m)[k] == Group(rows[k], m[rows[k]])
  {
    if k > 0 {
      GroupsForAt(rows[1..], m, k - 1);
    }
  }

  /** The detailed results: one group per row in ascending row order. */
  function RowGroups(links: seq<Link>): (r: seq<Group>)
    ensures |r| == |SortedRows(links)|
  {
    var rows := SortedRows(links);
    forall k | 0 <= k < |rows| ensures rows[k] in Groups(links) {
      GroupsAt(links, rows[k]);
    }
    GroupsFor(rows, Groups(links))
  }

  /** Rows come in ascending order; the group of a row lists exactly the
      links of that row, in file order. */
  lemma RowGroupsAt(links: seq<Link>, k: nat)
    requires k < |RowGroups(links)|
    ensures var g := RowGroups(links);
      g[k].row == SortedRows(links)[k] &&
      (forall j :: 0 <= j < k ==> g[j].row < g[k].row) &&
      g[k].links == Filter(InRow(g[k].row), links)
  {
    var rows := SortedRows(links);
    forall j | 0 <= j < |rows| ensures rows[j] in Groups(links) {
      GroupsAt(links, rows[j]);
    }
    forall j | 0 <= j <= k ensures RowGroups(links)[j] == Group(rows[j], Groups(links)[rows[j]]) {
      GroupsForAt(rows, Groups(links), j);
    }
    GroupsAt(links, rows[k]);
  }

  /** Every link is in the group of its own row and in no other group. */
  lemma RowGroupsPartition(links: seq<Link>, i: nat, k: nat)
    requires i < |links| && k < |RowGroups(links)|
    ensures links[i] in RowGroups(links)[k].links <==> RowGroups(links)[k].row == links[i].row
    ensures exists j :: 0 <= j < |RowGroups(links)| && RowGroups(links)[j].row == links[i].row
  {
    RowGroupsAt(links, k);
    FilterMembers(InRow(RowGroups(links)[k].row), links);
    var rows := SortedRows(links);
    assert HasRow(links, links[i].row);
    var j :| 0 <= j < |rows| && rows[j] == links[i].row;
    RowGroupsAt(links, j);
  }

  /** The sum of the group sizes the report prints. */
  function SizeSum(gs: seq<Group>): nat {
    if |gs| == 0 then 0 else |gs[0].links| + SizeSum(gs[1..])
  }

  /** `link['row'] in rows` */
  function RowIn(rows: set<int>): Link -> bool {
    (l: Link) => l.row in rows
  }

  lemma {:induction false} SizeSumCounts(ks: seq<int>, links: seq<Link>)
    requires StrictlyIncreasing(ks)
    requires forall k :: 0 <= k < |ks| ==> ks[k] in Groups(links)
    ensures SizeSum(GroupsFor(ks, Groups(links))) == Count(RowIn(set k | k in ks), links)
  {
    if |ks| == 0 {
      FilterNone(RowIn(set k | k in ks), links);
    } else {
      var rest := ks[1..];
      SizeSumHead(ks, Groups(links));
      SizeSumCounts(rest, links);
      GroupsAt(links, ks[0]);
      RowSetSplit(ks);
      CountDisjoint(InRow(ks[0]), RowIn(set k | k in rest), RowIn(set k | k in ks), links);
    }
  }

  lemma SizeSumHead(ks: seq<int>, m: map<int, seq<Link>>)
    requires |ks| > 0
    requires forall k :: 0 <= k < |ks| ==> ks[k] in m
    ensures SizeSum(GroupsFor(ks, m)) == |m[ks[0]]| + SizeSum(GroupsFor(ks[1..], m))
  {
    var g := GroupsFor(ks, m);
    assert g == [Group(ks[0], m[ks[0]])] + GroupsFor(ks[1..], m);
    assert g[1..] == GroupsFor(ks[1..], m);
  }

  /** The rows of a strictly increasing list are its first row and, apart
      from it, the rows of the rest. */
  lemma RowSetSplit(ks: seq<int>)
    requires |ks| > 0 && StrictlyIncreasing(ks)
    ensures ks[0] !in (set k | k in ks[1..])
    ensures (set k | k in ks) == {ks[0]} + (set k | k in ks[1..])
  {
    assert ks == [ks[0]] + ks[1..];
  }

  /** The group sizes add up to the number of links: grouping loses and
      duplicates nothing. */
  lemma RowGroupsCoverAll(links: seq<Link>)
    ensures SizeSum(RowGroups(links)) == |links|
  {
    var rows := SortedRows(links);
    forall j | 0 <= j < |rows| ensures rows[j] in Groups(links) {
      GroupsAt(links, rows[j]);
    }
    SizeSumCounts(rows, links);
    forall i | 0 <= i < |links| ensures RowIn(set k | k in rows)(links[i]) {
      assert HasRow(links, links[i].row);
    }
    FilterAll(RowIn(set k | k in rows), links);
  }

  // ---------------------------------------------------------------------
  // Per-link lines
  // ---------------------------------------------------------------------

  datatype Symbol = Success | Failure | Warning | Pending | InProgress | Unknown

  /** The status symbol: a missing status reads as `pending`; a status
      outside the five known ones gets the question mark. */
  function StatusSymbol(status: Option<string>): (r: Symbol)
    ensures status.None? ==> r == Pending
    ensures r == Unknown <==> status.Some? && status.value !in ["completed", "failed", "error", "pending", "processing"]
    ensures r == Success <==> status == Some("completed")
    ensures r == Pending <==> status.None? || status == Some("pending")
  {
    var s := status.GetOr("pending");
    if s == "completed" then Success
    else if s == "failed" then Failure
    else if s == "error" then Warning
    else if s == "pending" then Pending
    else if s == "processing" then InProgress
    else Unknown
  }

  /** The final status of a run's outcome has a symbol of its own. */
  lemma FinalStatusesKnown(status: string)
    requires status == "completed" || status == "failed" || status == "error"
    ensures StatusSymbol(Some(status)) != Unknown && StatusSymbol(Some(status)) != Pending
  {
  }

  /** `if link.get('error')`: an error line is shown only for a present,
      non-empty message. */
  predicate ShowsErrorLine(l: Link) {
    Truthy(l.error)
  }

  /** The error line of a record a run has resolved. A failure always shows
      one; a success, or an exception with an empty text, writes no message
      and so leaves whatever error line the record had before the run. */
  lemma ResolvedErrorLine(l: Link, o: RunLoop.Outcome, clock: nat -> string, i: nat)
    ensures var r := RunLoop.Resolve(l, o, clock, i);
      (o.Failed? ==> ShowsErrorLine(r) && r.error == Some("Download failed")) &&
      (o.Succeeded? ==> r.error == l.error) &&
      (o.Raised? && o.message != "" ==> ShowsErrorLine(r) && r.error == Some(o.message)) &&
      (o.Raised? && o.message == "" ==> r.error == l.error)
  {
  }

  // ---------------------------------------------------------------------
  // The runner
  // ---------------------------------------------------------------------

  const RequiredFiles: seq<string> := ["google_sheets_extractor.py", "transfer_scraper.py", "service-account-key.json", ".env"]

  /** `check_dependencies` over a list of required files and the files
      `present` says exist: the missing ones in list order, and whether
      there are none. */
  function CheckFiles(required: seq<string>, present: string -> bool): (r: (bool, seq<string>))
    ensures r.0 <==> forall i :: 0 <= i < |required| ==> present(required[i])
    ensures forall f :: f in r.1 <==> f in required && !present(f)
    ensures |r.1| <= |required|
  {
    var missing := Filter((f: string) => !present(f), required);
    FilterMembers((f: string) => !present(f), required);
    if |missing| > 0 then
      assert missing[0] in required;
      (false, missing)
    else
      assert forall i :: 0 <= i < |required| ==> required[i] !in missing;
      (true, missing)
  }

  function CheckDependencies(present: string -> bool): (bool, seq<string>) {
    CheckFiles(RequiredFiles, present)
  }

  /** `check_extracted_links`: the file must be a JSON object with a non-empty
      `links` list; the old bare-list format fails its `.get`, and a missing
      or unreadable file fails too. */
  predicate CheckExtractedLinks(f: RegistryFile) {
    f.Wrapped? && |f.links| > 0
  }

  /** What `main` of the runner did: its exit code, and whether it ran the
      scraper and wrote the report. */
  datatype RunnerTrace = RunnerTrace(code: int, scraped: bool, reported: bool)

  /** `main` of the runner. `extracted` is the extraction subprocess's
      success, `f` the registry it left and `answer` the confirmation typed
      by the user. The scraping result only changes the closing message. */
  function RunnerMain(present: string -> bool, extracted: bool, f: RegistryFile, answer: string): (t: RunnerTrace)
    ensures t.code == 1 <==> !CheckDependencies(present).0 || !extracted || !CheckExtractedLinks(f)
    ensures t.code == 0 <==> t.code != 1
    ensures t.scraped <==> t.code == 0 && AnswerIsYes(answer)
    ensures t.reported == t.scraped
  {
    if !CheckDependencies(present).0 then RunnerTrace(1, false, false)
    else if !extracted then RunnerTrace(1, false, false)
    else if !CheckExtractedLinks(f) then RunnerTrace(1, false, false)
    else if !AnswerIsYes(answer) then RunnerTrace(0, false, false)
    else RunnerTrace(0, true, true)
  }

  /** A registry in the bare-list format stops the runner with code 1 even
      though the scraper itself would load its links. */
  lemma BareRegistryStopsRunner(present: string -> bool, extracted: bool, links: seq<Link>, answer: string)
    requires |links| > 0
    ensures RunnerMain(present, extracted, Bare(links), answer).code == 1
    ensures LoadLinks(Bare(links)).0 == links
  {
  }

  /** The summary report of a registry file: only a wrapped file yields one
      (reading `links` off anything else fails and the report is skipped). */
  datatype Report = Report(counts: Counts, rowCount: nat, transfernow: nat, wetransfer: nat, groups: seq<Group>)

  function SummaryReport(f: RegistryFile): (r: Option<Report>)
    ensures r.Some? <==> f.Wrapped?
    ensures r.Some? ==> r.value.counts.total == |f.links| && |r.value.groups| == r.value.rowCount
    ensures r.Some? ==> SizeSum(r.value.groups) == |f.links|
    ensures r.Some? ==> forall k :: 0 <= k < |r.value.groups| ==>
      HasRow(f.links, r.value.groups[k].row) &&
      forall j :: 0 <= j < k ==> r.value.groups[j].row < r.value.groups[k].row
  {
    match f
    case Wrapped(links, md) =>
      RowGroupsCoverAll(links);
      forall k | 0 <= k < |RowGroups(links)|
        ensures HasRow(links, RowGroups(links)[k].row)
        ensures forall j :: 0 <= j < k ==> RowGroups(links)[j].row < RowGroups(links)[k].row
      {
        RowGroupsAt(links, k);
      }
      var tn := if md.Some? then md.value.transfernowCount else 0;
      var wt := if md.Some? then md.value.wetransferCount else 0;
      Some(Report(CountsOf(links), |SortedRows(links)|, tn, wt, RowGroups(links)))
    case _ => None
  }

  /** After a run over a wrapped registry with distinct ids, the report of
      the file the run leaves counts no unprocessed record. */
  lemma ReportAfterRun(links: seq<Link>, md: Option<Metadata>, setup: Link -> Option<string>,
                       download: Link -> bool, clock: nat -> string)
    requires UniqueIds(links)
    ensures var g := RunLoop.FileAfter(Wrapped(links, md), Filter(IsUnprocessed, links), setup, download, clock, 0);
      SummaryReport(g).Some? && SummaryReport(g).value.counts.unprocessed == 0
  {
    RunLoop.RunLeavesNothingUnprocessed(links, md, setup, download, clock);
    RunLoop.RunRecordsOutcomes(links, md, setup, download, clock);
  }
}

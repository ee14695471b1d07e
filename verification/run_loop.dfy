/** The resumable run of the transfer scraper: every record not yet processed
    is marked `processing`, handed to the site downloader, and then closed
    with exactly one of three outcomes, each written back to the registry.

    The browser is reduced to two oracles: `setup` gives the exception text
    when starting the browser for a link fails, and `download` says whether
    the site-specific download of a supported link succeeded (both site
    downloaders catch their own exceptions and report failure). Timestamps
    come from `clock`, indexed by the update's position in the run. */
module RunLoop {
  import opened Wrappers
  import opened Seqs
  import opened Registry

  datatype Outcome = Succeeded | Failed | Raised(message: string)

  /** The status written when a link's attempt ends. */
  function FinalStatus(o: Outcome): string {
    match o
    case Succeeded => "completed"
    case Failed => "failed"
    case Raised(_) => "error"
  }

  /** The error message written when a link's attempt ends. */
  function FinalError(o: Outcome): Option<string> {
    match o
    case Succeeded => None
    case Failed => Some("Download failed")
    case Raised(m) => Some(m)
  }

  /** `process_link`: dispatch on the record's type; an unsupported type fails
      without a download. */
  function ProcessLink(l: Link, download: Link -> bool): (ok: bool)
    ensures ok ==> IsTransferNowLink(l) || IsWeTransferLink(l)
    ensures IsTransferNowLink(l) || IsWeTransferLink(l) ==> ok == download(l)
  {
    if l.kind == "transfernow" then download(l)
    else if l.kind == "wetransfer" then download(l)
    else false
  }

  /** The body of the per-link `try`: browser setup may raise; otherwise the
      link's processing succeeds or fails. */
  function LinkOutcome(l: Link, setup: Link -> Option<string>, download: Link -> bool): (o: Outcome)
    ensures o.Raised? <==> setup(l).Some?
    ensures o.Raised? ==> o.message == setup(l).value
    ensures o == Succeeded <==> setup(l).None? && ProcessLink(l, download)
  {
    if setup(l).Some? then Raised(setup(l).value)
    else if ProcessLink(l, download) then Succeeded
    else Failed
  }

  /** The first update the loop writes for a link, the `i`-th of the run:
      `processing`, still with processed 0. */
  function Mark(f: RegistryFile, l: Link, clock: nat -> string, i: nat): RegistryFile {
    UpdateLinkStatus(f, l.id, "processing", Some(0), None, clock(2 * i))
  }

  /** The two updates the loop writes for one link, the `i`-th of the run. */
  function Step(f: RegistryFile, l: Link, o: Outcome, clock: nat -> string, i: nat): RegistryFile {
    UpdateLinkStatus(Mark(f, l, clock, i), l.id, FinalStatus(o), Some(1), FinalError(o), clock(2 * i + 1))
  }

  /** Between its two updates a link's record reads `processing` with
      processed 0 and nothing else in the file has changed, so a run cut
      short at that point leaves the record to be selected again. */
  lemma MarkProcessing(f: RegistryFile, l: Link, clock: nat -> string, i: nat, j: nat)
    requires f.Wrapped? && FirstWithId(f.links, l.id, j)
    ensures var g := Mark(f, l, clock, i);
      g.Wrapped? && g.metadata == f.metadata && |g.links| == |f.links| &&
      g.links[j].id == f.links[j].id && g.links[j].url == f.links[j].url &&
      g.links[j].status == Some("processing") && g.links[j].processed == Some(0) &&
      g.links[j].processedAt == Some(clock(2 * i)) && g.links[j].error == f.links[j].error &&
      (forall k :: 0 <= k < |f.links| && k != j ==> g.links[k] == f.links[k]) &&
      g.links[j] in Filter(IsUnprocessed, LoadLinks(g).0)
  {
    var g := Mark(f, l, clock, i);
    forall k | 0 <= k < |f.links|
      ensures g.links[k] == if k == j then Patch(f.links[k], "processing", Some(0), None, clock(2 * i)) else f.links[k]
    {
      UpdateLinkStatusAt(f, l.id, "processing", Some(0), None, clock(2 * i), k);
    }
    FilterMembers(IsUnprocessed, g.links);
  }

  /** What the two updates make of the record they hit. */
  function Resolve(l: Link, o: Outcome, clock: nat -> string, i: nat): (r: Link)
    ensures r.id == l.id && r.row == l.row && r.url == l.url && r.kind == l.kind && r.originalCell == l.originalCell
    ensures r.status == Some(FinalStatus(o)) && r.processed == Some(1) && r.processedAt == Some(clock(2 * i + 1))
    ensures !IsUnprocessed(r)
  {
    Patch(Patch(l, "processing", Some(0), None, clock(2 * i)), FinalStatus(o), Some(1), FinalError(o), clock(2 * i + 1))
  }

  /** `step` applied to each link of `sel` in turn, the first of them being
      the `start`-th link of the run. */
  function Fold(f: RegistryFile, sel: seq<Link>, step: (RegistryFile, Link, nat) -> RegistryFile, start: nat): RegistryFile
    decreases |sel|
  {
    if |sel| == 0 then f else Fold(step(f, sel[0], start), sel[1..], step, start + 1)
  }

  lemma {:induction false} FoldSnoc(f: RegistryFile, sel: seq<Link>, l: Link,
                                    step: (RegistryFile, Link, nat) -> RegistryFile, start: nat)
    ensures Fold(f, sel + [l], step, start) == step(Fold(f, sel, step, start), l, start + |sel|)
    decreases |sel|
  {
    if |sel| == 0 {
      assert sel + [l] == [l];
    } else {
      var g := step(f, sel[0], start);
      assert (sel + [l])[0] == sel[0];
      assert (sel + [l])[1..] == sel[1..] + [l];
      FoldSnoc(g, sel[1..], l, step, start + 1);
    }
  }

  /** The loop body's effect on the file, for a link and its position. */
  function LoopStep(setup: Link -> Option<string>, download: Link -> bool, clock: nat -> string): (RegistryFile, Link, nat) -> RegistryFile {
    (g: RegistryFile, l: Link, i: nat) => Step(g, l, LinkOutcome(l, setup, download), clock, i)
  }

  lemma LoopStepAt(setup: Link -> Option<string>, download: Link -> bool, clock: nat -> string, g: RegistryFile, l: Link, i: nat)
    ensures LoopStep(setup, download, clock)(g, l, i) == Step(g, l, LinkOutcome(l, setup, download), clock, i)
  {
  }

  /** The registry file after the loop has handled `sel`, the first of them
      being the `start`-th link of the run. */
  function FileAfter(f: RegistryFile, sel: seq<Link>, setup: Link -> Option<string>, download: Link -> bool,
                     clock: nat -> string, start: nat): RegistryFile
  {
    Fold(f, sel, LoopStep(setup, download, clock), start)
  }

  lemma FileAfterSnoc(f: RegistryFile, sel: seq<Link>, l: Link, setup: Link -> Option<string>,
                      download: Link -> bool, clock: nat -> string, start: nat)
    ensures FileAfter(f, sel + [l], setup, download, clock, start) ==
      LoopStep(setup, download, clock)(FileAfter(f, sel, setup, download, clock, start), l, start + |sel|)
  {
    FoldSnoc(f, sel, l, LoopStep(setup, download, clock), start);
  }

  // ---------------------------------------------------------------------
  // The loop of `main`
  // ---------------------------------------------------------------------

  datatype Event =
    | Marked(id: string)
    | Finished(id: string, outcome: Outcome)
    | BrowserClosed(id: string)
    | Paused

  /** The events of the `k`-th link of `sel`: marked, finished, the browser
      closed when one was started, and the pause unless it is the last link. */
  function LinkEvents(sel: seq<Link>, k: nat, setup: Link -> Option<string>, download: Link -> bool): seq<Event>
    requires k < |sel|
  {
    var closed := AttemptEvents(sel[k], setup, download);
    if k + 1 < |sel| then closed + [Paused] else closed
  }

  /** Marked, finished, and the browser closed when one was started. */
  function AttemptEvents(l: Link, setup: Link -> Option<string>, download: Link -> bool): seq<Event> {
    var ended := [Marked(l.id)] + [Finished(l.id, LinkOutcome(l, setup, download))];
    if setup(l).None? then ended + [BrowserClosed(l.id)] else ended
  }

  /** The chunks `chunk(0)`, ..., `chunk(i - 1)` one after the other. */
  function Concat(chunk: nat -> seq<Event>, i: nat): seq<Event> {
    if i == 0 then [] else Concat(chunk, i - 1) + chunk(i - 1)
  }

  /** The events of each link of `sel`, by position. */
  function LinkChunks(sel: seq<Link>, setup: Link -> Option<string>, download: Link -> bool): nat -> seq<Event> {
    (k: nat) => if k < |sel| then LinkEvents(sel, k, setup, download) else []
  }

  lemma LinkChunksAt(sel: seq<Link>, setup: Link -> Option<string>, download: Link -> bool, k: nat)
    requires k < |sel|
    ensures LinkChunks(sel, setup, download)(k) == LinkEvents(sel, k, setup, download)
  {
  }

  /** The events of the first `i` links of `sel`. */
  function EventsUpTo(sel: seq<Link>, i: nat, setup: Link -> Option<string>, download: Link -> bool): seq<Event>
    requires i <= |sel|
  {
    Concat(LinkChunks(sel, setup, download), i)
  }

  /** The links whose attempt succeeds. */
  function Succeeds(setup: Link -> Option<string>, download: Link -> bool): Link -> bool {
    l => LinkOutcome(l, setup, download) == Succeeded
  }

  /** The links whose attempt fails or raises. */
  function Fails(setup: Link -> Option<string>, download: Link -> bool): Link -> bool {
    l => LinkOutcome(l, setup, download) != Succeeded
  }

  /** One pass of the loop body for the `i`-th selected link: mark it
      `processing`, start the browser and process the link, write the outcome,
      close the browser if one was started, and pause unless it is the last. */
  method HandleLink(file: RegistryFile, sel: seq<Link>, i: nat, setup: Link -> Option<string>,
                    download: Link -> bool, clock: nat -> string)
    returns (next: RegistryFile, outcome: Outcome, chunk: seq<Event>)
    requires i < |sel|
    ensures outcome == LinkOutcome(sel[i], setup, download)
    ensures next == Step(file, sel[i], outcome, clock, i)
    ensures chunk == LinkEvents(sel, i, setup, download)
  {
    var l := sel[i];
    next := UpdateLinkStatus(file, l.id, "processing", Some(0), None, clock(2 * i));
    chunk := [Marked(l.id)];
    if setup(l).Some? {
      outcome := Raised(setup(l).value);
    } else if ProcessLink(l, download) {
      outcome := Succeeded;
    } else {
      outcome := Failed;
    }
    next := UpdateLinkStatus(next, l.id, FinalStatus(outcome), Some(1), FinalError(outcome), clock(2 * i + 1));
    chunk := chunk + [Finished(l.id, outcome)];
    if setup(l).None? {
      chunk := chunk + [BrowserClosed(l.id)];
    }
    if i + 1 < |sel| {
      chunk := chunk + [Paused];
    }
  }

  /** The `for` loop of `main` over the selected links `sel`. */
  method ProcessSelected(f: RegistryFile, sel: seq<Link>, setup: Link -> Option<string>, download: Link -> bool,
                         clock: nat -> string)
    returns (final: RegistryFile, successful: nat, failed: nat, events: seq<Event>)
    ensures final == FileAfter(f, sel, setup, download, clock, 0)
    ensures events == EventsUpTo(sel, |sel|, setup, download)
    ensures successful + failed == |sel|
    ensures successful == Count(Succeeds(setup, download), sel)
    ensures failed == Count(Fails(setup, download), sel)
  {
    final, successful, failed, events := f, 0, 0, [];
    var i := 0;
    while i < |sel|
      invariant Progress(f, sel, setup, download, clock, i, final, events, successful, failed)
    {
      var outcome, chunk;
      ProgressStep(f, sel, setup, download, clock, i, final, events, successful, failed);
      final, outcome, chunk := HandleLink(final, sel, i, setup, download, clock);
      if outcome == Succeeded {
        successful := successful + 1;
      } else {
        failed := failed + 1;
      }
      events := events + chunk;
      i := i + 1;
    }
    assert sel[..i] == sel;
    CountComplement(Succeeds(setup, download), Fails(setup, download), sel);
  }

  /** The loop state after the first `i` links of `sel`. */
  ghost predicate Progress(f: RegistryFile, sel: seq<Link>, setup: Link -> Option<string>, download: Link -> bool,
                           clock: nat -> string, i: nat, final: RegistryFile, events: seq<Event>, successful: nat, failed: nat) {
    i <= |sel| &&
    final == FileAfter(f, sel[..i], setup, download, clock, 0) &&
    events == EventsUpTo(sel, i, setup, download) &&
    successful + failed == i &&
    successful == Count(Succeeds(setup, download), sel[..i])
  }

  /** Handling the `i`-th link moves the loop state on by one link. */
  lemma ProgressStep(f: RegistryFile, sel: seq<Link>, setup: Link -> Option<string>, download: Link -> bool,
                     clock: nat -> string, i: nat, final: RegistryFile, events: seq<Event>, successful: nat, failed: nat)
    requires i < |sel| && Progress(f, sel, setup, download, clock, i, final, events, successful, failed)
    ensures var o := LinkOutcome(sel[i], setup, download);
      Progress(f, sel, setup, download, clock, i + 1, Step(final, sel[i], o, clock, i),
               events + LinkEvents(sel, i, setup, download),
               if o == Succeeded then successful + 1 else successful,
               if o == Succeeded then failed else failed + 1)
  {
    FileAfterNext(f, sel, i, setup, download, clock);
    EventsNext(sel, i, setup, download);
    CountNext(Succeeds(setup, download), sel, i);
  }

  /** `main` of the transfer scraper on registry file `f`. Returns the file as
      the run leaves it, the success and failure counters, the number of
      records already processed before the run, and the run's events. The
      links to process are those with `processed` missing or 0, in file order;
      with no links, or none to process, the run stops before the loop. */
  method RunTransferScraper(f: RegistryFile, setup: Link -> Option<string>, download: Link -> bool, clock: nat -> string)
    returns (final: RegistryFile, successful: nat, failed: nat, alreadyProcessed: nat, events: seq<Event>)
    ensures var sel := Filter(IsUnprocessed, LoadLinks(f).0);
      final == FileAfter(f, sel, setup, download, clock, 0) &&
      events == EventsUpTo(sel, |sel|, setup, download)
    ensures var links := LoadLinks(f).0;
      alreadyProcessed == |links| - Count(IsUnprocessed, links)
    ensures var sel := Filter(IsUnprocessed, LoadLinks(f).0);
      successful + failed == |sel| &&
      successful == Count(Succeeds(setup, download), sel)
  {
    var links := LoadLinks(f).0;
    var sel := Filter(IsUnprocessed, links);
    final, successful, failed, alreadyProcessed, events := f, 0, 0, 0, [];
    if |links| == 0 {
      assert sel == [];
      return;
    }
    alreadyProcessed := |links| - |sel|;
    if |sel| == 0 {
      return;
    }
    final, successful, failed, events := ProcessSelected(f, sel, setup, download, clock);
  }

  lemma FileAfterNext(f: RegistryFile, sel: seq<Link>, i: nat, setup: Link -> Option<string>,
                       download: Link -> bool, clock: nat -> string)
    requires i < |sel|
    ensures FileAfter(f, sel[..i + 1], setup, download, clock, 0) ==
      Step(FileAfter(f, sel[..i], setup, download, clock, 0), sel[i], LinkOutcome(sel[i], setup, download), clock, i)
  {
    assert sel[..i + 1] == sel[..i] + [sel[i]];
    FileAfterSnoc(f, sel[..i], sel[i], setup, download, clock, 0);
    LoopStepAt(setup, download, clock, FileAfter(f, sel[..i], setup, download, clock, 0), sel[i], i);
  }

  lemma EventsNext(sel: seq<Link>, i: nat, setup: Link -> Option<string>, download: Link -> bool)
    requires i < |sel|
    ensures EventsUpTo(sel, i + 1, setup, download) == EventsUpTo(sel, i, setup, download) + LinkEvents(sel, i, setup, download)
  {
    LinkChunksAt(sel, setup, download, i);
  }

  lemma CountNext<T(!new)>(p: T -> bool, xs: seq<T>, i: nat)
    requires i < |xs|
    ensures Count(p, xs[..i + 1]) == Count(p, xs[..i]) + (if p(xs[i]) then 1 else 0)
  {
    assert xs[..i + 1] == xs[..i] + [xs[i]];
    CountSnoc(p, xs[..i], xs[i]);
  }

  // ---------------------------------------------------------------------
  // What a run does to the registry
  // ---------------------------------------------------------------------

  /** The position of the first link of `sel` with the given id. */
  function PositionOfId(sel: seq<Link>, id: string): (r: Option<nat>)
    ensures r.Some? ==> r.value < |sel| && sel[r.value].id == id
    ensures r.Some? ==> forall k :: 0 <= k < r.value ==> sel[k].id != id
    ensures r.None? ==> forall k :: 0 <= k < |sel| ==> sel[k].id != id
  {
    if |sel| == 0 then None
    else if sel[0].id == id then Some(0)
    else match PositionOfId(sel[1..], id)
      case None => None
      case Some(k) => Some(k + 1)
  }

  /** One loop step on a wrapped file with distinct ids resolves exactly the
      record whose id is the link's, keeps every id, and keeps the metadata. */
  lemma StepAt(cur: seq<Link>, md: Option<Metadata>, l: Link, o: Outcome, clock: nat -> string, i: nat, j: nat)
    requires UniqueIds(cur) && j < |cur|
    ensures var g := Step(Wrapped(cur, md), l, o, clock, i);
      g.Wrapped? && g.metadata == md && |g.links| == |cur| && g.links[j].id == cur[j].id &&
      g.links[j] == if cur[j].id == l.id then Resolve(cur[j], o, clock, i) else cur[j]
  {
    var f := Wrapped(cur, md);
    var m := UpdateLinkStatus(f, l.id, "processing", Some(0), None, clock(2 * i));
    forall k | 0 <= k < |cur| ensures m.links[k].id == cur[k].id {
      UpdateLinkStatusAt(f, l.id, "processing", Some(0), None, clock(2 * i), k);
    }
    assert FirstWithId(cur, l.id, j) <==> cur[j].id == l.id;
    assert FirstWithId(m.links, l.id, j) <==> cur[j].id == l.id;
    UpdateLinkStatusAt(f, l.id, "processing", Some(0), None, clock(2 * i), j);
    UpdateLinkStatusAt(m, l.id, FinalStatus(o), Some(1), FinalError(o), clock(2 * i + 1), j);
  }

  lemma StepKeepsIds(cur: seq<Link>, md: Option<Metadata>, l: Link, o: Outcome, clock: nat -> string, i: nat)
    requires UniqueIds(cur)
    ensures var g := Step(Wrapped(cur, md), l, o, clock, i);
      g.Wrapped? && g.metadata == md && |g.links| == |cur| && UniqueIds(g.links)
  {
    var g := Step(Wrapped(cur, md), l, o, clock, i);
    forall k | 0 <= k < |cur| ensures g.links[k].id == cur[k].id {
      StepAt(cur, md, l, o, clock, i, k);
    }
  }

  /** What the loop makes of a record `x`: resolved with the outcome of the
      link of `sel` carrying its id, untouched when no link does. */
  function AfterRun(x: Link, sel: seq<Link>, setup: Link -> Option<string>, download: Link -> bool,
                    clock: nat -> string, start: nat): Link
  {
    match PositionOfId(sel, x.id)
    case None => x
    case Some(i) => Resolve(x, LinkOutcome(sel[i], setup, download), clock, start + i)
  }

  lemma FileAfterUnfold(f: RegistryFile, sel: seq<Link>, setup: Link -> Option<string>, download: Link -> bool,
                        clock: nat -> string, start: nat)
    requires |sel| > 0
    ensures FileAfter(f, sel, setup, download, clock, start) ==
      FileAfter(Step(f, sel[0], LinkOutcome(sel[0], setup, download), clock, start), sel[1..], setup, download, clock, start + 1)
  {
    LoopStepAt(setup, download, clock, f, sel[0], start);
  }

  /** Peeling the first link off `sel`: a record with that link's id is
      resolved by it and by no later link (ids in `sel` are distinct); any
      other record is left to the rest of `sel`. */
  lemma AfterRunPeel(x: Link, y: Link, sel: seq<Link>, setup: Link -> Option<string>, download: Link -> bool,
                     clock: nat -> string, start: nat)
    requires |sel| > 0 && UniqueIds(sel) && y.id == x.id
    requires y == if x.id == sel[0].id then Resolve(x, LinkOutcome(sel[0], setup, download), clock, start) else x
    ensures AfterRun(y, sel[1..], setup, download, clock, start + 1) == AfterRun(x, sel, setup, download, clock, start)
  {
    if x.id != sel[0].id {
      match PositionOfId(sel[1..], x.id)
      case None =>
      case Some(k) => assert sel[1..][k] == sel[k + 1];
    } else {
      assert PositionOfId(sel[1..], x.id).None? by {
        forall k | 0 <= k < |sel| - 1 ensures sel[1..][k].id != x.id {
          assert sel[1..][k] == sel[k + 1];
        }
      }
    }
  }

  /** Record `j` after the loop has handled `sel`. */
  lemma {:induction false} FileAfterAt(cur: seq<Link>, md: Option<Metadata>, sel: seq<Link>,
                                       setup: Link -> Option<string>, download: Link -> bool,
                                       clock: nat -> string, start: nat, j: nat)
    requires UniqueIds(cur) && UniqueIds(sel) && j < |cur|
    ensures var g := FileAfter(Wrapped(cur, md), sel, setup, download, clock, start);
      g.Wrapped? && g.metadata == md && |g.links| == |cur| &&
      g.links[j] == AfterRun(cur[j], sel, setup, download, clock, start)
    decreases |sel|
  {
    if |sel| > 0 {
      var o := LinkOutcome(sel[0], setup, download);
      var g0 := Step(Wrapped(cur, md), sel[0], o, clock, start);
      FileAfterUnfold(Wrapped(cur, md), sel, setup, download, clock, start);
      StepKeepsIds(cur, md, sel[0], o, clock, start);
      StepAt(cur, md, sel[0], o, clock, start, j);
      assert g0 == Wrapped(g0.links, md);
      FileAfterAt(g0.links, md, sel[1..], setup, download, clock, start + 1, j);
      AfterRunPeel(cur[j], g0.links[j], sel, setup, download, clock, start);
    }
  }

  lemma {:induction false} SelectedIdsUnique(links: seq<Link>)
    requires UniqueIds(links)
    ensures UniqueIds(Filter(IsUnprocessed, links))
  {
    if |links| > 0 {
      var rest := Filter(IsUnprocessed, links[1..]);
      SelectedIdsUnique(links[1..]);
      if IsUnprocessed(links[0]) {
        FilterMembers(IsUnprocessed, links[1..]);
        forall k | 0 <= k < |rest| ensures rest[k].id != links[0].id {
          assert rest[k] in links[1..];
          var q :| 0 <= q < |links[1..]| && links[1..][q] == rest[k];
          assert links[q + 1] == rest[k];
        }
        var r := Filter(IsUnprocessed, links);
        assert r == [links[0]] + rest;
        forall a, b | 0 <= a < b < |r| ensures r[a].id != r[b].id {
          assert r[b] == rest[b - 1];
          if a > 0 {
            assert r[a] == rest[a - 1];
          }
        }
      }
    }
  }

  /** A run over a wrapped registry whose ids are distinct: every record
      that was unprocessed is resolved with its own outcome (the `i`-th link
      of the run getting the `i`-th timestamps), every other record and the
      metadata stay as they were. */
  lemma RunRecordsOutcomes(links: seq<Link>, md: Option<Metadata>, setup: Link -> Option<string>,
                           download: Link -> bool, clock: nat -> string)
    requires UniqueIds(links)
    ensures var sel := Filter(IsUnprocessed, links);
      var g := FileAfter(Wrapped(links, md), sel, setup, download, clock, 0);
      g.Wrapped? && g.metadata == md && |g.links| == |links| &&
      forall j :: 0 <= j < |links| ==>
        (!IsUnprocessed(links[j]) ==> g.links[j] == links[j]) &&
        (IsUnprocessed(links[j]) ==> exists i :: (0 <= i < |sel| && sel[i] == links[j] &&
          g.links[j] == Resolve(links[j], LinkOutcome(links[j], setup, download), clock, i)))
  {
    var sel := Filter(IsUnprocessed, links);
    var g := FileAfter(Wrapped(links, md), sel, setup, download, clock, 0);
    if |links| == 0 {
      assert sel == [];
    }
    forall j | 0 <= j < |links|
      ensures g.Wrapped? && g.metadata == md && |g.links| == |links|
      ensures !IsUnprocessed(links[j]) ==> g.links[j] == links[j]
      ensures IsUnprocessed(links[j]) ==> exists i :: (0 <= i < |sel| && sel[i] == links[j] &&
          g.links[j] == Resolve(links[j], LinkOutcome(links[j], setup, download), clock, i))
    {
      RunRecordOutcome(links, md, setup, download, clock, j);
    }
  }

  /** The `j`-th record after the run, as `RunRecordsOutcomes` states it. */
  lemma RunRecordOutcome(links: seq<Link>, md: Option<Metadata>, setup: Link -> Option<string>,
                         download: Link -> bool, clock: nat -> string, j: nat)
    requires UniqueIds(links) && j < |links|
    ensures var sel := Filter(IsUnprocessed, links);
      var g := FileAfter(Wrapped(links, md), sel, setup, download, clock, 0);
      g.Wrapped? && g.metadata == md && |g.links| == |links| &&
      (!IsUnprocessed(links[j]) ==> g.links[j] == links[j]) &&
      (IsUnprocessed(links[j]) ==> exists i :: (0 <= i < |sel| && sel[i] == links[j] &&
          g.links[j] == Resolve(links[j], LinkOutcome(links[j], setup, download), clock, i)))
  {
    var sel := Filter(IsUnprocessed, links);
    SelectedIdsUnique(links);
    FilterMembers(IsUnprocessed, links);
    FileAfterAt(links, md, sel, setup, download, clock, 0, j);
    match PositionOfId(sel, links[j].id)
    case None =>
      if IsUnprocessed(links[j]) {
        assert false;
      }
    case Some(i) =>
      assert sel[i] in links;
      var q :| 0 <= q < |links| && links[q] == sel[i];
      assert q == j;
  }

  /** A run that reaches the loop over a wrapped registry with distinct ids
      leaves no record unprocessed, so the next run selects nothing. */
  lemma RunLeavesNothingUnprocessed(links: seq<Link>, md: Option<Metadata>, setup: Link -> Option<string>,
                                    download: Link -> bool, clock: nat -> string)
    requires UniqueIds(links)
    ensures var g := FileAfter(Wrapped(links, md), Filter(IsUnprocessed, links), setup, download, clock, 0);
      Filter(IsUnprocessed, LoadLinks(g).0) == []
  {
    var sel := Filter(IsUnprocessed, links);
    var g := FileAfter(Wrapped(links, md), sel, setup, download, clock, 0);
    RunRecordsOutcomes(links, md, setup, download, clock);
    forall j | 0 <= j < |g.links| ensures !IsUnprocessed(g.links[j]) {
      if IsUnprocessed(links[j]) {
        var i :| 0 <= i < |sel| && sel[i] == links[j] &&
          g.links[j] == Resolve(links[j], LinkOutcome(links[j], setup, download), clock, i);
      }
    }
    FilterNone(IsUnprocessed, g.links);
  }

  /** Only a wrapped registry records anything: the updates of a run on a
      bare list (or on a missing or unreadable file) all fail, so the file
      stays as it was and a later run processes the same links again. */
  lemma {:induction false} RunKeepsUnwrappedFile(f: RegistryFile, sel: seq<Link>, setup: Link -> Option<string>,
                                                 download: Link -> bool, clock: nat -> string, start: nat)
    requires !f.Wrapped?
    ensures FileAfter(f, sel, setup, download, clock, start) == f
    decreases |sel|
  {
    if |sel| > 0 {
      FileAfterUnfold(f, sel, setup, download, clock, start);
      RunKeepsUnwrappedFile(f, sel[1..], setup, download, clock, start + 1);
    }
  }

  // ---------------------------------------------------------------------
  // The shape of the event trace
  // ---------------------------------------------------------------------

  predicate IsPause(e: Event) {
    e.Paused?
  }

  predicate IsMark(e: Event) {
    e.Marked?
  }

  lemma LinkEventsCounts(sel: seq<Link>, k: nat, setup: Link -> Option<string>, download: Link -> bool)
    requires k < |sel|
    ensures Count(IsMark, LinkEvents(sel, k, setup, download)) == 1
    ensures Count(IsPause, LinkEvents(sel, k, setup, download)) == if k + 1 < |sel| then 1 else 0
    ensures var c := LinkEvents(sel, k, setup, download); |c| >= 2 && (c[|c| - 1].Paused? <==> k + 1 < |sel|)
  {
    var closed := AttemptEvents(sel[k], setup, download);
    AttemptEventsCounts(sel[k], setup, download);
    if k + 1 < |sel| {
      CountAppend(IsMark, closed, [Paused]);
      CountAppend(IsPause, closed, [Paused]);
    }
  }

  lemma AttemptEventsCounts(l: Link, setup: Link -> Option<string>, download: Link -> bool)
    ensures var c := AttemptEvents(l, setup, download);
      Count(IsMark, c) == 1 && Count(IsPause, c) == 0 && |c| >= 2 && !c[|c| - 1].Paused?
  {
    var m := [Marked(l.id)];
    var d := [Finished(l.id, LinkOutcome(l, setup, download))];
    CountAppend(IsMark, m, d);
    CountAppend(IsPause, m, d);
    if setup(l).None? {
      CountAppend(IsMark, m + d, [BrowserClosed(l.id)]);
      CountAppend(IsPause, m + d, [BrowserClosed(l.id)]);
    }
  }

  /** Chunks with one mark each and one pause each but the last of `n`
      add up to one mark per chunk and a pause between chunks. */
  lemma {:induction false} ConcatShape(chunk: nat -> seq<Event>, i: nat, n: nat)
    requires i <= n
    requires forall k :: 0 <= k < i ==> Count(IsMark, chunk(k)) == 1 && Count(IsPause, chunk(k)) == if k + 1 < n then 1 else 0
    ensures Count(IsMark, Concat(chunk, i)) == i
    ensures Count(IsPause, Concat(chunk, i)) == if 0 < i == n then i - 1 else i
  {
    if i > 0 {
      ConcatShape(chunk, i - 1, n);
      CountAppend(IsMark, Concat(chunk, i - 1), chunk(i - 1));
      CountAppend(IsPause, Concat(chunk, i - 1), chunk(i - 1));
    }
  }

  /** After the first `i` links: one `Marked` event per link, and a pause
      after each link but the last of the run. */
  lemma EventsShape(sel: seq<Link>, i: nat, setup: Link -> Option<string>, download: Link -> bool)
    requires i <= |sel|
    ensures Count(IsMark, EventsUpTo(sel, i, setup, download)) == i
    ensures Count(IsPause, EventsUpTo(sel, i, setup, download)) == if 0 < i == |sel| then i - 1 else i
  {
    var chunk := LinkChunks(sel, setup, download);
    forall k | 0 <= k < i
      ensures Count(IsMark, chunk(k)) == 1 && Count(IsPause, chunk(k)) == if k + 1 < |sel| then 1 else 0
    {
      LinkChunksAt(sel, setup, download, k);
      LinkEventsCounts(sel, k, setup, download);
    }
    ConcatShape(chunk, i, |sel|);
  }

  /** The trace ends with a pause exactly when links remain, so a run never
      ends with one. */
  lemma EventsLast(sel: seq<Link>, i: nat, setup: Link -> Option<string>, download: Link -> bool)
    requires 0 < i <= |sel|
    ensures var e := EventsUpTo(sel, i, setup, download); |e| > 0 && (e[|e| - 1].Paused? <==> i < |sel|)
  {
    var prev := EventsUpTo(sel, i - 1, setup, download);
    var c := LinkEvents(sel, i - 1, setup, download);
    EventsNext(sel, i - 1, setup, download);
    LinkEventsCounts(sel, i - 1, setup, download);
    LastOfAppend(prev, c);
  }

  lemma LastOfAppend(a: seq<Event>, b: seq<Event>)
    requires |b| > 0
    ensures |a + b| > 0 && (a + b)[|a + b| - 1] == b[|b| - 1]
  {
  }
}

/** The download paths end to end: find the button, click it, answer the
    dialogs, then decide from the folder listings whether the download
    worked. The page and the folder are oracles and listings; clicks made
    with JavaScript are assumed to go through. A native confirmation click
    may raise: the transfer scraper and the TransferFlow script catch that
    inside their confirmation step, the standalone downloader does not. */
module Providers {
  import opened Wrappers
  import opened Strings
  import opened Completion
  import opened Locators

  /** The WeTransfer selectors of the transfer scraper. */
  const ScraperWeTransferSelectors: seq<string> := [
    "//button[contains(text(), 'Download') and not(contains(text(), 'Scan'))]",
    "//a[contains(text(), 'Download') and not(contains(text(), 'Scan'))]",
    "//button[contains(@class, 'download') and contains(text(), 'Download') and not(contains(text(), 'Scan'))]",
    "//a[contains(@class, 'download') and contains(text(), 'Download') and not(contains(text(), 'Scan'))]",
    "//button[@data-testid='download-button']",
    "//button[contains(@class, 'button--download')]"]

  /** What one download path did: its result, the button it clicked (an
      index into its selector list) and the confirmation it clicked. */
  datatype Attempt = Attempt(ok: bool, button: Option<nat>, confirm: Option<nat>)

  /** `download_transfernow_files` of the transfer scraper: the first
      clickable "Download all" selector, then `handle_confirmation_dialog`
      (the first present confirmation button, at most one), then
      `monitor_download_progress`. No button means failure without any
      click. */
  method TransferNowDownload(clickable: string -> bool, present: string -> bool,
                             before: Listing, after: Listing, polls: seq<Listing>) returns (a: Attempt)
    ensures a.button == FirstAccepted(TransferNowSelectors, clickable)
    ensures a.button.None? ==> a.confirm.None?
    ensures a.button.Some? ==> a.confirm == FirstAccepted(ScraperConfirmSelectors, present)
    ensures a.ok <==> a.button.Some? && Started(before, after, IsCrDownload) && CompletesWithin(polls, IsCrDownload)
  {
    var button := FirstAccepted(TransferNowSelectors, clickable);
    if button.None? {
      return Attempt(false, None, None);
    }
    var confirm := FirstAccepted(ScraperConfirmSelectors, present);
    var ok := MonitorDownloadProgress(before, after, polls);
    a := Attempt(ok, button, confirm);
  }

  /** `download_wetransfer_files` of the transfer scraper: the button loop as
      written (see `Locators.TransferScraperButton`), the same confirmation
      handling, and the same monitor. */
  method TransferScraperWeTransfer(found: string -> Option<string>, present: string -> bool,
                                   before: Listing, after: Listing, polls: seq<Listing>) returns (a: Attempt)
    ensures a.button == TransferScraperButton(ScraperWeTransferSelectors, found)
    ensures a.button.None? <==> forall j :: 0 <= j < |ScraperWeTransferSelectors| ==> found(ScraperWeTransferSelectors[j]).None?
    ensures a.button.None? ==> a.confirm.None?
    ensures a.button.Some? ==> a.confirm == FirstAccepted(ScraperConfirmSelectors, present)
    ensures a.ok <==> a.button.Some? && Started(before, after, IsCrDownload) && CompletesWithin(polls, IsCrDownload)
  {
    var button := TransferScraperButton(ScraperWeTransferSelectors, found);
    TransferScraperButtonFound(ScraperWeTransferSelectors, found);
    if button.None? {
      return Attempt(false, None, None);
    }
    var confirm := FirstAccepted(ScraperConfirmSelectors, present);
    var ok := MonitorDownloadProgress(before, after, polls);
    a := Attempt(ok, button, confirm);
  }

  /** The button loop finds something exactly when some selector yields an
      element. */
  lemma TransferScraperButtonFound(selectors: seq<string>, found: string -> Option<string>)
    ensures TransferScraperButton(selectors, found).None? <==> forall j :: 0 <= j < |selectors| ==> found(selectors[j]).None?
  {
    TransferScraperButtonSpec(selectors, found);
    if forall j :: 0 <= j < |selectors| ==> found(selectors[j]).None? {
      LastFoundNone(selectors, found, 0);
    } else {
      var j :| 0 <= j < |selectors| && found(selectors[j]).Some?;
      LastFoundSome(selectors, found, 0, None, j);
    }
  }

  lemma {:induction false} LastFoundNone(selectors: seq<string>, found: string -> Option<string>, i: nat)
    requires forall j :: i <= j < |selectors| ==> found(selectors[j]).None?
    ensures LastFound(selectors, found, i, None).None?
    decreases |selectors| - i
  {
    if i < |selectors| {
      LastFoundNone(selectors, found, i + 1);
    }
  }

  lemma {:induction false} LastFoundSome(selectors: seq<string>, found: string -> Option<string>, i: nat,
                                         current: Option<nat>, j: nat)
    requires i <= j < |selectors| || current.Some?
    requires j < |selectors| && found(selectors[j]).Some?
    ensures LastFound(selectors, found, i, current).Some?
    decreases |selectors| - i
  {
    if i < |selectors| {
      var next := if found(selectors[i]).Some? then Some(i) else current;
      LastFoundSome(selectors, found, i + 1, next, j);
    }
  }

  /** `download_transfernow_files` of the TransferFlow script: the same
      button list, its own confirmation list, and the start and completion
      checks written inline. A completed download is a success however many
      files the folder ends up with. */
  method FlowDownload(clickable: string -> bool, present: string -> bool,
                      before: Listing, after: Listing, polls: seq<Listing>) returns (a: Attempt)
    ensures a.button == FirstAccepted(TransferNowSelectors, clickable)
    ensures a.button.None? ==> a.confirm.None?
    ensures a.button.Some? ==> a.confirm == FirstAccepted(FlowConfirmSelectors, present)
    ensures a.ok <==> a.button.Some? && Started(before, after, IsCrDownload) && CompletesWithin(polls, IsCrDownload)
  {
    var button := FirstAccepted(TransferNowSelectors, clickable);
    if button.None? {
      return Attempt(false, None, None);
    }
    var confirm := FirstAccepted(FlowConfirmSelectors, present);
    var ok := false;
    if after - before != {} || exists n | n in after :: IsCrDownload(n) {
      var used;
      ok, used := WaitForDownloads(polls, IsCrDownload);
    }
    a := Attempt(ok, button, confirm);
  }

  /** The consent buttons the standalone WeTransfer downloader tries first. */
  const ConsentSelectors: seq<string> := [
    "//button[contains(text(), 'I agree')]",
    "//button[contains(text(), 'Accept')]",
    "//button[contains(text(), 'Accept all')]",
    "//button[contains(text(), 'Continue')]",
    "//button[contains(text(), 'Proceed')]",
    "//button[contains(text(), 'Allow')]",
    "//a[contains(text(), 'Continue')]",
    "//button[contains(@class, 'accept')]",
    "//button[contains(@class, 'consent')]"]

  const StandaloneSelectors: seq<string> := [
    "//button[contains(text(), 'Download') and not(contains(text(), 'Scan'))]",
    "//a[contains(text(), 'Download') and not(contains(text(), 'Scan'))]",
    "//button[@data-testid='download-button']",
    "//button[contains(@class, 'download') and not(contains(text(), 'Scan'))]",
    "//button[contains(@class, 'Download') and not(contains(text(), 'Scan'))]",
    "//*[@role='button'][contains(text(), 'Download') and not(contains(text(), 'Scan'))]",
    "//button[contains(@class, 'Button') and contains(text(), 'Download')]",
    "//div[contains(@class, 'download')]/button",
    "//button[contains(@class, 'primary') and contains(text(), 'Download')]",
    "//button[text()='Download']",
    "//a[text()='Download']",
    "//button[contains(@class, 'download')]",
    "//a[contains(@class, 'download')]"]

  const StandaloneConfirmSelectors: seq<string> := [
    "//button[contains(text(), 'Allow')]",
    "//button[contains(text(), 'Save')]",
    "//button[contains(text(), 'OK')]",
    "//button[contains(text(), 'Yes')]",
    "//button[contains(text(), 'Continue')]"]

  /** What the standalone downloader did. */
  datatype StandaloneRun = StandaloneRun(ok: bool, consent: Option<nat>, button: Option<(nat, nat)>, confirm: Option<nat>)

  /** `download_wetransfer_files` of the standalone downloader: a consent
      click, the button search, a confirmation click, then the start check,
      the wait over its three markers, and the demand that the final
      listing holds a finished file. The confirmation is a native click
      guarded only against a missing element, so when it raises
      (`confirmClickOk` false) the whole download reports failure. */
  method StandaloneDownload(consentProbe: string -> Probe, elements: string -> seq<Element>, confirmProbe: string -> Probe,
                            confirmClickOk: bool,
                            before: Listing, after: Listing, polls: seq<Listing>, final: Listing) returns (r: StandaloneRun)
    ensures r.consent == DisplayedClick(ConsentSelectors, consentProbe)
    ensures r.button == WeTransferButton(StandaloneSelectors, elements)
    ensures r.button.None? ==> r.confirm.None? && !r.ok
    ensures r.button.Some? ==> r.confirm == DisplayedClick(StandaloneConfirmSelectors, confirmProbe)
    ensures r.ok <==> r.button.Some? && (r.confirm.Some? ==> confirmClickOk) &&
                      Started(before, after, IsPartial) && CompletesWithin(polls, IsPartial) &&
                      exists n :: n in final && !IsPartial(n)
  {
    var consent := DisplayedClick(ConsentSelectors, consentProbe);
    var button := WeTransferButton(StandaloneSelectors, elements);
    if button.None? {
      return StandaloneRun(false, consent, None, None);
    }
    var confirm := DisplayedClick(StandaloneConfirmSelectors, confirmProbe);
    if confirm.Some? && !confirmClickOk {
      return StandaloneRun(false, consent, button, confirm);
    }
    var ok := WeTransferMonitor(before, after, polls, final);
    r := StandaloneRun(ok, consent, button, confirm);
  }

  /** The URL check of the standalone downloader: `wetransfer.com` or
      `we.tl` anywhere in the lower-cased URL. */
  predicate IsWeTransferUrl(url: string) {
    Contains(Lower(url), "wetransfer.com") || Contains(Lower(url), "we.tl")
  }

  /** The check is a plain substring test at any position. */
  lemma IsWeTransferUrlSpec(url: string)
    ensures IsWeTransferUrl(url) <==>
      (exists i :: OccursAt(Lower(url), "wetransfer.com", i)) || (exists i :: OccursAt(Lower(url), "we.tl", i))
  {
    ContainsOccurs(Lower(url), "wetransfer.com");
    ContainsOccurs(Lower(url), "we.tl");
  }

  /** `main` of the standalone downloader: the download runs only for an
      accepted URL and a "y" or "yes" answer. */
  function StandaloneMainRuns(url: string, answer: string): (runs: bool)
    ensures runs ==> IsWeTransferUrl(url)
    ensures runs ==> Strip(Lower(answer)) == "y" || Strip(Lower(answer)) == "yes"
    ensures IsWeTransferUrl(url) && AnswerIsYes(answer) ==> runs
  {
    IsWeTransferUrl(url) && AnswerIsYes(answer)
  }
}

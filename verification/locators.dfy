/** Finding the button to click. Every downloader walks an ordered list of
    selectors against the page and takes the first that yields a usable
    element; some add further tiers when the list fails. The page is an
    oracle: a function from selector (or locator) to what the browser's
    lookup would find within its wait. */
module Locators {
  import opened Wrappers
  import opened Seqs
  import opened Strings
  import opened Registry

  /** How a selector is handed to the browser. */
  datatype Locator = Css(css: string) | XPath(xpath: string)

  /** `'scan' in text.lower()` */
  predicate MentionsScan(text: string) {
    Contains(Lower(text), "scan")
  }

  /** `'download' in s.lower()` */
  predicate MentionsDownload(s: string) {
    Contains(Lower(s), "download")
  }

  // ---------------------------------------------------------------------
  // First match over a selector list
  // ---------------------------------------------------------------------

  /** The first selector the page accepts: the shape of every selector loop
      that breaks at its first success. */
  function FirstAccepted(selectors: seq<string>, accepts: string -> bool): (r: Option<nat>)
    ensures r.Some? ==> r.value < |selectors| && accepts(selectors[r.value])
    ensures r.Some? ==> forall j :: 0 <= j < r.value ==> !accepts(selectors[j])
    ensures r.None? <==> forall j :: 0 <= j < |selectors| ==> !accepts(selectors[j])
  {
    FirstWhere(accepts, selectors)
  }

  /** Only the selectors before the chosen one and the chosen one itself are
      ever looked at: the page may differ anywhere after it. */
  lemma {:induction false} FirstAcceptedIgnoresLater(selectors: seq<string>, a: string -> bool, b: string -> bool, n: nat)
    requires n <= |selectors|
    requires forall j :: 0 <= j < n ==> a(selectors[j]) == b(selectors[j])
    requires FirstAccepted(selectors, a).Some? && FirstAccepted(selectors, a).value < n
    ensures FirstAccepted(selectors, b) == FirstAccepted(selectors, a)
  {
    if !a(selectors[0]) {
      assert forall j :: 0 <= j < n - 1 ==> a(selectors[1..][j]) == b(selectors[1..][j]);
      FirstAcceptedIgnoresLater(selectors[1..], a, b, n - 1);
    }
  }

  // ---------------------------------------------------------------------
  // The TransferNow button and the confirmation dialogs
  // ---------------------------------------------------------------------

  const TransferNowSelectors: seq<string> := [
    "//button[contains(text(), 'Download all')]",
    "//a[contains(text(), 'Download all')]",
    "//button[contains(@class, 'download') and contains(text(), 'Download')]",
    "//a[contains(@class, 'download') and contains(text(), 'Download')]",
    "//*[contains(text(), 'Download all')]"]

  /** The confirmation dialog of the WeTransfer and TransferNow paths of the
      transfer scraper. */
  const ScraperConfirmSelectors: seq<string> := [
    "//button[contains(text(), 'Allow')]",
    "//button[contains(text(), 'OK')]",
    "//button[contains(text(), 'Yes')]",
    "//button[contains(text(), 'Download')]",
    "//button[contains(text(), 'Continue')]",
    "//button[contains(text(), 'Accept')]"]

  /** The confirmation dialog of the TransferFlow script. */
  const FlowConfirmSelectors: seq<string> := [
    "//button[contains(text(), 'Allow')]",
    "//button[contains(text(), 'OK')]",
    "//button[contains(text(), 'Yes')]",
    "//button[contains(text(), 'Download')]",
    "//button[contains(text(), 'Continue')]"]

  /** What a `find_element` on one selector returns in the standalone
      WeTransfer script: the first matching element and whether it shows. */
  datatype Probe = Absent | Found(displayed: bool)

  /** The consent and confirmation loops of the standalone WeTransfer
      script: the first selector whose element is present and displayed is
      clicked, and the loop stops. A present but hidden element does not
      stop it. */
  function DisplayedClick(selectors: seq<string>, probe: string -> Probe): (r: Option<nat>)
    ensures r.Some? ==> r.value < |selectors| && probe(selectors[r.value]) == Found(true)
    ensures r.Some? ==> forall j :: 0 <= j < r.value ==> probe(selectors[j]) != Found(true)
    ensures r.None? <==> forall j :: 0 <= j < |selectors| ==> probe(selectors[j]) != Found(true)
  {
    FirstAccepted(selectors, s => probe(s) == Found(true))
  }

  // ---------------------------------------------------------------------
  // The WeTransfer button of the transfer scraper, as written
  // ---------------------------------------------------------------------

  /** The loop over WeTransfer selectors in the transfer scraper. A selector
      either times out (`None`) or yields a clickable element, which is kept
      in `current` whatever its text; the loop stops at the first element
      whose text does not mention "scan". So when no element passes, the
      last element found stays chosen, even one that mentions "scan".
      Returns the index of the selector whose element is clicked. */
  function ChooseFrom(selectors: seq<string>, found: string -> Option<string>, i: nat, current: Option<nat>): (r: Option<nat>)
    requires current.Some? ==> current.value < i
    ensures r.Some? ==> r.value < |selectors| || r == current
    decreases |selectors| - i
  {
    if i >= |selectors| then current
    else match found(selectors[i])
      case None => ChooseFrom(selectors, found, i + 1, current)
      case Some(text) => if !MentionsScan(text) then Some(i) else ChooseFrom(selectors, found, i + 1, Some(i))
  }

  function TransferScraperButton(selectors: seq<string>, found: string -> Option<string>): Option<nat> {
    ChooseFrom(selectors, found, 0, None)
  }

  /** A selector that yields an element whose text does not mention "scan". */
  predicate PassesScanCheck(found: string -> Option<string>, s: string) {
    found(s).Some? && !MentionsScan(found(s).value)
  }

  /** The index of the last selector at or after `i` that yields an element. */
  function LastFound(selectors: seq<string>, found: string -> Option<string>, i: nat, current: Option<nat>): (r: Option<nat>)
    decreases |selectors| - i
  {
    if i >= |selectors| then current
    else LastFound(selectors, found, i + 1, if found(selectors[i]).Some? then Some(i) else current)
  }

  lemma {:induction false} ChooseFromSpec(selectors: seq<string>, found: string -> Option<string>, i: nat, current: Option<nat>)
    requires current.Some? ==> current.value < i
    ensures var r := ChooseFrom(selectors, found, i, current);
      (exists j :: i <= j < |selectors| && PassesScanCheck(found, selectors[j])) ==>
        r.Some? && i <= r.value < |selectors| && PassesScanCheck(found, selectors[r.value]) &&
        forall j :: i <= j < r.value ==> !PassesScanCheck(found, selectors[j])
    ensures var r := ChooseFrom(selectors, found, i, current);
      (forall j :: i <= j < |selectors| ==> !PassesScanCheck(found, selectors[j])) ==>
        r == LastFound(selectors, found, i, current)
    decreases |selectors| - i
  {
    if i < |selectors| {
      match found(selectors[i])
      case None =>
        ChooseFromSpec(selectors, found, i + 1, current);
      case Some(text) =>
        if MentionsScan(text) {
          ChooseFromSpec(selectors, found, i + 1, Some(i));
        }
    }
  }

  /** The transfer scraper's choice: the first selector whose element passes
      the scan check if there is one; otherwise the last selector that
      yielded any element, scan button or not; nothing only when every
      selector timed out. */
  lemma TransferScraperButtonSpec(selectors: seq<string>, found: string -> Option<string>)
    ensures var r := TransferScraperButton(selectors, found);
      FirstAccepted(selectors, s => PassesScanCheck(found, s)).Some? ==>
        r == FirstAccepted(selectors, s => PassesScanCheck(found, s))
    ensures var r := TransferScraperButton(selectors, found);
      FirstAccepted(selectors, s => PassesScanCheck(found, s)).None? ==>
        r == LastFound(selectors, found, 0, None)
  {
    var r := TransferScraperButton(selectors, found);
    var q := FirstAccepted(selectors, s => PassesScanCheck(found, s));
    ChooseFromSpec(selectors, found, 0, None);
    if q.Some? {
      assert PassesScanCheck(found, selectors[q.value]);
      assert r.Some? && PassesScanCheck(found, selectors[r.value]);
      if r.value > q.value {
        assert false;
      }
      if r.value < q.value {
        assert false;
      }
    }
  }

  /** A scan button can be clicked: when the one selector that finds an
      element finds "Scan and download", that element stays chosen. */
  lemma ScanButtonCanRemainChosen()
    ensures var found := (s: string) => if s == "a" then Some("scan") else None;
      TransferScraperButton(["a", "b"], found) == Some(0) && MentionsScan("scan")
  {
    var found := (s: string) => if s == "a" then Some("scan") else None;
    assert Lower("scan") == "scan";
    assert StartsWith("scan", "scan");
    assert "b" != "a";
  }

  // ---------------------------------------------------------------------
  // The WeTransfer button of the standalone downloader
  // ---------------------------------------------------------------------

  /** An element as the standalone downloader inspects it. `cls` is the
      `class` attribute, which the page may lack. */
  datatype Element = Element(displayed: bool, enabled: bool, text: string, cls: Option<string>)

  /** Displayed, enabled, and its text does not mention "scan": the element
      is looked at further. */
  predicate Candidate(e: Element) {
    e.displayed && e.enabled && !MentionsScan(e.text)
  }

  /** The button the standalone downloader wants. */
  predicate Eligible(e: Element) {
    Candidate(e) && (MentionsDownload(e.text) || (e.cls.Some? && MentionsDownload(e.cls.value)))
  }

  /** The class test runs on an element without a class attribute: the
      lookup returns `None`, `.lower()` raises, and the handler drops the
      rest of this selector's elements. */
  predicate Raises(e: Element) {
    Candidate(e) && !MentionsDownload(e.text) && e.cls.None?
  }

  datatype Scan = Picked(k: nat) | Exhausted | Raised

  /** The inner loop over one selector's elements. */
  function ScanElements(es: seq<Element>): (r: Scan)
    ensures r.Picked? ==> r.k < |es| && Eligible(es[r.k])
    ensures r.Picked? ==> forall j :: 0 <= j < r.k ==> !Eligible(es[j]) && !Raises(es[j])
    ensures r.Exhausted? <==> forall j :: 0 <= j < |es| ==> !Eligible(es[j]) && !Raises(es[j])
  {
    if |es| == 0 then Exhausted
    else if Eligible(es[0]) then Picked(0)
    else if Raises(es[0]) then Raised
    else match ScanElements(es[1..])
      case Picked(k) => Picked(k + 1)
      case Exhausted => Exhausted
      case Raised => Raised
  }

  /** The outer loop over selectors: the first selector whose elements yield
      a pick. Returns the selector's index and the element's index. */
  function WeTransferButton(selectors: seq<string>, elements: string -> seq<Element>): (r: Option<(nat, nat)>)
    ensures r.Some? ==> r.value.0 < |selectors| && r.value.1 < |elements(selectors[r.value.0])|
    ensures r.Some? ==> Eligible(elements(selectors[r.value.0])[r.value.1])
    ensures r.Some? ==> forall j :: 0 <= j < r.value.0 ==> !ScanElements(elements(selectors[j])).Picked?
    ensures r.None? <==> forall j :: 0 <= j < |selectors| ==> !ScanElements(elements(selectors[j])).Picked?
  {
    match FirstAccepted(selectors, s => ScanElements(elements(s)).Picked?)
    case None => None
    case Some(i) => Some((i, ScanElements(elements(selectors[i])).k))
  }

  /** When every candidate element has a class attribute nothing raises, and
      the choice is the first eligible element over selectors, then over
      each selector's elements, in order. */
  lemma WeTransferButtonFirstEligible(selectors: seq<string>, elements: string -> seq<Element>)
    requires forall s, j :: 0 <= j < |elements(s)| ==> elements(s)[j].cls.Some?
    ensures var r := WeTransferButton(selectors, elements);
      (r.Some? ==>
        (forall j, k :: 0 <= j < r.value.0 && 0 <= k < |elements(selectors[j])| ==> !Eligible(elements(selectors[j])[k])) &&
        (forall k :: 0 <= k < r.value.1 ==> !Eligible(elements(selectors[r.value.0])[k]))) &&
      (r.None? <==> forall j, k :: 0 <= j < |selectors| && 0 <= k < |elements(selectors[j])| ==> !Eligible(elements(selectors[j])[k]))
  {
    forall s ensures !ScanElements(elements(s)).Raised? {
      NoRaiseWithClasses(elements(s));
    }
  }

  lemma {:induction false} NoRaiseWithClasses(es: seq<Element>)
    requires forall j :: 0 <= j < |es| ==> es[j].cls.Some?
    ensures !ScanElements(es).Raised?
  {
    if |es| > 0 {
      NoRaiseWithClasses(es[1..]);
    }
  }

  /** A button without a class attribute ahead of the real one hides it. */
  lemma MissingClassHidesButton()
    ensures var quiet := Element(true, true, "", None);
      var wanted := Element(true, true, "", Some("download"));
      ScanElements([quiet, wanted]) == Raised && Eligible(wanted)
  {
    var quiet := Element(true, true, "", None);
    var wanted := Element(true, true, "", Some("download"));
    assert Lower("") == "";
    assert !Contains("", "scan");
    assert !Contains("", "download");
    assert Lower("download") == "download";
    assert StartsWith("download", "download");
  }

  // ---------------------------------------------------------------------
  // The SharePoint download button: three tiers
  // ---------------------------------------------------------------------

  /** The XPath used for the one selector written in jQuery's `:contains`
      form, which the browser does not understand. */
  const ContainsXPath: string := "//button[contains(text(), 'Download')]"

  /** A selector with `:contains` is replaced by the fixed XPath; any other
      is used as CSS. */
  function PrimaryLocator(selector: string): (r: Locator)
    ensures Contains(selector, ":contains") ==> r == XPath(ContainsXPath)
    ensures !Contains(selector, ":contains") ==> r == Css(selector)
  {
    if Contains(selector, ":contains") then XPath(ContainsXPath) else Css(selector)
  }

  /** A button as the keyword tier reads it. */
  datatype Button = Button(ariaLabel: Option<string>, text: string, title: Option<string>)

  /** `aria-label or text or title or ""`: the first non-empty of the three. */
  function Label(b: Button): (r: string)
    ensures Truthy(b.ariaLabel) ==> r == b.ariaLabel.value
    ensures !Truthy(b.ariaLabel) && b.text != "" ==> r == b.text
    ensures !Truthy(b.ariaLabel) && b.text == "" && Truthy(b.title) ==> r == b.title.value
    ensures !Truthy(b.ariaLabel) && b.text == "" && !Truthy(b.title) ==> r == ""
  {
    if Truthy(b.ariaLabel) then b.ariaLabel.value
    else if b.text != "" then b.text
    else if Truthy(b.title) then b.title.value
    else ""
  }

  /** `selectors[:5]` */
  function TopFive(selectors: seq<string>): (r: seq<string>)
    ensures |r| <= 5 && |r| <= |selectors|
    ensures forall j :: 0 <= j < |r| ==> r[j] == selectors[j]
  {
    if |selectors| <= 5 then selectors else selectors[..5]
  }

  /** Which tier found the button, with its index in that tier's list. */
  datatype Pick = Primary(i: nat) | ByLabel(k: nat) | AfterRefresh(i: nat) | NoButton

  /** The button resolution of `download_video`: the full selector list, then
      a keyword scan of all buttons' labels, then — after a page refresh —
      the first five selectors once more. `clickable` is the page before the
      refresh, `refreshed` the page after it. */
  function ResolveDownloadButton(selectors: seq<string>, clickable: Locator -> bool, buttons: seq<Button>,
                                 refreshed: Locator -> bool): (p: Pick)
    ensures p.Primary? <==> FirstAccepted(selectors, s => clickable(PrimaryLocator(s))).Some?
    ensures p.Primary? ==> FirstAccepted(selectors, s => clickable(PrimaryLocator(s))) == Some(p.i)
    ensures p.ByLabel? ==> p.k < |buttons| && MentionsDownload(Label(buttons[p.k]))
    ensures p.ByLabel? ==> forall j :: 0 <= j < p.k ==> !MentionsDownload(Label(buttons[j]))
    ensures p.AfterRefresh? ==> p.i < 5 && p.i < |selectors| && refreshed(PrimaryLocator(selectors[p.i]))
    ensures p.AfterRefresh? ==> forall j :: 0 <= j < p.i ==> !refreshed(PrimaryLocator(selectors[j]))
    ensures p.AfterRefresh? || p.NoButton? ==>
      FirstAccepted(selectors, s => clickable(PrimaryLocator(s))).None? &&
      forall j :: 0 <= j < |buttons| ==> !MentionsDownload(Label(buttons[j]))
    ensures p.NoButton? ==> forall j :: 0 <= j < |selectors| && j < 5 ==> !refreshed(PrimaryLocator(selectors[j]))
  {
    match FirstAccepted(selectors, s => clickable(PrimaryLocator(s)))
    case Some(i) => Primary(i)
    case None =>
      match FirstWhere(b => MentionsDownload(Label(b)), buttons)
      case Some(k) => ByLabel(k)
      case None =>
        match FirstAccepted(TopFive(selectors), s => refreshed(PrimaryLocator(s)))
        case Some(i) => AfterRefresh(i)
        case None => NoButton
  }

  /** The refresh tier looks at the first five selectors only: what the
      refreshed page offers for the others changes nothing. */
  lemma RefreshTierTopFiveOnly(selectors: seq<string>, clickable: Locator -> bool, buttons: seq<Button>,
                               a: Locator -> bool, b: Locator -> bool)
    requires forall j :: 0 <= j < |selectors| && j < 5 ==> a(PrimaryLocator(selectors[j])) == b(PrimaryLocator(selectors[j]))
    ensures ResolveDownloadButton(selectors, clickable, buttons, a) == ResolveDownloadButton(selectors, clickable, buttons, b)
  {
    var top := TopFive(selectors);
    assert forall j :: 0 <= j < |top| ==> a(PrimaryLocator(top[j])) == b(PrimaryLocator(top[j]));
    var fa := FirstAccepted(top, s => a(PrimaryLocator(s)));
    var fb := FirstAccepted(top, s => b(PrimaryLocator(s)));
    if fa.Some? {
      FirstAcceptedIgnoresLater(top, s => a(PrimaryLocator(s)), s => b(PrimaryLocator(s)), |top|);
    }
  }

  /** A non-empty aria-label wins over the visible text, so a button whose
      text says "Download" but whose aria-label says "Share" is passed over. */
  lemma AriaLabelHidesText()
    ensures Label(Button(Some("Share"), "Download", None)) == "Share"
    ensures !MentionsDownload("Share")
  {
    var l := Lower("Share");
    assert l == "share";
    assert |l| < |"download"|;
    ContainsFits(l, "download");
  }

  /** `download_video` after the button is resolved: no button, or a click
      that raises, is a failure; a click that goes through is a success
      whether or not a progress indicator shows up. `loaded` is whether the
      page body appeared within its wait. */
  function DownloadVideo(loaded: bool, selectors: seq<string>, clickable: Locator -> bool, buttons: seq<Button>,
                         refreshed: Locator -> bool, clickOk: bool): (ok: bool)
    ensures ok <==> loaded && !ResolveDownloadButton(selectors, clickable, buttons, refreshed).NoButton? && clickOk
  {
    if !loaded then false
    else if ResolveDownloadButton(selectors, clickable, buttons, refreshed).NoButton? then false
    else clickOk
  }

  // ---------------------------------------------------------------------
  // The SharePoint dialogs
  // ---------------------------------------------------------------------

  /** A dialog selector is XPath when it starts with `//`, CSS otherwise. */
  function DialogLocator(selector: string): (r: Locator)
    ensures r.XPath? <==> StartsWith(selector, "//")
    ensures r == XPath(selector) || r == Css(selector)
  {
    if StartsWith(selector, "//") then XPath(selector) else Css(selector)
  }

  datatype DialogClicks = DialogClicks(dialogButton: Option<nat>, allowButton: Option<nat>)

  /** `handle_download_dialogs` of the SharePoint downloader. Without a
      dialog within its wait nothing is clicked. Otherwise the first
      clickable dialog selector is clicked (at most one), then the first
      clickable allow selector, all of which are XPath (at most one).
      `first` is the page while the dialog is up, `second` the page after
      that click. */
  function HandleDownloadDialogs(dialogAppears: bool, dialogSelectors: seq<string>, allowSelectors: seq<string>,
                                 first: Locator -> bool, second: Locator -> bool): (c: DialogClicks)
    ensures !dialogAppears ==> c == DialogClicks(None, None)
    ensures c.dialogButton.Some? ==>
      c.dialogButton.value < |dialogSelectors| && first(DialogLocator(dialogSelectors[c.dialogButton.value]))
    ensures c.dialogButton.Some? ==>
      forall j :: 0 <= j < c.dialogButton.value ==> !first(DialogLocator(dialogSelectors[j]))
    ensures c.allowButton.Some? ==>
      c.allowButton.value < |allowSelectors| && second(XPath(allowSelectors[c.allowButton.value]))
    ensures c.allowButton.Some? ==>
      forall j :: 0 <= j < c.allowButton.value ==> !second(XPath(allowSelectors[j]))
    ensures dialogAppears ==>
      (c.dialogButton.None? <==> forall j :: 0 <= j < |dialogSelectors| ==> !first(DialogLocator(dialogSelectors[j]))) &&
      (c.allowButton.None? <==> forall j :: 0 <= j < |allowSelectors| ==> !second(XPath(allowSelectors[j])))
  {
    if !dialogAppears then DialogClicks(None, None)
    else DialogClicks(FirstAccepted(dialogSelectors, s => first(DialogLocator(s))),
                      FirstAccepted(allowSelectors, s => second(XPath(s))))
  }

  // ---------------------------------------------------------------------
  // The sheet scraper's clicks
  // ---------------------------------------------------------------------

  /** `select_sheet_tab`: the first tab selector whose element is found and
      clicks is the one clicked; the result is true even when none is. */
  function SelectSheetTab(selectors: seq<string>, clicks: string -> bool): (r: (Option<nat>, bool))
    ensures r.1
    ensures r.0.Some? ==> r.0.value < |selectors| && clicks(selectors[r.0.value])
    ensures r.0.None? <==> forall j :: 0 <= j < |selectors| ==> !clicks(selectors[j])
  {
    (FirstAccepted(selectors, clicks), true)
  }

  /** `download_video_from_sharepoint` of the sheet scraper: no clickable
      download button is a failure; otherwise the first clickable selector's
      button is clicked, and a click that raises is a failure too. */
  function ScraperDownload(selectors: seq<string>, clickable: string -> bool, clickOk: bool): (ok: bool)
    ensures ok <==> (exists j :: 0 <= j < |selectors| && clickable(selectors[j])) && clickOk
  {
    match FirstAccepted(selectors, clickable)
    case None => false
    case Some(i) => clickOk
  }

  /** The sheet scraper's dialog handling: its `except` catches everything,
      so a button that is clickable but whose click raises passes the turn
      to the next selector. One click at most per list. */
  function ScraperDialogs(dialogSelectors: seq<string>, allowSelectors: seq<string>,
                          clickable: string -> bool, clickOk: string -> bool,
                          clickable2: string -> bool, clickOk2: string -> bool): (c: DialogClicks)
    ensures c.dialogButton.Some? ==> var i := c.dialogButton.value;
      i < |dialogSelectors| && clickable(dialogSelectors[i]) && clickOk(dialogSelectors[i])
    ensures c.dialogButton.Some? ==> forall j :: 0 <= j < c.dialogButton.value ==>
      !(clickable(dialogSelectors[j]) && clickOk(dialogSelectors[j]))
    ensures c.allowButton.Some? ==> var i := c.allowButton.value;
      i < |allowSelectors| && clickable2(allowSelectors[i]) && clickOk2(allowSelectors[i])
    ensures c.allowButton.Some? ==> forall j :: 0 <= j < c.allowButton.value ==>
      !(clickable2(allowSelectors[j]) && clickOk2(allowSelectors[j]))
    ensures c.dialogButton.None? <==> forall j :: 0 <= j < |dialogSelectors| ==>
      !(clickable(dialogSelectors[j]) && clickOk(dialogSelectors[j]))
    ensures c.allowButton.None? <==> forall j :: 0 <= j < |allowSelectors| ==>
      !(clickable2(allowSelectors[j]) && clickOk2(allowSelectors[j]))
  {
    DialogClicks(FirstAccepted(dialogSelectors, s => clickable(s) && clickOk(s)),
                 FirstAccepted(allowSelectors, s => clickable2(s) && clickOk2(s)))
  }
}

/** The link registry `transfer_links.json`: the list of link records the
    extractor writes and the scraper patches one record at a time.

    JSON parsing is not modelled: a file is seen as what `json.load` would
    produce, or as missing or unreadable. Keys a record may lack are
    `Option`s; the keys the extractor always writes are plain fields. */
module Registry {
  import opened Wrappers
  import opened Seqs

  datatype Link = Link(
    id: string,
    row: int,
    originalCell: string,
    url: string,
    kind: string,
    status: Option<string>,
    processed: Option<int>,
    error: Option<string>,
    processedAt: Option<string>)

  /** The `metadata` object written next to the links; timestamps are opaque strings. */
  datatype Metadata = Metadata(totalLinks: nat, transfernowCount: nat, wetransferCount: nat, lastUpdated: string)

  /** The registry file as the loader finds it. `Bare` is the older format in
      which the file holds the list of records itself. */
  datatype RegistryFile =
    | Missing
    | Unreadable
    | Wrapped(links: seq<Link>, metadata: Option<Metadata>)
    | Bare(links: seq<Link>)

  predicate IsTransferNowLink(l: Link) {
    l.kind == "transfernow"
  }

  predicate IsWeTransferLink(l: Link) {
    l.kind == "wetransfer"
  }

  /** `link.get('processed', 0) == 0`: not yet handled by a run. */
  predicate IsUnprocessed(l: Link) {
    l.processed.GetOr(0) == 0
  }

  /** Python truthiness of an optional message: present and non-empty. */
  predicate Truthy(msg: Option<string>) {
    msg.Some? && msg.value != ""
  }

  /** No two records share an id. */
  predicate UniqueIds(links: seq<Link>) {
    forall i, j :: 0 <= i < j < |links| ==> links[i].id != links[j].id
  }

  /** The metadata `save_links_to_file` computes for a list of links. */
  function MetadataOf(links: seq<Link>, now: string): (m: Metadata)
    ensures m.totalLinks == |links|
    ensures m.transfernowCount == Count(IsTransferNowLink, links)
    ensures m.wetransferCount == Count(IsWeTransferLink, links)
    ensures m.transfernowCount + m.wetransferCount <= m.totalLinks
  {
    CountDisjoint(IsTransferNowLink, IsWeTransferLink, l => IsTransferNowLink(l) || IsWeTransferLink(l), links);
    Metadata(|links|, Count(IsTransferNowLink, links), Count(IsWeTransferLink, links), now)
  }

  /** `save_links_to_file`: the whole file is replaced by the links and fresh metadata. */
  function SaveLinks(links: seq<Link>, now: string): (f: RegistryFile)
    ensures f.Wrapped? && f.links == links && f.metadata.Some?
  {
    Wrapped(links, Some(MetadataOf(links, now)))
  }

  /** `load_links_from_json`: the links and the metadata (if any) of a wrapped
      file, the list itself of a bare file, nothing when the file is missing
      or cannot be parsed. */
  function LoadLinks(f: RegistryFile): (r: (seq<Link>, Option<Metadata>))
    ensures f.Wrapped? || f.Bare? ==> r.0 == f.links
    ensures f.Missing? || f.Unreadable? ==> r.0 == []
    ensures r.1.Some? ==> f.Wrapped? && r.1 == f.metadata
    ensures f.Wrapped? ==> r.1 == f.metadata
    ensures !f.Wrapped? ==> r.1.None?
  {
    match f
    case Wrapped(links, md) => (links, md)
    case Bare(links) => (links, None)
    case _ => ([], None)
  }

  /** What the loader reads back is what the extractor saved. */
  lemma SaveLoadRoundTrip(links: seq<Link>, now: string)
    ensures LoadLinks(SaveLinks(links, now)) == (links, Some(MetadataOf(links, now)))
  {
  }

  /** The changes `update_link_status` makes to the matched record. */
  function Patch(l: Link, status: string, processed: Option<int>, errorMessage: Option<string>, now: string): (r: Link)
    ensures r.id == l.id && r.row == l.row && r.originalCell == l.originalCell && r.url == l.url && r.kind == l.kind
    ensures r.status == Some(status) && r.processedAt == Some(now)
    ensures processed.Some? ==> r.processed == processed
    ensures processed.None? ==> r.processed == l.processed
    ensures Truthy(errorMessage) ==> r.error == errorMessage
    ensures !Truthy(errorMessage) ==> r.error == l.error
  {
    l.(status := Some(status),
       processedAt := Some(now),
       processed := if processed.Some? then processed else l.processed,
       error := if Truthy(errorMessage) then errorMessage else l.error)
  }

  /** `k` is the position of the first record with this id. */
  predicate FirstWithId(links: seq<Link>, id: string, k: int) {
    0 <= k < |links| && links[k].id == id && forall j :: 0 <= j < k ==> links[j].id != id
  }

  /** The loop in `update_link_status`: patch the first record whose id
      matches and stop. */
  function UpdateLinks(links: seq<Link>, id: string, status: string, processed: Option<int>,
                       errorMessage: Option<string>, now: string): (r: seq<Link>)
    ensures |r| == |links|
  {
    if |links| == 0 then []
    else if links[0].id == id then [Patch(links[0], status, processed, errorMessage, now)] + links[1..]
    else [links[0]] + UpdateLinks(links[1..], id, status, processed, errorMessage, now)
  }

  /** Record `j` after the loop: patched if it is the first with the id, as
      it was otherwise. */
  lemma {:induction false} UpdateLinksAt(links: seq<Link>, id: string, status: string, processed: Option<int>,
                                         errorMessage: Option<string>, now: string, j: nat)
    requires j < |links|
    ensures FirstWithId(links, id, j) ==>
      UpdateLinks(links, id, status, processed, errorMessage, now)[j] == Patch(links[j], status, processed, errorMessage, now)
    ensures !FirstWithId(links, id, j) ==>
      UpdateLinks(links, id, status, processed, errorMessage, now)[j] == links[j]
  {
    if links[0].id != id && j > 0 {
      UpdateLinksAt(links[1..], id, status, processed, errorMessage, now, j - 1);
      assert FirstWithId(links, id, j) <==> FirstWithId(links[1..], id, j - 1);
    }
  }

  /** `update_link_status` on a whole file. Only a wrapped file has a `links`
      key; on any other file the update raises, the exception is caught, and
      the file stays as it was. The metadata is never touched. */
  function UpdateLinkStatus(f: RegistryFile, id: string, status: string, processed: Option<int>,
                            errorMessage: Option<string>, now: string): (r: RegistryFile)
    ensures !f.Wrapped? ==> r == f
    ensures f.Wrapped? ==> r.Wrapped? && r.metadata == f.metadata && |r.links| == |f.links|
  {
    match f
    case Wrapped(links, md) => Wrapped(UpdateLinks(links, id, status, processed, errorMessage, now), md)
    case _ => f
  }

  /** In a wrapped file, the first record with the id is patched and every
      other record is left as it was. */
  lemma UpdateLinkStatusAt(f: RegistryFile, id: string, status: string, processed: Option<int>,
                           errorMessage: Option<string>, now: string, j: nat)
    requires f.Wrapped? && j < |f.links|
    ensures var r := UpdateLinkStatus(f, id, status, processed, errorMessage, now);
      r.links[j] == if FirstWithId(f.links, id, j) then Patch(f.links[j], status, processed, errorMessage, now) else f.links[j]
  {
    UpdateLinksAt(f.links, id, status, processed, errorMessage, now, j);
  }

  /** Applying the same update twice is applying it once: the patched record
      keeps its id, so the second update finds it again and writes the same
      values. */
  lemma UpdateLinkStatusIdempotent(f: RegistryFile, id: string, status: string, processed: Option<int>,
                                   errorMessage: Option<string>, now: string)
    ensures var once := UpdateLinkStatus(f, id, status, processed, errorMessage, now);
      UpdateLinkStatus(once, id, status, processed, errorMessage, now) == once
  {
    var once := UpdateLinkStatus(f, id, status, processed, errorMessage, now);
    if f.Wrapped? {
      var twice := UpdateLinkStatus(once, id, status, processed, errorMessage, now);
      forall j | 0 <= j < |f.links| ensures once.links[j].id == f.links[j].id {
        UpdateLinkStatusAt(f, id, status, processed, errorMessage, now, j);
      }
      assert forall k :: FirstWithId(once.links, id, k) <==> FirstWithId(f.links, id, k);
      forall j | 0 <= j < |f.links| ensures twice.links[j] == once.links[j] {
        UpdateLinkStatusAt(f, id, status, processed, errorMessage, now, j);
        UpdateLinkStatusAt(once, id, status, processed, errorMessage, now, j);
      }
      assert twice.links == once.links;
    }
  }

  /** An update for an id no record has leaves the file unchanged. */
  lemma UpdateUnknownIdNoop(f: RegistryFile, id: string, status: string, processed: Option<int>,
                            errorMessage: Option<string>, now: string)
    requires f.Wrapped? ==> forall j :: 0 <= j < |f.links| ==> f.links[j].id != id
    ensures UpdateLinkStatus(f, id, status, processed, errorMessage, now) == f
  {
    if f.Wrapped? {
      var r := UpdateLinkStatus(f, id, status, processed, errorMessage, now);
      forall j | 0 <= j < |f.links| ensures r.links[j] == f.links[j] {
        UpdateLinkStatusAt(f, id, status, processed, errorMessage, now, j);
      }
      assert r.links == f.links;
    }
  }
}

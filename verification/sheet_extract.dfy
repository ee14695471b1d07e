/** Link extraction from spreadsheet data, in the two extractors.

    The sheet is the list of rows the Sheets API returns (`seq<seq<string>>`,
    header row first; a failed fetch is the empty list). Row numbers are the
    spreadsheet's own: the first data row is row 2. */
module SheetExtract {
  import opened Wrappers
  import opened Seqs
  import opened Strings
  import opened CellLinks
  import opened Registry

  // ---------------------------------------------------------------------
  // Column lookup and classification
  // ---------------------------------------------------------------------

  /** `find_column_index`: the first header equal to `name`; failing that, the
      first header containing `name` case-insensitively; failing that, -1. */
  function FindColumnIndex(headers: seq<string>, name: string): (r: int)
    ensures -1 <= r < |headers|
    ensures (exists i :: 0 <= i < |headers| && headers[i] == name) ==>
      r >= 0 && headers[r] == name && forall j :: 0 <= j < r ==> headers[j] != name
    ensures (forall i :: 0 <= i < |headers| ==> headers[i] != name) && r >= 0 ==>
      Contains(Lower(headers[r]), Lower(name)) &&
      forall j :: 0 <= j < r ==> !Contains(Lower(headers[j]), Lower(name))
    ensures r == -1 <==> forall i :: 0 <= i < |headers| ==>
      headers[i] != name && !Contains(Lower(headers[i]), Lower(name))
  {
    match FirstWhere(Named(name), headers)
    case Some(i) => i
    case None =>
      match FirstWhere(Mentions(name), headers)
      case Some(i) => i
      case None => -1
  }

  /** The header test of the first pass: equal to `name`. */
  function Named(name: string): string -> bool {
    h => h == name
  }

  /** The header test of the second pass: contains `name`, ignoring case. */
  function Mentions(name: string): string -> bool {
    h => Contains(Lower(h), Lower(name))
  }

  /** A partial match is only consulted when no header matches exactly. */
  lemma FindColumnPrefersExact(headers: seq<string>, name: string, i: nat)
    requires i < |headers| && headers[i] == name
    ensures 0 <= FindColumnIndex(headers, name) <= i
    ensures headers[FindColumnIndex(headers, name)] == name
  {
  }

  datatype LinkType = TransferNow | WeTransfer | UnknownType {
    /** The `type` string stored in a record. */
    function Name(): string {
      match this
      case TransferNow => "transfernow"
      case WeTransfer => "wetransfer"
      case UnknownType => "unknown"
    }
  }

  /** `classify_link_type`: by substring of the lower-cased URL. */
  function ClassifyLinkType(url: string): LinkType {
    var u := Lower(url);
    if Contains(u, "transfernow.net") then TransferNow
    else if Contains(u, "wetransfer.com") then WeTransfer
    else UnknownType
  }

  /** A URL is a TransferNow link iff it mentions `transfernow.net` in any
      case; it is a WeTransfer link iff it mentions `wetransfer.com` but not
      `transfernow.net`; otherwise it is unknown. */
  lemma ClassifyLinkTypeSpec(url: string)
    ensures ClassifyLinkType(url) == TransferNow <==> Contains(Lower(url), "transfernow.net")
    ensures ClassifyLinkType(url) == WeTransfer <==>
      !Contains(Lower(url), "transfernow.net") && Contains(Lower(url), "wetransfer.com")
    ensures ClassifyLinkType(url) == UnknownType <==>
      !Contains(Lower(url), "transfernow.net") && !Contains(Lower(url), "wetransfer.com")
  {
  }

  /** Classification ignores case. */
  lemma ClassifyIgnoresCase(url: string)
    ensures ClassifyLinkType(Lower(url)) == ClassifyLinkType(url)
  {
    LowerIdempotent(url);
  }

  /** A URL naming both services is a TransferNow link. */
  lemma ClassifyTransferNowFirst(url: string)
    requires Contains(Lower(url), "transfernow.net") && Contains(Lower(url), "wetransfer.com")
    ensures ClassifyLinkType(url) == TransferNow
  {
    ClassifyLinkTypeSpec(url);
  }

  predicate IsTransferUrl(url: string) {
    ClassifyLinkType(url) != UnknownType
  }

  // ---------------------------------------------------------------------
  // Transfer links (TransferNow / WeTransfer extractor)
  // ---------------------------------------------------------------------

  /** `f"link_{n}"` */
  function LinkId(n: nat): string {
    "link_" + NatToString(n)
  }

  lemma LinkIdInjective(a: nat, b: nat)
    requires LinkId(a) == LinkId(b)
    ensures a == b
  {
    assert NatToString(a) == LinkId(a)[5..];
    assert NatToString(b) == LinkId(b)[5..];
    NatToStringInjective(a, b);
  }

  /** The `original_cell` kept in a record: the cell itself up to 100
      characters, otherwise its first 100 characters followed by "...". */
  function OriginalCell(cell: string): (r: string)
    ensures |r| <= 103
    ensures |cell| <= 100 ==> r == cell
    ensures |cell| > 100 ==> |r| == 103 && StartsWith(cell, r[..100]) && EndsWith(r, "...")
  {
    if |cell| > 100 then cell[..100] + "..." else cell
  }

  /** A record as the extractor first writes it: pending and not processed. */
  predicate IsFresh(l: Link) {
    l.status == Some("pending") && l.processed == Some(0) && l.error.None? && l.processedAt.None?
  }

  /** The records for the links of one cell, numbered from `counter`; the
      counter only moves for links that are kept. `kind` classifies a link;
      the extractor passes `ClassifyLinkType`. */
  function CellRecords(kind: string -> LinkType, cell: string, urls: seq<string>, row: int, counter: nat): (r: seq<Link>)
    ensures |r| <= |urls|
  {
    if |urls| == 0 then []
    else
      var u := urls[0];
      var k := kind(u);
      if k != UnknownType then
        [Link(LinkId(counter), row, OriginalCell(cell), u, k.Name(), Some("pending"), Some(0), None, None)]
        + CellRecords(kind, cell, urls[1..], row, counter + 1)
      else CellRecords(kind, cell, urls[1..], row, counter)
  }

  /** The `i`-th record of a cell has id `link_{counter + i}`, is fresh, names
      the cell's row, keeps the cell's text, and holds one of the cell's links
      of a known type. */
  lemma {:induction false} CellRecordsSound(kind: string -> LinkType, cell: string, urls: seq<string>, row: int, counter: nat, i: nat)
    requires i < |CellRecords(kind, cell, urls, row, counter)|
    ensures var r := CellRecords(kind, cell, urls, row, counter);
      r[i].id == LinkId(counter + i) && IsFresh(r[i]) && r[i].row == row &&
      r[i].originalCell == OriginalCell(cell) && r[i].url in urls &&
      kind(r[i].url) != UnknownType && r[i].kind == kind(r[i].url).Name()
  {
    var r := CellRecords(kind, cell, urls, row, counter);
    if kind(urls[0]) != UnknownType {
      if i > 0 {
        CellRecordsSound(kind, cell, urls[1..], row, counter + 1, i - 1);
        assert r[i] == CellRecords(kind, cell, urls[1..], row, counter + 1)[i - 1];
      }
    } else {
      CellRecordsSound(kind, cell, urls[1..], row, counter, i);
    }
  }

  /** The column's cell in a data row, when the row reaches that far. */
  predicate HasCell(row: seq<string>, idx: nat) {
    idx < |row| && row[idx] != ""
  }

  /** `rec` is a record the extractor writes for data row `rec.row` of `rows`,
      numbered from `rowNum`, when `split` cuts a cell into links and `kind`
      classifies them: one of the cell's links, of a known type. */
  predicate TransferRecordFor(split: string -> seq<string>, kind: string -> LinkType, rows: seq<seq<string>>,
                              idx: nat, rowNum: int, rec: Link) {
    var k := rec.row - rowNum;
    0 <= k < |rows| && HasCell(rows[k], idx) &&
    rec.url in split(rows[k][idx]) && rec.originalCell == OriginalCell(rows[k][idx]) &&
    IsFresh(rec) && kind(rec.url) != UnknownType && rec.kind == kind(rec.url).Name()
  }

  // The walk with the records of a row left abstract: the numbering and
  // ordering facts hold whatever a row contributes.

  function Walk(rows: seq<seq<string>>, rowNum: int, counter: nat, recs: (seq<string>, int, nat) -> seq<Link>): seq<Link>
    decreases |rows|
  {
    if |rows| == 0 then []
    else
      var here := recs(rows[0], rowNum, counter);
      here + Walk(rows[1..], rowNum + 1, counter + |here|, recs)
  }

  /** The records `recs` gives for a row all name that row. */
  ghost predicate Stamped(recs: (seq<string>, int, nat) -> seq<Link>) {
    forall row, n, c, m :: 0 <= m < |recs(row, n, c)| ==> recs(row, n, c)[m].row == n
  }

  /** The `i`-th record of a walk is the `m`-th record of row `k`, numbered
      from a `c` with `c + m == counter + i`. */
  lemma {:induction false} WalkSource(rows: seq<seq<string>>, rowNum: int, counter: nat,
                                      recs: (seq<string>, int, nat) -> seq<Link>, i: nat)
    returns (k: nat, c: nat, m: nat)
    requires i < |Walk(rows, rowNum, counter, recs)|
    ensures k < |rows| && m < |recs(rows[k], rowNum + k, c)| && c + m == counter + i
    ensures Walk(rows, rowNum, counter, recs)[i] == recs(rows[k], rowNum + k, c)[m]
    decreases |rows|
  {
    var here := recs(rows[0], rowNum, counter);
    if i < |here| {
      k, c, m := 0, counter, i;
    } else {
      var k', c', m' := WalkSource(rows[1..], rowNum + 1, counter + |here|, recs, i - |here|);
      assert rows[1..][k'] == rows[k' + 1];
      k, c, m := k' + 1, c', m';
    }
  }

  /** With stamped records, the walk's records come in row order. */
  lemma {:induction false} WalkOrdered(rows: seq<seq<string>>, rowNum: int, counter: nat,
                                       recs: (seq<string>, int, nat) -> seq<Link>, i: nat, j: nat)
    requires Stamped(recs) && i < j < |Walk(rows, rowNum, counter, recs)|
    ensures rowNum <= Walk(rows, rowNum, counter, recs)[i].row <= Walk(rows, rowNum, counter, recs)[j].row < rowNum + |rows|
    decreases |rows|
  {
    var here := recs(rows[0], rowNum, counter);
    var w := Walk(rows, rowNum, counter, recs);
    if i >= |here| {
      WalkOrdered(rows[1..], rowNum + 1, counter + |here|, recs, i - |here|, j - |here|);
    } else {
      var k, c, m := WalkSource(rows, rowNum, counter, recs, j);
      assert w[i] == here[i];
    }
  }

  /** The records of a data row: those of its cell in the column, if it has one. */
  function RowRecs(split: string -> seq<string>, kind: string -> LinkType, idx: nat): (seq<string>, int, nat) -> seq<Link> {
    (row: seq<string>, n: int, c: nat) => if HasCell(row, idx) then CellRecords(kind, row[idx], split(row[idx]), n, c) else []
  }

  lemma RowRecsAt(split: string -> seq<string>, kind: string -> LinkType, idx: nat, row: seq<string>, n: int, c: nat)
    ensures HasCell(row, idx) ==> RowRecs(split, kind, idx)(row, n, c) == CellRecords(kind, row[idx], split(row[idx]), n, c)
    ensures !HasCell(row, idx) ==> RowRecs(split, kind, idx)(row, n, c) == []
  {
  }

  /** The row walk of `extract_transfer_links`, from spreadsheet row `rowNum`
      and link number `counter`. The cell splitter and the classifier are
      parameters so that the walk can be reasoned about apart from them; the
      extractor passes `SplitCellLinks` and `ClassifyLinkType`. */
  function ExtractRows(split: string -> seq<string>, kind: string -> LinkType, rows: seq<seq<string>>,
                       idx: nat, rowNum: int, counter: nat): seq<Link> {
    Walk(rows, rowNum, counter, RowRecs(split, kind, idx))
  }

  /** The `i`-th record of the walk is the `m`-th record of the cell of row `k`. */
  lemma ExtractRowsSource(split: string -> seq<string>, kind: string -> LinkType, rows: seq<seq<string>>,
                          idx: nat, rowNum: int, counter: nat, i: nat)
    returns (k: nat, c: nat, m: nat)
    requires i < |ExtractRows(split, kind, rows, idx, rowNum, counter)|
    ensures k < |rows| && HasCell(rows[k], idx) && c + m == counter + i
    ensures m < |CellRecords(kind, rows[k][idx], split(rows[k][idx]), rowNum + k, c)|
    ensures ExtractRows(split, kind, rows, idx, rowNum, counter)[i] ==
      CellRecords(kind, rows[k][idx], split(rows[k][idx]), rowNum + k, c)[m]
  {
    k, c, m := WalkSource(rows, rowNum, counter, RowRecs(split, kind, idx), i);
    RowRecsCell(split, kind, idx, rows[k], rowNum + k, c, m);
  }

  /** A row with records has its cell, and its records are the cell's. */
  lemma RowRecsCell(split: string -> seq<string>, kind: string -> LinkType, idx: nat, row: seq<string>, n: int, c: nat, m: nat)
    requires m < |RowRecs(split, kind, idx)(row, n, c)|
    ensures HasCell(row, idx) && m < |CellRecords(kind, row[idx], split(row[idx]), n, c)|
    ensures RowRecs(split, kind, idx)(row, n, c)[m] == CellRecords(kind, row[idx], split(row[idx]), n, c)[m]
  {
    RowRecsAt(split, kind, idx, row, n, c);
  }

  /** The `i`-th record of the walk has id `link_{counter + i}` and is a fresh
      record of a link of a known type taken from the cell of the row it names. */
  lemma ExtractRowsSound(split: string -> seq<string>, kind: string -> LinkType, rows: seq<seq<string>>,
                         idx: nat, rowNum: int, counter: nat, i: nat)
    requires i < |ExtractRows(split, kind, rows, idx, rowNum, counter)|
    ensures ExtractRows(split, kind, rows, idx, rowNum, counter)[i].id == LinkId(counter + i)
    ensures TransferRecordFor(split, kind, rows, idx, rowNum, ExtractRows(split, kind, rows, idx, rowNum, counter)[i])
  {
    var k, c, m := ExtractRowsSource(split, kind, rows, idx, rowNum, counter, i);
    var cell := rows[k][idx];
    var rec := CellRecords(kind, cell, split(cell), rowNum + k, c)[m];
    CellRecordsSound(kind, cell, split(cell), rowNum + k, c, m);
    assert rec.id == LinkId(counter + i) by {
      assert c + m == counter + i;
    }
    assert rec.row - rowNum == k;
  }

  lemma RowRecsStamped(split: string -> seq<string>, kind: string -> LinkType, idx: nat)
    ensures Stamped(RowRecs(split, kind, idx))
  {
    var recs := RowRecs(split, kind, idx);
    forall row, n, c, m | 0 <= m < |recs(row, n, c)| ensures recs(row, n, c)[m].row == n {
      RowRecsAt(split, kind, idx, row, n, c);
      CellRecordsSound(kind, row[idx], split(row[idx]), n, c, m);
    }
  }

  /** The walk's records come in row order, each naming one of the walk's rows. */
  lemma ExtractRowsOrdered(split: string -> seq<string>, kind: string -> LinkType, rows: seq<seq<string>>,
                           idx: nat, rowNum: int, counter: nat, i: nat, j: nat)
    requires i < j < |ExtractRows(split, kind, rows, idx, rowNum, counter)|
    ensures rowNum <= ExtractRows(split, kind, rows, idx, rowNum, counter)[i].row
    ensures ExtractRows(split, kind, rows, idx, rowNum, counter)[i].row <= ExtractRows(split, kind, rows, idx, rowNum, counter)[j].row
    ensures ExtractRows(split, kind, rows, idx, rowNum, counter)[j].row < rowNum + |rows|
  {
    RowRecsStamped(split, kind, idx);
    WalkOrdered(rows, rowNum, counter, RowRecs(split, kind, idx), i, j);
  }

  /** `extract_transfer_links` over given sheet data, with cells cut by `split`. */
  function ExtractTransferLinksWith(split: string -> seq<string>, data: seq<seq<string>>, columnName: string): (r: seq<Link>)
    ensures |data| == 0 || FindColumnIndex(data[0], columnName) == -1 ==> r == []
  {
    if |data| == 0 then []
    else
      var idx := FindColumnIndex(data[0], columnName);
      if idx == -1 then []
      else ExtractRows(split, ClassifyLinkType, data[1..], idx, 2, 1)
  }

  /** `extract_transfer_links` over given sheet data. */
  function ExtractTransferLinks(data: seq<seq<string>>, columnName: string): seq<Link> {
    ExtractTransferLinksWith(SplitCellLinks, data, columnName)
  }

  /** The `i`-th extracted record is `link_{i + 1}`, fresh, of a known type,
      and taken from the named column of the data row it names (spreadsheet
      rows count the header as row 1). */
  lemma ExtractedRecord(split: string -> seq<string>, data: seq<seq<string>>, columnName: string, i: nat)
    requires i < |ExtractTransferLinksWith(split, data, columnName)|
    ensures var r := ExtractTransferLinksWith(split, data, columnName);
      var idx := FindColumnIndex(data[0], columnName);
      r[i].id == LinkId(i + 1) && IsFresh(r[i]) && 2 <= r[i].row <= |data| &&
      (IsTransferNowLink(r[i]) || IsWeTransferLink(r[i])) &&
      idx >= 0 && HasCell(data[r[i].row - 1], idx) &&
      r[i].url in split(data[r[i].row - 1][idx]) &&
      r[i].originalCell == OriginalCell(data[r[i].row - 1][idx]) &&
      r[i].kind == ClassifyLinkType(r[i].url).Name()
  {
    var r := ExtractTransferLinksWith(split, data, columnName);
    var idx := FindColumnIndex(data[0], columnName);
    var rows := data[1..];
    ExtractRowsSound(split, ClassifyLinkType, rows, idx, 2, 1, i);
    assert rows[r[i].row - 2] == data[r[i].row - 1];
  }

  /** The extracted records in row order. */
  lemma ExtractedInRowOrder(split: string -> seq<string>, data: seq<seq<string>>, columnName: string, i: nat, j: nat)
    requires i < j < |ExtractTransferLinksWith(split, data, columnName)|
    ensures ExtractTransferLinksWith(split, data, columnName)[i].row <= ExtractTransferLinksWith(split, data, columnName)[j].row
  {
    ExtractRowsOrdered(split, ClassifyLinkType, data[1..], FindColumnIndex(data[0], columnName), 2, 1, i, j);
  }

  /** Numbering by position makes every id distinct. */
  lemma ExtractedIdsUnique(split: string -> seq<string>, data: seq<seq<string>>, columnName: string)
    ensures UniqueIds(ExtractTransferLinksWith(split, data, columnName))
  {
    var r := ExtractTransferLinksWith(split, data, columnName);
    forall i, j | 0 <= i < j < |r| ensures r[i].id != r[j].id {
      ExtractedRecord(split, data, columnName, i);
      ExtractedRecord(split, data, columnName, j);
      if r[i].id == r[j].id {
        LinkIdInjective(i + 1, j + 1);
      }
    }
  }

  /** The metadata saved with extracted links: the two per-type counts add up
      to the total, since every extracted link has one of the two types. */
  lemma ExtractedMetadataTotal(data: seq<seq<string>>, columnName: string, now: string)
    ensures var links := ExtractTransferLinks(data, columnName);
      var m := MetadataOf(links, now);
      m.transfernowCount + m.wetransferCount == m.totalLinks
  {
    var links := ExtractTransferLinks(data, columnName);
    var either := l => IsTransferNowLink(l) || IsWeTransferLink(l);
    forall i | 0 <= i < |links| ensures either(links[i]) {
      ExtractedRecord(SplitCellLinks, data, columnName, i);
    }
    CountDisjoint(IsTransferNowLink, IsWeTransferLink, either, links);
    assert Filter(either, links) == links by {
      FilterAll(either, links);
    }
  }

  // Reference for the row walk: the kept URLs, cell by cell.

  function UrlsOf(links: seq<Link>): (r: seq<string>)
    ensures |r| == |links|
  {
    if |links| == 0 then [] else [links[0].url] + UrlsOf(links[1..])
  }

  lemma {:induction false} UrlsOfAt(links: seq<Link>, i: nat)
    requires i < |links|
    ensures UrlsOf(links)[i] == links[i].url
  {
    if i > 0 {
      UrlsOfAt(links[1..], i - 1);
    }
  }

  /** The links of each data row's cell, row by row (a row without the cell gives none). */
  function CellLinksByRow(split: string -> seq<string>, rows: seq<seq<string>>, idx: nat): (r: seq<seq<string>>)
    ensures |r| == |rows|
  {
    if |rows| == 0 then []
    else [if HasCell(rows[0], idx) then split(rows[0][idx]) else []] + CellLinksByRow(split, rows[1..], idx)
  }

  lemma {:induction false} CellLinksByRowAt(split: string -> seq<string>, rows: seq<seq<string>>, idx: nat, k: nat)
    requires k < |rows|
    ensures CellLinksByRow(split, rows, idx)[k] == if HasCell(rows[k], idx) then split(rows[k][idx]) else []
  {
    if k > 0 {
      CellLinksByRowAt(split, rows[1..], idx, k - 1);
    }
  }

  /** A cell keeps the URLs `known` accepts, in order, when `known` is
      "of a known type". */
  lemma {:induction false} CellRecordsUrls(kind: string -> LinkType, known: string -> bool,
                                           cell: string, urls: seq<string>, row: int, counter: nat)
    requires forall u :: known(u) <==> kind(u) != UnknownType
    ensures UrlsOf(CellRecords(kind, cell, urls, row, counter)) == Filter(known, urls)
  {
    if |urls| > 0 {
      if known(urls[0]) {
        var rest := CellRecords(kind, cell, urls[1..], row, counter + 1);
        CellRecordsUrls(kind, known, cell, urls[1..], row, counter + 1);
        var r := CellRecords(kind, cell, urls, row, counter);
        assert r[1..] == rest;
      } else {
        CellRecordsUrls(kind, known, cell, urls[1..], row, counter);
      }
    }
  }

  lemma {:induction false} UrlsAppend(a: seq<Link>, b: seq<Link>)
    ensures UrlsOf(a + b) == UrlsOf(a) + UrlsOf(b)
  {
    assert |UrlsOf(a + b)| == |UrlsOf(a) + UrlsOf(b)|;
    forall i | 0 <= i < |a + b| ensures UrlsOf(a + b)[i] == (UrlsOf(a) + UrlsOf(b))[i] {
      UrlsOfAt(a + b, i);
      if i >= |a| {
        assert (a + b)[i] == b[i - |a|];
        UrlsOfAt(b, i - |a|);
      } else {
        UrlsOfAt(a, i);
      }
    }
  }

  /** A walk keeps the URLs its rows' records keep, in order. */
  lemma {:induction false} WalkUrls(rows: seq<seq<string>>, rowNum: int, counter: nat,
                                    recs: (seq<string>, int, nat) -> seq<Link>, known: string -> bool,
                                    byRow: seq<seq<string>>)
    requires |byRow| == |rows|
    requires forall k, n, c :: 0 <= k < |rows| ==> UrlsOf(recs(rows[k], n, c)) == Filter(known, byRow[k])
    ensures UrlsOf(Walk(rows, rowNum, counter, recs)) == Filter(known, Flatten(byRow))
    decreases |rows|
  {
    if |rows| > 0 {
      var here := recs(rows[0], rowNum, counter);
      var rest := Walk(rows[1..], rowNum + 1, counter + |here|, recs);
      assert Walk(rows, rowNum, counter, recs) == here + rest;
      assert UrlsOf(here) == Filter(known, byRow[0]);
      UrlsTail(rows, recs, known, byRow);
      WalkUrls(rows[1..], rowNum + 1, counter + |here|, recs, known, byRow[1..]);
      UrlsAppend(here, rest);
      FilterFlattenHead(known, byRow);
    }
  }

  lemma UrlsTail(rows: seq<seq<string>>, recs: (seq<string>, int, nat) -> seq<Link>, known: string -> bool,
                 byRow: seq<seq<string>>)
    requires |byRow| == |rows| > 0
    requires forall k, n, c :: 0 <= k < |rows| ==> UrlsOf(recs(rows[k], n, c)) == Filter(known, byRow[k])
    ensures forall k, n, c :: 0 <= k < |rows[1..]| ==> UrlsOf(recs(rows[1..][k], n, c)) == Filter(known, byRow[1..][k])
  {
    forall k, n, c | 0 <= k < |rows[1..]| ensures UrlsOf(recs(rows[1..][k], n, c)) == Filter(known, byRow[1..][k]) {
      assert rows[1..][k] == rows[k + 1];
    }
  }

  lemma FilterFlattenHead(known: string -> bool, byRow: seq<seq<string>>)
    requires |byRow| > 0
    ensures Filter(known, Flatten(byRow)) == Filter(known, byRow[0]) + Filter(known, Flatten(byRow[1..]))
  {
    assert Flatten(byRow) == byRow[0] + Flatten(byRow[1..]);
    FilterAppend(known, byRow[0], Flatten(byRow[1..]));
  }

  /** The row walk keeps exactly the links of a known type of the cells, in
      row order and, within a cell, in cell order. */
  lemma ExtractRowsUrls(split: string -> seq<string>, kind: string -> LinkType, known: string -> bool,
                        rows: seq<seq<string>>, idx: nat, rowNum: int, counter: nat)
    requires forall u :: known(u) <==> kind(u) != UnknownType
    ensures UrlsOf(ExtractRows(split, kind, rows, idx, rowNum, counter)) ==
      Filter(known, Flatten(CellLinksByRow(split, rows, idx)))
  {
    var byRow := CellLinksByRow(split, rows, idx);
    var recs := RowRecs(split, kind, idx);
    forall k, n, c | 0 <= k < |rows| ensures UrlsOf(recs(rows[k], n, c)) == Filter(known, byRow[k]) {
      CellLinksByRowAt(split, rows, idx, k);
      RowRecsAt(split, kind, idx, rows[k], n, c);
      if HasCell(rows[k], idx) {
        CellRecordsUrls(kind, known, rows[k][idx], split(rows[k][idx]), n, c);
      }
    }
    WalkUrls(rows, rowNum, counter, recs, known, byRow);
  }

  /** The extractor keeps exactly the TransferNow and WeTransfer links of the
      column's cells, in sheet order. */
  lemma ExtractedUrls(split: string -> seq<string>, data: seq<seq<string>>, columnName: string)
    requires |data| > 0 && FindColumnIndex(data[0], columnName) != -1
    ensures UrlsOf(ExtractTransferLinksWith(split, data, columnName)) ==
      Filter(IsTransferUrl, Flatten(CellLinksByRow(split, data[1..], FindColumnIndex(data[0], columnName))))
  {
    ExtractRowsUrls(split, ClassifyLinkType, IsTransferUrl, data[1..], FindColumnIndex(data[0], columnName), 2, 1);
  }

  // ---------------------------------------------------------------------
  // SharePoint links (SharePoint extractor)
  // ---------------------------------------------------------------------

  datatype SharePointLink = SharePointLink(row: int, link: string)

  /** The column's cell is a non-empty string mentioning `sharepoint.com` in any case. */
  predicate IsSharePointCell(row: seq<string>, idx: nat) {
    HasCell(row, idx) && Contains(Lower(row[idx]), "sharepoint.com")
  }

  /** `rec` is the record for data row `rec.row` of `rows`, numbered from `rowNum`. */
  predicate SharePointRecordFor(rows: seq<seq<string>>, idx: nat, rowNum: int, rec: SharePointLink) {
    var k := rec.row - rowNum;
    0 <= k < |rows| && IsSharePointCell(rows[k], idx) && rec.link == Strip(rows[k][idx])
  }


  /** The row walk of `extract_sharepoint_links`, from spreadsheet row `rowNum`. */
  function SharePointRows(rows: seq<seq<string>>, idx: nat, rowNum: int): (r: seq<SharePointLink>)
    ensures |r| <= |rows|
    decreases |rows|
  {
    if |rows| == 0 then []
    else
      var here := if IsSharePointCell(rows[0], idx) then [SharePointLink(rowNum, Strip(rows[0][idx]))] else [];
      here + SharePointRows(rows[1..], idx, rowNum + 1)
  }

  /** The row walk with the per-row choice left abstract: row `rowNum + k`
      yields a record exactly when `pick(rows[k])` is `Some`. Proofs about
      the walk's shape go through this form, clear of how a cell is checked. */
  function PickRows(rows: seq<seq<string>>, rowNum: int, pick: seq<string> -> Option<string>): (r: seq<SharePointLink>)
    decreases |rows|
  {
    if |rows| == 0 then []
    else
      var here := if pick(rows[0]).Some? then [SharePointLink(rowNum, pick(rows[0]).value)] else [];
      here + PickRows(rows[1..], rowNum + 1, pick)
  }

  /** The choice the SharePoint walk makes for one row. */
  function SharePointPick(idx: nat): seq<string> -> Option<string> {
    row => if IsSharePointCell(row, idx) then Some(Strip(row[idx])) else None
  }

  lemma {:induction false} SharePointRowsArePicked(rows: seq<seq<string>>, idx: nat, rowNum: int)
    ensures SharePointRows(rows, idx, rowNum) == PickRows(rows, rowNum, SharePointPick(idx))
    decreases |rows|
  {
    if |rows| > 0 {
      SharePointRowsArePicked(rows[1..], idx, rowNum + 1);
    }
  }

  lemma {:induction false} PickRowsSound(rows: seq<seq<string>>, rowNum: int, pick: seq<string> -> Option<string>, i: nat)
    requires i < |PickRows(rows, rowNum, pick)|
    ensures var rec := PickRows(rows, rowNum, pick)[i];
      0 <= rec.row - rowNum < |rows| && pick(rows[rec.row - rowNum]) == Some(rec.link)
    decreases |rows|
  {
    var here := if pick(rows[0]).Some? then [SharePointLink(rowNum, pick(rows[0]).value)] else [];
    var rest := PickRows(rows[1..], rowNum + 1, pick);
    if i >= |here| {
      PickRowsSound(rows[1..], rowNum + 1, pick, i - |here|);
      assert rows[1..][rest[i - |here|].row - (rowNum + 1)] == rows[rest[i - |here|].row - rowNum];
    }
  }

  lemma {:induction false} PickRowsOrdered(rows: seq<seq<string>>, rowNum: int, pick: seq<string> -> Option<string>, i: nat, j: nat)
    requires i < j < |PickRows(rows, rowNum, pick)|
    ensures PickRows(rows, rowNum, pick)[i].row < PickRows(rows, rowNum, pick)[j].row
    decreases |rows|
  {
    var here := if pick(rows[0]).Some? then [SharePointLink(rowNum, pick(rows[0]).value)] else [];
    if i < |here| {
      PickRowsSound(rows[1..], rowNum + 1, pick, j - 1);
    } else {
      PickRowsOrdered(rows[1..], rowNum + 1, pick, i - |here|, j - |here|);
    }
  }

  lemma {:induction false} PickRowsComplete(rows: seq<seq<string>>, rowNum: int, pick: seq<string> -> Option<string>, k: nat)
    requires k < |rows| && pick(rows[k]).Some?
    ensures exists i :: 0 <= i < |PickRows(rows, rowNum, pick)| && PickRows(rows, rowNum, pick)[i].row == rowNum + k
    decreases |rows|
  {
    var r := PickRows(rows, rowNum, pick);
    var here := if pick(rows[0]).Some? then [SharePointLink(rowNum, pick(rows[0]).value)] else [];
    var rest := PickRows(rows[1..], rowNum + 1, pick);
    if k == 0 {
      assert r[0].row == rowNum;
    } else {
      assert rows[1..][k - 1] == rows[k];
      PickRowsComplete(rows[1..], rowNum + 1, pick, k - 1);
      var i :| 0 <= i < |rest| && rest[i].row == rowNum + 1 + (k - 1);
      assert r[|here| + i] == rest[i];
    }
  }

  /** Every record of the walk is the stripped cell of the row it names. */
  lemma SharePointRowsSound(rows: seq<seq<string>>, idx: nat, rowNum: int, i: nat)
    requires i < |SharePointRows(rows, idx, rowNum)|
    ensures SharePointRecordFor(rows, idx, rowNum, SharePointRows(rows, idx, rowNum)[i])
  {
    SharePointRowsArePicked(rows, idx, rowNum);
    PickRowsSound(rows, rowNum, SharePointPick(idx), i);
  }

  /** The walk's rows strictly increase. */
  lemma SharePointRowsOrdered(rows: seq<seq<string>>, idx: nat, rowNum: int, i: nat, j: nat)
    requires i < j < |SharePointRows(rows, idx, rowNum)|
    ensures SharePointRows(rows, idx, rowNum)[i].row < SharePointRows(rows, idx, rowNum)[j].row
  {
    SharePointRowsArePicked(rows, idx, rowNum);
    PickRowsOrdered(rows, rowNum, SharePointPick(idx), i, j);
  }

  /** Every row whose cell mentions SharePoint has its record. */
  lemma SharePointRowsComplete(rows: seq<seq<string>>, idx: nat, rowNum: int, k: nat)
    requires k < |rows| && IsSharePointCell(rows[k], idx)
    ensures exists i :: 0 <= i < |SharePointRows(rows, idx, rowNum)| && SharePointRows(rows, idx, rowNum)[i].row == rowNum + k
  {
    SharePointRowsArePicked(rows, idx, rowNum);
    assert SharePointPick(idx)(rows[k]).Some?;
    PickRowsComplete(rows, rowNum, SharePointPick(idx), k);
  }

  /** `extract_sharepoint_links` over given sheet data. */
  function ExtractSharePointLinks(data: seq<seq<string>>, columnName: string): (r: seq<SharePointLink>)
    ensures |data| == 0 || FindColumnIndex(data[0], columnName) == -1 ==> r == []
    ensures |data| > 0 ==> |r| <= |data| - 1
  {
    if |data| == 0 then []
    else
      var idx := FindColumnIndex(data[0], columnName);
      if idx == -1 then [] else SharePointRows(data[1..], idx, 2)
  }

  /** Each SharePoint record holds the stripped cell of the data row it names,
      and that cell mentions SharePoint. */
  lemma ExtractedSharePointRecord(data: seq<seq<string>>, columnName: string, i: nat)
    requires i < |ExtractSharePointLinks(data, columnName)|
    ensures var r := ExtractSharePointLinks(data, columnName);
      var idx := FindColumnIndex(data[0], columnName);
      idx >= 0 && 2 <= r[i].row <= |data| &&
      IsSharePointCell(data[r[i].row - 1], idx) && r[i].link == Strip(data[r[i].row - 1][idx])
  {
    var r := ExtractSharePointLinks(data, columnName);
    var idx := FindColumnIndex(data[0], columnName);
    SharePointRowsSound(data[1..], idx, 2, i);
    assert data[1..][r[i].row - 2] == data[r[i].row - 1];
  }

  /** At most one record per row, in row order. */
  lemma ExtractedSharePointOrdered(data: seq<seq<string>>, columnName: string, i: nat, j: nat)
    requires i < j < |ExtractSharePointLinks(data, columnName)|
    ensures ExtractSharePointLinks(data, columnName)[i].row < ExtractSharePointLinks(data, columnName)[j].row
  {
    SharePointRowsOrdered(data[1..], FindColumnIndex(data[0], columnName), 2, i, j);
  }

  /** Every data row whose cell mentions SharePoint gets a record. */
  lemma ExtractedSharePointComplete(data: seq<seq<string>>, columnName: string, k: nat)
    requires 1 <= k < |data| && FindColumnIndex(data[0], columnName) >= 0
    requires IsSharePointCell(data[k], FindColumnIndex(data[0], columnName))
    ensures var r := ExtractSharePointLinks(data, columnName);
      exists i :: 0 <= i < |r| && r[i].row == k + 1
  {
    var r := ExtractSharePointLinks(data, columnName);
    assert data[1..][k - 1] == data[k];
    SharePointRowsComplete(data[1..], FindColumnIndex(data[0], columnName), 2, k - 1);
    assert r == SharePointRows(data[1..], FindColumnIndex(data[0], columnName), 2);
  }
}

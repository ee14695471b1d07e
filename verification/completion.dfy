/** Deciding from directory listings whether a browser download started and
    whether it finished, and what the archive extraction that follows does.

    A listing is the set of names `os.listdir` returns. The completion wait
    looks at the folder once per poll until its timeout elapses; the model
    takes the listings of the polls that fit inside the timeout as a
    sequence, so the timeout is the length of that sequence. */
module Completion {
  import opened Seqs
  import opened Strings

  type Listing = set<string>

  /** Chrome's partial-download suffix: the only marker the TransferNow
      download paths look for. */
  predicate IsCrDownload(name: string) {
    EndsWith(name, ".crdownload")
  }

  /** The markers of the standalone WeTransfer downloader. */
  predicate IsPartial(name: string) {
    EndsWith(name, ".crdownload") || EndsWith(name, ".tmp") || EndsWith(name, ".part")
  }

  /** No name in the listing is a marker: nothing is being downloaded. */
  predicate Quiet(listing: Listing, marker: string -> bool) {
    forall n :: n in listing ==> !marker(n)
  }

  /** Some poll inside the timeout sees a quiet folder. */
  predicate CompletesWithin(polls: seq<Listing>, marker: string -> bool) {
    exists i :: 0 <= i < |polls| && Quiet(polls[i], marker)
  }

  /** The start check: a name appeared between the two listings, or the later
      one holds a marker. */
  predicate Started(before: Listing, after: Listing, marker: string -> bool) {
    after - before != {} || exists n :: n in after && marker(n)
  }

  /** `wait_for_downloads_to_complete`: poll until a listing has no marker
      name, or the polls of the timeout run out. `used` is the number of the
      poll that ended the wait (all of them on a timeout). */
  method WaitForDownloads(polls: seq<Listing>, marker: string -> bool) returns (ok: bool, used: nat)
    ensures ok <==> CompletesWithin(polls, marker)
    ensures ok ==> used < |polls| && Quiet(polls[used], marker)
    ensures forall i :: 0 <= i < used && i < |polls| ==> !Quiet(polls[i], marker)
    ensures !ok ==> used == |polls|
  {
    used := 0;
    while used < |polls|
      invariant used <= |polls|
      invariant forall i :: 0 <= i < used ==> !Quiet(polls[i], marker)
    {
      if forall n | n in polls[used] :: !marker(n) {
        assert Quiet(polls[used], marker);
        return true, used;
      }
      used := used + 1;
    }
    ok := false;
  }

  /** An empty folder has nothing in progress, so the wait on its own
      reports success at the first poll even when nothing was downloaded. */
  lemma EmptyFolderCompletes(polls: seq<Listing>, marker: string -> bool)
    requires |polls| > 0 && polls[0] == {}
    ensures CompletesWithin(polls, marker)
  {
    assert Quiet(polls[0], marker);
  }

  /** A listing quiet for the WeTransfer markers is quiet for Chrome's marker. */
  lemma {:induction false} PartialCoversCrDownload(polls: seq<Listing>)
    ensures CompletesWithin(polls, IsPartial) ==> CompletesWithin(polls, IsCrDownload)
    ensures forall after, before :: Started(before, after, IsCrDownload) ==> Started(before, after, IsPartial)
  {
    if CompletesWithin(polls, IsPartial) {
      var i :| 0 <= i < |polls| && Quiet(polls[i], IsPartial);
      assert Quiet(polls[i], IsCrDownload);
    }
  }

  /** `monitor_download_progress` of the transfer scraper, and the same tail
      of `download_transfernow_files` in the TransferFlow script: a download
      that started and then went quiet within the timeout is a success. The
      zip extraction that follows does not affect the result. */
  method MonitorDownloadProgress(before: Listing, after: Listing, polls: seq<Listing>) returns (ok: bool)
    ensures ok <==> Started(before, after, IsCrDownload) && CompletesWithin(polls, IsCrDownload)
  {
    if after - before != {} || exists n | n in after :: IsCrDownload(n) {
      var used;
      ok, used := WaitForDownloads(polls, IsCrDownload);
    } else {
      ok := false;
    }
  }

  /** The tail of `download_wetransfer_files`: the same decision over its
      wider set of markers, and also the listing taken after the wait must
      hold at least one finished (non-marker) file. */
  method WeTransferMonitor(before: Listing, after: Listing, polls: seq<Listing>, final: Listing) returns (ok: bool)
    ensures ok <==> Started(before, after, IsPartial) && CompletesWithin(polls, IsPartial) &&
                    exists n :: n in final && !IsPartial(n)
  {
    if after - before != {} || exists n | n in after :: IsPartial(n) {
      var done, used := WaitForDownloads(polls, IsPartial);
      if done {
        ok := exists n | n in final :: !IsPartial(n);
      } else {
        ok := false;
      }
    } else {
      ok := false;
    }
  }

  /** A TransferNow download reads as a success with an empty folder at the
      end: the partial file showed up, then vanished. The WeTransfer
      downloader refuses the same situation, as its final listing is empty. */
  lemma SuccessWithoutFiles()
    ensures Started({}, {"video.mp4.crdownload"}, IsCrDownload) && CompletesWithin([{}], IsCrDownload)
  {
    var name := "video.mp4" + ".crdownload";
    EndsWithAppend("video.mp4", ".crdownload");
    assert name == "video.mp4.crdownload";
    assert name in {"video.mp4.crdownload"} && IsCrDownload(name);
    EmptyFolderCompletes([{}], IsCrDownload);
  }

  // ---------------------------------------------------------------------
  // Archive extraction
  // ---------------------------------------------------------------------

  /** `glob('*' + ext)`: names with the extension, except hidden ones, which
      a leading `*` does not match. */
  predicate GlobMatches(name: string, ext: string) {
    EndsWith(name, ext) && !StartsWith(name, ".")
  }

  predicate IsZip(name: string) {
    GlobMatches(name, ".zip")
  }

  predicate IsRar(name: string) {
    GlobMatches(name, ".rar")
  }

  predicate Is7z(name: string) {
    GlobMatches(name, ".7z")
  }

  /** A name ending in `.rar` or `.7z` does not end in `.zip`. */
  lemma OtherArchivesAreNotZips(name: string)
    ensures IsRar(name) || Is7z(name) ==> !EndsWith(name, ".zip")
  {
    LastOfSuffix(name, ".zip");
    LastOfSuffix(name, ".rar");
    LastOfSuffix(name, ".7z");
  }

  /** The result of `extract_zip_files`: whether there was any zip to open,
      and the zips whose extraction went through. */
  datatype ZipRun = ZipRun(found: bool, extracted: seq<string>)

  /** `extract_zip_files`: false when the folder has no zip; otherwise every
      zip is tried, one that cannot be opened is reported and skipped, and
      the result is true. `extracts` says whether a given archive opens. */
  function ExtractZipFiles(names: seq<string>, extracts: string -> bool): (r: ZipRun)
    ensures r.found <==> exists i :: 0 <= i < |names| && IsZip(names[i])
    ensures forall z :: z in r.extracted <==> z in names && IsZip(z) && extracts(z)
  {
    var zips := Filter(IsZip, names);
    FilterMembers(IsZip, names);
    FilterMembers(extracts, zips);
    if |zips| == 0 then
      ZipRun(false, [])
    else
      assert zips[0] in names;
      ZipRun(true, Filter(extracts, zips))
  }

  /** `glob` order of `extract_archives`: all zips, then all rars, then all 7z files. */
  function ArchiveFiles(names: seq<string>): seq<string> {
    Filter(IsZip, names) + Filter(IsRar, names) + Filter(Is7z, names)
  }

  datatype ArchiveReport =
    | Extracted(name: string)
    | ExtractFailed(name: string)
    | Unsupported(name: string)

  /** What `extract_archives` says of one archive: only a `.zip` is opened. */
  function ReportFor(archive: string, extracts: string -> bool): (r: ArchiveReport)
    ensures r.name == archive
    ensures r.Unsupported? <==> !EndsWith(archive, ".zip")
    ensures r.Extracted? <==> EndsWith(archive, ".zip") && extracts(archive)
  {
    if EndsWith(archive, ".zip") then
      if extracts(archive) then Extracted(archive) else ExtractFailed(archive)
    else Unsupported(archive)
  }

  function Reports(archives: seq<string>, extracts: string -> bool): (r: seq<ArchiveReport>)
    ensures |r| == |archives|
  {
    if |archives| == 0 then [] else [ReportFor(archives[0], extracts)] + Reports(archives[1..], extracts)
  }

  lemma {:induction false} ReportsAt(archives: seq<string>, extracts: string -> bool, i: nat)
    requires i < |archives|
    ensures Reports(archives, extracts)[i] == ReportFor(archives[i], extracts)
  {
    if i > 0 {
      ReportsAt(archives[1..], extracts, i - 1);
    }
  }

  /** `extract_archives`: one report per archive in glob order, so a failure
      on one archive does not stop the others. */
  function ExtractArchives(names: seq<string>, extracts: string -> bool): (r: seq<ArchiveReport>)
    ensures |r| == |ArchiveFiles(names)|
  {
    Reports(ArchiveFiles(names), extracts)
  }

  /** Every archive gets its report; exactly the zips that open are
      extracted, and rar and 7z archives are only ever reported unsupported. */
  lemma ExtractArchivesReports(names: seq<string>, extracts: string -> bool, i: nat)
    requires i < |ArchiveFiles(names)|
    ensures var a := ArchiveFiles(names)[i]; var r := ExtractArchives(names, extracts)[i];
      r.name == a && a in names &&
      (r.Extracted? <==> IsZip(a) && extracts(a)) &&
      (r.Unsupported? <==> IsRar(a) || Is7z(a))
  {
    var a := ArchiveFiles(names)[i];
    ReportsAt(ArchiveFiles(names), extracts, i);
    ArchiveFileKind(names, i);
    OtherArchivesAreNotZips(a);
  }

  /** Each archive is one of the folder's names, of exactly one of the three kinds. */
  lemma ArchiveFileKind(names: seq<string>, i: nat)
    requires i < |ArchiveFiles(names)|
    ensures var a := ArchiveFiles(names)[i];
      a in names && (IsZip(a) || IsRar(a) || Is7z(a))
  {
    var zips := Filter(IsZip, names);
    var rars := Filter(IsRar, names);
    var sevens := Filter(Is7z, names);
    var a := ArchiveFiles(names)[i];
    FilterMembers(IsZip, names);
    FilterMembers(IsRar, names);
    FilterMembers(Is7z, names);
    if i < |zips| {
      assert a == zips[i];
    } else if i < |zips| + |rars| {
      assert a == rars[i - |zips|];
    } else {
      assert a == sevens[i - |zips| - |rars|];
    }
  }
}

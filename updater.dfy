/** `main`: fetch the release page, read the local version, parse the page,
    and download and install the package when the two versions differ.
    The network, the file system and the external commands are inputs:
    what each one returned, in the order the program asks for it. */
module Updater {
  import opened Errors
  import opened Strings
  import opened Html
  import opened ReleasePage
  import PageProperties
  import opened LocalVersion

  /** How `downloadFile` ends: each failure ends the program. */
  datatype Download = Completed | CreateFailed | RequestFailed | CopyFailed

  /** A run that ends normally. */
  datatype Status = UpToDate | Installed(version: string)

  /** What a run did: the link it set out to download, if it got that far
      (the download itself may still have failed), and how it ended. */
  datatype Outcome = Outcome(downloaded: Option<string>, result: Result<Status>)

  /** What the environment supplies to one run. */
  datatype World = World(
    page: Option<HtmlDocument>,      // the release page, or None when the request failed
    localOutput: Option<string>,     // output of `atom --version`, or None when it failed
    download: Download,              // how fetching the artifact to the fixed path went
    unpacked: bool,                  // whether `sudo dpkg --install` succeeded
    confirmOutput: Option<string>)   // output of `atom --version` after installing

  /** `downloadFile` followed by `unpackFile`: it ends installed only when
      every step worked, and then at the version the re-query reports. */
  function DownloadAndInstall(w: World): (r: Result<Status>)
    ensures r.Ok? <==> w.download == Completed && w.unpacked && GetLocalVersion(w.confirmOutput).Ok?
    ensures r.Ok? ==> r.value == Installed(GetLocalVersion(w.confirmOutput).value)
    ensures w.download == Completed && w.unpacked && GetLocalVersion(w.confirmOutput).Err? ==>
      r == Err(GetLocalVersion(w.confirmOutput).error)
    ensures w.download == CreateFailed ==> r == Err(CannotCreateFile)
    ensures w.download == RequestFailed ==> r == Err(CannotGetFile)
    ensures w.download == CopyFailed ==> r == Err(DownloadInterrupted)
    ensures w.download == Completed && !w.unpacked ==> r == Err(CannotUnpack)
  {
    match w.download
    case CreateFailed => Err(CannotCreateFile)
    case RequestFailed => Err(CannotGetFile)
    case CopyFailed => Err(DownloadInterrupted)
    case Completed =>
      if !w.unpacked then Err(CannotUnpack)
      else
        match GetLocalVersion(w.confirmOutput)
        case Err(e) => Err(e)
        case Ok(v) => Ok(Installed(v))
  }

  /** One run of the program. A failed page request is reported first, then a
      failed local version; a download is the last step, and its outcome is
      the run's. */
  function RunUpdater(w: World): (r: Outcome)
    ensures w.page.None? ==> r == Outcome(None, Err(NoConnection))
    ensures w.page.Some? && GetLocalVersion(w.localOutput).Err? ==>
      r == Outcome(None, Err(GetLocalVersion(w.localOutput).error))
    ensures w.page.Some? && GetLocalVersion(w.localOutput).Ok? && ExtractRelease(w.page.value).Err? ==>
      r == Outcome(None, Err(ExtractRelease(w.page.value).error))
    ensures r.downloaded.Some? ==> r.result == DownloadAndInstall(w)
  {
    match w.page
    case None => Outcome(None, Err(NoConnection))
    case Some(doc) =>
      match GetLocalVersion(w.localOutput)
      case Err(e) => Outcome(None, Err(e))
      case Ok(local) =>
        match ExtractRelease(doc)
        case Err(e) => Outcome(None, Err(e))
        case Ok(rel) =>
          if local == rel.version then Outcome(None, Ok(UpToDate))
          else Outcome(Some(rel.link), DownloadAndInstall(w))
  }

  /** The process exit status: 0 for a normal end, 2 for a Go runtime
      panic, 1 for every error that goes through `checkError`. */
  function ExitCode(o: Outcome): (code: int)
    ensures code == 0 <==> o.result.Ok?
    ensures code == 2 <==> o.result.Err? && IsPanic(o.result.error)
    ensures o.result.Err? && !IsPanic(o.result.error) ==> code == 1
  {
    match o.result
    case Ok(_) => 0
    case Err(e) => if IsPanic(e) then 2 else 1
  }

  /** A download happens only when the local version differs from the one
      on the page, and then it is of the link the page gave: the origin
      followed by an `href` that contains the package marker. */
  lemma DownloadOnlyWhenVersionsDiffer(w: World)
    requires RunUpdater(w).downloaded.Some?
    ensures w.page.Some? && GetLocalVersion(w.localOutput).Ok? && ExtractRelease(w.page.value).Ok?
    ensures var rel := ExtractRelease(w.page.value).value;
      GetLocalVersion(w.localOutput).value != rel.version
      && RunUpdater(w).downloaded.value == rel.link
      && Origin <= rel.link && IsSubstring(PackageMarker, rel.link)
  {
    var rel := ExtractRelease(w.page.value).value;
    if w.page.value.Parsed? {
      PageProperties.ReleaseLinkOrigin(w.page.value.root, rel);
    }
  }

  /** Equal versions mean "up to date" with no download; this is the only
      way to end with UpToDate. */
  lemma UpToDateIffVersionsEqual(w: World)
    ensures RunUpdater(w).result == Ok(UpToDate) <==>
      w.page.Some? && GetLocalVersion(w.localOutput).Ok? && ExtractRelease(w.page.value).Ok?
      && GetLocalVersion(w.localOutput).value == ExtractRelease(w.page.value).value.version
    ensures RunUpdater(w).result == Ok(UpToDate) ==> RunUpdater(w).downloaded.None?
  {
  }

  /** When every step succeeds and the versions differ, the parsed link is
      downloaded and the run ends as downloading and installing it ends. */
  lemma DifferentVersionsDownload(w: World)
    requires w.page.Some? && GetLocalVersion(w.localOutput).Ok? && ExtractRelease(w.page.value).Ok?
    requires GetLocalVersion(w.localOutput).value != ExtractRelease(w.page.value).value.version
    ensures RunUpdater(w) == Outcome(Some(ExtractRelease(w.page.value).value.link), DownloadAndInstall(w))
  {
  }

  /** The page's version text is compared as it stands, while the local one
      is trimmed: a page version with white space at either end never
      matches, so every such run goes on to download. */
  lemma UntrimmedPageVersionAlwaysDownloads(w: World)
    requires w.page.Some? && GetLocalVersion(w.localOutput).Ok? && ExtractRelease(w.page.value).Ok?
    requires !IsTrimmed(ExtractRelease(w.page.value).value.version)
    ensures RunUpdater(w).downloaded == Some(ExtractRelease(w.page.value).value.link)
  {
  }

  /** From a page without a release-title heading nothing is downloaded and
      the program fails; with a readable local version the error is HtmlChanged. */
  lemma PageWithoutTitleNeverDownloads(w: World, root: Node)
    requires w.page == Some(Parsed(root))
    requires !PageProperties.HasTitle(PreOrder(root))
    ensures RunUpdater(w).downloaded.None? && ExitCode(RunUpdater(w)) != 0
    ensures GetLocalVersion(w.localOutput).Ok? ==> RunUpdater(w).result == Err(HtmlChanged)
  {
    PageProperties.NoTitleMeansHtmlChanged(root);
  }

  /** Once the package is installed, a failed re-query of the version still
      ends the run with an error. */
  lemma ConfirmationFailureIsFatal(w: World)
    requires RunUpdater(w).downloaded.Some?
    requires w.download == Completed && w.unpacked
    requires GetLocalVersion(w.confirmOutput).Err?
    ensures RunUpdater(w).result == Err(GetLocalVersion(w.confirmOutput).error)
    ensures ExitCode(RunUpdater(w)) != 0
  {
  }

  /** A re-query whose first line has no colon panics inside `unpackFile`,
      before `checkError` is reached: the exit status is 2, not 1. */
  lemma ConfirmationWithoutColonPanics(w: World, out: string)
    requires RunUpdater(w).downloaded.Some?
    requires w.download == Completed && w.unpacked
    requires w.confirmOutput == Some(out) && ':' !in FirstLine(out)
    ensures RunUpdater(w).result == Err(UnexpectedFormat)
    ensures ExitCode(RunUpdater(w)) == 2
  {
  }

  /** A local output `<prefix>: <version>` whose version equals the
      (trimmed, single-line) one the page advertises ends with "up to date"
      and no download. */
  lemma SameVersionScenario(w: World, prefix: string, gap: string, rest: string)
    requires w.page.Some? && ExtractRelease(w.page.value).Ok?
    requires IsTrimmed(ExtractRelease(w.page.value).value.version)
    requires '\n' !in ExtractRelease(w.page.value).value.version
    requires ':' !in prefix && '\n' !in prefix && AllSpace(gap) && '\n' !in gap
    requires w.localOutput == Some(prefix + ":" + gap + ExtractRelease(w.page.value).value.version + "\n" + rest)
    ensures RunUpdater(w) == Outcome(None, Ok(UpToDate))
  {
    var v := ExtractRelease(w.page.value).value.version;
    assert prefix + ":" + gap + v + "\n" + rest == prefix + ":" + gap + v + "" + "\n" + rest;
    VersionRoundTrip(prefix, gap, v, "", rest);
  }
}

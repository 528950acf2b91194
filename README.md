# atom-editor-updater, modelled in Dafny

`atom-editor-updater` is a small Go program that checks whether the installed
Atom editor's version differs from the latest GitHub release and, if so, downloads the
amd64 Debian package and installs it with `dpkg`. This project models its
logic:

- **the release-page walk** (`parsePage`): a depth-first walk over the parsed
  HTML tree that takes the version from an `h1` whose `class` contains
  `release-title` (the `Data` of `FirstChild.NextSibling.FirstChild`), takes
  the link from an `a` whose `href` contains `/atom-amd64.deb` (prefixed with
  `https://github.com`), stops descending once both are set, and fails unless
  both are non-empty;
- **the local version** (`getLocalVersion`): the text after the first `:` of
  the first line of `atom --version`, trimmed;
- **the update decision** in `main`: plain string equality between the two;
- **the progress line** (`statusBar`): `>\r` growing by one `=` per tick and
  wrapping at length 20, until the download signals completion.

Layout, one module per file:

| file | module | models |
|---|---|---|
| errors.dfy | `Errors` | the failures, `Option`, `Result` |
| strings.dfy | `Strings` | `strings.SplitN`, `strings.TrimSpace`, `unicode.IsSpace`, unanchored literal regex matching |
| html.dfy | `Html` | the node tree of `golang.org/x/net/html`, and its pre-order |
| release_page.dfy | `ReleasePage` | `parsePage`: the walk as functions (`Walk`, `WalkChildren`, `ExtractRelease`) and as the source's imperative code (`Visit`, `ParsePage`) |
| page_properties.dfy | `PageProperties` | a reference reading of the walk as a pre-order scan (`ScanNodes`), proved equal to it, and the properties of `parsePage` |
| local_version.dfy | `LocalVersion` | `getLocalVersion` |
| progress.dfy | `Progress` | `statusBar` |
| updater.dfy | `Updater` | `main`, `downloadFile` and `unpackFile` as a function of what the outside world returns |
| scenarios.dfy | `Scenarios` | a sample release page and the two runs against it |

Modelling choices:

- A node's `FirstChild`/`NextSibling` chain is its `children` sequence, so
  `FirstChild.NextSibling.FirstChild` is `children[1].children[0]`. Where one
  of those pointers is nil the source dereferences nil and panics; the model
  gives the error `NilDereference`.
- The closure `f` assigns the captured `version` and `link`. `Visit` passes
  them in and hands them back, and is proved to compute `Walk`.
- `regexp.MatchString` with the patterns `release-title` and
  `.*/atom-amd64\.deb` is unanchored: it holds exactly when the literal text
  occurs in the value (`Contains`, proved equal to `IsSubstring`).
- `atom --version` output whose first line has no `:` makes the source index
  past the end of `SplitN`'s result and panic; the model returns
  `UnexpectedFormat`.
- Go panics end the process with status 2. Errors passed to `checkError` end
  it with status 1 (`ExitCode`).
- Strings are sequences of Unicode scalar values. `TrimSpace` removes the
  characters `unicode.IsSpace` accepts.

Points where the code behaves otherwise than a reader might expect:

- The class and the href are matched by substring, not by exact class or
  suffix.
- The version is the first child of the heading's second child, not its first
  grandchild.
- A failed version re-query after installing ends the program with an error,
  not a warning: status 1 when the command fails (`unpackFile` calls
  `checkError`), status 2 when the first line of its output has no colon (the
  index past the end of `SplitN`'s result panics before `checkError` runs).
- The local version is read before the page is parsed, so a missing
  installation is reported even when the page has changed.
- The page's version text is compared untrimmed against the trimmed local
  version (`UntrimmedPageVersionAlwaysDownloads`).

## Model

| member | source | states |
|---|---|---|
| `Strings.Contains` | atom-editor-updater.go:87 | an unanchored literal pattern matches exactly when it occurs somewhere in the value |
| `Strings.FirstLine` | atom-editor-updater.go:66 | the result is a prefix of the output with no line feed, followed by a line feed or the end of the output |
| `Strings.AfterFirstColon` | atom-editor-updater.go:67 | None exactly when the line has no colon; otherwise the text after a colon with no colon before it |
| `Strings.TrimSpace` | atom-editor-updater.go:69 | the result has no white space at either end and is the input with only white space removed before and after it |
| `Strings.TrimSpacePadding` | atom-editor-updater.go:69 | trimming undoes white-space padding around a trimmed text |
| `ReleasePage.FindAttr` | atom-editor-updater.go:86-91 | the attribute loop stops at the first attribute that has the key and contains the marker; None when no attribute does |
| `ReleasePage.MatchAttr` | atom-editor-updater.go:95-101 | the loop over the attributes, breaking at the first match, finds exactly that first matching attribute |
| `ReleasePage.PackageLink` | atom-editor-updater.go:94-100 | a link comes only from an `a` element, starts with `https://github.com` and is followed by an `href` value containing `/atom-amd64.deb`; every `a` element with such an `href` yields a link, built from the first such attribute |
| `ReleasePage.VersionText` | atom-editor-updater.go:89 | the text at `FirstChild.NextSibling.FirstChild`, None where a pointer on that path is nil (definition; `CrashNeedsBrokenTitle` ties None to the panic) |
| `ReleasePage.VisitNode` | atom-editor-updater.go:85-101 | what the closure does at one node before its children (definition; `VersionComesFromTitle`, `LinkComesFromAnchor` and `VersionKeptWithoutTitles` state its effect) |
| `ReleasePage.Walk` | atom-editor-updater.go:84-109 | the closure as a function on the tree (definition; `WalkIsScan` proves it equals the pre-order scan, `Visit` that the imperative closure computes it) |
| `ReleasePage.WalkChildren` | atom-editor-updater.go:103-108 | the sibling loop from child `i`, stopping once both values are set (definition; `ChildrenAreScan` proves it equals the scan of those subtrees) |
| `ReleasePage.ExtractRelease` | atom-editor-updater.go:111-116 | a release always has both values non-empty; `ParseFailed` exactly when the page could not be parsed |
| `ReleasePage.Visit` | atom-editor-updater.go:84-109 | the imperative closure, with its attribute loops and early-breaking sibling loop, computes exactly the functional walk, crash included |
| `ReleasePage.ParsePage` | atom-editor-updater.go:74-117 | no partial result: both values non-empty and no error, or both empty with the error `ExtractRelease` gives |
| `PageProperties.ScanAppend` | atom-editor-updater.go:103-108 | scanning two node lists in turn equals scanning their concatenation |
| `PageProperties.WalkIsScan` | atom-editor-updater.go:84-109 | from a state with a value missing, the recursive walk equals the pre-order scan of the subtree |
| `PageProperties.ChildrenAreScan` | atom-editor-updater.go:103-108 | the sibling loop from child `i` equals the scan of those children's subtrees in pre-order |
| `PageProperties.ExtractIsScan` | atom-editor-updater.go:111 | the walk from the empty values is the pre-order scan of the whole document |
| `PageProperties.LinkComesFromAnchor` | atom-editor-updater.go:94-100 | a link the scan did not start with was built from an `a` element among the scanned nodes |
| `PageProperties.VersionComesFromTitle` | atom-editor-updater.go:85-92 | a version the scan did not start with is the nested text of a release-title heading among the scanned nodes |
| `PageProperties.CrashNeedsBrokenTitle` | atom-editor-updater.go:89 | a crash happens only at a release-title heading that lacks `FirstChild.NextSibling.FirstChild` |
| `PageProperties.ReleaseLinkOrigin` | atom-editor-updater.go:94-100 | any returned link is `https://github.com` followed by the `href` of an `a` element of the page, and contains `/atom-amd64.deb` |
| `PageProperties.ReleaseVersionOrigin` | atom-editor-updater.go:85-92 | any returned version is the text at the fixed offset inside an `h1` of the page whose `class` contains `release-title` |
| `PageProperties.NilDereferenceOrigin` | atom-editor-updater.go:89 | parsePage panics only on a page with a release-title heading lacking the nested text node |
| `PageProperties.FoundIsFinal` | atom-editor-updater.go:103-106 | once both values are set, the nodes that follow change nothing |
| `PageProperties.ResultFixedOnceFound` | atom-editor-updater.go:103-116 | if a pre-order prefix of the page sets both values, parsePage returns those values whatever the rest of the page holds |
| `PageProperties.VersionKeptWithoutTitles` | atom-editor-updater.go:85-92 | nodes that are not release-title headings neither crash the walk nor change the version |
| `PageProperties.LinkKeptWithoutAnchors` | atom-editor-updater.go:94-100 | nodes that supply no package link do not change the link |
| `PageProperties.LastTitleWins` | atom-editor-updater.go:85-108 | while a value is missing, a later release-title heading overwrites the version: the last one visited wins |
| `PageProperties.LastAnchorWins` | atom-editor-updater.go:94-108 | while a value is missing, a later package link overwrites the link: the last one visited wins |
| `PageProperties.ScanWellShaped` | atom-editor-updater.go:84-109 | when every title heading has non-empty nested text the scan never crashes, and each value is set once its element has been seen |
| `PageProperties.WellShapedPageYieldsRelease` | atom-editor-updater.go:111-116 | a page with a well-shaped title heading and a package link yields a release |
| `PageProperties.NoTitleMeansHtmlChanged` | atom-editor-updater.go:112-113 | a page without a release-title heading fails with the "HTML has changed" error |
| `PageProperties.NoAnchorMeansNoRelease` | atom-editor-updater.go:112-113 | a page without a package link yields no release |
| `LocalVersion.GetLocalVersion` | atom-editor-updater.go:57-70 | a failed command gives NotInstalled; a first line without a colon gives UnexpectedFormat and nothing else does; a version has no white space at its ends and no line feed |
| `LocalVersion.VersionAfterFirstColon` | atom-editor-updater.go:66-69 | the version is the trimmed text after the first colon of the first line |
| `LocalVersion.VersionRoundTrip` | atom-editor-updater.go:66-69 | output `<prefix>:<spaces><version><spaces>\n<rest>` reads back as exactly that version |
| `Progress.Frame` | atom-editor-updater.go:170-188 | the line shown at tick `t` (definition; `FrameShape` gives its shape and `StatusBar` proves the loop prints it) |
| `Progress.Advance` | atom-editor-updater.go:184-188 | one tick's update of the line (definition; `NextFrame` proves it steps `Frame(t)` to `Frame(t + 1)`) |
| `Progress.FrameShape` | atom-editor-updater.go:170-188 | every line shown is some `=` signs followed by `>\r`, of length 2 to 19 |
| `Progress.NextFrame` | atom-editor-updater.go:184-188 | one tick's update turns the frame of tick `t` into that of tick `t + 1`: one more `=`, or back to `>\r` after 17 |
| `Progress.StatusBar` | atom-editor-updater.go:169-191 | prints the frame of tick `t` on each tick, stops right after the first tick where `done` fired, and runs through every tick when it never fires |
| `Updater.DownloadAndInstall` | atom-editor-updater.go:132-167 | ends installed exactly when the download completed, the package unpacked and the re-query read a version, and then at that version; a failed create, request, copy, unpack or re-query gives its own error |
| `Updater.RunUpdater` | atom-editor-updater.go:18-54 | a failed page request is reported first, then a failed local version, then the error `parsePage` gives, each with no download; when something is downloaded, the run ends as downloading and installing does |
| `Updater.ExitCode` | atom-editor-updater.go:193-196 | status 0 exactly for a normal end, 2 exactly for the two panics, 1 otherwise |
| `Updater.DownloadOnlyWhenVersionsDiffer` | atom-editor-updater.go:37-48 | a download happens only when every earlier step succeeded and the versions differ, and then of the parsed link |
| `Updater.UpToDateIffVersionsEqual` | atom-editor-updater.go:37-38 | the run ends "up to date" exactly when all steps succeeded and the versions are equal, and then nothing is downloaded |
| `Updater.DifferentVersionsDownload` | atom-editor-updater.go:39-53 | when every step succeeds and the versions differ, the parsed link is downloaded and the run ends as downloading and installing does |
| `Updater.UntrimmedPageVersionAlwaysDownloads` | atom-editor-updater.go:37-48 | a page version with white space at an end never equals the trimmed local version, so the run downloads |
| `Updater.PageWithoutTitleNeverDownloads` | atom-editor-updater.go:32-35 | a page without a release-title heading ends the run in failure before any download |
| `Updater.ConfirmationFailureIsFatal` | atom-editor-updater.go:161-164 | after a completed install, a failed version re-query still ends the run with that error |
| `Updater.ConfirmationWithoutColonPanics` | atom-editor-updater.go:161-164 | after a completed install, a re-query whose first line has no colon ends the run with the panic, exit status 2 |
| `Updater.SameVersionScenario` | atom-editor-updater.go:37-38 | local output `<prefix>: <v>` against a page advertising the trimmed `v` ends up to date with no download |
| `Scenarios.HeadingWalk` | atom-editor-updater.go:85-92 | the sample heading sets the version to the text of its `span` |
| `Scenarios.AnchorWalk` | atom-editor-updater.go:94-100 | the sample anchor sets the absolute package link |
| `Scenarios.SamplePageRelease` | atom-editor-updater.go:74-117 | the sample page yields version `1.60.0` and the absolute package link |
| `Scenarios.UpToDateRun` | atom-editor-updater.go:37-38 | the `Atom    : 1.60.0` banner against the sample page is up to date, with no download |
| `Scenarios.UpdateRun` | atom-editor-updater.go:39-53 | the `Atom    : 1.59.0` banner against the sample page downloads the package link and ends installed at 1.60.0 |
| `Scenarios.LocalOutput` | atom-editor-updater.go:66-69 | the `Atom    : <v>` banner line, followed by any further lines, reads back as `v` for every single-line version without white space at its ends |
| `Scenarios.NoColonRun` | atom-editor-updater.go:66-67 | output whose first line has no colon is a declared failure |

## Left out

- Fetching the release page and the package over HTTP (`getLatestReleasePage`, `downloadFile`): network I/O. The model takes whether each request worked as input.
- Creating `/tmp/atom_latest.deb` and copying the body into it: file-system I/O. Only how `downloadFile` ended is an input.
- Running `atom --version` and `sudo dpkg --install`: external processes. Their output text or success flag is an input.
- `html.Parse`: a foreign library. Its tree, or its error, is the input of `ParsePage`.
- The `regexp` engine: replaced by the equivalent substring test.
- The goroutine, the `done` channel, the `select` and the one-second sleep: concurrency and timing. `done` is one boolean per tick.
- Progress.StatusBar: stops at the end of its finite tick sequence when `done` never fires, where the source would keep waiting.
- All `fmt` printing, including the error message texts and the byte count after the download: console output. Which error occurred is kept.
- `checkError` calling `os.Exit`: process termination. It is modelled as the error result and `ExitCode`.
- Invalid UTF-8 in command output or in the page: strings here are sequences of Unicode scalar values.

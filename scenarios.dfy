/** Concrete runs: a small release page of the expected shape, and the
    two outcomes of comparing it with a local installation. */
module Scenarios {
  import opened Errors
  import opened Strings
  import opened Html
  import opened ReleasePage
  import opened LocalVersion
  import opened Updater

  function Text(s: string): Node {
    Node(TextNode, s, [], [])
  }

  const TitleClass := "d-inline mr-3 release-title"
  const PackageHref := "/atom/atom/releases/download/v1.60.0/atom-amd64.deb"

  /** `<h1 class="... release-title">\n<span>1.60.0</span>\n</h1>` */
  const Heading := Node(ElementNode, "h1", [Attribute("class", TitleClass)],
    [Text("\n"), Node(ElementNode, "span", [], [Text("1.60.0")]), Text("\n")])

  /** `<a href=".../atom-amd64.deb">atom-amd64.deb</a>` */
  const Anchor := Node(ElementNode, "a", [Attribute("href", PackageHref)], [Text("atom-amd64.deb")])

  const Page := Node(DocumentNode, "", [], [Heading, Anchor])

  /** The heading sets the version to the text of its `span` and nothing else. */
  lemma HeadingWalk()
    ensures Walk(Heading, Initial) == Running(Scan("1.60.0", ""))
  {
    var v := Scan("1.60.0", "");
    assert OccursAt(TitleMarker, TitleClass, 14);
    assert FindAttr(Heading.attrs, "class", TitleMarker) == Some(0);
    assert VisitNode(Heading, Initial) == Running(v);
    var span := Heading.children[1];
    assert Walk(span.children[0], v) == Running(v);
    assert WalkChildren(span, 0, v) == Running(v);
    assert Walk(span, v) == Running(v);
    assert Walk(Heading.children[0], v) == Running(v);
    assert Walk(Heading.children[2], v) == Running(v);
    assert WalkChildren(Heading, 2, v) == Running(v);
    assert WalkChildren(Heading, 0, v) == Running(v);
  }

  /** The anchor sets the link, after which the walk is done. */
  lemma AnchorWalk()
    ensures Walk(Anchor, Scan("1.60.0", "")) == Running(Scan("1.60.0", Origin + PackageHref))
  {
    var found := Scan("1.60.0", Origin + PackageHref);
    assert OccursAt(PackageMarker, PackageHref, 36);
    assert FindAttr(Anchor.attrs, "href", PackageMarker) == Some(0);
    assert VisitNode(Anchor, Scan("1.60.0", "")) == Running(found);
    assert WalkChildren(Anchor, 0, found) == Running(found);
  }

  /** The sample page yields its version and the absolute package link. */
  lemma SamplePageRelease()
    ensures ExtractRelease(Parsed(Page))
      == Ok(Release("1.60.0", Origin + PackageHref))
  {
    HeadingWalk();
    AnchorWalk();
    var found := Scan("1.60.0", Origin + PackageHref);
    assert WalkChildren(Page, 1, Scan("1.60.0", "")) == Running(found);
    assert WalkChildren(Page, 0, Initial) == Running(found);
    assert Walk(Page, Initial) == Running(found);
  }

  /** `atom --version` reporting 1.60.0 against the sample page: already up to date. */
  lemma UpToDateRun(download: Download, unpacked: bool, confirm: Option<string>)
    ensures RunUpdater(World(Some(Parsed(Page)), Some(Banner("1.60.0") + "Electron: 9.4.4\n"), download, unpacked, confirm))
      == Outcome(None, Ok(UpToDate))
  {
    SamplePageRelease();
    LocalOutput("1.60.0", "Electron: 9.4.4\n");
  }

  /** `atom --version` reporting 1.59.0: the package is downloaded and
      installed, and the re-query reports 1.60.0. */
  lemma UpdateRun()
    ensures RunUpdater(World(Some(Parsed(Page)), Some(Banner("1.59.0")), Completed, true, Some(Banner("1.60.0"))))
      == Outcome(Some(Origin + PackageHref), Ok(Installed("1.60.0")))
  {
    SamplePageRelease();
    LocalOutput("1.59.0", "");
    LocalOutput("1.60.0", "");
    assert Banner("1.59.0") + "" == Banner("1.59.0") && Banner("1.60.0") + "" == Banner("1.60.0");
    assert "1.59.0"[3] != "1.60.0"[3];
  }

  /** The first line `atom --version` prints, for a given version. */
  function Banner(v: string): string {
    "Atom    : " + v + "\n"
  }

  /** That line, followed by any further lines, reads back as the version,
      for any single-line version without white space at its ends. */
  lemma LocalOutput(v: string, rest: string)
    requires IsTrimmed(v) && '\n' !in v
    ensures GetLocalVersion(Some(Banner(v) + rest)) == Ok(v)
  {
    assert Banner(v) + rest == "Atom    " + ":" + " " + v + "" + "\n" + rest;
    VersionRoundTrip("Atom    ", " ", v, "", rest);
  }

  /** Output whose first line has no colon is a declared failure. */
  lemma NoColonRun()
    ensures GetLocalVersion(Some("1.60.0\nAtom: x")) == Err(UnexpectedFormat)
  {
    var line := "1.60.0";
    var out := line + ['\n'] + "Atom: x";
    IndexOfAfter(line, '\n', "Atom: x");
    assert out[..|line|] == line;
    assert FirstLine(out) == line;
    assert ':' !in line;
    assert AfterFirstColon(line) == None;
    assert GetLocalVersion(Some(out)) == Err(UnexpectedFormat);
    assert out == "1.60.0\nAtom: x";
  }
}

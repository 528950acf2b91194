/** What `parsePage` promises, proved through an independent reading of the
    walk: a scan of the document's nodes in depth-first pre-order that
    stops as soon as both values are set. */
module PageProperties {
  import opened Errors
  import opened Strings
  import opened Html
  import opened ReleasePage

  /** Visit the nodes one after another until both values are set. */
  function ScanNodes(nodes: seq<Node>, s: Scan): Step {
    if nodes == [] || s.Found() then Running(s)
    else
      match VisitNode(nodes[0], s)
      case Crashed => Crashed
      case Running(t) => ScanNodes(nodes[1..], t)
  }

  /** Continue a scan with more nodes. */
  function Then(st: Step, rest: seq<Node>): Step {
    match st
    case Crashed => Crashed
    case Running(t) => ScanNodes(rest, t)
  }

  /** Scanning two lists one after the other is scanning their concatenation. */
  lemma {:induction false} ScanAppend(a: seq<Node>, b: seq<Node>, s: Scan)
    ensures ScanNodes(a + b, s) == Then(ScanNodes(a, s), b)
    decreases |a|
  {
    if a == [] {
      assert a + b == b;
    } else if !s.Found() {
      assert (a + b)[0] == a[0] && (a + b)[1..] == a[1..] + b;
      match VisitNode(a[0], s)
      case Crashed =>
      case Running(t) => ScanAppend(a[1..], b, t);
    }
  }

  /** The recursive walk is the pre-order scan. */
  lemma {:induction false} WalkIsScan(n: Node, s: Scan)
    requires !s.Found()
    ensures Walk(n, s) == ScanNodes(PreOrder(n), s)
    decreases n, 1
  {
    var rest := PreOrderFrom(n, 0);
    assert PreOrder(n)[1..] == rest;
    match VisitNode(n, s)
    case Crashed =>
    case Running(t) => ChildrenAreScan(n, 0, t);
  }

  /** The sibling loop from child `i` is the scan of those children's subtrees. */
  lemma {:induction false} ChildrenAreScan(n: Node, i: nat, s: Scan)
    requires i <= |n.children|
    ensures WalkChildren(n, i, s) == ScanNodes(PreOrderFrom(n, i), s)
    decreases n, 0, |n.children| - i
  {
    if i < |n.children| && !s.Found() {
      var c := n.children[i];
      WalkIsScan(c, s);
      ScanAppend(PreOrder(c), PreOrderFrom(n, i + 1), s);
      match Walk(c, s)
      case Crashed =>
      case Running(t) => ChildrenAreScan(n, i + 1, t);
    }
  }

  /** The result of parsePage over a parsed tree, read as a scan. */
  lemma ExtractIsScan(root: Node)
    ensures Walk(root, Initial) == ScanNodes(PreOrder(root), Initial)
  {
    WalkIsScan(root, Initial);
  }

  // ---------------------------------------------------------------------
  // Where the two values come from.

  /** A link that is not the one the scan started with was built from an
      `a` element among the scanned nodes. */
  lemma {:induction false} LinkComesFromAnchor(nodes: seq<Node>, s: Scan)
    requires ScanNodes(nodes, s).Running?
    ensures var t := ScanNodes(nodes, s).scan;
      t.link == s.link || exists j :: 0 <= j < |nodes| && PackageLink(nodes[j]) == Some(t.link)
    decreases |nodes|
  {
    if nodes != [] && !s.Found() {
      var t := VisitNode(nodes[0], s).scan;
      LinkComesFromAnchor(nodes[1..], t);
      var u := ScanNodes(nodes, s).scan;
      if u.link != t.link {
        var j :| 0 <= j < |nodes[1..]| && PackageLink(nodes[1..][j]) == Some(u.link);
        assert nodes[j + 1] == nodes[1..][j];
      }
    }
  }

  /** A version that is not the one the scan started with is the nested
      text of a release-title heading among the scanned nodes. */
  lemma {:induction false} VersionComesFromTitle(nodes: seq<Node>, s: Scan)
    requires ScanNodes(nodes, s).Running?
    ensures var t := ScanNodes(nodes, s).scan;
      t.version == s.version
      || exists j :: 0 <= j < |nodes| && IsTitleHeading(nodes[j]) && VersionText(nodes[j]) == Some(t.version)
    decreases |nodes|
  {
    if nodes != [] && !s.Found() {
      var t := VisitNode(nodes[0], s).scan;
      VersionComesFromTitle(nodes[1..], t);
      var u := ScanNodes(nodes, s).scan;
      if u.version != t.version {
        var j :| 0 <= j < |nodes[1..]| && IsTitleHeading(nodes[1..][j]) && VersionText(nodes[1..][j]) == Some(u.version);
        assert nodes[j + 1] == nodes[1..][j];
      }
    }
  }

  /** A crash happens only at a release-title heading without the nested text node. */
  lemma {:induction false} CrashNeedsBrokenTitle(nodes: seq<Node>, s: Scan)
    requires ScanNodes(nodes, s) == Crashed
    ensures exists j :: 0 <= j < |nodes| && IsTitleHeading(nodes[j]) && VersionText(nodes[j]) == None
    decreases |nodes|
  {
    if VisitNode(nodes[0], s).Running? {
      CrashNeedsBrokenTitle(nodes[1..], VisitNode(nodes[0], s).scan);
      var j :| 0 <= j < |nodes[1..]| && IsTitleHeading(nodes[1..][j]) && VersionText(nodes[1..][j]) == None;
      assert nodes[j + 1] == nodes[1..][j];
    }
  }

  /** Any link parsePage returns is the origin followed by the `href` of an
      `a` element of the page, and that `href` contains the package marker. */
  lemma ReleaseLinkOrigin(root: Node, rel: Release)
    requires ExtractRelease(Parsed(root)) == Ok(rel)
    ensures exists j :: 0 <= j < |PreOrder(root)| && PackageLink(PreOrder(root)[j]) == Some(rel.link)
    ensures Origin <= rel.link && IsSubstring(PackageMarker, rel.link)
  {
    ExtractIsScan(root);
    LinkComesFromAnchor(PreOrder(root), Initial);
  }

  /** Any version parsePage returns is the text at
      `FirstChild.NextSibling.FirstChild` of a release-title `h1` of the page. */
  lemma ReleaseVersionOrigin(root: Node, rel: Release)
    requires ExtractRelease(Parsed(root)) == Ok(rel)
    ensures exists j :: 0 <= j < |PreOrder(root)| && IsTitleHeading(PreOrder(root)[j])
                        && VersionText(PreOrder(root)[j]) == Some(rel.version)
  {
    ExtractIsScan(root);
    VersionComesFromTitle(PreOrder(root), Initial);
  }

  /** parsePage panics only on a release-title heading that lacks the nested text. */
  lemma NilDereferenceOrigin(root: Node)
    requires ExtractRelease(Parsed(root)) == Err(NilDereference)
    ensures exists j :: 0 <= j < |PreOrder(root)| && IsTitleHeading(PreOrder(root)[j])
                        && VersionText(PreOrder(root)[j]) == None
  {
    ExtractIsScan(root);
    CrashNeedsBrokenTitle(PreOrder(root), Initial);
  }

  // ---------------------------------------------------------------------
  // Stopping and overwriting.

  /** Once both values are set, the nodes that follow change nothing. */
  lemma FoundIsFinal(a: seq<Node>, b: seq<Node>, s: Scan)
    requires ScanNodes(a, s).Running? && ScanNodes(a, s).scan.Found()
    ensures ScanNodes(a + b, s) == ScanNodes(a, s)
  {
    ScanAppend(a, b, s);
  }

  /** If the first `k` nodes of the page in pre-order set both values, the
      rest of the page has no bearing on what parsePage returns. */
  lemma ResultFixedOnceFound(root: Node, k: nat)
    requires k <= |PreOrder(root)|
    requires ScanNodes(PreOrder(root)[..k], Initial).Running?
    requires ScanNodes(PreOrder(root)[..k], Initial).scan.Found()
    ensures var t := ScanNodes(PreOrder(root)[..k], Initial).scan;
      ExtractRelease(Parsed(root)) == Ok(Release(t.version, t.link))
  {
    var nodes := PreOrder(root);
    assert nodes == nodes[..k] + nodes[k..];
    FoundIsFinal(nodes[..k], nodes[k..], Initial);
    ExtractIsScan(root);
  }

  /** Nodes that are not release-title headings leave the version alone. */
  lemma {:induction false} VersionKeptWithoutTitles(nodes: seq<Node>, s: Scan)
    requires forall j :: 0 <= j < |nodes| ==> !IsTitleHeading(nodes[j])
    ensures ScanNodes(nodes, s).Running? && ScanNodes(nodes, s).scan.version == s.version
    decreases |nodes|
  {
    if nodes != [] && !s.Found() {
      VersionKeptWithoutTitles(nodes[1..], VisitNode(nodes[0], s).scan);
    }
  }

  /** Nodes that supply no package link leave the link alone. */
  lemma {:induction false} LinkKeptWithoutAnchors(nodes: seq<Node>, s: Scan)
    requires forall j :: 0 <= j < |nodes| ==> PackageLink(nodes[j]).None?
    requires ScanNodes(nodes, s).Running?
    ensures ScanNodes(nodes, s).scan.link == s.link
    decreases |nodes|
  {
    if nodes != [] && !s.Found() {
      LinkKeptWithoutAnchors(nodes[1..], VisitNode(nodes[0], s).scan);
    }
  }

  /** While a value is still missing, a later release-title heading
      overwrites the version: the last one visited wins. */
  lemma LastTitleWins(a: seq<Node>, m: Node, b: seq<Node>, s: Scan, v: string)
    requires ScanNodes(a, s).Running? && !ScanNodes(a, s).scan.Found()
    requires IsTitleHeading(m) && VersionText(m) == Some(v)
    requires forall j :: 0 <= j < |b| ==> !IsTitleHeading(b[j])
    ensures ScanNodes(a + [m] + b, s).Running?
    ensures ScanNodes(a + [m] + b, s).scan.version == v
  {
    var t := ScanNodes(a, s).scan;
    ScanAppend(a, [m], s);
    assert ScanNodes([m], t) == Running(t.(version := v));
    ScanAppend(a + [m], b, s);
    VersionKeptWithoutTitles(b, t.(version := v));
  }

  /** While a value is still missing, a later package link overwrites the
      link: the last one visited wins. */
  lemma LastAnchorWins(a: seq<Node>, m: Node, b: seq<Node>, s: Scan, l: string)
    requires ScanNodes(a, s).Running? && !ScanNodes(a, s).scan.Found()
    requires PackageLink(m) == Some(l)
    requires forall j :: 0 <= j < |b| ==> PackageLink(b[j]).None?
    requires ScanNodes(a + [m] + b, s).Running?
    ensures ScanNodes(a + [m] + b, s).scan.link == l
  {
    var t := ScanNodes(a, s).scan;
    assert !IsTitleHeading(m);
    ScanAppend(a, [m], s);
    assert ScanNodes([m], t) == Running(t.(link := l));
    ScanAppend(a + [m], b, s);
    LinkKeptWithoutAnchors(b, t.(link := l));
  }

  // ---------------------------------------------------------------------
  // Success and failure of the whole page.

  /** Every release-title heading has a non-empty text at the fixed offset. */
  ghost predicate WellShaped(nodes: seq<Node>) {
    forall j :: 0 <= j < |nodes| && IsTitleHeading(nodes[j]) ==>
      VersionText(nodes[j]).Some? && VersionText(nodes[j]).value != ""
  }

  ghost predicate HasTitle(nodes: seq<Node>) {
    exists j :: 0 <= j < |nodes| && IsTitleHeading(nodes[j])
  }

  ghost predicate HasAnchor(nodes: seq<Node>) {
    exists j :: 0 <= j < |nodes| && PackageLink(nodes[j]).Some?
  }

  /** On well-shaped nodes the scan never crashes, and a value is set once
      its element has been seen. */
  lemma {:induction false} ScanWellShaped(nodes: seq<Node>, s: Scan)
    requires WellShaped(nodes)
    ensures ScanNodes(nodes, s).Running?
    ensures s.version != "" || HasTitle(nodes) ==> ScanNodes(nodes, s).scan.version != ""
    ensures s.link != "" || HasAnchor(nodes) ==> ScanNodes(nodes, s).scan.link != ""
    decreases |nodes|
  {
    if nodes != [] && !s.Found() {
      var t := VisitNode(nodes[0], s).scan;
      assert WellShaped(nodes[1..]) by {
        forall j | 0 <= j < |nodes[1..]| && IsTitleHeading(nodes[1..][j])
          ensures VersionText(nodes[1..][j]).Some? && VersionText(nodes[1..][j]).value != ""
        {
          assert nodes[1..][j] == nodes[j + 1];
        }
      }
      ScanWellShaped(nodes[1..], t);
      if HasTitle(nodes) && !IsTitleHeading(nodes[0]) {
        var j :| 0 <= j < |nodes| && IsTitleHeading(nodes[j]);
        assert nodes[1..][j - 1] == nodes[j];
      }
      if HasAnchor(nodes) && PackageLink(nodes[0]).None? {
        var j :| 0 <= j < |nodes| && PackageLink(nodes[j]).Some?;
        assert nodes[1..][j - 1] == nodes[j];
      }
    }
  }

  /** A page whose release-title headings all carry a version, with at least
      one such heading and one package link, yields a release. */
  lemma WellShapedPageYieldsRelease(root: Node)
    requires WellShaped(PreOrder(root)) && HasTitle(PreOrder(root)) && HasAnchor(PreOrder(root))
    ensures ExtractRelease(Parsed(root)).Ok?
  {
    ExtractIsScan(root);
    ScanWellShaped(PreOrder(root), Initial);
  }

  /** A page without a release-title heading fails with HtmlChanged. */
  lemma NoTitleMeansHtmlChanged(root: Node)
    requires !HasTitle(PreOrder(root))
    ensures ExtractRelease(Parsed(root)) == Err(HtmlChanged)
  {
    ExtractIsScan(root);
    VersionKeptWithoutTitles(PreOrder(root), Initial);
  }

  /** A page without a package link yields no release. */
  lemma NoAnchorMeansNoRelease(root: Node)
    requires !HasAnchor(PreOrder(root))
    ensures ExtractRelease(Parsed(root)).Err?
  {
    ExtractIsScan(root);
    if ScanNodes(PreOrder(root), Initial).Running? {
      LinkKeptWithoutAnchors(PreOrder(root), Initial);
    }
  }
}

/** `parsePage`: the depth-first walk over the release page that picks out
    the latest version and the link to its amd64 Debian package. */
module ReleasePage {
  import opened Errors
  import opened Strings
  import opened Html

  /** Text the `class` attribute of the version heading contains. */
  const TitleMarker := "release-title"
  /** Text the `href` of the package link contains. */
  const PackageMarker := "/atom-amd64.deb"
  /** Prefixed to the (site-relative) `href` to make the link absolute. */
  const Origin := "https://github.com"

  /** What `html.Parse` hands over: the tree, or the reason it failed. */
  datatype HtmlDocument = Parsed(root: Node) | Unreadable(reason: string)

  datatype Release = Release(version: string, link: string)

  /** The two variables the walk assigns, `version` and `link`. */
  datatype Scan = Scan(version: string, link: string) {
    /** Both found: the walk descends no further. */
    predicate Found() { version != "" && link != "" }
  }

  /** A walk goes on with its two values, or has crashed on a nil pointer. */
  datatype Step = Running(scan: Scan) | Crashed

  const Initial := Scan("", "")

  predicate IsElement(n: Node, tag: string) {
    n.kind == ElementNode && n.data == tag
  }

  /** The test applied to each attribute: its key, and the marker in its value. */
  predicate AttrMatches(a: Attribute, key: string, marker: string) {
    a.key == key && Contains(a.val, marker)
  }

  /** The attribute loop: the index of the first matching attribute, if any. */
  function FindAttr(attrs: seq<Attribute>, key: string, marker: string): (r: Option<nat>)
    ensures r.Some? ==> r.value < |attrs| && AttrMatches(attrs[r.value], key, marker)
    ensures r.Some? ==> forall k :: 0 <= k < r.value ==> !AttrMatches(attrs[k], key, marker)
    ensures r.None? ==> forall k :: 0 <= k < |attrs| ==> !AttrMatches(attrs[k], key, marker)
  {
    if attrs == [] then None
    else if AttrMatches(attrs[0], key, marker) then Some(0)
    else
      match FindAttr(attrs[1..], key, marker)
      case None => None
      case Some(k) => Some(k + 1)
  }

  /** An `h1` element with a `class` attribute whose value contains the title marker. */
  predicate IsTitleHeading(n: Node) {
    IsElement(n, "h1") && FindAttr(n.attrs, "class", TitleMarker).Some?
  }

  /** `n.FirstChild.NextSibling.FirstChild.Data`; None where one of those
      pointers is nil and the source dereferences nil. */
  function VersionText(n: Node): Option<string> {
    if |n.children| >= 2 && |n.children[1].children| >= 1 then Some(n.children[1].children[0].data)
    else None
  }

  /** The link an `a` element supplies: the origin followed by the value of
      its first `href` attribute that contains the package marker. */
  function PackageLink(n: Node): (r: Option<string>)
    ensures r.Some? ==> IsElement(n, "a") && Origin <= r.value && IsSubstring(PackageMarker, r.value)
    ensures r.Some? ==> exists k :: 0 <= k < |n.attrs| && n.attrs[k].key == "href"
                                 && IsSubstring(PackageMarker, n.attrs[k].val) && r.value == Origin + n.attrs[k].val
    ensures IsElement(n, "a") && FindAttr(n.attrs, "href", PackageMarker).Some? ==>
      r == Some(Origin + n.attrs[FindAttr(n.attrs, "href", PackageMarker).value].val)
    ensures r.None? <==> !IsElement(n, "a") || FindAttr(n.attrs, "href", PackageMarker).None?
  {
    if !IsElement(n, "a") then None
    else
      match FindAttr(n.attrs, "href", PackageMarker)
      case None => None
      case Some(j) =>
        SubstringOfSuffix(PackageMarker, Origin, n.attrs[j].val);
        Some(Origin + n.attrs[j].val)
  }

  /** What visiting one node does to the two values, before its children. */
  function VisitNode(n: Node, s: Scan): Step {
    if IsTitleHeading(n) then
      match VersionText(n)
      case None => Crashed
      case Some(v) => Running(s.(version := v))
    else
      match PackageLink(n)
      case None => Running(s)
      case Some(l) => Running(s.(link := l))
  }

  /** The closure `f`: visit `n`, then its children. */
  function Walk(n: Node, s: Scan): Step
    decreases n, 1
  {
    match VisitNode(n, s)
    case Crashed => Crashed
    case Running(t) => WalkChildren(n, 0, t)
  }

  /** The sibling loop of `f` from child `i` on; it stops before any child
      once both values are set. */
  function WalkChildren(n: Node, i: nat, s: Scan): Step
    requires i <= |n.children|
    decreases n, 0, |n.children| - i
  {
    if i == |n.children| || s.Found() then Running(s)
    else
      match Walk(n.children[i], s)
      case Crashed => Crashed
      case Running(t) => WalkChildren(n, i + 1, t)
  }

  /** The result `parsePage` returns, as a value. */
  function ExtractRelease(doc: HtmlDocument): (r: Result<Release>)
    ensures r.Ok? ==> r.value.version != "" && r.value.link != ""
    ensures r.Err? && r.error.ParseFailed? <==> doc.Unreadable?
  {
    match doc
    case Unreadable(reason) => Err(ParseFailed(reason))
    case Parsed(root) =>
      match Walk(root, Initial)
      case Crashed => Err(NilDereference)
      case Running(t) =>
        if t.version == "" || t.link == "" then Err(HtmlChanged)
        else Ok(Release(t.version, t.link))
  }

  // ---------------------------------------------------------------------
  // The imperative walk, as the source writes it.

  /** The loop over `n.Attr` in either branch of the closure: it breaks at
      the first attribute with the key whose value matches the marker. */
  method MatchAttr(attrs: seq<Attribute>, key: string, marker: string) returns (found: Option<nat>)
    ensures found == FindAttr(attrs, key, marker)
  {
    found := None;
    var i := 0;
    while i < |attrs|
      invariant 0 <= i <= |attrs|
      invariant forall k :: 0 <= k < i ==> !AttrMatches(attrs[k], key, marker)
    {
      var attr := attrs[i];
      var matched := Contains(attr.val, marker);
      if attr.key == key && matched {
        found := Some(i);
        break;
      }
      i := i + 1;
    }
  }

  /** The closure `f`, with the captured `version` and `link` passed in and
      handed back; `crashed` stands for the nil-pointer panic. */
  method Visit(n: Node, version0: string, link0: string) returns (version: string, link: string, crashed: bool)
    ensures Walk(n, Scan(version0, link0)) == if crashed then Crashed else Running(Scan(version, link))
    decreases n
  {
    version, link, crashed := version0, link0, false;
    if n.kind == ElementNode && n.data == "h1" {
      var title := MatchAttr(n.attrs, "class", TitleMarker);
      if title.Some? {
        if |n.children| < 2 || |n.children[1].children| == 0 {
          crashed := true;
          return;
        }
        version := n.children[1].children[0].data;
      }
    }
    if n.kind == ElementNode && n.data == "a" {
      var href := MatchAttr(n.attrs, "href", PackageMarker);
      if href.Some? {
        link := Origin + n.attrs[href.value].val;
      }
    }
    assert VisitNode(n, Scan(version0, link0)) == Running(Scan(version, link));
    ghost var visited := Scan(version, link);
    var c := 0;
    while c < |n.children|
      invariant 0 <= c <= |n.children|
      invariant WalkChildren(n, 0, visited) == WalkChildren(n, c, Scan(version, link))
    {
      if version != "" && link != "" {
        break;
      }
      var v, l, childCrashed := Visit(n.children[c], version, link);
      if childCrashed {
        crashed := true;
        return;
      }
      version, link := v, l;
      c := c + 1;
    }
  }

  /** `parsePage`: both values with no error, or two empty strings and an error. */
  method ParsePage(doc: HtmlDocument) returns (version: string, link: string, err: Option<Error>)
    ensures err.None? ==> version != "" && link != "" && ExtractRelease(doc) == Ok(Release(version, link))
    ensures err.Some? ==> version == "" && link == "" && ExtractRelease(doc) == Err(err.value)
  {
    if doc.Unreadable? {
      return "", "", Some(ParseFailed(doc.reason));
    }
    var crashed;
    version, link, crashed := Visit(doc.root, "", "");
    if crashed {
      return "", "", Some(NilDereference);
    }
    if version == "" || link == "" {
      return "", "", Some(HtmlChanged);
    }
    err := None;
  }
}

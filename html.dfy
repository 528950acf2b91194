/** The document tree that `html.Parse` (golang.org/x/net/html) produces.
    A node's `FirstChild`/`NextSibling` chain becomes its `children`
    sequence, so `FirstChild` is `children[0]` and its `NextSibling` is
    `children[1]`. */
module Html {

  datatype NodeType = ErrorNode | TextNode | DocumentNode | ElementNode | CommentNode | DoctypeNode | RawNode

  datatype Attribute = Attribute(key: string, val: string)

  /** `data` is the tag name of an element and the text of a text node. */
  datatype Node = Node(kind: NodeType, data: string, attrs: seq<Attribute>, children: seq<Node>)

  /** The nodes of the tree rooted at `n`, in depth-first pre-order. */
  function PreOrder(n: Node): (r: seq<Node>)
    ensures |r| >= 1 && r[0] == n
    decreases n, 1
  {
    [n] + PreOrderFrom(n, 0)
  }

  /** The pre-order of the subtrees of `n.children[i..]`, one after the other. */
  function PreOrderFrom(n: Node, i: nat): seq<Node>
    requires i <= |n.children|
    decreases n, 0, |n.children| - i
  {
    if i == |n.children| then []
    else PreOrder(n.children[i]) + PreOrderFrom(n, i + 1)
  }
}

/**
 * The node tree that `golang.org/x/net/html`'s `Parse` produces.
 *
 * A Go `*html.Node` carries a `Type`, a `Data` string (the tag name of an
 * element, the characters of a text node, the body of a comment) and its
 * children as a `FirstChild` / `NextSibling` chain. Here the chain is the
 * sequence `children`, first child first; the `Parent` pointer is not stored
 * but passed down by whoever walks the tree.
 */
module Html {

  /** The node kinds of `html.NodeType`. */
  datatype NodeType =
    | ErrorNode
    | TextNode
    | DocumentNode
    | ElementNode
    | CommentNode
    | DoctypeNode
    | RawNode

  datatype Node = Node(kind: NodeType, data: string, children: seq<Node>)

  function Text(data: string): Node { Node(TextNode, data, []) }

  function Element(tag: string, children: seq<Node>): Node { Node(ElementNode, tag, children) }

  function Document(children: seq<Node>): Node { Node(DocumentNode, "", children) }
}

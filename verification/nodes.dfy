/** The document nodes the structural layer works on (`Docx\Nodes\Node` and
    its `Para` and `Table` variants). Nodes are immutable records here: the
    post-processor returns new records instead of mutating them. */
module Nodes {
  import opened Wrappers

  /** The node type; `ListItem` is only ever assigned by the list post-processor. */
  datatype Kind = Para | Table | ListItem

  /** A node as the list post-processor sees it.
      - `listLevel`: 0 outside lists, otherwise the nesting depth;
      - `htmlClass`: `None` when the node has no style, otherwise the style's
        html class (possibly empty);
      - `prepend` / `append`: the markup fragments emitted before / after the
        node's own content when it is rendered. */
  datatype Node = Node(
    kind: Kind,
    listLevel: nat,
    htmlClass: Option<string>,
    prepend: seq<string>,
    append: seq<string>)

  /** A raw child element of the document body: its tag name, and the list
      level and style class that the node constructors read from its
      content. */
  datatype Element = Element(tagName: string, listLevel: nat, htmlClass: Option<string>)

  /** A node as freshly built from an element: no fragments yet. */
  function MakeNode(kind: Kind, e: Element): Node
  {
    Node(kind, e.listLevel, e.htmlClass, [], [])
  }

  /** Every node of `ns` carries no fragments yet. */
  predicate Fresh(ns: seq<Node>) {
    forall i :: 0 <= i < |ns| ==> ns[i].prepend == [] && ns[i].append == []
  }
}

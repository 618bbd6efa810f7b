/**
 * The document tree that the stylesheet cascade, the selectors and the
 * layout work on. An element owns its children; a text node has none.
 * Each node carries the style map that the cascade assigns to it.
 * Parent back-references are not stored: code that needs a node's
 * ancestors is given the path from the node up to the root.
 */
module Dom {
  import opened Wrappers

  /** A resolved style map: property name to value string. */
  type Style = map<string, string>

  datatype Node =
    | Element(tag: string, attributes: map<string, Option<string>>, children: seq<Node>, style: Style)
    | Text(text: string, style: Style)

  /** The child list; a text node has none. */
  function Children(n: Node): seq<Node> {
    if n.Element? then n.children else []
  }

  /** `dict.get(key, default)` on a style map. */
  function Get(st: Style, key: string, default: string): string {
    if key in st then st[key] else default
  }

  /** The number of nodes in the tree rooted at `n`. */
  function Size(n: Node): (r: nat)
    ensures r >= 1
    decreases n, |Children(n)| + 1
  {
    1 + SizeOfChildren(n, 0)
  }

  /** The number of nodes under the children of `p` from index `i` on. */
  function SizeOfChildren(p: Node, i: nat): nat
    requires i <= |Children(p)|
    decreases p, |Children(p)| - i
  {
    if i == |Children(p)| then 0 else Size(Children(p)[i]) + SizeOfChildren(p, i + 1)
  }
}

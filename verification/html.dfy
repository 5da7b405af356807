/**
 The document tree the link extractor walks, shaped like `html.Node` of
 golang.org/x/net/html: a node type, a `Data` string (the tag name of an
 element, the content of a text node), an ordered attribute list and the
 ordered list of children. The sibling-linked representation of the Go
 package is abstracted to a sequence; pointer identity is not modelled.
 */
module Html {

  datatype NodeType =
    | ErrorNode
    | TextNode
    | DocumentNode
    | ElementNode
    | CommentNode
    | DoctypeNode
    | RawNode

  /** One `key="val"` pair, in source order; keys may repeat. */
  datatype Attribute = Attribute(key: string, val: string)

  datatype Node = Node(nodeType: NodeType, data: string, attr: seq<Attribute>, children: seq<Node>)

  function Element(tag: string, attr: seq<Attribute>, children: seq<Node>): Node {
    Node(ElementNode, tag, attr, children)
  }

  function Text(data: string): Node {
    Node(TextNode, data, [], [])
  }

  function Document(children: seq<Node>): Node {
    Node(DocumentNode, "", [], children)
  }

  /** `x` is `n` itself or lies somewhere below it. */
  ghost predicate IsSubtree(x: Node, n: Node)
    decreases n
  {
    x == n || exists i :: 0 <= i < |n.children| && IsSubtree(x, n.children[i])
  }

  /** Document order: every node of the tree, each before its descendants,
      children left to right. */
  ghost function Preorder(n: Node): seq<Node>
    decreases n
  {
    [n] + PreorderAll(n.children)
  }

  ghost function PreorderAll(ns: seq<Node>): seq<Node>
    decreases ns
  {
    if ns == [] then [] else Preorder(ns[0]) + PreorderAll(ns[1..])
  }

  /** Document order lists exactly the nodes of the tree. */
  lemma {:induction false} PreorderIsSubtrees(n: Node, x: Node)
    ensures x in Preorder(n) <==> IsSubtree(x, n)
    decreases n
  {
    PreorderAllIsSubtrees(n.children, x);
  }

  lemma {:induction false} PreorderAllIsSubtrees(ns: seq<Node>, x: Node)
    ensures x in PreorderAll(ns) <==> exists i :: 0 <= i < |ns| && IsSubtree(x, ns[i])
    decreases ns
  {
    if ns != [] {
      var tail := ns[1..];
      PreorderIsSubtrees(ns[0], x);
      PreorderAllIsSubtrees(tail, x);
      if x in PreorderAll(tail) {
        var j :| 0 <= j < |tail| && IsSubtree(x, tail[j]);
        assert IsSubtree(x, ns[j + 1]);
      }
      if exists i :: 0 <= i < |ns| && IsSubtree(x, ns[i]) {
        var i :| 0 <= i < |ns| && IsSubtree(x, ns[i]);
        if i > 0 {
          assert IsSubtree(x, tail[i - 1]);
        }
      }
    }
  }
}

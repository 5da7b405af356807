/**
 Package `link` (main.go): finds every `<a>` element of a parsed document
 and turns each into a `Link` record holding its `href`, all its
 attributes and its visible text.
 */
module Links {
  import opened Html
  import opened Strings

  /** One anchor: the last `href` value, the collapsed text and every
      attribute, later duplicates overwriting earlier ones. */
  datatype Link = Link(href: string, text: string, attrs: map<string, string>)

  /** The error `html.Parse` reports; its content is opaque to this package. */
  datatype ParseError = ParseError(message: string)

  datatype Result<T> = Ok(value: T) | Err(error: ParseError)

  // -----------------------------------------------------------------------
  // linkNodes
  // -----------------------------------------------------------------------

  /** An element whose tag is exactly "a" (no case folding). */
  predicate IsAnchor(n: Node) {
    n.nodeType == ElementNode && n.data == "a"
  }

  /** The anchors among `s`, in order. */
  ghost function Anchors(s: seq<Node>): (r: seq<Node>)
    ensures forall x :: x in r <==> x in s && IsAnchor(x)
  {
    if s == [] then []
    else (if IsAnchor(s[0]) then [s[0]] else []) + Anchors(s[1..])
  }

  /** `linkNodes`: the node itself when it is an anchor, then the anchors of
      each child in turn. Children of every node type are searched. */
  function LinkNodes(n: Node): (r: seq<Node>)
    ensures forall i :: 0 <= i < |r| ==> IsAnchor(r[i])
    decreases n
  {
    (if IsAnchor(n) then [n] else []) + LinkNodesAll(n.children)
  }

  function LinkNodesAll(ns: seq<Node>): (r: seq<Node>)
    ensures forall i :: 0 <= i < |r| ==> IsAnchor(r[i])
    decreases ns
  {
    if ns == [] then [] else LinkNodes(ns[0]) + LinkNodesAll(ns[1..])
  }

  lemma {:induction false} AnchorsAppend(a: seq<Node>, b: seq<Node>)
    ensures Anchors(a + b) == Anchors(a) + Anchors(b)
    decreases |a|
  {
    if a == [] {
      assert a + b == b;
    } else {
      assert (a + b)[1..] == a[1..] + b;
      AnchorsAppend(a[1..], b);
    }
  }

  /** `linkNodes` lists the anchors of the tree in document order. */
  lemma {:induction false} LinkNodesInDocumentOrder(n: Node)
    ensures LinkNodes(n) == Anchors(Preorder(n))
    decreases n
  {
    LinkNodesAllInDocumentOrder(n.children);
    AnchorsAppend([n], PreorderAll(n.children));
  }

  lemma {:induction false} LinkNodesAllInDocumentOrder(ns: seq<Node>)
    ensures LinkNodesAll(ns) == Anchors(PreorderAll(ns))
    decreases ns
  {
    if ns != [] {
      LinkNodesInDocumentOrder(ns[0]);
      LinkNodesAllInDocumentOrder(ns[1..]);
      AnchorsAppend(Preorder(ns[0]), PreorderAll(ns[1..]));
    }
  }

  /** A node is reported exactly when it is an anchor somewhere in the tree. */
  lemma LinkNodesAreTheAnchors(n: Node, x: Node)
    ensures x in LinkNodes(n) <==> IsAnchor(x) && IsSubtree(x, n)
  {
    LinkNodesInDocumentOrder(n);
    PreorderIsSubtrees(n, x);
  }

  /** A tree without anchors yields no nodes, and only such a tree does. */
  lemma NoAnchorsNoLinkNodes(n: Node)
    ensures LinkNodes(n) == [] <==> forall x :: IsSubtree(x, n) ==> !IsAnchor(x)
  {
    if LinkNodes(n) != [] {
      LinkNodesAreTheAnchors(n, LinkNodes(n)[0]);
    }
    forall x | IsSubtree(x, n) && IsAnchor(x) ensures LinkNodes(n) != [] {
      LinkNodesAreTheAnchors(n, x);
    }
  }

  // -----------------------------------------------------------------------
  // extractText
  // -----------------------------------------------------------------------

  /** The raw visible text: text-node content reached through elements,
      concatenated in document order with nothing collapsed. */
  function RawText(n: Node): string
    decreases n
  {
    if n.nodeType == TextNode then n.data
    else if n.nodeType != ElementNode then ""
    else RawTextAll(n.children)
  }

  function RawTextAll(ns: seq<Node>): string
    decreases ns
  {
    if ns == [] then "" else RawText(ns[0]) + RawTextAll(ns[1..])
  }

  /** `extractText`: a text node gives its data as is; an element gives the
      collapsed concatenation of its children's texts; any other node gives
      "". The collapse happens at every element, so an element's text is in
      normal form and keeps every non-white-space character of its raw text. */
  function ExtractText(n: Node): (r: string)
    ensures n.nodeType == TextNode ==> r == n.data
    ensures n.nodeType != TextNode && n.nodeType != ElementNode ==> r == ""
    ensures n.nodeType == ElementNode ==> IsNormal(r) && NonSpace(r) == NonSpace(RawText(n))
    decreases n
  {
    if n.nodeType == TextNode then n.data
    else if n.nodeType != ElementNode then ""
    else
      var joined := ChildrenText(n.children);
      CollapseKeepsNonSpace(joined);
      Collapse(joined)
  }

  /** The loop of `extractText`: the children's texts, concatenated. */
  function ChildrenText(ns: seq<Node>): (r: string)
    ensures NonSpace(r) == NonSpace(RawTextAll(ns))
    decreases ns
  {
    if ns == [] then ""
    else
      var head, tail := ExtractText(ns[0]), ChildrenText(ns[1..]);
      NonSpaceAppend(head, tail);
      NonSpaceAppend(RawText(ns[0]), RawTextAll(ns[1..]));
      head + tail
  }

  /** An element has empty text exactly when its raw text is all white space. */
  lemma ExtractTextEmpty(n: Node)
    requires n.nodeType == ElementNode
    ensures ExtractText(n) == "" <==> NonSpace(RawText(n)) == ""
  {
    NormalEmptyIffNoNonSpace(ExtractText(n));
  }

  /** An element's text is a fixed point of the collapse. */
  lemma ExtractTextIsCollapsed(n: Node)
    requires n.nodeType == ElementNode
    ensures Collapse(ExtractText(n)) == ExtractText(n)
  {
    NormalIsFixpoint(ExtractText(n));
  }

  /** No white space at either end. */
  predicate TightText(s: string) {
    !StartsWithSpace(s) && !EndsWithSpace(s)
  }

  /** Every element at or below `n` has raw text without white space at
      either end, so the collapse at that element trims nothing a parent
      would need to keep two words apart. */
  ghost predicate Tight(n: Node)
    decreases n
  {
    n.nodeType == ElementNode ==> TightText(RawText(n)) && AllTight(n.children)
  }

  ghost predicate AllTight(ns: seq<Node>)
    decreases ns
  {
    ns == [] || (Tight(ns[0]) && AllTight(ns[1..]))
  }

  /** Below a tight node, the extracted text has the words of the raw text
      and the same white space at each end. */
  lemma {:induction false} TightNodeText(n: Node)
    requires Tight(n)
    ensures WordEquivalent(ExtractText(n), RawText(n))
    decreases n
  {
    if n.nodeType == ElementNode {
      var joined := ChildrenText(n.children);
      TightChildrenText(n.children);
      var r := ExtractText(n);
      assert r == Collapse(joined);
      if r != [] {
        assert !IsSpace(r[0]) && !IsSpace(r[|r| - 1]);
      }
    }
  }

  lemma {:induction false} TightChildrenText(ns: seq<Node>)
    requires AllTight(ns)
    ensures WordEquivalent(ChildrenText(ns), RawTextAll(ns))
    decreases ns
  {
    if ns != [] {
      TightNodeText(ns[0]);
      TightChildrenText(ns[1..]);
      WordEquivalentAppend(ExtractText(ns[0]), RawText(ns[0]),
                           ChildrenText(ns[1..]), RawTextAll(ns[1..]));
    }
  }

  /** When every element below the children keeps its white space inside,
      collapsing at every level is the same as collapsing the raw text once. */
  lemma ExtractTextOneCollapse(n: Node)
    requires n.nodeType == ElementNode && AllTight(n.children)
    ensures ExtractText(n) == Collapse(RawText(n))
  {
    TightChildrenText(n.children);
    assert Fields(ChildrenText(n.children)) == Fields(RawText(n));
  }

  lemma {:induction false} NoElementsAllTight(ns: seq<Node>)
    requires forall i :: 0 <= i < |ns| ==> ns[i].nodeType != ElementNode
    ensures AllTight(ns)
    decreases ns
  {
    if ns != [] {
      NoElementsAllTight(ns[1..]);
    }
  }

  /** An element whose children are text (or comments, or other non-elements)
      has exactly the collapse of its raw text. */
  lemma FlatElementText(n: Node)
    requires n.nodeType == ElementNode
    requires forall i :: 0 <= i < |n.children| ==> n.children[i].nodeType != ElementNode
    ensures ExtractText(n) == Collapse(RawText(n))
  {
    NoElementsAllTight(n.children);
    ExtractTextOneCollapse(n);
  }

  /** A reference definition of `extractText` that never collapses inner
      white space: a text node gives its data; any other non-element gives "";
      an element concatenates its children's texts and trims both ends. */
  function TrimmedText(n: Node): string
    decreases n
  {
    if n.nodeType == TextNode then n.data
    else if n.nodeType != ElementNode then ""
    else Trim(TrimmedTextAll(n.children))
  }

  function TrimmedTextAll(ns: seq<Node>): string
    decreases ns
  {
    if ns == [] then "" else TrimmedText(ns[0]) + TrimmedTextAll(ns[1..])
  }

  lemma {:induction false} TrimmedNodeText(n: Node)
    ensures WordEquivalent(ExtractText(n), TrimmedText(n))
    decreases n
  {
    if n.nodeType == ElementNode {
      TrimmedChildrenText(n.children);
      TrimFields(TrimmedTextAll(n.children));
      var r := ExtractText(n);
      if r != [] {
        assert !IsSpace(r[0]) && !IsSpace(r[|r| - 1]);
      }
    }
  }

  lemma {:induction false} TrimmedChildrenText(ns: seq<Node>)
    ensures WordEquivalent(ChildrenText(ns), TrimmedTextAll(ns))
    decreases ns
  {
    if ns != [] {
      TrimmedNodeText(ns[0]);
      TrimmedChildrenText(ns[1..]);
      WordEquivalentAppend(ExtractText(ns[0]), TrimmedText(ns[0]),
                           ChildrenText(ns[1..]), TrimmedTextAll(ns[1..]));
    }
  }

  /** The exact text of every element: trim at each element, collapse once at
      the end. White space at the edge of a child element is dropped before
      the parent concatenates, while white space between the children of one
      element still separates words. */
  lemma ExtractTextIsCollapseOfTrimmed(n: Node)
    requires n.nodeType == ElementNode
    ensures ExtractText(n) == Collapse(TrimmedText(n))
  {
    TrimmedNodeText(n);
    CollapseUnique(TrimmedText(n), ExtractText(n));
  }

  // -----------------------------------------------------------------------
  // buildLink
  // -----------------------------------------------------------------------

  /** Position `i` holds the last occurrence of its key. */
  ghost predicate LastOccurrence(attrs: seq<Attribute>, i: int)
    requires 0 <= i < |attrs|
  {
    forall j :: i < j < |attrs| ==> attrs[j].key != attrs[i].key
  }

  ghost predicate HasKey(attrs: seq<Attribute>, key: string) {
    exists i :: 0 <= i < |attrs| && attrs[i].key == key
  }

  /** `ret` is what `buildLink` must hold for the attribute list `attrs`:
      the map has exactly the keys of the list, each bound to the value of
      its last occurrence, and `href` is the last "href" value, or "" when
      there is none. */
  ghost predicate Summarizes(attrs: seq<Attribute>, ret: Link) {
    && (forall k :: k in ret.attrs <==> HasKey(attrs, k))
    && (forall i :: 0 <= i < |attrs| && LastOccurrence(attrs, i) ==>
          attrs[i].key in ret.attrs && ret.attrs[attrs[i].key] == attrs[i].val)
    && (forall i :: 0 <= i < |attrs| && attrs[i].key == "href" && LastOccurrence(attrs, i) ==>
          ret.href == attrs[i].val)
    && (!HasKey(attrs, "href") ==> ret.href == "")
  }

  /** One iteration of the loop of `buildLink`: the attribute's key is bound
      to its value, overwriting any earlier binding; every other key keeps its
      value; `href` changes only for an "href" attribute; the text is untouched. */
  function Absorb(ret: Link, a: Attribute): (r: Link)
    ensures r.attrs.Keys == ret.attrs.Keys + {a.key}
    ensures r.attrs[a.key] == a.val
    ensures forall k :: k in ret.attrs && k != a.key ==> r.attrs[k] == ret.attrs[k]
    ensures r.href == (if a.key == "href" then a.val else ret.href)
    ensures r.text == ret.text
  {
    Link(if a.key == "href" then a.val else ret.href, ret.text, ret.attrs[a.key := a.val])
  }

  /** The record `buildLink` holds after its loop has visited `attrs`. */
  function FoldAttrs(attrs: seq<Attribute>): (ret: Link)
    ensures ret.text == ""
    ensures Summarizes(attrs, ret)
    decreases |attrs|
  {
    if attrs == [] then Link("", "", map[])
    else
      var prefix, a := attrs[..|attrs| - 1], attrs[|attrs| - 1];
      var ret := FoldAttrs(prefix);
      AbsorbSummarizes(attrs, ret);
      Absorb(ret, a)
  }

  /** Absorbing one more attribute extends a summary of a list to a summary
      of the longer list. */
  lemma AbsorbSummarizes(attrs: seq<Attribute>, ret: Link)
    requires |attrs| > 0
    requires Summarizes(attrs[..|attrs| - 1], ret)
    ensures Summarizes(attrs, Absorb(ret, attrs[|attrs| - 1]))
  {
    var prefix, a := attrs[..|attrs| - 1], attrs[|attrs| - 1];
    assert attrs == prefix + [a];
    AbsorbKeys(prefix, a, ret);
    AbsorbValues(prefix, a, ret);
    AbsorbHref(prefix, a, ret);
  }

  lemma AbsorbKeys(prefix: seq<Attribute>, a: Attribute, ret: Link)
    requires forall k :: k in ret.attrs <==> HasKey(prefix, k)
    ensures forall k :: k in Absorb(ret, a).attrs <==> HasKey(prefix + [a], k)
  {
    var attrs := prefix + [a];
    forall k ensures k in Absorb(ret, a).attrs <==> HasKey(attrs, k) {
      if k in ret.attrs {
        var i :| 0 <= i < |prefix| && prefix[i].key == k;
        assert attrs[i].key == k;
      }
      if HasKey(attrs, k) && k != a.key {
        var i :| 0 <= i < |attrs| && attrs[i].key == k;
        assert prefix[i].key == k;
      }
      assert attrs[|prefix|] == a;
    }
  }

  lemma AbsorbValues(prefix: seq<Attribute>, a: Attribute, ret: Link)
    requires forall i :: 0 <= i < |prefix| && LastOccurrence(prefix, i) ==>
               prefix[i].key in ret.attrs && ret.attrs[prefix[i].key] == prefix[i].val
    ensures forall i :: 0 <= i < |prefix| + 1 && LastOccurrence(prefix + [a], i) ==>
              (prefix + [a])[i].key in Absorb(ret, a).attrs &&
              Absorb(ret, a).attrs[(prefix + [a])[i].key] == (prefix + [a])[i].val
  {
    var attrs, ret' := prefix + [a], Absorb(ret, a);
    assert forall j :: 0 <= j < |prefix| ==> prefix[j] == attrs[j];
    forall i | 0 <= i < |attrs| && LastOccurrence(attrs, i)
      ensures attrs[i].key in ret'.attrs && ret'.attrs[attrs[i].key] == attrs[i].val
    {
      if i < |prefix| {
        assert prefix[i] == attrs[i];
        assert attrs[|prefix|] == a;
        assert LastOccurrence(prefix, i);
      }
    }
  }

  lemma AbsorbHref(prefix: seq<Attribute>, a: Attribute, ret: Link)
    requires forall i :: 0 <= i < |prefix| && prefix[i].key == "href" && LastOccurrence(prefix, i)
               ==> ret.href == prefix[i].val
    requires !HasKey(prefix, "href") ==> ret.href == ""
    ensures forall i :: 0 <= i < |prefix| + 1 && (prefix + [a])[i].key == "href" &&
                        LastOccurrence(prefix + [a], i) ==>
              Absorb(ret, a).href == (prefix + [a])[i].val
    ensures !HasKey(prefix + [a], "href") ==> Absorb(ret, a).href == ""
  {
    var attrs, ret' := prefix + [a], Absorb(ret, a);
    assert forall j :: 0 <= j < |prefix| ==> prefix[j] == attrs[j];
    assert attrs[|prefix|] == a;
    if HasKey(prefix, "href") {
      var i :| 0 <= i < |prefix| && prefix[i].key == "href";
      assert attrs[i].key == "href";
    }
    forall i | 0 <= i < |attrs| && attrs[i].key == "href" && LastOccurrence(attrs, i)
      ensures ret'.href == attrs[i].val
    {
      if i < |prefix| {
        assert prefix[i] == attrs[i];
        assert LastOccurrence(prefix, i);
      }
    }
  }

  /** `buildLink`: the folded attributes plus the anchor's extracted text. */
  function BuildLink(n: Node): (l: Link)
    ensures l.text == ExtractText(n)
    ensures Summarizes(n.attr, l)
    ensures HasKey(n.attr, "href") ==> "href" in l.attrs && l.href == l.attrs["href"]
  {
    var ret := FoldAttrs(n.attr);
    HrefIsAttr(n.attr, ret);
    ret.(text := ExtractText(n))
  }

  /** Whenever an "href" attribute is present, a summary's `href` field
      equals its map's "href" entry: both keep the last occurrence. */
  lemma HrefIsAttr(attrs: seq<Attribute>, ret: Link)
    requires Summarizes(attrs, ret)
    ensures HasKey(attrs, "href") ==> "href" in ret.attrs && ret.href == ret.attrs["href"]
  {
    if HasKey(attrs, "href") {
      var i :| 0 <= i < |attrs| && attrs[i].key == "href";
      while !LastOccurrence(attrs, i)
        invariant 0 <= i < |attrs| && attrs[i].key == "href"
        decreases |attrs| - i
      {
        var j :| i < j < |attrs| && attrs[j].key == "href";
        i := j;
      }
    }
  }

  // -----------------------------------------------------------------------
  // Parse
  // -----------------------------------------------------------------------

  /** The loop of `Parse`: one link per node, in order. */
  function BuildLinks(nodes: seq<Node>): (links: seq<Link>)
    ensures |links| == |nodes|
    ensures forall i :: 0 <= i < |nodes| ==> links[i] == BuildLink(nodes[i])
  {
    if nodes == [] then [] else [BuildLink(nodes[0])] + BuildLinks(nodes[1..])
  }

  /** `Parse`, given what `html.Parse` returned: a parse error is passed on
      with no links; otherwise one link per anchor, in document order. */
  function Parse(doc: Result<Node>): (r: Result<seq<Link>>)
    ensures doc.Err? ==> r == Err(doc.error)
    ensures doc.Ok? ==> r.Ok? && |r.value| == |LinkNodes(doc.value)|
    ensures doc.Ok? ==> forall i :: 0 <= i < |r.value| ==>
              r.value[i] == BuildLink(LinkNodes(doc.value)[i])
  {
    match doc
    case Err(e) => Err(e)
    case Ok(root) => Ok(BuildLinks(LinkNodes(root)))
  }

  /** Every link comes from an anchor of the document, and every anchor of
      the document gives a link. */
  lemma ParseCoversAnchors(root: Node)
    ensures forall l :: l in Parse(Ok(root)).value ==>
              exists x :: IsSubtree(x, root) && IsAnchor(x) && l == BuildLink(x)
    ensures forall x :: IsSubtree(x, root) && IsAnchor(x) ==> BuildLink(x) in Parse(Ok(root)).value
  {
    var links, nodes := Parse(Ok(root)).value, LinkNodes(root);
    forall l | l in links
      ensures exists x :: IsSubtree(x, root) && IsAnchor(x) && l == BuildLink(x)
    {
      var i :| 0 <= i < |links| && links[i] == l;
      LinkNodesAreTheAnchors(root, nodes[i]);
    }
    forall x | IsSubtree(x, root) && IsAnchor(x) ensures BuildLink(x) in links {
      LinkNodesAreTheAnchors(root, x);
      var i :| 0 <= i < |nodes| && nodes[i] == x;
      assert links[i] == BuildLink(x);
    }
  }

  /** A document without anchors parses to no links, not to an error. */
  lemma ParseNoAnchors(root: Node)
    requires forall x :: IsSubtree(x, root) ==> !IsAnchor(x)
    ensures Parse(Ok(root)) == Ok([])
  {
    NoAnchorsNoLinkNodes(root);
  }
}

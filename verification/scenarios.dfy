/**
 Concrete documents, given directly as trees, and the links the extractor
 returns for them. `TwoAnchors` and `NoLinksHere` have the shape `html.Parse`
 gives a full page (html, head, body); the other trees are fragments.
 */
module Scenarios {
  import opened Html
  import opened Strings
  import opened Links
  import opened LinkQuery

  /** `<a href="{x}">{hello} <b>{world}</b></a>` */
  function AnchorX(x: string, hello: string, world: string): Node {
    Element("a", [Attribute("href", x)], [Text(hello + " "), Element("b", [], [Text(world)])])
  }

  /** `<a href="{y}" class="{btn}">{go}</a>` */
  function AnchorY(y: string, btn: string, go: string): Node {
    Element("a", [Attribute("href", y), Attribute("class", btn)], [Text(go)])
  }

  /** The two anchors in a body, as `html.Parse` nests them. */
  function TwoAnchors(ax: Node, ay: Node): Node {
    Document([Element("html", [], [Element("head", [], []), Element("body", [], [ax, ay])])])
  }

  /** The text of an element with one child is that child's text, collapsed. */
  lemma OneChildText(tag: string, attr: seq<Attribute>, c: Node)
    ensures ExtractText(Element(tag, attr, [c])) == Collapse(ExtractText(c))
  {
    assert ChildrenText([c]) == ExtractText(c);
  }

  /** The text of an element with two children is their texts joined, collapsed. */
  lemma TwoChildrenText(tag: string, attr: seq<Attribute>, c: Node, d: Node)
    ensures ExtractText(Element(tag, attr, [c, d])) == Collapse(ExtractText(c) + ExtractText(d))
  {
    assert [c, d][1..] == [d];
    assert ChildrenText([d]) == ExtractText(d);
  }

  lemma LinkNodesOfList(c: Node, d: Node)
    ensures LinkNodesAll([c]) == LinkNodes(c)
    ensures LinkNodesAll([c, d]) == LinkNodes(c) + LinkNodes(d)
  {
    assert [c][1..] == [];
    assert [c, d][1..] == [d];
    assert [d][1..] == [];
  }

  lemma TwoAnchorsLinkNodes(x: string, hello: string, world: string, y: string, btn: string, go: string)
    ensures LinkNodes(TwoAnchors(AnchorX(x, hello, world), AnchorY(y, btn, go)))
         == [AnchorX(x, hello, world), AnchorY(y, btn, go)]
  {
    var ax, ay := AnchorX(x, hello, world), AnchorY(y, btn, go);
    var b := Element("b", [], [Text(world)]);
    var head, body := Element("head", [], []), Element("body", [], [ax, ay]);
    var html := Element("html", [], [head, body]);
    LinkNodesOfList(Text(world), Text(world));
    assert LinkNodes(b) == [];
    LinkNodesOfList(Text(hello + " "), b);
    assert LinkNodes(ax) == [ax];
    LinkNodesOfList(Text(go), Text(go));
    assert LinkNodes(ay) == [ay];
    LinkNodesOfList(ax, ay);
    assert LinkNodes(body) == [ax, ay];
    LinkNodesOfList(head, body);
    assert LinkNodes(html) == [ax, ay];
    LinkNodesOfList(html, html);
  }

  /** A normal string inside one element comes out unchanged. */
  lemma NormalChildText(tag: string, attr: seq<Attribute>, s: string)
    requires IsNormal(s)
    ensures ExtractText(Element(tag, attr, [Text(s)])) == s
  {
    OneChildText(tag, attr, Text(s));
    NormalIsFixpoint(s);
  }

  /** `<a>w1 <b>w2</b></a>` has the text "w1 w2". */
  lemma WordThenElementText(attr: seq<Attribute>, w1: string, w2: string)
    requires IsWord(w1) && IsWord(w2)
    ensures ExtractText(Element("a", attr, [Text(w1 + " "), Element("b", [], [Text(w2)])]))
         == w1 + " " + w2
  {
    JoinIsNormal([w2]);
    NormalChildText("b", [], w2);
    TwoChildrenText("a", attr, Text(w1 + " "), Element("b", [], [Text(w2)]));
    JoinIsNormal([w1]);
    WordSpaceNormal(w1, w2);
    NormalIsFixpoint(w1 + " " + w2);
  }

  lemma AnchorXLink(x: string, hello: string, world: string)
    requires IsWord(hello) && IsWord(world)
    ensures BuildLink(AnchorX(x, hello, world)) == Link(x, hello + " " + world, map["href" := x])
  {
    var attr := [Attribute("href", x)];
    WordThenElementText(attr, hello, world);
    assert attr[..0] == [];
    assert FoldAttrs(attr) == Link(x, "", map["href" := x]);
  }

  lemma AnchorYLink(y: string, btn: string, go: string)
    requires IsWord(go)
    ensures BuildLink(AnchorY(y, btn, go)) == Link(y, go, map["href" := y, "class" := btn])
  {
    var attr := [Attribute("href", y), Attribute("class", btn)];
    JoinIsNormal([go]);
    NormalChildText("a", attr, go);
    assert attr[..1] == [Attribute("href", y)];
    assert attr[..1][..0] == [];
    assert FoldAttrs(attr[..1]) == Link(y, "", map["href" := y]);
    assert FoldAttrs(attr) == Link(y, "", map["href" := y, "class" := btn]);
  }

  /** `<a href="/x">Hello <b>world</b></a><a href="/y" class="btn">Go</a>`,
      with any words for the texts and any values for the attributes, gives
      two links, the first with the two words one space apart. */
  lemma TwoAnchorsLinks(x: string, hello: string, world: string, y: string, btn: string, go: string)
    requires IsWord(hello) && IsWord(world) && IsWord(go)
    ensures Parse(Ok(TwoAnchors(AnchorX(x, hello, world), AnchorY(y, btn, go)))) == Ok([
              Link(x, hello + " " + world, map["href" := x]),
              Link(y, go, map["href" := y, "class" := btn])])
  {
    TwoAnchorsLinkNodes(x, hello, world, y, btn, go);
    AnchorXLink(x, hello, world);
    AnchorYLink(y, btn, go);
    var links := BuildLinks([AnchorX(x, hello, world), AnchorY(y, btn, go)]);
    assert links == [links[0], links[1]];
  }

  /** `<p>{text}</p>`: a document without anchors parses to no links. */
  lemma NoLinksHere(text: string)
    ensures Parse(Ok(Document([Element("html", [], [Element("head", [], []),
              Element("body", [], [Element("p", [], [Text(text)])])])]))) == Ok([])
  {
    var p := Element("p", [], [Text(text)]);
    var head, body := Element("head", [], []), Element("body", [], [p]);
    var html := Element("html", [], [head, body]);
    LinkNodesOfList(Text(text), Text(text));
    LinkNodesOfList(p, p);
    LinkNodesOfList(head, body);
    LinkNodesOfList(html, html);
    assert LinkNodes(html) == [];
  }

  /** An anchor with one `href` and one child gets that `href`, exactly
      that attribute and the child's text, collapsed. */
  lemma OneHrefLink(h: string, c: Node)
    ensures BuildLink(Element("a", [Attribute("href", h)], [c]))
         == Link(h, Collapse(ExtractText(c)), map["href" := h])
  {
    OneChildText("a", [Attribute("href", h)], c);
    assert [Attribute("href", h)][..0] == [];
  }

  /** `<a href="{outer}"><a href="{inner}">{w}</a></a>` taken as given: both
      anchors are reported, outer first, and the inner text belongs to both. */
  lemma NestedAnchors(outer: string, inner: string, w: string)
    requires IsWord(w)
    ensures Parse(Ok(Document([Element("a", [Attribute("href", outer)],
              [Element("a", [Attribute("href", inner)], [Text(w)])])]))) == Ok([
              Link(outer, w, map["href" := outer]),
              Link(inner, w, map["href" := inner])])
  {
    var ai := Element("a", [Attribute("href", inner)], [Text(w)]);
    var ao := Element("a", [Attribute("href", outer)], [ai]);
    LinkNodesOfList(Text(w), Text(w));
    LinkNodesOfList(ai, ai);
    LinkNodesOfList(ao, ao);
    assert LinkNodes(Document([ao])) == [ao, ai];
    JoinIsNormal([w]);
    NormalIsFixpoint(w);
    OneHrefLink(inner, Text(w));
    OneHrefLink(outer, ai);
    var links := BuildLinks([ao, ai]);
    assert links == [links[0], links[1]];
  }

  /** A word followed by one space collapses to the word. */
  lemma CollapseTrailingSpace(w: string)
    requires IsWord(w)
    ensures Collapse(w + " ") == w
  {
    WordLenOfWord(w, " ");
    assert (w + " ")[..|w|] == w;
    assert (w + " ")[|w|..] == " ";
    assert Fields(" ") == [];
    WordLenOfWord(w, []);
    assert w + [] == w;
    assert w[..|w|] == w && w[|w|..] == [];
    assert Fields(w) == [w];
    JoinIsNormal([w]);
    CollapseUnique(w + " ", w);
  }

  lemma WordsRunTogether(w1: string, w2: string)
    requires IsWord(w1) && IsWord(w2)
    ensures IsWord(w1 + w2)
  {
    assert forall i :: 0 <= i < |w1 + w2| ==>
      (w1 + w2)[i] == if i < |w1| then w1[i] else w2[i - |w1|];
  }

  /** `<a><b>{w1} </b><b>{w2}</b></a>`: the collapse at each element trims
      the space at the end of the first `b`, so the words run together. */
  lemma CollapsePerElement(w1: string, w2: string)
    requires IsWord(w1) && IsWord(w2)
    ensures ExtractText(Element("a", [], [Element("b", [], [Text(w1 + " ")]),
              Element("b", [], [Text(w2)])])) == w1 + w2
  {
    var b1, b2 := Element("b", [], [Text(w1 + " ")]), Element("b", [], [Text(w2)]);
    CollapseTrailingSpace(w1);
    OneChildText("b", [], Text(w1 + " "));
    JoinIsNormal([w2]);
    NormalChildText("b", [], w2);
    TwoChildrenText("a", [], b1, b2);
    WordsRunTogether(w1, w2);
    JoinIsNormal([w1 + w2]);
    NormalIsFixpoint(w1 + w2);
  }

  lemma ChildrenTextCons(c: Node, ns: seq<Node>)
    ensures ChildrenText([c] + ns) == ExtractText(c) + ChildrenText(ns)
  {
    assert ([c] + ns)[1..] == ns;
  }

  lemma ElementText(tag: string, attr: seq<Attribute>, cs: seq<Node>)
    ensures ExtractText(Element(tag, attr, cs)) == Collapse(ChildrenText(cs))
  {
  }

  lemma ThreeChildrenConcat(c: Node, d: Node, e: Node)
    ensures ChildrenText([c, d, e]) == ExtractText(c) + ExtractText(d) + ExtractText(e)
  {
    ChildrenTextCons(e, []);
    assert [e] + [] == [e];
    ChildrenTextCons(d, [e]);
    assert [d] + [e] == [d, e];
    ChildrenTextCons(c, [d, e]);
    assert [c] + [d, e] == [c, d, e];
  }

  lemma ThreeChildrenText(tag: string, attr: seq<Attribute>, c: Node, d: Node, e: Node)
    ensures ExtractText(Element(tag, attr, [c, d, e]))
         == Collapse(ExtractText(c) + ExtractText(d) + ExtractText(e))
  {
    ElementText(tag, attr, [c, d, e]);
    ThreeChildrenConcat(c, d, e);
  }

  /** `<a><b>{w1} </b> <b>{w2}</b></a>`: the space trimmed inside the first `b`
      is gone, but the text node between the two elements still separates the
      words. */
  lemma SpaceBetweenElements(w1: string, w2: string)
    requires IsWord(w1) && IsWord(w2)
    ensures ExtractText(Element("a", [], [Element("b", [], [Text(w1 + " ")]), Text(" "),
              Element("b", [], [Text(w2)])])) == w1 + " " + w2
  {
    var b1, b2 := Element("b", [], [Text(w1 + " ")]), Element("b", [], [Text(w2)]);
    CollapseTrailingSpace(w1);
    OneChildText("b", [], Text(w1 + " "));
    JoinIsNormal([w2]);
    NormalChildText("b", [], w2);
    ThreeChildrenText("a", [], b1, Text(" "), b2);
    JoinIsNormal([w2]);
    WordSpaceNormal(w1, w2);
    NormalIsFixpoint(w1 + " " + w2);
  }

  /** On the same element, collapsing the raw text once instead would keep
      the two words apart. */
  lemma CollapseOnceKeepsSpace(w1: string, w2: string)
    requires IsWord(w1) && IsWord(w2)
    ensures Collapse(RawText(Element("a", [], [Element("b", [], [Text(w1 + " ")]),
              Element("b", [], [Text(w2)])]))) == w1 + " " + w2
  {
    var b1, b2 := Element("b", [], [Text(w1 + " ")]), Element("b", [], [Text(w2)]);
    assert [b1, b2][1..] == [b2];
    assert [Text(w1 + " ")][1..] == [] && [Text(w2)][1..] == [];
    assert RawTextAll([Text(w1 + " ")]) == w1 + " ";
    assert RawText(b1) == w1 + " ";
    assert RawTextAll([Text(w2)]) == w2;
    assert RawText(b2) == w2;
    assert RawTextAll([b2]) == w2;
    assert RawTextAll([b1, b2]) == w1 + " " + w2;
    JoinIsNormal([w2]);
    WordSpaceNormal(w1, w2);
    NormalIsFixpoint(w1 + " " + w2);
  }
}

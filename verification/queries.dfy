/**
 The two queries of package `link` over an already built sequence of
 links: selecting links by one attribute value, and projecting their text.
 */
module LinkQuery {
  import opened Links

  /** The link has attribute `attr` and its value is exactly `value`. */
  predicate HasAttr(l: Link, attr: string, value: string) {
    attr in l.attrs && l.attrs[attr] == value
  }

  /** `a` can be obtained from `b` by deleting elements. */
  ghost predicate IsSubsequence<T>(a: seq<T>, b: seq<T>)
    decreases |b|
  {
    || a == []
    || (b != [] && ((a[0] == b[0] && IsSubsequence(a[1..], b[1..])) || IsSubsequence(a, b[1..])))
  }

  /** `FilterLinksByAttr`: the links carrying `attr` with value `value`,
      in their original order and multiplicity; all others are dropped. */
  function FilterLinksByAttr(links: seq<Link>, attr: string, value: string): (r: seq<Link>)
    ensures forall i :: 0 <= i < |r| ==> HasAttr(r[i], attr, value)
    ensures forall l :: multiset(r)[l] == if HasAttr(l, attr, value) then multiset(links)[l] else 0
    ensures IsSubsequence(r, links)
  {
    if links == [] then []
    else
      var rest := FilterLinksByAttr(links[1..], attr, value);
      assert links == [links[0]] + links[1..];
      if HasAttr(links[0], attr, value) then [links[0]] + rest else rest
  }

  /** `ExtractLinksText`: the text of each link, one per link, in order. */
  function ExtractLinksText(links: seq<Link>): (texts: seq<string>)
    ensures |texts| == |links|
    ensures forall i :: 0 <= i < |links| ==> texts[i] == links[i].text
  {
    if links == [] then [] else [links[0].text] + ExtractLinksText(links[1..])
  }

  /** Filtering a concatenation filters each part. */
  lemma {:induction false} FilterAppend(a: seq<Link>, b: seq<Link>, attr: string, value: string)
    ensures FilterLinksByAttr(a + b, attr, value)
         == FilterLinksByAttr(a, attr, value) + FilterLinksByAttr(b, attr, value)
    decreases |a|
  {
    if a == [] {
      assert a + b == b;
    } else {
      assert (a + b)[1..] == a[1..] + b;
      FilterAppend(a[1..], b, attr, value);
    }
  }

  /** The filter keeps the whole input exactly when every link matches. */
  lemma FilterKeepsAllIffAllMatch(links: seq<Link>, attr: string, value: string)
    ensures FilterLinksByAttr(links, attr, value) == links
        <==> forall i :: 0 <= i < |links| ==> HasAttr(links[i], attr, value)
  {
    if forall i :: 0 <= i < |links| ==> HasAttr(links[i], attr, value) {
      FilterKeepsMatching(links, attr, value);
    }
  }

  lemma {:induction false} FilterKeepsMatching(links: seq<Link>, attr: string, value: string)
    requires forall i :: 0 <= i < |links| ==> HasAttr(links[i], attr, value)
    ensures FilterLinksByAttr(links, attr, value) == links
  {
    if links != [] {
      var tail := links[1..];
      assert forall i :: 0 <= i < |tail| ==> tail[i] == links[i + 1];
      FilterKeepsMatching(tail, attr, value);
      assert HasAttr(links[0], attr, value);
      assert links == [links[0]] + tail;
    }
  }

  /** The texts of a parsed document are the extracted texts of its anchors,
      in document order. */
  lemma ParsedTexts(root: Html.Node)
    ensures |ExtractLinksText(Parse(Ok(root)).value)| == |LinkNodes(root)|
    ensures forall i :: 0 <= i < |LinkNodes(root)| ==>
              ExtractLinksText(Parse(Ok(root)).value)[i] == ExtractText(LinkNodes(root)[i])
  {
  }
}

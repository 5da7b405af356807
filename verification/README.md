# Link extraction from an HTML tree, in Dafny

This project models package `link` (`main.go`), which pulls hyperlinks out of a parsed HTML document.
The package has three parts:

- `linkNodes` collects every `<a>` element of the tree in document order, including anchors nested inside anchors.
- `buildLink` turns each anchor into a `Link`. The record holds the last `href` value, a map of all attributes (a later duplicate key overwrites an earlier one), and the anchor's visible text.
- `extractText` computes that text. It concatenates the text nodes below an element and collapses the white space with `strings.Join(strings.Fields(s), " ")`.

`Parse` glues these together once `html.Parse` has built the tree. `FilterLinksByAttr` and `ExtractLinksText` are two queries over the resulting links.

Files:

- `strings.dfy`, module `Strings`: `unicode.IsSpace`, `strings.Fields`, `strings.Join`, and their composition `Collapse`. It also has the normal form that `Collapse` produces, with the round trip, idempotence and uniqueness lemmas.
- `html.dfy`, module `Html`: the node tree of golang.org/x/net/html. A `Node` has a node type, a `data` string (tag name or text), an ordered attribute list and an ordered child list. This module also defines document order (`Preorder`) and the subtree relation.
- `links.dfy`, module `Links`: `Link`, `linkNodes`, `extractText`, `buildLink` and `Parse`.
- `queries.dfy`, module `LinkQuery`: `FilterLinksByAttr` and `ExtractLinksText`.
- `scenarios.dfy`, module `Scenarios`: concrete documents and the links extracted from them. These are the two-anchor document, a document without links, nested anchors, and the collapse at every element level.

Behaviour worth knowing, modelled as the code does it:

- **Every element collapses its own text** (`main.go:59`). So white space at the boundary of a child element is trimmed before the parent concatenates. `<a><b>foo </b><b>bar</b></a>` yields `"foobar"`, not `"foo bar"` (`Scenarios.CollapsePerElement`). One might expect the raw text to be collapsed once, at the outermost call, which would give `"foo bar"` (`Scenarios.CollapseOnceKeepsSpace`); the code does not do that, and the model follows the code. For every element, the text is in normal form and keeps every non-white-space character of its raw text, in order (`Links.ExtractText`). Exactly, an element's text is the collapse of its trimmed text: each element trims the white space at both ends of its children's concatenated text, and the collapse is applied once at the end (`Links.ExtractTextIsCollapseOfTrimmed`). White space between two children still separates words: `<a><b>foo </b> <b>bar</b></a>` yields `"foo bar"` (`Scenarios.SpaceBetweenElements`). The two readings agree whenever no element among or below the anchor's children has raw text that starts or ends with white space (`Links.ExtractTextOneCollapse`), in particular for an element with no element children (`Links.FlatElementText`).
- **Text nodes are returned raw** (`main.go:50`): there is no collapsing at a text node.
- **`linkNodes` descends into the children of every node type** (`main.go:68`), not only into elements. The document root itself is not an element. `extractText`, by contrast, returns `""` at any node that is neither text nor element (`main.go:52-54`).
- **Nested anchors are each reported.** The outer anchor comes first, and the inner anchor's text is part of the outer anchor's text too (`Scenarios.NestedAnchors`).

## Model

| member | source | states |
|---|---|---|
| `Strings.IsSpace` | main.go:59 | the white-space characters `strings.Fields` splits on, as Go's `unicode.IsSpace` defines them |
| `Strings.Join` | main.go:59 | the first element always begins the result; for the single-space join of words, `Strings.FieldsOfJoin` and `Strings.JoinIsNormal` pin the result |
| `Strings.Fields` | main.go:59 | every field is a non-empty run of characters with no white space |
| `Strings.FieldsOfJoin` | main.go:59 | splitting words joined by single spaces gives back exactly those words |
| `Strings.ConcatFields` | main.go:59 | the fields, concatenated, are exactly the non-white-space characters of the input, in order |
| `Strings.FieldsEmptyIffAllSpace` | main.go:59 | there are no fields if and only if every character is white space |
| `Strings.JoinIsNormal` | main.go:59 | words joined with one space have no white space other than single inner spaces |
| `Strings.FieldsAppend` | main.go:59 | the fields of a concatenation are the fields of each part, with only a word ending the first part and a word starting the second merged into one |
| `Strings.FieldsSplit` | main.go:59 | every white-space character separates fields: the fields of `a + [c] + b` for a white-space `c` are those of `a` followed by those of `b` |
| `Strings.WordEquivalentAppend` | main.go:59 | strings with the same words and the same white space at each end stay interchangeable inside a concatenation |
| `Strings.Collapse` | main.go:59 | the collapsed text is in normal form (no leading, trailing or doubled space, no white space other than ' ') and has the same words as the input |
| `Strings.NormalIsFixpoint` | main.go:59 | a string already in normal form is left unchanged by the collapse |
| `Strings.CollapseIdempotent` | main.go:59 | collapsing twice equals collapsing once |
| `Strings.CollapseUnique` | main.go:59 | a string is the collapse of `s` if and only if it is in normal form and has the words of `s` |
| `Strings.CollapseKeepsNonSpace` | main.go:59 | collapsing drops white space only: the non-white-space characters survive in order |
| `Strings.CollapseEmptyIffAllSpace` | main.go:59 | the collapse is empty if and only if the input is all white space |
| `Links.IsAnchor` | main.go:65 | a node is an anchor when it is an element whose tag is exactly "a" |
| `Links.LinkNodes` | main.go:63-72 | every node returned is an element whose tag is exactly "a" |
| `Links.LinkNodesAll` | main.go:68-70 | the anchors collected from a child list are all anchor elements |
| `Links.LinkNodesInDocumentOrder` | main.go:63-71 | the result is exactly the anchors of the tree filtered out of its pre-order listing: each node before its descendants, children left to right |
| `Links.LinkNodesAreTheAnchors` | main.go:65-70 | a node is in the result if and only if it is an "a" element somewhere in the tree, at any depth and under any node type |
| `Links.NoAnchorsNoLinkNodes` | main.go:63-71 | the result is empty if and only if the tree holds no "a" element |
| `Links.ExtractText` | main.go:48-60 | a text node gives its data unchanged; a node that is neither text nor element gives ""; an element gives a normal-form string holding every non-white-space character of the text below it, in order; the exact element text is stated by `Links.ExtractTextIsCollapseOfTrimmed` |
| `Links.ChildrenText` | main.go:55-58 | the children's texts, concatenated, keep the non-white-space characters of the children's raw text in document order |
| `Links.TrimmedChildrenText` | main.go:55-58 | the children's texts, concatenated, have the words of the children's trimmed texts concatenated and the same white space at each end |
| `Links.ExtractTextEmpty` | main.go:55-59 | an element's text is "" if and only if the text below it is all white space, including when there is no text node at all |
| `Links.ExtractTextIsCollapsed` | main.go:59 | an element's text is a fixed point of the collapse |
| `Links.TightNodeText` | main.go:48-60 | when no element at or below the node has raw text starting or ending with white space, its extracted text has the words of its raw text and the same white space at each end |
| `Links.ExtractTextOneCollapse` | main.go:48-60 | when no element among or below the children has raw text starting or ending with white space, the element's text is exactly the collapse of its raw text |
| `Links.TrimmedNodeText` | main.go:48-60 | every node's extracted text has the words of its trimmed text (each element trimming its children's concatenation at both ends) and the same white space at each end |
| `Links.ExtractTextIsCollapseOfTrimmed` | main.go:48-60 | an element's text is exactly the collapse of its trimmed text, for every tree: white space at the edge of a child element is dropped, white space between children separates words |
| `Links.FlatElementText` | main.go:48-60 | an element whose children are all non-elements (text, comments) has exactly the collapse of its raw text |
| `Links.Absorb` | main.go:37-41 | one loop step binds the attribute's key to its value, overwriting an earlier binding, keeps every other key, and changes `href` only for an "href" attribute |
| `Links.FoldAttrs` | main.go:35-42 | after the attribute loop, the map has exactly the attribute keys, each bound to its last occurrence's value, and `href` is the last "href" value, or "" without one |
| `Links.AbsorbSummarizes` | main.go:37-42 | one more loop iteration keeps the map and `href` correct for the longer attribute list |
| `Links.HrefIsAttr` | main.go:38-41 | when an "href" attribute exists, `href` equals the map's "href" entry |
| `Links.BuildLink` | main.go:34-45 | the link holds the anchor's extracted text, the last-wins attribute map and the last "href" value, which equals the map's entry |
| `Links.BuildLinks` | main.go:26-29 | one link per anchor node, same length and order |
| `Links.Parse` | main.go:20-31 | a parse error is passed on unchanged with no links; otherwise the i-th link is built from the i-th anchor in document order, and there is one link per anchor |
| `Links.ParseCoversAnchors` | main.go:25-30 | every link is built from an anchor of the document, and every anchor of the document yields a link |
| `Links.ParseNoAnchors` | main.go:25-30 | a document without anchors yields an empty link list, not an error |
| `LinkQuery.HasAttr` | main.go:78 | a link matches when its attribute map has the key and the value there equals the given value exactly |
| `LinkQuery.FilterLinksByAttr` | main.go:75-83 | the result is an order-preserving subsequence of the input; every kept link has the attribute with exactly that value; each matching link keeps its multiplicity; links without the key or with another value are dropped |
| `LinkQuery.FilterAppend` | main.go:75-83 | filtering a concatenation is concatenating the filtered parts |
| `LinkQuery.FilterKeepsAllIffAllMatch` | main.go:75-83 | the filter returns its input unchanged if and only if every link matches |
| `LinkQuery.ExtractLinksText` | main.go:86-92 | one text per link, same length, and the i-th text is the i-th link's text |
| `LinkQuery.ParsedTexts` | main.go:86-92 | the texts of a parsed document are the extracted texts of its anchors, in document order |
| `Scenarios.TwoAnchorsLinks` | main.go:20-45 | `<a href="/x">Hello <b>world</b></a><a href="/y" class="btn">Go</a>`, for any words and attribute values, gives two links: ("/x", "Hello world", {href}) and ("/y", "Go", {href, class}) |
| `Scenarios.NoLinksHere` | main.go:20-31 | `<p>No links here</p>` gives an empty link list, not an error |
| `Scenarios.NestedAnchors` | main.go:63-71 | two nested anchors are both reported, outer first, and both carry the inner text |
| `Scenarios.CollapsePerElement` | main.go:55-59 | `<a><b>foo </b><b>bar</b></a>` has the text "foobar", because each element collapses its own text |
| `Scenarios.SpaceBetweenElements` | main.go:55-59 | `<a><b>foo </b> <b>bar</b></a>` has the text "foo bar": the text node between the elements keeps the words apart |

## Left out

- `html.Parse` and the `io.Reader` (main.go:21) belong to the external tokenizer. `Parse` takes what `html.Parse` returned as its input: a tree, or an opaque `ParseError`.
- The pointer identity of `*html.Node` and the `FirstChild`/`NextSibling` links are not modelled. Children are an immutable sequence, and nodes are returned by value.
- `html.Attribute.Namespace` is not modelled, because `buildLink` never reads it.
- Go's distinction between a nil slice and an empty slice is not modelled: both are the empty sequence.
- Strings are sequences of Unicode characters, not UTF-8 bytes. So invalid UTF-8, which `strings.Fields` would read as U+FFFD, is not modelled. `IsSpace` lists the characters that Go's `unicode.IsSpace` accepts.
- Map iteration order is not modelled. It plays no part in the behaviour; `Link.attrs` is a `map<string, string>`.
- The scenario lemmas take the words of the example documents as parameters ("Hello", "world", "Go" are instances). The verifier cannot evaluate the collapse of literal strings within its resource limit.

# Visible-text extraction in go-scrape, modelled in Dafny

go-scrape fetches a web page and returns its visible text. The logic lives in
`extractTextFromHTML` (package `scraper`). It takes the tree that
`html.Parse` builds and walks it in document order: a node first, then its
children from the first to the last sibling. A text node whose direct parent
is not a `script`, `style`, `head` or `noscript` element adds its data with
white space trimmed from both ends. If that trimmed data is not empty, it is
written to a `strings.Builder` followed by one space. The builder's contents
are trimmed once more and returned.

This project models that extractor and proves what it computes.

- `html.dfy` (module `Html`): the parsed tree. A `Node` has the kind
  (`html.NodeType`), the `Data` string and the children in sibling order. The
  parent pointer is not stored; the walk passes it down as an argument.
- `trim.dfy` (module `Trim`): `strings.TrimSpace`. It skips the leading white
  space, drops the trailing white space and slices between the two. Which
  characters are white space is a parameter `isSpace`, so every result holds
  for any classifier.
- `text.dfy` (module `Scraper`):
  - `IsIgnorable`.
  - the specification functions `Pieces` (what the walk writes, one trimmed
    piece per included text node), `Render` (each piece followed by one
    space), `Join` and `VisibleText`.
  - the builder as a class `TextBuilder`.
  - the `traverse` closure as the recursive method `Traverse`. Its loop over
    the children is proved to append exactly `Render(Pieces(...))`.
  - `ExtractTextFromHTML`, proved to return `VisibleText` of the parsed tree.
  - the lemmas about the result: it is the pieces joined by single spaces,
    it is empty exactly when there are no pieces, and it depends only on
    the direct parent.
- `order.dfy` (module `DocumentOrder`): a separate reference definition.
  `Preorder` lists every node with its parent in document order. `Emitting`
  keeps the text nodes that contribute, and `Texts` trims them. The lemma
  `PiecesFollowDocumentOrder` proves that the walk writes exactly these
  texts, in this order.
- `wrappers.dfy` (module `Wrappers`): `Option` and `Result`.

Two behaviours of the code are worth stating plainly, and the model
reproduces both:

- A text node is dropped only when its own parent is ignorable; further
  ancestors play no part. Text inside `<head><title>…</title></head>` is
  kept, because its parent is `title` (`HeadTitleKept`).
- White space inside one text node is kept as it is. Only the two ends of
  each text node, and of the final result, are trimmed.

## Model

| member | source | states |
|---|---|---|
| `Scraper.IsIgnorable` | scraper/text.go:54-64 | false for a missing parent and for every node that is not an element; for an element, true exactly when its tag is `script`, `style`, `head` or `noscript` |
| `Scraper.Pieces` | scraper/text.go:37-47 | every piece the walk from a node writes is non-empty and has no white space at either end |
| `Scraper.ChildPieces` | scraper/text.go:44-46 | the same for the walks over a run of siblings |
| `Scraper.WriteOwnText` | scraper/text.go:38-43 | the builder grows by the node's trimmed text and one space when the node is a text node, its parent is not ignorable and the trimmed text is not empty; otherwise it is unchanged |
| `Scraper.Traverse` | scraper/text.go:36-47 | the builder grows by exactly `Render(Pieces(n, parent))`: the node's own piece, then the pieces of each child in sibling order, each followed by one space |
| `Scraper.TextBuilder.constructor` | scraper/text.go:34 | a new builder is empty |
| `Scraper.TextBuilder.WriteString` | scraper/text.go:41 | writing appends the string at the end and changes nothing else |
| `Scraper.ExtractTextFromHTML` | scraper/text.go:28-52 | a parse error is returned as it is; once a tree is given, the call always succeeds, with `VisibleText` of the tree |
| `Scraper.VisibleTextIsJoin` | scraper/text.go:39-51 | when the blank counts as white space, the result is the pieces joined by single spaces: the final trim removes exactly the one trailing space |
| `Scraper.VisibleTextEmpty` | scraper/text.go:40-51 | the result is empty exactly when the walk writes no piece, for any white-space classifier |
| `Scraper.RenderIsJoinSpaced` | scraper/text.go:40-42 | the builder holds each piece once, each followed by exactly one space: the joined pieces plus one trailing space |
| `Scraper.RenderAppend` | scraper/text.go:41 | writing two runs of pieces one after the other renders their concatenation |
| `Scraper.ChildPiecesAppend` | scraper/text.go:44-46 | sibling order is kept: the walk over `xs + ys` writes the pieces of `xs` before those of `ys` |
| `Scraper.TextLeafPieces` | scraper/text.go:38-42 | a text node adds nothing if its direct parent is ignorable or its data is all white space; otherwise it adds its trimmed data |
| `Scraper.HiddenTextChild` | scraper/text.go:38-43 | a text node directly inside `script`, `style`, `head` or `noscript`, among any siblings, adds nothing of its own; a text leaf there adds nothing at all |
| `Scraper.OnlyDirectParentMatters` | scraper/text.go:38 | the parent affects a node's output only through `IsIgnorable`; it does not affect a node that is not a text node at all |
| `Scraper.HeadTitleKept` | scraper/text.go:38 | text in a `title` inside `head` is kept: exclusion looks at the direct parent only, not at further ancestors |
| `Trim.TrimSpace` | scraper/text.go:39 | the result has no white space at either end; it is the infix of the input after the leading white space and before the trailing white space; it is empty exactly when the input is all white space |
| `Trim.TrimSpaceOfPadded` | scraper/text.go:51 | trimming a trimmed string that has white space around it gives back exactly that string |
| `Trim.TrimSpaceIdempotent` | scraper/text.go:51 | trimming twice gives the same as trimming once |
| `DocumentOrder.PiecesFollowDocumentOrder` | scraper/text.go:37-49 | what the walk writes equals the trimmed data of the contributing text nodes, listed in pre-order document order |
| `DocumentOrder.ChildPiecesFollowDocumentOrder` | scraper/text.go:44-46 | the same for a run of siblings, first child to last |
| `DocumentOrder.PiecesComeFromVisibleTextNodes` | scraper/text.go:38-42 | only text nodes contribute: piece `k` is the trimmed data of the `k`-th contributing node of the tree, a text node whose direct parent is not ignorable and whose data is not blank; elements, documents, comments and other nodes add nothing of their own |
| `DocumentOrder.NothingVisibleMeansEmpty` | scraper/text.go:28-52 | the result is the empty string exactly when no node of the tree contributes |
| `DocumentOrder.Emitting` | scraper/text.go:38-40 | the contributing visits are visits of the list, and each is a non-ignored text node with non-blank data; the list of them is empty exactly when no visit contributes |

## Left out

- `ExtractTextFromURL` (scraper/text.go:13-26): the HTTP GET, closing the response body and the status check are network I/O.
- `html.Parse` (scraper/text.go:29): the HTML tokeniser and tree builder of `golang.org/x/net/html` are not part of this model. `ExtractTextFromHTML` takes what it returns, a tree or an error, as its input.
- The white-space table of `unicode.IsSpace` used by `strings.TrimSpace`: it is the parameter `isSpace`. Go's fast path for ASCII strings gives the same result as its general path, so only the general rule is modelled.
- Scraper.VisibleTextIsJoin: holds when the blank `' '` is white space, as it is for `unicode.IsSpace`. For other classifiers only `VisibleTextEmpty` and `TrimSpace`'s contract apply.
- Node fields the extractor never reads (`DataAtom`, `Namespace`, `Attr`) are not modelled. The walk passes the parent down instead of following `n.Parent`, so a tree whose `Parent` pointers disagree with its child lists is not modelled. `html.Parse` never builds one.
- Go strings are UTF-8 bytes; the model uses sequences of characters. The check `len(text) > 0` counts bytes, but it is true exactly when the string is non-empty, as in the model.
- Scraper.ExtractTextFromHTML: on a parse error Go returns the pair `("", err)`. The model returns `Failure(err)` and drops the empty string.
- `main.go`: the `/scrape` HTTP handler, with its method check, JSON decoding and encoding, and `ListenAndServe`. It is routing and I/O with no logic of its own.
- The asynchronous job pipeline planned for this service: job states, a headless-rendering fallback, schema fetching, model-based structuring, a TTL job store and a cleanup sweeper. None of it exists in the repository's code.

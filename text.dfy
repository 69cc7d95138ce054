/**
 * Package `scraper`'s visible-text extractor: `extractTextFromHTML`, the
 * `traverse` closure it runs over the parsed tree, and `isIgnorable`.
 *
 * The walk visits the tree in document order. A text node whose direct parent
 * is not ignorable contributes its trimmed data, when that is not empty,
 * followed by one space; the builder's final contents are trimmed once more.
 */
module Scraper {
  import opened Wrappers
  import opened Html
  import opened Trim

  /** The tags whose direct text children are not visible text. */
  const IgnorableTags: set<string> := {"script", "style", "head", "noscript"}

  /**
   * isIgnorable: a missing parent and every node other than an element are
   * never ignorable; an element is ignorable exactly when its tag is one of
   * the four ignorable tags.
   */
  function IsIgnorable(n: Option<Node>): (r: bool)
    ensures n.None? ==> !r
    ensures n.Some? && n.value.kind != ElementNode ==> !r
    ensures n.Some? && n.value.kind == ElementNode ==> (r <==> n.value.data in IgnorableTags)
  {
    if n.None? || n.value.kind != ElementNode then false
    else match n.value.data
      case "script" => true
      case "style" => true
      case "head" => true
      case "noscript" => true
      case _ => false
  }

  /** A piece of output: non-empty, with no white space at either end. */
  predicate IsPiece(p: string, isSpace: char -> bool)
  {
    p != [] && Trimmed(p, isSpace)
  }

  predicate AllPieces(ps: seq<string>, isSpace: char -> bool)
  {
    forall k :: 0 <= k < |ps| ==> IsPiece(ps[k], isSpace)
  }

  /**
   * What visiting `n` itself adds, before its children: the trimmed data of
   * a text node under a parent that is not ignorable, unless that is empty.
   */
  function OwnText(n: Node, parent: Option<Node>, isSpace: char -> bool): seq<string>
  {
    if n.kind == TextNode && !IsIgnorable(parent) then
      var text := TrimSpace(n.data, isSpace);
      if |text| > 0 then [text] else []
    else
      []
  }

  /** The pieces that the walk from `n` (whose parent is `parent`) writes, in the order it writes them. */
  function Pieces(n: Node, parent: Option<Node>, isSpace: char -> bool): (ps: seq<string>)
    ensures AllPieces(ps, isSpace)
    decreases n, 1
  {
    OwnText(n, parent, isSpace) + ChildPieces(n.children, Some(n), isSpace)
  }

  /** The pieces written by the walks from the siblings `cs`, first to last. */
  function ChildPieces(cs: seq<Node>, parent: Option<Node>, isSpace: char -> bool): (ps: seq<string>)
    ensures AllPieces(ps, isSpace)
    decreases cs, 0
  {
    if cs == [] then [] else Pieces(cs[0], parent, isSpace) + ChildPieces(cs[1..], parent, isSpace)
  }

  /** What the builder receives for the pieces `ps`: each piece followed by one space. */
  function Render(ps: seq<string>): string
  {
    if ps == [] then [] else ps[0] + " " + Render(ps[1..])
  }

  /** The pieces `ps` separated by single spaces, as `strings.Join(ps, " ")` would give. */
  function Join(ps: seq<string>): string
  {
    if ps == [] then [] else if |ps| == 1 then ps[0] else ps[0] + " " + Join(ps[1..])
  }

  /** The string `extractTextFromHTML` returns for the parsed document `doc`. */
  function VisibleText(doc: Node, isSpace: char -> bool): string
  {
    TrimSpace(Render(Pieces(doc, None, isSpace)), isSpace)
  }

  /** `strings.Builder`: a buffer that only grows at its end. */
  class TextBuilder {
    var buf: string

    constructor ()
      ensures buf == []
    {
      buf := [];
    }

    method WriteString(s: string)
      modifies this
      ensures buf == old(buf) + s
    {
      buf := buf + s;
    }

    function String(): string
      reads this
    {
      buf
    }
  }

  /**
   * The first half of a visit: write the trimmed data of a text node whose
   * parent is not ignorable, followed by one space, unless it is empty.
   */
  method WriteOwnText(n: Node, parent: Option<Node>, b: TextBuilder, isSpace: char -> bool)
    modifies b
    ensures b.buf == old(b.buf) + Render(OwnText(n, parent, isSpace))
  {
    if n.kind == TextNode && !IsIgnorable(parent) {
      var text := TrimSpace(n.data, isSpace);
      if |text| > 0 {
        b.WriteString(text + " ");
      }
    }
    OwnTextRender(n, parent, isSpace);
  }

  /**
   * The `traverse` closure: visit `n`, then each child from the first to the
   * last sibling, appending to the shared builder `b`.
   */
  method Traverse(n: Node, parent: Option<Node>, b: TextBuilder, isSpace: char -> bool)
    modifies b
    ensures b.buf == old(b.buf) + Render(Pieces(n, parent, isSpace))
    decreases n
  {
    ghost var before := b.buf;
    WriteOwnText(n, parent, b, isSpace);
    ghost var own := b.buf;
    var i := 0;
    ChildPiecesPrefix(n.children, i, Some(n), isSpace);
    while i < |n.children|
      invariant 0 <= i <= |n.children|
      invariant b.buf == own + Render(ChildPieces(n.children[..i], Some(n), isSpace))
    {
      Traverse(n.children[i], Some(n), b, isSpace);
      WalkStep(b.buf, own, n.children, i, Some(n), isSpace);
      i := i + 1;
    }
    WalkDone(b.buf, before, n, parent, isSpace);
  }

  /**
   * extractTextFromHTML, given what `html.Parse` returned: a parse error is
   * passed on; once a tree is given, extraction never fails.
   */
  method ExtractTextFromHTML(parsed: Result<Node, string>, isSpace: char -> bool) returns (r: Result<string, string>)
    ensures parsed.Failure? ==> r == Failure(parsed.error)
    ensures parsed.Success? ==> r == Success(VisibleText(parsed.value, isSpace))
  {
    if parsed.Failure? {
      return Failure(parsed.error);
    }
    var doc := parsed.value;
    var b := new TextBuilder();
    Traverse(doc, None, b, isSpace);
    assert b.String() == Render(Pieces(doc, None, isSpace));
    return Success(TrimSpace(b.String(), isSpace));
  }

  // Facts about the builder's contents.

  /** What visiting `n` itself writes to the builder. */
  lemma OwnTextRender(n: Node, parent: Option<Node>, isSpace: char -> bool)
    ensures var text := TrimSpace(n.data, isSpace);
      Render(OwnText(n, parent, isSpace))
        == if n.kind == TextNode && !IsIgnorable(parent) && |text| > 0 then text + " " else []
  {
    var text := TrimSpace(n.data, isSpace);
    assert Render([text]) == text + " " + Render([]);
  }

  lemma {:induction false} RenderAppend(a: seq<string>, c: seq<string>)
    ensures Render(a + c) == Render(a) + Render(c)
  {
    if a != [] {
      assert (a + c)[1..] == a[1..] + c;
      RenderAppend(a[1..], c);
    } else {
      assert a + c == c;
    }
  }

  /** One turn of the sibling loop keeps the builder equal to the pieces of the siblings walked so far. */
  lemma WalkStep(buf: string, own: string, cs: seq<Node>, i: nat, parent: Option<Node>, isSpace: char -> bool)
    requires i < |cs|
    requires buf == own + Render(ChildPieces(cs[..i], parent, isSpace)) + Render(Pieces(cs[i], parent, isSpace))
    ensures buf == own + Render(ChildPieces(cs[..i + 1], parent, isSpace))
  {
    ChildPiecesPrefix(cs, i, parent, isSpace);
    ConcatAssoc(own, Render(ChildPieces(cs[..i], parent, isSpace)), Render(Pieces(cs[i], parent, isSpace)));
  }

  lemma ConcatAssoc(x: string, y: string, z: string)
    ensures x + y + z == x + (y + z)
  {
  }

  /** Once every child is walked, the builder holds the pieces of the whole visit. */
  lemma WalkDone(buf: string, before: string, n: Node, parent: Option<Node>, isSpace: char -> bool)
    requires buf == before + Render(OwnText(n, parent, isSpace))
      + Render(ChildPieces(n.children[..|n.children|], Some(n), isSpace))
    ensures buf == before + Render(Pieces(n, parent, isSpace))
  {
    assert n.children[..|n.children|] == n.children;
    RenderAppend(OwnText(n, parent, isSpace), ChildPieces(n.children, Some(n), isSpace));
    ConcatAssoc(before, Render(OwnText(n, parent, isSpace)), Render(ChildPieces(n.children, Some(n), isSpace)));
  }

  /**
   * No sibling renders nothing; rendering the pieces of the first `i`
   * siblings, then those of sibling `i`, renders the pieces of the first `i + 1`.
   */
  lemma ChildPiecesPrefix(cs: seq<Node>, i: nat, parent: Option<Node>, isSpace: char -> bool)
    requires i <= |cs|
    ensures i == 0 ==> Render(ChildPieces(cs[..i], parent, isSpace)) == []
    ensures i < |cs| ==>
      Render(ChildPieces(cs[..i + 1], parent, isSpace))
        == Render(ChildPieces(cs[..i], parent, isSpace)) + Render(Pieces(cs[i], parent, isSpace))
  {
    if i == 0 {
      assert cs[..i] == [];
    }
    if i < |cs| {
      ChildPiecesSnoc(cs, i, parent, isSpace);
      RenderAppend(ChildPieces(cs[..i], parent, isSpace), Pieces(cs[i], parent, isSpace));
    }
  }

  lemma ChildPiecesSnoc(cs: seq<Node>, i: nat, parent: Option<Node>, isSpace: char -> bool)
    requires i < |cs|
    ensures ChildPieces(cs[..i + 1], parent, isSpace)
      == ChildPieces(cs[..i], parent, isSpace) + Pieces(cs[i], parent, isSpace)
  {
    assert cs[..i + 1] == cs[..i] + [cs[i]];
    ChildPiecesAppend(cs[..i], [cs[i]], parent, isSpace);
    assert [cs[i]][1..] == [];
  }

  /** The siblings' pieces come in sibling order: the walk over `xs + ys` writes those of `xs` first. */
  lemma {:induction false} ChildPiecesAppend(xs: seq<Node>, ys: seq<Node>, parent: Option<Node>, isSpace: char -> bool)
    ensures ChildPieces(xs + ys, parent, isSpace)
      == ChildPieces(xs, parent, isSpace) + ChildPieces(ys, parent, isSpace)
  {
    if xs != [] {
      assert (xs + ys)[0] == xs[0];
      assert (xs + ys)[1..] == xs[1..] + ys;
      ChildPiecesAppend(xs[1..], ys, parent, isSpace);
    } else {
      assert xs + ys == ys;
    }
  }

  /** Each piece is written exactly once and followed by exactly one space. */
  lemma {:induction false} RenderIsJoinSpaced(ps: seq<string>)
    requires ps != []
    ensures Render(ps) == Join(ps) + " "
  {
    if |ps| > 1 {
      RenderIsJoinSpaced(ps[1..]);
    } else {
      assert ps[1..] == [];
    }
  }

  /** Joined pieces keep the first character of the first piece and the last character of the last one. */
  lemma {:induction false} JoinEnds(ps: seq<string>, isSpace: char -> bool)
    requires ps != [] && AllPieces(ps, isSpace)
    ensures var j, last := Join(ps), ps[|ps| - 1];
      j != [] && j[0] == ps[0][0] && j[|j| - 1] == last[|last| - 1]
  {
    if |ps| > 1 {
      JoinEnds(ps[1..], isSpace);
    }
  }

  // What the extractor returns.

  /**
   * When the blank is white space, the result is the pieces joined by single
   * spaces: the final trim removes exactly the one trailing space.
   */
  lemma VisibleTextIsJoin(doc: Node, isSpace: char -> bool)
    requires isSpace(' ')
    ensures VisibleText(doc, isSpace) == Join(Pieces(doc, None, isSpace))
  {
    var ps := Pieces(doc, None, isSpace);
    if ps != [] {
      RenderIsJoinSpaced(ps);
      JoinEnds(ps, isSpace);
      assert [] + Join(ps) + " " == Render(ps);
      TrimSpaceOfPadded([], Join(ps), " ", isSpace);
    }
  }

  /** The result is empty exactly when the walk writes no piece, whatever counts as white space. */
  lemma VisibleTextEmpty(doc: Node, isSpace: char -> bool)
    ensures VisibleText(doc, isSpace) == [] <==> Pieces(doc, None, isSpace) == []
  {
    var ps := Pieces(doc, None, isSpace);
    if ps != [] {
      assert Render(ps)[0] == ps[0][0];
      assert !AllSpace(Render(ps), isSpace);
    }
  }

  // Which text nodes contribute.

  /**
   * A text node contributes its trimmed data, unless its direct parent is
   * ignorable or its data is all white space.
   */
  lemma TextLeafPieces(data: string, parent: Option<Node>, isSpace: char -> bool)
    ensures Pieces(Text(data), parent, isSpace)
      == if IsIgnorable(parent) || AllSpace(data, isSpace) then [] else [TrimSpace(data, isSpace)]
  {
    assert ChildPieces([], Some(Text(data)), isSpace) == [];
  }

  /**
   * A text node directly inside `script`, `style`, `head` or `noscript` adds
   * nothing of its own, whatever its siblings are; a text leaf there adds
   * nothing at all.
   */
  lemma HiddenTextChild(tag: string, cs: seq<Node>, k: nat, isSpace: char -> bool)
    requires tag in IgnorableTags && k < |cs| && cs[k].kind == TextNode
    ensures Pieces(cs[k], Some(Element(tag, cs)), isSpace) == ChildPieces(cs[k].children, Some(cs[k]), isSpace)
    ensures cs[k].children == [] ==> Pieces(cs[k], Some(Element(tag, cs)), isSpace) == []
  {
    assert ChildPieces([], Some(cs[k]), isSpace) == [];
  }

  /**
   * Exclusion looks at the direct parent only: the contribution of a node
   * depends on its parent just through IsIgnorable, and that of a node other
   * than a text node not at all.
   */
  lemma OnlyDirectParentMatters(n: Node, p: Option<Node>, q: Option<Node>, isSpace: char -> bool)
    requires n.kind != TextNode || IsIgnorable(p) == IsIgnorable(q)
    ensures Pieces(n, p, isSpace) == Pieces(n, q, isSpace)
  {
  }

  /** Text of a `title` inside `head` is kept: its direct parent is `title`, which is not ignorable. */
  lemma HeadTitleKept(data: string, parent: Option<Node>, isSpace: char -> bool)
    ensures Pieces(Element("head", [Element("title", [Text(data)])]), parent, isSpace)
      == if AllSpace(data, isSpace) then [] else [TrimSpace(data, isSpace)]
  {
    var title := Element("title", [Text(data)]);
    var head := Element("head", [title]);
    assert !IsIgnorable(Some(title));
    TextLeafPieces(data, Some(title), isSpace);
    assert [Text(data)][1..] == [];
    assert ChildPieces([Text(data)], Some(title), isSpace) == Pieces(Text(data), Some(title), isSpace);
    assert [title][1..] == [];
    assert ChildPieces([title], Some(head), isSpace) == Pieces(title, Some(head), isSpace);
  }
}

/**
 * An independent account of what the walk emits: list every node with its
 * parent in document order, then keep the trimmed data of the visits that
 * emit. The two agree (PiecesFollowDocumentOrder).
 */
module DocumentOrder {
  import opened Wrappers
  import opened Html
  import opened Trim
  import opened Scraper

  /** A node as the walk reaches it, together with its direct parent. */
  datatype Visit = Visit(node: Node, parent: Option<Node>)

  /** Every node under `n`, `n` first, each node before its children, children from the first to the last sibling. */
  function Preorder(n: Node, parent: Option<Node>): seq<Visit>
    decreases n, 1
  {
    [Visit(n, parent)] + PreorderOf(n.children, Some(n))
  }

  function PreorderOf(cs: seq<Node>, parent: Option<Node>): seq<Visit>
    decreases cs, 0
  {
    if cs == [] then [] else Preorder(cs[0], parent) + PreorderOf(cs[1..], parent)
  }

  /** A visit emits text when it reaches a text node with non-blank data under a parent that is not ignorable. */
  predicate Emits(v: Visit, isSpace: char -> bool)
  {
    v.node.kind == TextNode && !IsIgnorable(v.parent) && !AllSpace(v.node.data, isSpace)
  }

  /** The emitting visits of `vs`, in the order of `vs`. */
  function Emitting(vs: seq<Visit>, isSpace: char -> bool): (es: seq<Visit>)
    ensures |es| <= |vs|
    ensures forall k :: 0 <= k < |es| ==> Emits(es[k], isSpace) && es[k] in vs
    ensures es == [] <==> forall j :: 0 <= j < |vs| ==> !Emits(vs[j], isSpace)
  {
    if vs == [] then []
    else
      var rest := Emitting(vs[1..], isSpace);
      assert forall j :: 1 <= j < |vs| ==> vs[j] == vs[1..][j - 1];
      assert forall v :: v in vs[1..] ==> v in vs;
      (if Emits(vs[0], isSpace) then [vs[0]] else []) + rest
  }

  /** The trimmed data of each visit of `es`. */
  function Texts(es: seq<Visit>, isSpace: char -> bool): (ts: seq<string>)
    ensures |ts| == |es|
    ensures forall k :: 0 <= k < |es| ==> ts[k] == TrimSpace(es[k].node.data, isSpace)
  {
    if es == [] then [] else [TrimSpace(es[0].node.data, isSpace)] + Texts(es[1..], isSpace)
  }

  /** What the walk should emit for the visits `vs`: the trimmed data of those that emit. */
  function Harvest(vs: seq<Visit>, isSpace: char -> bool): seq<string>
  {
    Texts(Emitting(vs, isSpace), isSpace)
  }

  lemma {:induction false} EmittingAppend(xs: seq<Visit>, ys: seq<Visit>, isSpace: char -> bool)
    ensures Emitting(xs + ys, isSpace) == Emitting(xs, isSpace) + Emitting(ys, isSpace)
  {
    if xs != [] {
      var head := if Emits(xs[0], isSpace) then [xs[0]] else [];
      assert (xs + ys)[0] == xs[0];
      assert (xs + ys)[1..] == xs[1..] + ys;
      EmittingAppend(xs[1..], ys, isSpace);
      assert head + (Emitting(xs[1..], isSpace) + Emitting(ys, isSpace))
        == head + Emitting(xs[1..], isSpace) + Emitting(ys, isSpace);
    } else {
      assert xs + ys == ys;
    }
  }

  lemma TextsAppend(xs: seq<Visit>, ys: seq<Visit>, isSpace: char -> bool)
    ensures Texts(xs + ys, isSpace) == Texts(xs, isSpace) + Texts(ys, isSpace)
  {
    var l, r := Texts(xs + ys, isSpace), Texts(xs, isSpace) + Texts(ys, isSpace);
    assert forall k :: 0 <= k < |xs + ys| ==> (xs + ys)[k] == if k < |xs| then xs[k] else ys[k - |xs|];
    assert forall k :: 0 <= k < |l| ==> l[k] == r[k];
  }

  lemma HarvestAppend(xs: seq<Visit>, ys: seq<Visit>, isSpace: char -> bool)
    ensures Harvest(xs + ys, isSpace) == Harvest(xs, isSpace) + Harvest(ys, isSpace)
  {
    EmittingAppend(xs, ys, isSpace);
    TextsAppend(Emitting(xs, isSpace), Emitting(ys, isSpace), isSpace);
  }

  /** The walk writes exactly the trimmed data of the emitting visits, in document order. */
  lemma {:induction false} PiecesFollowDocumentOrder(n: Node, parent: Option<Node>, isSpace: char -> bool)
    ensures Pieces(n, parent, isSpace) == Harvest(Preorder(n, parent), isSpace)
    decreases n, 1
  {
    var own := [Visit(n, parent)];
    HarvestAppend(own, PreorderOf(n.children, Some(n)), isSpace);
    assert own[1..] == [];
    ChildPiecesFollowDocumentOrder(n.children, Some(n), isSpace);
  }

  lemma {:induction false} ChildPiecesFollowDocumentOrder(cs: seq<Node>, parent: Option<Node>, isSpace: char -> bool)
    ensures ChildPieces(cs, parent, isSpace) == Harvest(PreorderOf(cs, parent), isSpace)
    decreases cs, 0
  {
    if cs != [] {
      PiecesFollowDocumentOrder(cs[0], parent, isSpace);
      ChildPiecesFollowDocumentOrder(cs[1..], parent, isSpace);
      HarvestAppend(Preorder(cs[0], parent), PreorderOf(cs[1..], parent), isSpace);
    }
  }

  /**
   * Only text nodes contribute: piece `k` is the trimmed data of the `k`-th
   * emitting visit, a text node of the tree whose direct parent is not
   * ignorable and whose data is not blank.
   */
  lemma PiecesComeFromVisibleTextNodes(n: Node, parent: Option<Node>, isSpace: char -> bool)
    ensures var ps, es := Pieces(n, parent, isSpace), Emitting(Preorder(n, parent), isSpace);
      && |ps| == |es|
      && forall k :: 0 <= k < |ps| ==>
        && es[k] in Preorder(n, parent)
        && es[k].node.kind == TextNode && !IsIgnorable(es[k].parent) && !AllSpace(es[k].node.data, isSpace)
        && ps[k] == TrimSpace(es[k].node.data, isSpace)
  {
    PiecesFollowDocumentOrder(n, parent, isSpace);
  }

  /** The document yields no text exactly when no node of it emits. */
  lemma NothingVisibleMeansEmpty(doc: Node, isSpace: char -> bool)
    ensures VisibleText(doc, isSpace) == [] <==>
      forall j :: 0 <= j < |Preorder(doc, None)| ==> !Emits(Preorder(doc, None)[j], isSpace)
  {
    PiecesFollowDocumentOrder(doc, None, isSpace);
    VisibleTextEmpty(doc, isSpace);
  }
}

/**
 * The element classes of the newer generation as node kinds over the
 * arena: tags (TagNode), the root (RootNode, a tag with tag '' whose
 * parent is itself), text and comment leaves, and the detached container
 * CollectionNode. getHtml and getText are folds over the tree.
 */
module Dom {
  import opened Prelude
  import opened Arena
  import opened Elements

  datatype Elem =
    | TagE(data: TagData)
    | RootE(data: TagData)
    | TextE(text: string)
    | CommentE(comment: string)
    | CollectionE

  type Doc = Store<Elem>

  /** The classes that extend ChildrenNode: TagNode and RootNode. */
  predicate HasList(e: Elem) {
    e.TagE? || e.RootE?
  }

  /** Everything that holds a list of children. */
  predicate IsContainer(e: Elem) {
    HasList(e) || e.CollectionE?
  }

  /** A tag that is still open (closing NO); RootNode never is. */
  predicate IsOpenTag(e: Elem) {
    e.TagE? && e.data.closing == No
  }

  /** RootNode's constructor: a TagNode with tag '' and the default closing YES, no attributes. */
  function RootData(): (d: TagData)
    ensures d.tag == "" && d.closing == Yes
    ensures d.attributes == [] && d.ids == [] && d.classes == []
  {
    NewTagData("", "", Yes)
  }

  /**
   * Linked nodes, leaves without children, and only a root may be its own
   * parent.
   */
  ghost predicate DocValid(s: Doc) {
    && Valid(s)
    && (forall n :: n in s && !IsContainer(s[n].kind) ==> s[n].children == [])
    && (forall n :: n in s && s[n].parent == Some(n) ==> s[n].kind.RootE?)
  }

  // -------------------------------------------------------------- rendering

  /** The opening tag with att2str's attribute text. */
  function OpenTag(d: TagData): string {
    "<" + d.tag + Att2Str(d) + ">"
  }

  function SelfTag(d: TagData): string {
    "<" + d.tag + Att2Str(d) + " />"
  }

  function CloseTag(d: TagData): string {
    "</" + d.tag + ">"
  }

  /** getHtml of node n. */
  function Html(s: Doc, n: NodeId): (r: string)
    requires Valid(s) && n in s
    ensures s[n].kind.TagE? ==> "<" + s[n].kind.data.tag <= r
    decreases Bound(s) - Depth(s, n), 1, 0
  {
    match s[n].kind
    case TextE(t) => t
    case CommentE(c) => c
    case RootE(_) => HtmlBelow(s, n, s[n].children)
    case CollectionE => HtmlBelow(s, n, s[n].children)
    case TagE(d) =>
      match d.closing
      case Self => SelfTag(d)
      case No => OpenTag(d) + HtmlBelow(s, n, s[n].children)
      case Yes => OpenTag(d) + HtmlBelow(s, n, s[n].children) + CloseTag(d)
  }

  /** The children's getHtml, concatenated in order. */
  function HtmlBelow(s: Doc, p: NodeId, cs: seq<NodeId>): string
    requires Valid(s) && p in s && ChildrenOf(s, p, cs)
    decreases Bound(s) - Depth(s, p), 0, |cs|
  {
    if |cs| == 0 then ""
    else
      ChildDepth(s, p, cs[0]);
      Html(s, cs[0]) + HtmlBelow(s, p, cs[1..])
  }

  /** getText of node n: leaves give their text, containers their children's. */
  function Text(s: Doc, n: NodeId): string
    requires Valid(s) && n in s
    decreases Bound(s) - Depth(s, n), 1, 0
  {
    match s[n].kind
    case TextE(t) => t
    case CommentE(c) => c
    case _ => TextBelow(s, n, s[n].children)
  }

  function TextBelow(s: Doc, p: NodeId, cs: seq<NodeId>): string
    requires Valid(s) && p in s && ChildrenOf(s, p, cs)
    decreases Bound(s) - Depth(s, p), 0, |cs|
  {
    if |cs| == 0 then ""
    else
      ChildDepth(s, p, cs[0]);
      Text(s, cs[0]) + TextBelow(s, p, cs[1..])
  }

  /** count(): the number of children. */
  function Count(s: Doc, n: NodeId): (r: nat)
    requires n in s && IsContainer(s[n].kind)
    ensures r == |s[n].children|
  {
    |s[n].children|
  }

  // ------------------------------------------------------------ text lemmas

  /** What one node contributes to getText by itself. */
  function OwnText(e: Elem): string {
    match e
    case TextE(t) => t
    case CommentE(c) => c
    case _ => ""
  }

  ghost function OwnTexts(s: Doc, ns: seq<NodeId>): string
    requires forall m :: m in ns ==> m in s
  {
    if |ns| == 0 then "" else OwnText(s[ns[0]].kind) + OwnTexts(s, ns[1..])
  }

  lemma {:induction false} OwnTextsAppend(s: Doc, xs: seq<NodeId>, ys: seq<NodeId>)
    requires forall m :: m in xs + ys ==> m in s
    ensures OwnTexts(s, xs + ys) == OwnTexts(s, xs) + OwnTexts(s, ys)
  {
    if |xs| > 0 {
      assert (xs + ys)[1..] == xs[1..] + ys;
      OwnTextsAppend(s, xs[1..], ys);
    } else {
      assert xs + ys == ys;
    }
  }

  /**
   * getText is the text of the leaves of the subtree in document order:
   * containers contribute nothing of their own.
   */
  lemma {:induction false} TextIsLeafTexts(s: Doc, n: NodeId)
    requires DocValid(s) && n in s
    ensures Text(s, n) == OwnTexts(s, Preorder(s, n))
    decreases Bound(s) - Depth(s, n), 1, 0
  {
    var pre := Preorder(s, n);
    assert pre[1..] == PreorderBelow(s, n, s[n].children);
    TextBelowIsLeafTexts(s, n, s[n].children);
  }

  lemma {:induction false} TextBelowIsLeafTexts(s: Doc, p: NodeId, cs: seq<NodeId>)
    requires DocValid(s) && p in s && ChildrenOf(s, p, cs)
    ensures TextBelow(s, p, cs) == OwnTexts(s, PreorderBelow(s, p, cs))
    decreases Bound(s) - Depth(s, p), 0, |cs|
  {
    if |cs| > 0 {
      ChildDepth(s, p, cs[0]);
      TextIsLeafTexts(s, cs[0]);
      TextBelowIsLeafTexts(s, p, cs[1..]);
      OwnTextsAppend(s, Preorder(s, cs[0]), PreorderBelow(s, p, cs[1..]));
    }
  }

  // ------------------------------------------------------------ html lemmas

  /** In a tree without tags getHtml and getText agree: no markup is written. */
  lemma {:induction false} HtmlOfTagFree(s: Doc, n: NodeId)
    requires Valid(s) && n in s
    requires forall m :: m in s ==> !s[m].kind.TagE?
    ensures Html(s, n) == Text(s, n)
    decreases Bound(s) - Depth(s, n), 1, 0
  {
    if s[n].kind.RootE? || s[n].kind.CollectionE? {
      HtmlBelowOfTagFree(s, n, s[n].children);
    }
  }

  lemma {:induction false} HtmlBelowOfTagFree(s: Doc, p: NodeId, cs: seq<NodeId>)
    requires Valid(s) && p in s && ChildrenOf(s, p, cs)
    requires forall m :: m in s ==> !s[m].kind.TagE?
    ensures HtmlBelow(s, p, cs) == TextBelow(s, p, cs)
    decreases Bound(s) - Depth(s, p), 0, |cs|
  {
    if |cs| > 0 {
      ChildDepth(s, p, cs[0]);
      HtmlOfTagFree(s, cs[0]);
      HtmlBelowOfTagFree(s, p, cs[1..]);
    }
  }

  /** Self-closing tags hold no children (the parser never opens them). */
  predicate SelfChildless(s: Doc) {
    forall m :: m in s && s[m].kind.TagE? && s[m].kind.data.closing == Self ==> s[m].children == []
  }

  /** getHtml writes every character of getText, so it is never shorter. */
  lemma {:induction false} TextNoLongerThanHtml(s: Doc, n: NodeId)
    requires Valid(s) && n in s && SelfChildless(s)
    ensures |Text(s, n)| <= |Html(s, n)|
    decreases Bound(s) - Depth(s, n), 1, 0
  {
    if IsContainer(s[n].kind) {
      TextBelowNoLongerThanHtml(s, n, s[n].children);
    }
  }

  lemma {:induction false} TextBelowNoLongerThanHtml(s: Doc, p: NodeId, cs: seq<NodeId>)
    requires Valid(s) && p in s && ChildrenOf(s, p, cs) && SelfChildless(s)
    ensures |TextBelow(s, p, cs)| <= |HtmlBelow(s, p, cs)|
    decreases Bound(s) - Depth(s, p), 0, |cs|
  {
    if |cs| > 0 {
      ChildDepth(s, p, cs[0]);
      TextNoLongerThanHtml(s, cs[0]);
      TextBelowNoLongerThanHtml(s, p, cs[1..]);
    }
  }
}

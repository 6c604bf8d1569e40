/**
 * setText on TextNode and CommentNode: the node's own text is replaced and
 * nothing else of the document changes.
 */
module TextEdit {
  import opened Arena
  import opened Dom
  import opened Spine

  /** The kind setText gives a text or comment node. */
  function WithText(e: Elem, text: string): Elem {
    if e.TextE? then TextE(text) else CommentE(text)
  }

  /** setText($text) on a text or comment node n. */
  function SetText(s: Doc, n: NodeId, text: string): (t: Doc)
    requires n in s && (s[n].kind.TextE? || s[n].kind.CommentE?)
    ensures t.Keys == s.Keys
    ensures t[n].kind.TextE? == s[n].kind.TextE? && OwnText(t[n].kind) == text
    ensures t[n].parent == s[n].parent && t[n].children == s[n].children
    ensures forall m :: m in s && m != n ==> t[m] == s[m]
  {
    s[n := s[n].(kind := WithText(s[n].kind, text))]
  }

  /** A change of one node's kind keeps the shape of any store. */
  lemma KindChangeShape<K>(s: Store<K>, n: NodeId, k: K)
    requires n in s
    ensures SameShape(s, s[n := s[n].(kind := k)])
  {
  }

  /** setText keeps the document valid and its shape. */
  lemma SetTextValid(s: Doc, n: NodeId, text: string)
    requires DocValid(s) && n in s && (s[n].kind.TextE? || s[n].kind.CommentE?)
    ensures SameShape(s, SetText(s, n, text)) && DocValid(SetText(s, n, text))
    ensures forall x :: x in s ==> Preorder(SetText(s, n, text), x) == Preorder(s, x)
  {
    var t := SetText(s, n, text);
    KindChangeShape(s, n, WithText(s[n].kind, text));
    SameShapeValid(s, t);
  }

  /** After setText, getText and getHtml of the node both read the new text. */
  lemma SetTextReads(s: Doc, n: NodeId, text: string)
    requires DocValid(s) && n in s && (s[n].kind.TextE? || s[n].kind.CommentE?)
    ensures DocValid(SetText(s, n, text))
    ensures Text(SetText(s, n, text), n) == text && Html(SetText(s, n, text), n) == text
  {
    SetTextValid(s, n, text);
  }

  /** Setting the old text back restores the document. */
  lemma SetTextRestores(s: Doc, n: NodeId, text: string)
    requires DocValid(s) && n in s && (s[n].kind.TextE? || s[n].kind.CommentE?)
    ensures SetText(SetText(s, n, text), n, OwnText(s[n].kind)) == s
  {
    var t := SetText(s, n, text);
    var u := SetText(t, n, OwnText(s[n].kind));
    assert u[n] == s[n];
  }
}

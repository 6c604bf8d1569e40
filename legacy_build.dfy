/**
 * buildTree of the older generation. The tokens become nodes under a root
 * exactly as in the newer builder (texts, comments and self-closing tags
 * are added to the current element, an opening tag is added and becomes
 * current), with the older Node's own constructors and edits: a close tag
 * resolves through findParent, getOpenChildren collects what is still
 * open, clearChildren and addChildren regroup it, and setClosing or
 * closeNodes close it. A close tag that finds only the root above it
 * hands null to getOpenChildren, a fatal error.
 *
 * The proof reuses the newer builder's invariant and shows that each
 * older step is the newer step on the tree; beside it, the names of the
 * open tags follow a stack computed from the tokens alone.
 */
module LegacyBuild {
  import opened Prelude
  import opened Arena
  import opened Edit
  import opened Spine
  import opened Elements
  import opened Dom
  import opened Tokens
  import opened Flatten
  import opened Query
  import opened Build
  import TreeOps
  import LegacyAttrs
  import LegacyNode

  // ------------------------------------------------------------- the nodes

  /**
   * The node a text, comment, self-closing or opening token creates, with
   * the raw attribute text the older Node keeps beside a tag.
   */
  function LegacyElemOf(t: Token): (r: (Elem, string))
    requires t.kind != TagClose
    ensures t.kind == Text ==> r == (TextE(t.text), "")
    ensures t.kind == Comment ==> r == (CommentE(t.text), "")
    ensures t.kind == TagOpen ==> IsOpenTag(r.0) && r.0.data.tag == t.tag
    ensures t.kind == TagSelf ==> r.0.TagE? && r.0.data.closing == Self && r.0.data.tag == t.tag
    ensures !Truthy(t.rawAtt) ==> !Truthy(r.1)
  {
    match t.kind
    case Text => (TextE(t.text), "")
    case Comment => (CommentE(t.text), "")
    case TagSelf =>
      var dr := LegacyAttrs.NodeTagData(t.tag, t.rawAtt, Self);
      (TagE(dr.0), dr.1)
    case TagOpen =>
      var dr := LegacyAttrs.NodeTagData(t.tag, t.rawAtt, No);
      (TagE(dr.0), dr.1)
  }

  /** The node one token creates: none for a close tag. */
  function MadeOf(t: Token): (r: seq<Elem>)
    ensures |r| == if t.kind == TagClose then 0 else 1
  {
    if t.kind == TagClose then [] else [LegacyElemOf(t).0]
  }

  /** The nodes the tokens create, in token order. */
  function LegacyMade(tokens: seq<Token>): (r: seq<Elem>)
    ensures |r| <= |tokens|
  {
    if |tokens| == 0 then [] else LegacyMade(tokens[..|tokens| - 1]) + MadeOf(tokens[|tokens| - 1])
  }

  lemma LegacyMadeStep(tokens: seq<Token>, i: nat)
    requires i < |tokens|
    ensures LegacyMade(tokens[..i + 1]) == LegacyMade(tokens[..i]) + MadeOf(tokens[i])
  {
    assert tokens[..i + 1][..i] == tokens[..i];
  }

  /** The tokens make only tags, texts and comments. */
  lemma {:induction false} LegacyMadeKinds(tokens: seq<Token>)
    ensures forall e :: e in LegacyMade(tokens) ==> e.TagE? || e.TextE? || e.CommentE?
    decreases |tokens|
  {
    if |tokens| > 0 {
      LegacyMadeKinds(tokens[..|tokens| - 1]);
    }
  }

  // ----------------------------------------------------- the open names

  /** The tag as getTag reads it: the root's null tag compares like ''. */
  function TagName(e: Elem): string {
    if HasList(e) then e.data.tag else ""
  }

  /** The tag of a node of the document. */
  function NameAt(s: Doc, m: NodeId): string {
    if m in s then TagName(s[m].kind) else ""
  }

  /** The tag names along the path, below the root. */
  ghost function Names(s: Doc, chain: seq<NodeId>): (r: seq<string>)
    ensures |r| == if |chain| == 0 then 0 else |chain| - 1
    ensures forall j :: 0 <= j < |r| ==> r[j] == NameAt(s, chain[j + 1])
  {
    if |chain| <= 1 then [] else Names(s, chain[..|chain| - 1]) + [NameAt(s, chain[|chain| - 1])]
  }

  /** The index of the last entry equal to name. */
  function LastIndex(xs: seq<string>, name: string): (r: Option<nat>)
    ensures r.Some? ==> r.value < |xs| && xs[r.value] == name && forall j :: r.value < j < |xs| ==> xs[j] != name
    ensures r.None? ==> forall j :: 0 <= j < |xs| ==> xs[j] != name
  {
    if |xs| == 0 then None
    else if xs[|xs| - 1] == name then Some(|xs| - 1)
    else LastIndex(xs[..|xs| - 1], name)
  }

  /**
   * The names still open after a close tag: those before the last open tag
   * with its name, or none when no open tag has it (the close reaches the
   * root). With nothing open only '' names the root; any other name is the
   * fatal error.
   */
  function CloseNames(stack: seq<string>, name: string): (r: Option<seq<string>>)
    ensures r.None? <==> |stack| == 0 && name != ""
    ensures r.Some? ==> |r.value| <= |stack| && r.value == stack[..|r.value|]
    ensures r.Some? && name in stack ==> |r.value| < |stack| && stack[|r.value|] == name && name !in stack[|r.value| + 1..]
    ensures r.Some? && name !in stack ==> r.value == []
  {
    if |stack| == 0 then (if name == "" then Some([]) else None)
    else match LastIndex(stack, name)
      case Some(j) => Some(stack[..j])
      case None => Some([])
  }

  /** The open names after one token: an opening tag pushes its name, a close tag pops through CloseNames. */
  function NamesStep(stack: seq<string>, t: Token): Option<seq<string>> {
    if t.kind == TagOpen then Some(stack + [t.tag])
    else if t.kind == TagClose then CloseNames(stack, t.tag)
    else Some(stack)
  }

  /** The names of the tags left open by the tokens; None once a close tag met only the root. */
  function OpenNames(tokens: seq<Token>): Option<seq<string>> {
    if |tokens| == 0 then Some([])
    else match OpenNames(tokens[..|tokens| - 1])
      case None => None
      case Some(stack) => NamesStep(stack, tokens[|tokens| - 1])
  }

  lemma OpenNamesStep(tokens: seq<Token>, i: nat, stack: seq<string>)
    requires i < |tokens| && OpenNames(tokens[..i]) == Some(stack)
    ensures OpenNames(tokens[..i + 1]) == NamesStep(stack, tokens[i])
  {
    assert tokens[..i + 1][..i] == tokens[..i];
  }

  /** Once a close tag has failed, every longer prefix fails. */
  lemma {:induction false} OpenNamesStuck(tokens: seq<Token>, i: nat, j: nat)
    requires i <= j <= |tokens| && OpenNames(tokens[..i]).None?
    ensures OpenNames(tokens[..j]).None?
    decreases j - i
  {
    if i < j {
      assert tokens[..i + 1][..i] == tokens[..i];
      OpenNamesStuck(tokens, i + 1, j);
    }
  }

  // ---------------------------------------------------- resolving a close tag

  const NullOpening := "getOpenChildren() must be an instance of Node, null given"

  /** findParent's test in the TAG_CLOSE case: the tag has the name, or the node is the root. */
  function CloseTest(name: string): Elem -> bool {
    e => TagName(e) == name || e.RootE?
  }

  /**
   * The element a close tag resolves to: the current one when its tag
   * equals the name, else the nearest ancestor that passes CloseTest; null
   * (the fatal error) when there is none, which happens only at the root.
   */
  function LegacyOpening(s: Doc, current: NodeId, name: string): (r: Result<NodeId>)
    requires Valid(s) && current in s
    ensures r.Ok? ==> r.value in s
  {
    if TagName(s[current].kind) == name then Ok(current)
    else match LegacyNode.FindParent(s, current, CloseTest(name), -1)
      case Some(a) => Ok(a)
      case None => Err(NullOpening)
  }

  /** The position on the path just below the last open name equal to name, or the root's. */
  function Above(names: seq<string>, name: string): (r: nat)
    ensures r <= |names|
  {
    match LastIndex(names, name)
    case Some(j) => j + 1
    case None => 0
  }

  /** One level of findParent: the parent if it passes, else the search from the parent. */
  lemma FindParentStep(s: Doc, n: NodeId, test: Elem -> bool, levels: int)
    requires Valid(s) && n in s && !IsTop(s, n) && levels != 0
    ensures s[n].parent.value in s
    ensures LegacyNode.FindParent(s, n, test, levels)
      == if test(s[s[n].parent.value].kind) then Some(s[n].parent.value)
         else LegacyNode.FindParent(s, s[n].parent.value, test, levels - 1)
  {
    ParentDepth(s, n);
  }

  /**
   * From the i-th node of a path below a root, findParent with a negative
   * level returns the node after the last name match above it, or the root.
   */
  lemma {:induction false} FindParentOnPath(s: Doc, chain: seq<NodeId>, i: nat, name: string, levels: int)
    requires Valid(s) && IsSpine(s, chain) && IsTop(s, chain[0]) && s[chain[0]].kind.RootE?
    requires forall j :: 0 < j < |chain| ==> !s[chain[j]].kind.RootE?
    requires i < |chain| && levels < 0
    ensures i == 0 ==> LegacyNode.FindParent(s, chain[i], CloseTest(name), levels).None?
    ensures i > 0 ==> LegacyNode.FindParent(s, chain[i], CloseTest(name), levels)
                      == Some(chain[Above(Names(s, chain)[..i - 1], name)])
    decreases i
  {
    if i > 0 {
      SpineLinks(s, chain);
      var p := chain[i - 1];
      assert s[chain[i]].parent == Some(p) && p != chain[i];
      FindParentStep(s, chain[i], CloseTest(name), levels);
      if i - 1 > 0 {
        var names := Names(s, chain);
        assert names[i - 2] == TagName(s[p].kind);
        AboveLast(names, i - 1, name);
        if TagName(s[p].kind) != name {
          FindParentOnPath(s, chain, i - 1, name, levels - 1);
        }
      }
    }
  }

  /** Above on a prefix one longer: the new last name if it matches, else as before. */
  lemma AboveLast(names: seq<string>, j: nat, name: string)
    requires 1 <= j <= |names|
    ensures Above(names[..j], name) == if names[j - 1] == name then j else Above(names[..j - 1], name)
  {
    assert names[..j][..j - 1] == names[..j - 1];
  }

  /** The builder's path as the name bookkeeping needs it: a spine from the root through open tags. */
  ghost predicate OpenPath(s: Doc, chain: seq<NodeId>) {
    && Valid(s) && IsSpine(s, chain) && IsTop(s, chain[0]) && s[chain[0]].kind == RootE(RootData())
    && forall j :: 0 < j < |chain| ==> IsOpenTag(s[chain[j]].kind)
  }

  lemma PathIsOpen(s: Doc, root: NodeId, next: nat, chain: seq<NodeId>)
    requires TreeOk(s, root, next) && PathOk(s, root, chain)
    ensures OpenPath(s, chain) && chain[0] == root
  {
  }

  /**
   * On the builder's path a close tag fails exactly when the stack of open
   * names says so; otherwise it resolves to a node of the path, and the
   * names before that node are the stack after the close.
   */
  lemma LegacyOpeningOnPath(s: Doc, chain: seq<NodeId>, name: string)
    requires OpenPath(s, chain)
    ensures var r := LegacyOpening(s, chain[|chain| - 1], name);
      var c := CloseNames(Names(s, chain), name);
      && (r.Err? <==> c.None?)
      && (r.Ok? ==> exists k :: 0 <= k < |chain| && chain[k] == r.value && c.value == Names(s, chain)[..if k == 0 then 0 else k - 1])
  {
    var last := |chain| - 1;
    var current := chain[last];
    var names := Names(s, chain);
    var k: nat;
    if last == 0 {
      k := 0;
      FindParentOnPath(s, chain, 0, name, -1);
    } else if TagName(s[current].kind) == name {
      k := last;
      assert names[last - 1] == name;
    } else {
      FindParentOnPath(s, chain, last, name, -1);
      assert names[..last] == names;
      assert names[..last - 1] == names[..|names| - 1];
      assert LastIndex(names, name) == LastIndex(names[..last - 1], name);
      k := Above(names[..last - 1], name);
    }
    var r := LegacyOpening(s, current, name);
    assert r.Ok? ==> k < |chain| && chain[k] == r.value;
  }

  // ------------------------------------------------------ the close step

  /** What getOpenChildren leaves behind: every open tag it collected has lost its children. */
  function OpenCleared(s: Doc, flat: seq<NodeId>): (t: Doc)
    ensures t.Keys == s.Keys
  {
    map m | m in s :: if m in flat && IsOpenTag(s[m].kind) then s[m].(children := []) else s[m]
  }

  lemma FlatMembers(s: Doc, o: NodeId)
    requires Valid(s) && o in s
    ensures var flat := FlatBelow(s, o, s[o].children, IsOpenTag);
      o !in flat && forall m :: m in flat ==> m in s
  {
    var cs := s[o].children;
    assert ChildrenOf(s, o, cs) by {
      forall c | c in cs
        ensures c in s
      {
        var i :| 0 <= i < |cs| && cs[i] == c;
        assert ChildLink(s, o, cs[i]);
      }
    }
    var flat := FlatBelow(s, o, cs, IsOpenTag);
    forall m | m in flat
      ensures m in s && m != o
    {
      FlatDeeper(s, o, cs, IsOpenTag, m);
    }
  }

  /**
   * The TAG_CLOSE case once resolved to o: getOpenChildren(o) collects
   * and empties what is open below it, clearChildren empties o, and
   * addChildren (corrected) hands o what was collected.
   */
  function Regroup(s: Doc, o: NodeId): (t: Doc)
    requires Valid(s) && o in s && HasList(s[o].kind)
    ensures t.Keys == s.Keys
  {
    var flat := FlatBelow(s, o, s[o].children, IsOpenTag);
    FlatMembers(s, o);
    var c := OpenCleared(s, flat);
    var d := LegacyNode.ClearChildren(c, o).value;
    LegacyNode.AddChildren(d, o, flat).value
  }

  /** Clearing the open members of a list below o, emptying o and relinking the list under it. */
  lemma RegroupShape(s: Doc, o: NodeId, flat: seq<NodeId>)
    requires o in s && o !in flat && forall m :: m in flat ==> m in s
    ensures var d := SetChildren(OpenCleared(s, flat), o, []);
      Link(d, o, flat, |d[o].children|) == Regrouped(s, o, flat, IsOpenTag)
  {
    var d := SetChildren(OpenCleared(s, flat), o, []);
    assert d[o].children[..0] + flat + d[o].children[0..] == flat;
    var u := SetParents(d, flat, Some(o));
    var t := SetChildren(u, o, flat);
    var f := Regrouped(s, o, flat, IsOpenTag);
    forall m | m in s
      ensures t[m] == f[m]
    {
    }
    assert t == f;
  }

  /** Regrouping is the newer builder's flattening. */
  lemma RegroupIsFlattened(s: Doc, o: NodeId)
    requires Valid(s) && o in s && HasList(s[o].kind)
    ensures Regroup(s, o) == Flattened(s, o, IsOpenTag)
  {
    FlatMembers(s, o);
    RegroupShape(s, o, FlatBelow(s, o, s[o].children, IsOpenTag));
  }

  /**
   * The rest of the TAG_CLOSE case: closeNodes when o is the root,
   * setClosing(YES) otherwise.
   */
  function LegacyCloseAt(s: Doc, o: NodeId): (t: Doc)
    requires Valid(s) && o in s && HasList(s[o].kind)
    ensures t.Keys == s.Keys
  {
    var g := Regroup(s, o);
    RegroupIsFlattened(s, o);
    FlattenValid(s, o, IsOpenTag);
    if g[o].kind.RootE? then CloseNodes(g, o) else LegacyNode.SetClosing(g, o, Yes).value
  }

  /** The older close step is the newer one. */
  lemma LegacyCloseAtIs(s: Doc, o: NodeId)
    requires Valid(s) && o in s && HasList(s[o].kind)
    requires s[o].kind.RootE? ==> s[o].kind == RootE(RootData())
    ensures LegacyCloseAt(s, o) == CloseAt(s, o)
  {
    RegroupIsFlattened(s, o);
    CloseAtIs(s, o);
  }

  /** A node earlier on the path is not in the subtree of a later one. */
  lemma OutsideLater(s: Doc, chain: seq<NodeId>, j: nat, k: nat)
    requires Valid(s) && IsSpine(s, chain) && IsTop(s, chain[0]) && j < k < |chain|
    ensures chain[j] !in Preorder(s, chain[k])
  {
    SpineDepth(s, chain, j);
    SpineDepth(s, chain, k);
    if chain[j] in Preorder(s, chain[k]) {
      PreorderMember(s, chain[k], chain[j]);
      assert false;
    }
  }

  /** Closing at the k-th node of the path keeps the names of the nodes above it. */
  lemma NamesAfterClose(s: Doc, chain: seq<NodeId>, k: nat)
    requires OpenPath(s, chain) && k < |chain|
    ensures var k1 := if k == 0 then 1 else k;
      Names(CloseAt(s, chain[k]), chain[..k1]) == Names(s, chain)[..k1 - 1]
  {
    var k1 := if k == 0 then 1 else k;
    var o := chain[k];
    var t := CloseAt(s, o);
    if k > 0 {
      SpineLinks(s, chain);
      CloseAtIs(s, o);
      var above := chain[..k];
      forall j | 0 <= j < |above|
        ensures NameAt(t, above[j]) == NameAt(s, above[j])
      {
        OutsideLater(s, chain, j, k);
        FlatUnchanged(s, o, chain[j]);
      }
      NamesAgree(s, t, above);
      NamesPrefix(s, chain, k);
    }
  }

  /** The names along a path depend only on the names of its nodes. */
  lemma NamesAgree(s: Doc, t: Doc, chain: seq<NodeId>)
    requires forall j :: 0 <= j < |chain| ==> NameAt(t, chain[j]) == NameAt(s, chain[j])
    ensures Names(t, chain) == Names(s, chain)
  {
    var a := Names(t, chain);
    var b := Names(s, chain);
    assert forall j :: 0 <= j < |a| ==> a[j] == b[j];
  }

  /** The names along a prefix of the path are a prefix of its names. */
  lemma NamesPrefix(s: Doc, chain: seq<NodeId>, n: nat)
    requires 1 <= n <= |chain|
    ensures Names(s, chain[..n]) == Names(s, chain)[..n - 1]
  {
    var a := Names(s, chain[..n]);
    var b := Names(s, chain)[..n - 1];
    forall j | 0 <= j < |a|
      ensures a[j] == b[j]
    {
      assert chain[..n][j + 1] == chain[j + 1];
    }
  }

  // -------------------------------------------------------- the add step

  /** A text, comment or tag token: a new node w, added with the older addChild. */
  function LegacyAddNew(s: Doc, current: NodeId, w: NodeId, e: Elem): (t: Doc)
    requires current in s && HasList(s[current].kind) && w !in s
    ensures t.Keys == s.Keys + {w}
  {
    LegacyNode.AddChild(s[w := Rec(e, None, [])], current, w).value
  }

  /** On a fresh node the older addChild is the newer one. */
  lemma LegacyAddNewIs(s: Doc, current: NodeId, w: NodeId, e: Elem)
    requires current in s && HasList(s[current].kind) && w !in s
    ensures LegacyAddNew(s, current, w, e) == AddNew(s, current, w, e)
  {
    var s1 := s[w := Rec(e, None, [])];
    var a := LegacyAddNew(s, current, w, e);
    var b := AddNew(s, current, w, e);
    assert TreeOps.DetachIfAttached(s1, w) == s1;
    forall m | m in a
      ensures a[m] == b[m]
    {
    }
    assert a == b;
  }

  /** Adding a node keeps the names along the path, and an opening tag adds its own. */
  lemma NamesAfterAdd(s: Doc, t: Doc, chain: seq<NodeId>, w: NodeId, e: Elem)
    requires |chain| > 0 && (forall j :: 0 <= j < |chain| ==> chain[j] in s)
    requires Appended(s, t, chain[|chain| - 1], w, e)
    ensures var chain1 := if IsOpenTag(e) then chain + [w] else chain;
      Names(t, chain1) == Names(s, chain) + (if IsOpenTag(e) then [TagName(e)] else [])
  {
    var p := chain[|chain| - 1];
    var chain1 := if IsOpenTag(e) then chain + [w] else chain;
    forall j | 0 <= j < |chain|
      ensures t[chain[j]].kind == s[chain[j]].kind
    {
      if chain[j] != p {
        assert t[chain[j]] == s[chain[j]];
      }
    }
    var a := Names(t, chain1);
    var b := Names(s, chain) + (if IsOpenTag(e) then [TagName(e)] else []);
    assert forall j :: 0 <= j < |a| ==> a[j] == b[j];
  }

  // ------------------------------------------------------------- the loop

  /** A close tag fails on the builder's path exactly when the stack of open names does. */
  lemma LegacyCloseFails(s: Doc, root: NodeId, next: nat, chain: seq<NodeId>, name: string)
    requires TreeOk(s, root, next) && PathOk(s, root, chain)
    ensures LegacyOpening(s, chain[|chain| - 1], name).Err? <==> CloseNames(Names(s, chain), name).None?
  {
    PathIsOpen(s, root, next, chain);
    LegacyOpeningOnPath(s, chain, name);
  }

  /** The close step's facts, given the path index k the close resolved to and the path ch above it. */
  lemma LegacyCloseAtIndex(s: Doc, root: NodeId, next: nat, chain: seq<NodeId>, order: seq<NodeId>, made: seq<Elem>, name: string, o: NodeId, k: nat, ch: seq<NodeId>, stack: seq<string>)
    requires Building(s, root, next, chain, order, made)
    requires LegacyOpening(s, chain[|chain| - 1], name) == Ok(o)
    requires k < |chain| && chain[k] == o && stack == Names(s, chain)
    requires CloseNames(stack, name) == Some(stack[..if k == 0 then 0 else k - 1])
    requires ch == chain[..if k == 0 then 1 else k]
    ensures o in s && HasList(s[o].kind)
    ensures Building(LegacyCloseAt(s, o), root, next, ch, order, made)
    ensures s[o].kind.RootE? ==> o == ch[|ch| - 1]
    ensures !s[o].kind.RootE? ==> LegacyCloseAt(s, o)[o].parent == Some(ch[|ch| - 1])
    ensures Some(Names(LegacyCloseAt(s, o), ch)) == CloseNames(Names(s, chain), name)
  {
    PathIsOpen(s, root, next, chain);
    CloseStep(s, root, next, chain, k, order, made);
    NamesAfterClose(s, chain, k);
    LegacyCloseAtIs(s, o);
    if k > 0 {
      SpineLinks(s, chain);
    }
  }

  /** No token carries raw attribute text. */
  predicate NoRawAtts(tokens: seq<Token>) {
    forall j :: 0 <= j < |tokens| ==> !Truthy(tokens[j].rawAtt)
  }

  /** What the older buildTree returns: the tree, its root, and each tag's leftover raw attribute text. */
  datatype LegacyTree = LegacyTree(doc: Doc, root: NodeId, rests: map<NodeId, string>)

  /** The tree the older buildTree builds has no CollectionNode. */
  lemma LegacyBuiltKinds(s: Doc, root: NodeId, tokens: seq<Token>)
    requires Built(s, root, LegacyMade(tokens))
    ensures NoCollections(s)
  {
    var pre := Preorder(s, root);
    var made := LegacyMade(tokens);
    LegacyMadeKinds(tokens);
    forall m | m in s
      ensures !s[m].kind.CollectionE?
    {
      if m != root {
        var j :| 0 <= j < |pre| && pre[j] == m;
        assert j > 0;
        assert made[j - 1] in made;
        assert Agrees(s[pre[j]].kind, made[j - 1]);
      }
    }
  }

  /** The older buildTree's loop variables: the newer builder's, and the raw attribute text each tag kept. */
  datatype LegacyBuilder = LegacyBuilder(b: Builder, rests: map<NodeId, string>)

  /** What every step relies on: the newer builder's readiness, and no CollectionNode, which the older Node lacks. */
  ghost predicate LegacyReady(b: Builder, root: NodeId) {
    Ready(b, root) && NoCollections(b.doc)
  }

  /**
   * The TEXT, COMMENT, TAG_SELF and TAG_OPEN cases with the older addChild:
   * the newer builder's step on the older node, and the node's leftover
   * attribute text kept beside it.
   */
  function LegacyAddToken(lb: LegacyBuilder, root: NodeId, t: Token): (r: LegacyBuilder)
    requires Ready(lb.b, root) && t.kind != TagClose
    ensures r.b == AddToken(lb.b, root, LegacyElemOf(t).0)
    ensures r.rests == lb.rests[lb.b.next := LegacyElemOf(t).1]
  {
    var b := lb.b;
    var er := LegacyElemOf(t);
    var up := if t.kind == TagOpen then b.next else b.current;
    LegacyAddStep(b, root, er.0, up);
    LegacyBuilder(Builder(LegacyAddNew(b.doc, b.current, b.next, er.0), up, b.next + 1), lb.rests[b.next := er.1])
  }

  /** The older addChild of a fresh node, with current moving to it exactly when it is an opening tag, is the newer step. */
  lemma LegacyAddStep(b: Builder, root: NodeId, e: Elem, up: NodeId)
    requires Ready(b, root) && up == if IsOpenTag(e) then b.next else b.current
    ensures Builder(LegacyAddNew(b.doc, b.current, b.next, e), up, b.next + 1) == AddToken(b, root, e)
  {
    LegacyAddNewIs(b.doc, b.current, b.next, e);
  }

  /** In a tree without CollectionNode, what findParent finds holds a list of children. */
  lemma {:induction false} FindParentHasList(s: Doc, n: NodeId, test: Elem -> bool, levels: int)
    requires DocValid(s) && NoCollections(s) && n in s
    ensures var r := LegacyNode.FindParent(s, n, test, levels);
      r.Some? ==> HasList(s[r.value].kind)
    decreases Depth(s, n)
  {
    if !IsTop(s, n) && levels != 0 {
      var p := s[n].parent.value;
      assert n in s[p].children;
      FindParentStep(s, n, test, levels);
      if !test(s[p].kind) {
        ParentDepth(s, n);
        FindParentHasList(s, p, test, levels - 1);
      }
    }
  }

  /**
   * The TAG_CLOSE case: the close tag resolves through findParent, the
   * element is regrouped and closed, and current moves to its parent, or
   * stays at the root; the fatal error when nothing resolves.
   */
  function LegacyCloseTag(lb: LegacyBuilder, root: NodeId, name: string): (r: Result<LegacyBuilder>)
    requires LegacyReady(lb.b, root)
    ensures r.Err? <==> LegacyOpening(lb.b.doc, lb.b.current, name).Err?
    ensures r.Err? ==> r.msg == NullOpening
    ensures r.Ok? ==> r.value.b.doc.Keys == lb.b.doc.Keys && r.value.b.next == lb.b.next && r.value.rests == lb.rests
  {
    var b := lb.b;
    match LegacyOpening(b.doc, b.current, name)
    case Err(msg) => Err(msg)
    case Ok(o) =>
      FindParentHasList(b.doc, b.current, CloseTest(name), -1);
      var t := LegacyCloseAt(b.doc, o);
      var up := if b.doc[o].kind.RootE? then o else match t[o].parent case Some(p) => p case None => o;
      Ok(LegacyBuilder(Builder(t, up, b.next), lb.rests))
  }

  /** One token of the older buildTree's loop; a close tag may fail. */
  function LegacyStep(lb: LegacyBuilder, root: NodeId, t: Token): (r: Result<LegacyBuilder>)
    requires LegacyReady(lb.b, root)
    ensures r.Err? ==> t.kind == TagClose && r.msg == NullOpening
    ensures t.kind == TagClose && r.Ok? ==> r.value.b.doc.Keys == lb.b.doc.Keys && r.value.b.next == lb.b.next
    ensures t.kind != TagClose ==> r.Ok? && r.value.b.doc.Keys == lb.b.doc.Keys + {lb.b.next} && r.value.b.next == lb.b.next + 1
    ensures t.kind != TagClose ==> r.value.b.doc[lb.b.next] == Rec(LegacyElemOf(t).0, Some(lb.b.current), [])
    ensures t.kind != TagClose ==> lb.b.next in r.value.rests && r.value.rests[lb.b.next] == LegacyElemOf(t).1
  {
    if t.kind == TagClose then LegacyCloseTag(lb, root, t.tag) else Ok(LegacyAddToken(lb, root, t))
  }

  /** The loop's variables together with the open path and the document order they stand for. */
  datatype LegacyTrace = LegacyTrace(lb: LegacyBuilder, chain: seq<NodeId>, order: seq<NodeId>)

  /**
   * The newer builder's invariant for the nodes made so far, the names of
   * the open path as the stack says, no CollectionNode made, and, when
   * plain, no leftover attribute text.
   */
  ghost predicate LegacyTracks(q: LegacyTrace, made: seq<Elem>, stack: seq<string>, plain: bool) {
    && Tracks(Trace(q.lb.b, q.chain, q.order), 0, made)
    && (forall j :: 0 <= j < |made| ==> !made[j].CollectionE?)
    && stack == Names(q.lb.b.doc, q.chain)
    && (plain ==> forall m :: m in q.lb.rests ==> !Truthy(q.lb.rests[m]))
  }

  lemma LegacyTracksReady(q: LegacyTrace, made: seq<Elem>, stack: seq<string>, plain: bool)
    requires LegacyTracks(q, made, stack, plain)
    ensures LegacyReady(q.lb.b, 0)
  {
    var s := q.lb.b.doc;
    TracksReady(Trace(q.lb.b, q.chain, q.order), 0, made);
    forall m | m in s
      ensures !s[m].kind.CollectionE?
    {
      if m != 0 {
        var j :| 0 <= j < |q.order| && q.order[j] == m;
        assert Agrees(s[q.order[j]].kind, made[j]);
      }
    }
  }

  lemma LegacyTracksParts(q: LegacyTrace, made: seq<Elem>, stack: seq<string>, plain: bool)
    requires LegacyTracks(q, made, stack, plain)
    ensures Building(q.lb.b.doc, 0, q.lb.b.next, q.chain, q.order, made) && q.lb.b.current == q.chain[|q.chain| - 1]
    ensures stack == Names(q.lb.b.doc, q.chain)
  {
  }

  /** A close tag on the trace: it fails exactly when the stack does, and otherwise pops both. */
  ghost function LegacyCloseTrace(q: LegacyTrace, made: seq<Elem>, stack: seq<string>, plain: bool, t: Token): (r: Option<LegacyTrace>)
    requires LegacyTracks(q, made, stack, plain) && t.kind == TagClose
    ensures LegacyReady(q.lb.b, 0)
    ensures r.None? <==> NamesStep(stack, t).None?
    ensures r.None? <==> LegacyStep(q.lb, 0, t).Err?
    ensures r.Some? ==> LegacyStep(q.lb, 0, t) == Ok(r.value.lb)
    ensures r.Some? ==> LegacyTracks(r.value, made + MadeOf(t), NamesStep(stack, t).value, plain && !Truthy(t.rawAtt))
  {
    LegacyCloseOpens(q, made, stack, plain, t.tag);
    if LegacyOpening(q.lb.b.doc, q.lb.b.current, t.tag).Err? then None
    else
      var k :| ClosesAt(q, stack, t.tag, k);
      LegacyClosePops(q, made, stack, plain, t, k);
      Some(ClosedTrace(q, k))
  }

  /** The close tag resolves to the k-th node of the path, and the stack keeps the names above it. */
  ghost predicate ClosesAt(q: LegacyTrace, stack: seq<string>, name: string, k: nat) {
    && k < |q.chain| && k <= |stack| + 1 && Valid(q.lb.b.doc) && q.chain[|q.chain| - 1] in q.lb.b.doc
    && LegacyOpening(q.lb.b.doc, q.chain[|q.chain| - 1], name) == Ok(q.chain[k])
    && CloseNames(stack, name) == Some(stack[..if k == 0 then 0 else k - 1])
  }

  /** The trace after a close tag that resolved to the k-th node of the path. */
  ghost function ClosedTrace(q: LegacyTrace, k: nat): LegacyTrace
    requires k < |q.chain| && Valid(q.lb.b.doc) && q.chain[k] in q.lb.b.doc && HasList(q.lb.b.doc[q.chain[k]].kind)
  {
    var ch := q.chain[..if k == 0 then 1 else k];
    LegacyTrace(LegacyBuilder(Builder(LegacyCloseAt(q.lb.b.doc, q.chain[k]), ch[|ch| - 1], q.lb.b.next), q.lb.rests), ch, q.order)
  }

  /** On the trace a close tag fails exactly when the stack does, and otherwise resolves on the path. */
  lemma LegacyCloseOpens(q: LegacyTrace, made: seq<Elem>, stack: seq<string>, plain: bool, name: string)
    requires LegacyTracks(q, made, stack, plain)
    ensures LegacyReady(q.lb.b, 0) && |q.chain| > 0 && q.lb.b.current == q.chain[|q.chain| - 1]
    ensures LegacyOpening(q.lb.b.doc, q.lb.b.current, name).Err? <==> CloseNames(stack, name).None?
    ensures LegacyOpening(q.lb.b.doc, q.lb.b.current, name).Ok? ==> exists k :: ClosesAt(q, stack, name, k)
  {
    LegacyTracksReady(q, made, stack, plain);
    var b := q.lb.b;
    PathIsOpen(b.doc, 0, b.next, q.chain);
    LegacyOpeningOnPath(b.doc, q.chain, name);
    var o := LegacyOpening(b.doc, b.current, name);
    if o.Ok? {
      var k :| 0 <= k < |q.chain| && q.chain[k] == o.value
        && CloseNames(Names(b.doc, q.chain), name).value == Names(b.doc, q.chain)[..if k == 0 then 0 else k - 1];
      assert ClosesAt(q, stack, name, k);
    }
  }

  /** A close tag that resolved to the k-th node of the path pops the path and the stack alike. */
  lemma LegacyClosePops(q: LegacyTrace, made: seq<Elem>, stack: seq<string>, plain: bool, t: Token, k: nat)
    requires LegacyTracks(q, made, stack, plain) && t.kind == TagClose && ClosesAt(q, stack, t.tag, k)
    ensures LegacyReady(q.lb.b, 0) && HasList(q.lb.b.doc[q.chain[k]].kind)
    ensures LegacyCloseTag(q.lb, 0, t.tag) == Ok(ClosedTrace(q, k).lb)
    ensures LegacyTracks(ClosedTrace(q, k), made + MadeOf(t), NamesStep(stack, t).value, plain && !Truthy(t.rawAtt))
  {
    ClosedTracks(q, made, stack, plain, t.tag, k);
    ClosedTag(q, made, stack, plain, t.tag, k);
    CloseSame(ClosedTrace(q, k), made, stack, plain, t);
  }

  /** After the close the trace tracks the same nodes and the stack CloseNames leaves. */
  lemma ClosedTracks(q: LegacyTrace, made: seq<Elem>, stack: seq<string>, plain: bool, name: string, k: nat)
    requires LegacyTracks(q, made, stack, plain) && ClosesAt(q, stack, name, k)
    ensures LegacyReady(q.lb.b, 0) && HasList(q.lb.b.doc[q.chain[k]].kind)
    ensures CloseNames(stack, name).Some? && LegacyTracks(ClosedTrace(q, k), made, CloseNames(stack, name).value, plain)
  {
    LegacyTracksReady(q, made, stack, plain);
    LegacyTracksParts(q, made, stack, plain);
    ClosePathNames(q.lb.b, q.chain, q.order, made, name, k, stack);
  }

  /** The close step of the loop lands on the closed trace. */
  lemma ClosedTag(q: LegacyTrace, made: seq<Elem>, stack: seq<string>, plain: bool, name: string, k: nat)
    requires LegacyTracks(q, made, stack, plain) && ClosesAt(q, stack, name, k)
    ensures LegacyReady(q.lb.b, 0) && HasList(q.lb.b.doc[q.chain[k]].kind)
    ensures LegacyCloseTag(q.lb, 0, name) == Ok(ClosedTrace(q, k).lb)
  {
    LegacyTracksReady(q, made, stack, plain);
    LegacyTracksParts(q, made, stack, plain);
    var ch := q.chain[..if k == 0 then 1 else k];
    ClosePathNames(q.lb.b, q.chain, q.order, made, name, k, stack);
    LegacyCloseTagAt(q.lb, 0, name, q.chain[k], ch[|ch| - 1]);
  }

  /** A close tag makes no node and leaves plain as it was. */
  lemma CloseSame(r: LegacyTrace, made: seq<Elem>, stack: seq<string>, plain: bool, t: Token)
    requires t.kind == TagClose && CloseNames(stack, t.tag).Some?
    requires LegacyTracks(r, made, CloseNames(stack, t.tag).value, plain)
    ensures LegacyTracks(r, made + MadeOf(t), NamesStep(stack, t).value, plain && !Truthy(t.rawAtt))
  {
    assert made + MadeOf(t) == made;
    LegacyTracksSame(r, made, CloseNames(stack, t.tag).value, plain, made + MadeOf(t), NamesStep(stack, t).value, plain && !Truthy(t.rawAtt));
  }

  /** The builder after the close: the invariant on the shorter path, and the names the stack predicts. */
  lemma ClosePathNames(b: Builder, chain: seq<NodeId>, order: seq<NodeId>, made: seq<Elem>, name: string, k: nat, stack: seq<string>)
    requires Building(b.doc, 0, b.next, chain, order, made) && b.current == chain[|chain| - 1]
    requires k < |chain| && LegacyOpening(b.doc, chain[|chain| - 1], name) == Ok(chain[k])
    requires stack == Names(b.doc, chain) && CloseNames(stack, name) == Some(stack[..if k == 0 then 0 else k - 1])
    ensures var o := chain[k];
      var ch := chain[..if k == 0 then 1 else k];
      var t := LegacyCloseAt(b.doc, o);
      && HasList(b.doc[o].kind)
      && Tracks(Trace(Builder(t, ch[|ch| - 1], b.next), ch, order), 0, made)
      && Names(t, ch) == CloseNames(stack, name).value
      && (b.doc[o].kind.RootE? ==> o == ch[|ch| - 1])
      && (!b.doc[o].kind.RootE? ==> t[o].parent == Some(ch[|ch| - 1]))
  {
    var ch := chain[..if k == 0 then 1 else k];
    LegacyCloseAtIndex(b.doc, 0, b.next, chain, order, made, name, chain[k], k, ch, stack);
  }

  /** The close step once resolved to o, with up the node current moves to. */
  lemma LegacyCloseTagAt(lb: LegacyBuilder, root: NodeId, name: string, o: NodeId, up: NodeId)
    requires LegacyReady(lb.b, root) && LegacyOpening(lb.b.doc, lb.b.current, name) == Ok(o)
    requires HasList(lb.b.doc[o].kind)
    requires lb.b.doc[o].kind.RootE? ==> up == o
    requires !lb.b.doc[o].kind.RootE? ==> LegacyCloseAt(lb.b.doc, o)[o].parent == Some(up)
    ensures LegacyCloseTag(lb, root, name) == Ok(LegacyBuilder(Builder(LegacyCloseAt(lb.b.doc, o), up, lb.b.next), lb.rests))
  {
  }

  /** Any other token on the trace: one more node, and its name pushed when it is an opening tag. */
  ghost function LegacyAddTrace(q: LegacyTrace, made: seq<Elem>, stack: seq<string>, plain: bool, t: Token): (r: Option<LegacyTrace>)
    requires LegacyTracks(q, made, stack, plain) && t.kind != TagClose
    ensures LegacyReady(q.lb.b, 0)
    ensures r.None? <==> NamesStep(stack, t).None?
    ensures r.None? <==> LegacyStep(q.lb, 0, t).Err?
    ensures r.Some? ==> LegacyStep(q.lb, 0, t) == Ok(r.value.lb)
    ensures r.Some? ==> LegacyTracks(r.value, made + MadeOf(t), NamesStep(stack, t).value, plain && !Truthy(t.rawAtt))
  {
    LegacyAddPushes(q, made, stack, plain, t);
    Some(AddedTrace(q, t))
  }

  /** The trace after any other token: the path grows by the new node exactly when it is an opening tag. */
  ghost function AddedTrace(q: LegacyTrace, t: Token): (r: LegacyTrace)
    requires Ready(q.lb.b, 0) && t.kind != TagClose
    ensures r.lb == LegacyAddToken(q.lb, 0, t) && r.order == q.order + [q.lb.b.next]
    ensures r.chain == if t.kind == TagOpen then q.chain + [q.lb.b.next] else q.chain
  {
    LegacyTrace(LegacyAddToken(q.lb, 0, t), if t.kind == TagOpen then q.chain + [q.lb.b.next] else q.chain, q.order + [q.lb.b.next])
  }

  lemma LegacyAddPushes(q: LegacyTrace, made: seq<Elem>, stack: seq<string>, plain: bool, t: Token)
    requires LegacyTracks(q, made, stack, plain) && t.kind != TagClose
    ensures LegacyReady(q.lb.b, 0)
    ensures LegacyTracks(AddedTrace(q, t), made + MadeOf(t), NamesStep(stack, t).value, plain && !Truthy(t.rawAtt))
  {
    LegacyTracksReady(q, made, stack, plain);
    AddedTracks(Trace(q.lb.b, q.chain, q.order), q, made, t);
    AddedMade(made, t);
    AddedNames(q, stack, t);
    AddedRests(q, plain, t);
  }

  lemma AddedTracks(p: Trace, q: LegacyTrace, made: seq<Elem>, t: Token)
    requires p == Trace(q.lb.b, q.chain, q.order) && Tracks(p, 0, made) && t.kind != TagClose
    ensures var r := AddedTrace(q, t);
      Tracks(Trace(r.lb.b, r.chain, r.order), 0, made + MadeOf(t))
  {
    var e := LegacyElemOf(t).0;
    assert MadeOf(t) == [e];
    AddTokenPushes(p, 0, made, e);
  }

  lemma AddedMade(made: seq<Elem>, t: Token)
    requires forall j :: 0 <= j < |made| ==> !made[j].CollectionE?
    ensures var m := made + MadeOf(t);
      forall j :: 0 <= j < |m| ==> !m[j].CollectionE?
  {
  }

  lemma AddedNames(q: LegacyTrace, stack: seq<string>, t: Token)
    requires Ready(q.lb.b, 0) && t.kind != TagClose && |q.chain| > 0 && q.lb.b.current == q.chain[|q.chain| - 1]
    requires (forall j :: 0 <= j < |q.chain| ==> q.chain[j] in q.lb.b.doc) && stack == Names(q.lb.b.doc, q.chain)
    ensures var r := AddedTrace(q, t);
      NamesStep(stack, t).Some? && Names(r.lb.b.doc, r.chain) == NamesStep(stack, t).value
  {
    var b := q.lb.b;
    var e := LegacyElemOf(t).0;
    NamesAfterAdd(b.doc, AddToken(b, 0, e).doc, q.chain, b.next, e);
  }

  lemma AddedRests(q: LegacyTrace, plain: bool, t: Token)
    requires Ready(q.lb.b, 0) && t.kind != TagClose
    requires plain ==> forall m :: m in q.lb.rests ==> !Truthy(q.lb.rests[m])
    ensures var r := AddedTrace(q, t);
      plain && !Truthy(t.rawAtt) ==> forall m :: m in r.lb.rests ==> !Truthy(r.lb.rests[m])
  {
  }

  /** One token on the trace. */
  ghost function LegacyStepTrace(q: LegacyTrace, made: seq<Elem>, stack: seq<string>, plain: bool, t: Token): (r: Option<LegacyTrace>)
    requires LegacyTracks(q, made, stack, plain)
    ensures LegacyReady(q.lb.b, 0)
    ensures r.None? <==> NamesStep(stack, t).None?
    ensures r.None? <==> LegacyStep(q.lb, 0, t).Err?
    ensures r.Some? ==> LegacyStep(q.lb, 0, t) == Ok(r.value.lb)
    ensures r.Some? ==> LegacyTracks(r.value, made + MadeOf(t), NamesStep(stack, t).value, plain && !Truthy(t.rawAtt))
  {
    LegacyTracksReady(q, made, stack, plain);
    if t.kind == TagClose then
      LegacyCloseTrace(q, made, stack, plain, t)
    else
      LegacyAddTrace(q, made, stack, plain, t)
  }

  lemma LegacyTracksSame(q: LegacyTrace, made: seq<Elem>, stack: seq<string>, plain: bool, made2: seq<Elem>, stack2: seq<string>, plain2: bool)
    requires LegacyTracks(q, made, stack, plain) && made2 == made && stack2 == stack && (plain2 ==> plain)
    ensures LegacyTracks(q, made2, stack2, plain2)
  {
  }

  /** The older loop over a prefix of the tokens, as a fold of LegacyStep; None once a close tag failed. */
  ghost function LegacyTraced(tokens: seq<Token>): (r: Option<LegacyTrace>)
    ensures r.None? <==> OpenNames(tokens).None?
    ensures r.Some? ==> LegacyTracks(r.value, LegacyMade(tokens), OpenNames(tokens).value, NoRawAtts(tokens))
    decreases |tokens|
  {
    if |tokens| == 0 then
      InitialBuilding(0);
      assert Names(Start(0).doc, [0]) == [];
      Some(LegacyTrace(LegacyBuilder(Start(0), map[]), [0], []))
    else
      var init := tokens[..|tokens| - 1];
      var t := tokens[|tokens| - 1];
      match LegacyTraced(init)
      case None => None
      case Some(q) =>
        assert NoRawAtts(tokens) ==> NoRawAtts(init) && !Truthy(t.rawAtt);
        LegacyStepTrace(q, LegacyMade(init), OpenNames(init).value, NoRawAtts(init), t)
  }

  /** One more token is one more LegacyStep of the fold, and a failing step fails the fold. */
  lemma LegacyTracedStep(tokens: seq<Token>, i: nat)
    requires i < |tokens| && LegacyTraced(tokens[..i]).Some?
    ensures LegacyReady(LegacyTraced(tokens[..i]).value.lb.b, 0)
    ensures var r := LegacyStep(LegacyTraced(tokens[..i]).value.lb, 0, tokens[i]);
      && (r.Err? <==> LegacyTraced(tokens[..i + 1]).None?)
      && (r.Ok? ==> r.value == LegacyTraced(tokens[..i + 1]).value.lb)
  {
    var pre := tokens[..i];
    assert tokens[..i + 1][..i] == pre && tokens[..i + 1][i] == tokens[i];
    var q := LegacyTraced(pre).value;
    var r := LegacyStepTrace(q, LegacyMade(pre), OpenNames(pre).value, NoRawAtts(pre), tokens[i]);
    assert LegacyTraced(tokens[..i + 1]) == r;
  }

  /** A failure at the i-th token is a failure of the whole token list. */
  lemma LegacyTracedStuck(tokens: seq<Token>, i: nat)
    requires i < |tokens| && LegacyTraced(tokens[..i + 1]).None?
    ensures LegacyTraced(tokens).None?
  {
    OpenNamesStuck(tokens, i + 1, |tokens|);
    assert tokens[..|tokens|] == tokens;
  }

  /** The final closeNodes on what the loop built, and what the tree then holds. */
  lemma LegacyFinish(q: LegacyTrace, tokens: seq<Token>, stack: seq<string>)
    requires LegacyTracks(q, LegacyMade(tokens), stack, NoRawAtts(tokens))
    ensures Built(CloseNodes(q.lb.b.doc, 0), 0, LegacyMade(tokens))
    ensures NoRawAtts(tokens) ==>
      LegacyNode.LegacyHtml(CloseNodes(q.lb.b.doc, 0), q.lb.rests, 0) == Html(CloseNodes(q.lb.b.doc, 0), 0)
  {
    var s := q.lb.b.doc;
    Finish(s, 0, q.lb.b.next, q.chain, q.order, LegacyMade(tokens));
    var t := CloseNodes(s, 0);
    if NoRawAtts(tokens) {
      LegacyBuiltKinds(t, 0, tokens);
      assert LegacyNode.PlainTree(t, q.lb.rests);
      LegacyNode.LegacyHtmlIsHtml(t, q.lb.rests, 0);
    }
  }

  /**
   * What the older buildTree returns: the fatal error exactly when the
   * stack of open names fails; otherwise the tree holds the tokens' nodes
   * in token order with no open element holding children, and without raw
   * attribute text its getHtml is the newer getHtml.
   */
  ghost function LegacyParse(tokens: seq<Token>): (r: Result<LegacyTree>)
    ensures r.Err? <==> OpenNames(tokens).None?
    ensures r.Ok? ==> r.value.root == 0 && Built(r.value.doc, r.value.root, LegacyMade(tokens))
    ensures r.Ok? && NoRawAtts(tokens) ==>
      LegacyNode.LegacyHtml(r.value.doc, r.value.rests, r.value.root) == Html(r.value.doc, r.value.root)
  {
    match LegacyTraced(tokens)
    case None => Err(NullOpening)
    case Some(q) =>
      LegacyFinish(q, tokens, OpenNames(tokens).value);
      Ok(LegacyTree(CloseNodes(q.lb.b.doc, 0), 0, q.lb.rests))
  }
}

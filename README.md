# html-parser in Dafny

A model of the core of the PHP library html-parser, which turns possibly
malformed HTML text into a tree of nodes, lets callers edit that tree in
place and query it with a small CSS-like selector language. The repository
holds two generations of the same design, and both are modelled:

- the newer one (`src/HtmlParser/Parser.php`, the element classes under
  `src/HtmlParser/Elements/`, `Selector.php`): a `Reader` cursor, the
  splitter and token classifier, `buildTree` with its close-tag recovery
  (`getOpenChildren` flattening, `closeNodes`), the node classes
  `TagNode`, `RootNode`, `TextNode`, `CommentNode`, `ChildrenNode`,
  `CollectionNode` with every tree edit (`addChild`, `addChildren`,
  `detach`, `detachChildren`, `insertAt`, `replaceChild`, `beforeChild`,
  `afterChild`, `replaceWith`, `replaceWithChildren`, `wrap`, `setText`), attribute
  parsing and `att2str`, `getHtml`/`getText`, `Selector::fromCss`,
  `create` and `match`, and `NodesArray` with `find`;
- the older one (`src/Parser.php`, `Node.php`, `NodeCollection.php`): its
  splitter, `buildTree` with `findParent`, `getOpenChildren`,
  `clearChildren`/`addChildren` and `closeNodes`, the `Node` edits and
  walks, the four-pattern attribute parser, `Node.match` and the
  `NodeCollection` list with `find`, `select`, `each` and its iterator.

Nodes live in an arena: a map from node identities to records holding a
kind, a parent link and the ordered list of children (module `Arena`).
`Valid` says the links agree and every parent chain ends; the newer root
is its own parent, as in the code. Each tree edit is a function on the
arena, stated by a relational predicate over the document before and
after, and proved to keep the document valid. Loops of the source that
update state (the Reader, the splitters, the builders' token loops, the
attribute pattern loops, `fromCss`, `NodesArray` and `NodeCollection`)
are methods proved against those functions.

Where the library's documented intent and its code disagree, the model
follows the code:

- a selector chain's head is its leftmost stage, and `fromCss` builds the
  chain from the right;
- `closeNodes` does not descend into elements that are already closed, so
  after a parse an element that was never closed (closing NO) can remain
  below a closed one; the model proves instead that every such element is
  childless (`Build.BuildTree`, `LegacyBuild.LegacyParse`, and through it
  `LegacyStale.LegacyBuildTree`);
- the newer root is its own parent; the older root has no parent;
- a close tag that matches no open element regroups everything under the
  root.

Where the code does something its authors evidently did not intend, the
model has both: a member for the code as written, with a lemma that
exhibits the discrepancy, and a corrected member that the rest of the
model builds on (see Findings). The older `buildTree` is the largest case:
its close step hands the regrouped nodes to `Node.addChildren`, whose
`each(-1)` points every node of their subtrees at the closing element, so
a closed element keeps listing children that no longer point at it.
Module `LegacyStale` models that builder as written, down to the walks of
`getOpenChildren`, `each`, `findParent` and `closeNodes`, and proves it
keeps the kinds and lists of the corrected builder of module
`LegacyBuild` token by token, with the same failures; the corrected
builder's tree is linked (`LegacyBuild.LegacyParse`), the one as written
is not (`LegacyStale.NestedStale`). The members of `LegacyBuild` about the
close step, the loop and the parse therefore describe the corrected
builder; each is listed under Left out.

## Model

| member | source | states |
|---|---|---|
| Cursor.IndexOf | src/HtmlParser/Reader.php:23 | strpos from a position: the first occurrence of the key at or after it, -1 exactly when there is none |
| Cursor.ReadEnd | src/HtmlParser/Reader.php:21-31 | where readUntil stops: before the first key found from the cursor (after it when including), the end of the text when there is none, and no earlier occurrence is skipped |
| Cursor.Reader.constructor | src/HtmlParser/Reader.php:14-19 | a reader over the text starts at position 0 |
| Cursor.Reader.ReadUntil | src/HtmlParser/Reader.php:21-31 | returns exactly the text between the old and the new position, and the new position is ReadEnd's stop |
| Cursor.Reader.DoesMatch | src/HtmlParser/Reader.php:33-44 | true exactly when the key occurs at the cursor (false when fewer characters remain than the key has) |
| Cursor.Reader.IsEnd | src/HtmlParser/Reader.php:46-49 | true exactly when nothing is left to read |
| Tokens.NewText | src/HtmlParser/Token.php:11-19 | a TEXT token carrying the text and empty tag fields |
| Tokens.NewComment | src/HtmlParser/Token.php:21-29 | a COMMENT token carrying the text and empty tag fields |
| Tokens.NewTag | src/HtmlParser/Token.php:31-39 | a tag token of the given type, name and attribute text, with no text |
| Tokens.NameEnd | src/HtmlParser/Parser.php:128 | the lazy `(.*?)` of the tag name stops at the first whitespace or `/?>`, and nowhere earlier |
| Tokens.CloserFrom | src/HtmlParser/Parser.php:128 | the lazy attribute group stops at the first `/?>`, and nowhere earlier |
| Tokens.Classify | src/HtmlParser/Parser.php:110-134 | one chunk becomes a COMMENT exactly when it is framed by `<!--` and `-->`, a tag token exactly when it is framed by `<` and `>` and does not start with `<!`, and text otherwise; text and comments keep the chunk unchanged |
| Tokens.TagFields | src/HtmlParser/Parser.php:117-131 | for a tag chunk: TAG_CLOSE exactly when the second character is `/`; the name is the run after `<` or `</` up to the first whitespace or closer; rawAtt is what follows that whitespace up to the next closer, or empty |
| Tokens.ParseTokens | src/HtmlParser/Parser.php:105-138 | one token per chunk, in order, each the classification of its chunk |
| Splitter.FirstLiteral | src/HtmlParser/Parser.php:82-89 | the first of `script`, `style` whose `<tag` starts at the cursor, or none when neither does |
| Splitter.CommentStep | src/HtmlParser/Parser.php:76-80 | a comment chunk runs through the next `-->`, or to the end |
| Splitter.LiteralStep | src/HtmlParser/Parser.php:83-87 | a literal element is three chunks (open tag, raw content, close tag) that glue back to the text read, the first ending at the first `>` |
| Splitter.TagStep | src/HtmlParser/Parser.php:91-94 | a tag chunk runs through the next `>`, or to the end |
| Splitter.TextStep | src/HtmlParser/Parser.php:96-99 | text runs up to the next `<` or the end, and is pushed only when PHP-truthy (not "" and not "0") |
| Splitter.Step | src/HtmlParser/Parser.php:74-100 | each iteration moves the cursor forward and pushes exactly the text it read, unless that text is a falsy text chunk |
| Splitter.SplitLossless | src/HtmlParser/Parser.php:70-102 | the chunks from position p glue back to the rest of the document exactly when `!DropsZero(s, p)`: no text chunk equal to the falsy "0" is dropped on the way |
| Splitter.ZeroTextDropped | src/HtmlParser/Parser.php:96-99 | a text chunk "0" is dropped: the document `0<b>` splits into `<b>` alone |
| Splitter.MatchLiteral | src/HtmlParser/Parser.php:82-89 | the foreach over the literal tags finds the same tag as FirstLiteral |
| Splitter.Advance | src/HtmlParser/Parser.php:74-100 | one loop iteration pushes the chunks of Step and leaves the reader at Step's position |
| Splitter.SplitTokens | src/HtmlParser/Parser.php:70-102 | the loop over the reader produces exactly Split of the document |
| Elements.PutLookup | src/HtmlParser/Elements/TagNode.php:90 | after `$attributes[$key] = $value` the key holds the new value and every other key is unchanged |
| Elements.PutKeys | src/HtmlParser/Elements/TagNode.php:90 | an assignment keeps the key order and adds a new key last |
| Elements.UnsetLookup | src/HtmlParser/Elements/TagNode.php:41 | after unset the key is absent and every other key is unchanged |
| Elements.UnsetKeys | src/HtmlParser/Elements/TagNode.php:41 | unset removes just that key and keeps the keys distinct |
| Elements.AddKey | src/HtmlParser/Elements/TagNode.php:105 | `$set[$x] = true`: x becomes a member, no other member changes, and a present member leaves the set as it was |
| Elements.RemoveKey | src/HtmlParser/Elements/TagNode.php:111 | `unset($set[$x])`: x is no longer a member and no other member changes |
| Elements.AddKeyIdempotent | src/HtmlParser/Elements/TagNode.php:105 | adding the same member twice is adding it once |
| Elements.RunEnd | src/HtmlParser/Elements/TagNode.php:27 | a greedy character class takes the longest run from its start |
| Elements.AttMatchEnd | src/HtmlParser/Elements/TagNode.php:27 | an attribute match starts exactly at a name character and ends after it |
| Elements.AttMatches | src/HtmlParser/Elements/TagNode.php:27-28 | preg_match_all's matches, left to right, each non-empty and starting with a name character |
| Elements.AttOf | src/HtmlParser/Elements/TagNode.php:30-33 | the key is the text before the first `=`, kept as written; the value is always a string (trim of null is "") |
| Elements.AttFoldAllSet | src/HtmlParser/Elements/TagNode.php:29-35 | every attribute read from text holds a string value |
| Elements.AttFoldLookup | src/HtmlParser/Elements/TagNode.php:29-35 | a repeated attribute keeps the value of its last occurrence |
| Elements.AttFoldKeys | src/HtmlParser/Elements/TagNode.php:29-35 | the keys are distinct and in the order of their first occurrence |
| Elements.ParseAttributes | src/HtmlParser/Elements/TagNode.php:27-35 | the constructor's loop over the matches builds the attribute map AttFold describes |
| Elements.Extract | src/HtmlParser/Elements/TagNode.php:38-43 | a set id or class value becomes the distinct words of its explode on ' '; an absent or null one leaves the set empty |
| Elements.ExtractRest | src/HtmlParser/Elements/TagNode.php:38-43 | after extraction the name is gone from the map and every other key is unchanged |
| Elements.NewTagData | src/HtmlParser/Elements/TagNode.php:19-46 | the tag and closing as given; distinct keys, ids and classes; `id` and `class` never stay in the attribute map |
| Elements.NewTagDataLookup | src/HtmlParser/Elements/TagNode.php:19-46 | the ids and classes are the distinct words of the last `id` and `class` values in the attribute text, and every other key reads its last value there |
| Elements.ExtractBoth | src/HtmlParser/Elements/TagNode.php:38-43 | extracting `id` then `class` gives the words of each value and leaves every other key as it was |
| Elements.NewTagDataFrom | src/HtmlParser/Elements/TagNode.php:19-25 | with an attribute array every key but `id` and `class` keeps its value |
| Elements.GetAttribute | src/HtmlParser/Elements/TagNode.php:75-86 | a value exactly when hasAttribute (isset, so a null value counts as absent), and then the stored one |
| Elements.SetAttribute | src/HtmlParser/Elements/TagNode.php:88-91 | the key reads back the new value, every other key reads as before, the key order is kept, and nothing else of the tag changes |
| Elements.AttItems | src/HtmlParser/Elements/TagNode.php:148-155 | one item per attribute, in map order |
| Elements.Att2Str | src/HtmlParser/Elements/TagNode.php:138-157 | "" exactly when there are no ids, classes or attributes, otherwise text starting with a space |
| Elements.AddClass | src/HtmlParser/Elements/TagNode.php:103-107 | the class becomes present, every class already present stays, and nothing else changes |
| Elements.RemoveClass | src/HtmlParser/Elements/TagNode.php:109-113 | the class is gone, every request not naming it is answered as before, and nothing else changes |
| Elements.AddId | src/HtmlParser/Elements/TagNode.php:123-127 | as AddClass, for the ids |
| Elements.RemoveId | src/HtmlParser/Elements/TagNode.php:129-133 | as RemoveClass, for the ids |
| Elements.AddRemoveClass | src/HtmlParser/Elements/TagNode.php:103-113 | adding a class is idempotent, and removing a class just added to a tag without it restores the tag |
| Dom.RootData | src/HtmlParser/Elements/RootNode.php:7-11 | the root is a tag with name '', closing YES and no attributes, ids or classes |
| Dom.Count | src/HtmlParser/Elements/ChildrenNode.php:47-50 | count() is the number of children |
| Dom.TextIsLeafTexts | src/HtmlParser/Elements/ChildrenNode.php:30-38 | getText is the text of the text and comment nodes of the subtree in document order: containers add nothing of their own |
| Dom.Html | src/HtmlParser/Elements/TagNode.php:159-174 | getHtml of a tag starts with `<` and its name |
| Dom.HtmlOfTagFree | src/HtmlParser/Elements/ChildrenNode.php:20-28 | in a tree without tags getHtml and getText agree: text, comment and container nodes write no markup |
| Dom.TextNoLongerThanHtml | src/HtmlParser/Elements/TagNode.php:159-174 | getHtml writes every character of getText, so it is never shorter |
| TextEdit.SetText | src/HtmlParser/Elements/TextNode.php:15-18 | setText replaces the node's own text, keeps it a text (or comment) node with its parent and children, and changes no other node |
| TextEdit.SetTextValid | src/HtmlParser/Elements/CommentNode.php:16-19 | setText on a text or comment node keeps the document valid, its shape and its document order |
| TextEdit.SetTextReads | src/HtmlParser/Elements/TextNode.php:15-30 | after setText, getText and getHtml of the node both return the new text |
| TextEdit.SetTextRestores | src/HtmlParser/Elements/TextNode.php:15-18 | setting the old text back restores the document |
| AttRoundTrip.QItemMatch | src/HtmlParser/Elements/TagNode.php:27 | at the start of `key="v"` (v without `"`) the attribute pattern matches exactly that item |
| AttRoundTrip.MatchesJoin | src/HtmlParser/Elements/TagNode.php:27-28 | space-separated `key="v"` items are matched one by one, in order |
| AttRoundTrip.TrimQuoted | src/HtmlParser/Elements/TagNode.php:33 | trimming quote characters from `"v"` leaves v when v holds none |
| AttRoundTrip.AttOfQItem | src/HtmlParser/Elements/TagNode.php:30-33 | the match `key="v"` gives the attribute key with value v |
| AttRoundTrip.AttFoldDistinct | src/HtmlParser/Elements/TagNode.php:29-35 | with distinct keys no match overwrites another: the map is the matches' attributes in order |
| AttRoundTrip.ExtractSet | src/HtmlParser/Elements/TagNode.php:38-43 | extracting a set att2str wrote gives the set back and leaves the other attributes |
| AttRoundTrip.ParsedMatches | src/HtmlParser/Elements/TagNode.php:138-157 | the matches of att2str's text are its items, one per id set, class set and attribute |
| AttRoundTrip.Att2StrRoundTrip | src/HtmlParser/Elements/TagNode.php:19-46 | the constructor parses att2str's text back into the same element data, for names and values att2str writes unambiguously |
| TreeOps.SpliceAt | src/HtmlParser/Elements/ChildrenNode.php:90 | array_splice: within range, the slice is replaced by the inserted list; past the end, the list is appended |
| TreeOps.CollRemoveAsWrittenDrops | src/HtmlParser/Elements/CollectionNode.php:86-93 | with a duplicate entry removeChild as written removes the wrong entry: [x, x, y] becomes [x] where [y] is meant |
| TreeOps.Without | src/HtmlParser/Elements/CollectionNode.php:86-93 | the corrected removal: exactly the entries equal to x go, and the length drops by their number |
| TreeOps.CollRemoveDistinct | src/HtmlParser/Elements/CollectionNode.php:86-93 | on a list without duplicates removeChild as written removes exactly the one entry, as the corrected removal does |
| TreeOps.DetachIsUnlink | src/HtmlParser/Elements/AbstractNode.php:60-65 | with distinct children, detach is exactly the unlinking of the node from its parent |
| TreeOps.UnlistedDetached | src/HtmlParser/Elements/ChildrenNode.php:110-115 | a node without a parent is in no list, so there is nothing to remove |
| TreeOps.DetachIfAttachedSpec | src/HtmlParser/Elements/AbstractNode.php:60-65 | detach takes the node out of every list and clears its parent; no other node, kind or list changes |
| TreeOps.DetachedLinked | src/HtmlParser/Elements/AbstractNode.php:60-65 | detaching keeps every parent and child link consistent |
| TreeOps.DetachValid | src/HtmlParser/Elements/AbstractNode.php:60-65 | detach keeps the document valid (links consistent, every parent chain finite) |
| TreeOps.AddChildAsWritten | src/HtmlParser/Elements/ChildrenNode.php:59-65 | addChild as written fails exactly on a node without a parent (detach on null); otherwise it is the corrected AddChild |
| TreeOps.AddChildSpec | src/HtmlParser/Elements/ChildrenNode.php:59-65 | addChild moves the node to the end of p's list and points it at p; nothing else changes |
| TreeOps.AppendedLinked | src/HtmlParser/Elements/ChildrenNode.php:59-65 | appending keeps the links consistent |
| TreeOps.AddChildValid | src/HtmlParser/Elements/ChildrenNode.php:59-65 | addChild keeps the document valid as long as the node is neither p nor an ancestor of p |
| TreeOps.FreshDocValid | src/HtmlParser/Elements/TextNode.php:9-13 | a new parentless, childless node keeps the document valid |
| Edit.SetParents | src/HtmlParser/Elements/ChildrenNode.php:81-83 | every listed node points at the new parent, in order; every other node is unchanged |
| Edit.UnlinkValid | src/HtmlParser/Elements/ChildrenNode.php:87-91 | removeAt keeps the store valid; the removed node loses its parent, and no other parent and no other list changes |
| Edit.LinkShape | src/HtmlParser/Elements/ChildrenNode.php:93-108 | insertAt splices the new nodes into p's list at the index and points each at p; nothing else changes |
| Edit.LinkValid | src/HtmlParser/Elements/ChildrenNode.php:93-108 | inserting parentless nodes that are not ancestors of p keeps the store valid |
| Edit.UnlinkAnc | src/HtmlParser/Elements/AbstractNode.php:60-65 | detaching only cuts ancestry: every ancestor afterwards was one before |
| Flatten.FlatSub | src/HtmlParser/Parser.php:190-203 | getOpenChildren collects only nodes from the subtrees of the listed children |
| Flatten.FlatParent | src/HtmlParser/Parser.php:190-203 | a collected node is a listed child, or its parent is a collected open element |
| Flatten.FlatClosed | src/HtmlParser/Parser.php:190-203 | every listed child is collected, and so is every child of a collected open element |
| Flatten.FlatDistinct | src/HtmlParser/Parser.php:190-203 | nothing is collected twice |
| Flatten.ClosedSubtreeUntouched | src/HtmlParser/Parser.php:198 | the descendants of a collected element that is not open are never collected: a closed element keeps its subtree |
| Flatten.FlattenedShape | src/HtmlParser/Parser.php:173-175 | after getOpenChildren and addChildren the element lists what was collected, and no node changes kind |
| Flatten.FlattenValid | src/HtmlParser/Parser.php:173-175 | flattening keeps the store valid |
| Flatten.FlattenPreservesPreorder | src/HtmlParser/Parser.php:173-175 | flattening below an element leaves the document order of its subtree unchanged |
| Spine.AppendLeafPreorder | src/HtmlParser/Elements/ChildrenNode.php:59-65 | appending a new leaf to p's list puts it at the end of p's subtree in document order |
| Spine.SpinePreorder | src/HtmlParser/Parser.php:146-164 | when the current element's subtree gains nodes at its end, so does the subtree of every element on the path above it |
| Build.ElemOf | src/HtmlParser/Parser.php:148-163 | TEXT makes a text node and COMMENT a comment node with the token's text; TAG_SELF makes a tag closed SELF and TAG_OPEN an open tag, each with the token's name |
| Build.SetClosed | src/HtmlParser/Elements/TagNode.php:63-66 | setClosing(YES) leaves an element no longer open, with the same text and class |
| Build.MadeTexts | src/HtmlParser/Parser.php:146-164 | the texts of the nodes the tokens create are the texts of the TEXT and COMMENT tokens, in order |
| Build.ParentNamedAsWritten | src/HtmlParser/Elements/AbstractNode.php:27-40 | parent($name) as written fails exactly on a truthy name (Selector::build does not exist); an empty name gives the parent |
| Build.ParentNamed | src/HtmlParser/Elements/AbstractNode.php:27-57 | the corrected parent($name): the first tag with that name among the ancestors below the root, nearest first (FirstMatch over the walk), none when no ancestor is one, the parent when the name is empty |
| Build.CloseNodes | src/HtmlParser/Parser.php:205-214 | closeNodes changes only kinds, never links |
| Build.AddNewShape | src/HtmlParser/Parser.php:149 | adding a new node to the current element appends a leaf to its list and keeps the document valid |
| Build.InitialBuilding | src/HtmlParser/Parser.php:143-144 | a fresh RootNode alone satisfies the build invariant with the path [root] |
| Build.AppendStep | src/HtmlParser/Parser.php:148-164 | TEXT, COMMENT, TAG_SELF and TAG_OPEN keep the build invariant: the new node is last in document order, and an opening tag extends the open path |
| Build.FlatDocValid | src/HtmlParser/Parser.php:173-175 | getOpenChildren and addChildren on a container keep the document valid |
| Build.SpineFlat | src/HtmlParser/Parser.php:173 | every later element of the open path is collected by getOpenChildren on an earlier one |
| Build.FlatStep | src/HtmlParser/Parser.php:173-175 | flattening below the k-th element of the open path keeps the document order and leaves open elements with children only on the path up to it |
| Build.CloseTagStep | src/HtmlParser/Parser.php:176-177 | setClosing(YES) on an open element of the path keeps the invariant; the path then ends at its parent |
| Build.CloseRootStep | src/HtmlParser/Parser.php:179-181 | when a close tag resolves to the root, closeNodes leaves the path as the root alone |
| Build.CloseStep | src/HtmlParser/Parser.php:166-182 | a close tag resolved to any element of the path keeps the invariant, and current becomes that element's parent |
| Build.SpineAncestors | src/HtmlParser/Elements/AbstractNode.php:42-57 | the ancestors parent() visits from an element of the path are the path's elements above it, below the root |
| Build.OpeningOnPath | src/HtmlParser/Parser.php:167-171 | a close tag always resolves to an element of the open path (the current one, a named ancestor, or the root) |
| Build.Finish | src/HtmlParser/Parser.php:186 | the final closeNodes(root) leaves no open element with children |
| Build.CloseTag | src/HtmlParser/Parser.php:166-182 | the TAG_CLOSE case closes the element the tag resolves to, makes that element's parent current, and creates no node |
| Build.AddToken | src/HtmlParser/Parser.php:148-164 | the other cases append exactly one new leaf, holding the token's node, to the current element's children and change nothing else; TAG_OPEN makes the new node current |
| Build.Step | src/HtmlParser/Parser.php:147-184 | one token of the loop: a non-close token adds its node as the last child of the current element (current moves to it for TAG_OPEN); a close tag closes the resolved element and moves to its parent |
| Build.Start | src/HtmlParser/Parser.php:143-144 | the fresh builder holds only the root, itself current, its own parent |
| Build.AddTokenPushes | src/HtmlParser/Parser.php:148-164 | on the builder's invariant, adding a node appends it to the document order and, for an open tag, to the open path |
| Build.CloseTagPops | src/HtmlParser/Parser.php:166-182 | a close tag resolves to the element at some index k of the open path; the document becomes CloseAt of that element, the path is cut above it and the new current is the path element before it |
| Build.ClosePath | src/HtmlParser/Parser.php:166-182 | the same, for a given index of the open path |
| Build.StepTrace | src/HtmlParser/Parser.php:147-184 | one step of the loop keeps the invariant with the token's node added to the nodes made |
| Build.Traced | src/HtmlParser/Parser.php:143-184 | the loop over any token list keeps the invariant over the nodes the tokens make |
| Build.TracedStep | src/HtmlParser/Parser.php:146-184 | the loop's state after i + 1 tokens is Step applied to its state after i tokens |
| Build.Parse | src/HtmlParser/Parser.php:140-188 | the parsed document is built over the nodes the tokens make |
| Build.ParseBuilt | src/HtmlParser/Parser.php:186-187 | the parse is closeNodes(root) on the loop's final document |
| Build.CloseAtKeepsParent | src/HtmlParser/Parser.php:173-177 | closing an element keeps the parent of that element and of each of its children |
| Build.NestedText | src/HtmlParser/Parser.php:146-182 | on `<d>x</d>` the text is the only child of the element d, which is the only child of the root |
| Build.BuildTree | src/HtmlParser/Parser.php:140-188 | buildTree is the fold of the loop steps from a fresh root followed by closeNodes(root): a valid tree whose document order is the nodes of the tokens in token order, with no open element holding children |
| Build.BuiltText | src/HtmlParser/Parser.php:140-188 | getText of the built root is the texts of the TEXT and COMMENT tokens, in order |
| Build.BuiltKinds | src/HtmlParser/Parser.php:140-188 | the built tree holds only tags, texts and comments below its root; no CollectionNode ever appears |
| Build.BuiltFind | src/HtmlParser/Elements/NodesArray.php:80-89 | on any built document find as written never descends (only CollectionNode is searched), while the corrected find searches whole subtrees |
| Moves.RemoveAllDistinct | src/HtmlParser/Elements/ChildrenNode.php:93-108 | on a list without duplicates, removing the moved nodes one by one keeps exactly the entries not among them |
| Moves.RemoveChildKeeps | src/HtmlParser/Elements/ChildrenNode.php:110-115 | removeChild changes lists and the removed child's parent, nothing else |
| Moves.DetachFrame | src/HtmlParser/Elements/AbstractNode.php:60-65 | detach keeps every kind and every other node's parent |
| Moves.DetachAllSpec | src/HtmlParser/Elements/NodesArray.php:115-120 | detaching several nodes in turn takes exactly them out of every list and clears their parents |
| Moves.DetachAllValid | src/HtmlParser/Elements/NodesArray.php:115-120 | detaching several nodes keeps the document valid and creates no new ancestry |
| Moves.MovedUnique | src/HtmlParser/Elements/ChildrenNode.php:93-108 | the moved-to relation determines the resulting document |
| Moves.PrepareSpec | src/HtmlParser/Elements/ChildrenNode.php:103-106 | after insertAt's loop every new node is out of its old list and points at p |
| Moves.InsertAtSpec | src/HtmlParser/Elements/ChildrenNode.php:93-108 | insertAt moves the nodes under p and splices them, in order, into p's remaining list at the index (clamped to its end) |
| Moves.InsertAtValid | src/HtmlParser/Elements/ChildrenNode.php:93-108 | insertAt keeps the document valid when no new node is p or above it and none is listed twice |
| Moves.AppendStep | src/HtmlParser/Elements/ChildrenNode.php:59-65 | addChild on consistent links appends the node and keeps the links consistent |
| Moves.AddChildrenSpec | src/HtmlParser/Elements/ChildrenNode.php:67-75 | addChildren moves the nodes out of their old lists to the end of p's list, in the given order, each pointing at p |
| Moves.AddChildrenValid | src/HtmlParser/Elements/ChildrenNode.php:67-75 | addChildren keeps the document valid when no node is p or above it and none is listed twice |
| Moves.DetachListed | src/HtmlParser/Elements/ChildrenNode.php:77-85 | detaching all of p's children empties p's list, changes no other list, and keeps the document valid |
| Moves.DetachChildrenSpec | src/HtmlParser/Elements/ChildrenNode.php:77-85 | detachChildren returns the children in order, empties the list, clears each child's parent, changes no other list, and keeps the document valid |
| Moves.DetachChildrenIsDetachAll | src/HtmlParser/Elements/ChildrenNode.php:77-85 | emptying the list and then clearing the parents is the same as detaching each child in turn |
| Moves.CollDetachChildrenSpec | src/HtmlParser/Elements/CollectionNode.php:76-83 | the CollectionNode form, which detaches child by child, has the same effect on consistent links |
| Collection.CollAddChildrenSpec | src/HtmlParser/Elements/CollectionNode.php:60-74 | adding to a CollectionNode appends the nodes in order and points them at it, without taking them out of any other list |
| Collection.CollAddStep | src/HtmlParser/Elements/CollectionNode.php:60-65 | one addChild on a collection appends the node and repoints it; every other list and kind is unchanged |
| Collection.CollAddChildUnlinks | src/HtmlParser/Elements/CollectionNode.php:60-65 | adding a node that still has another parent leaves it listed by two containers, so the links no longer agree |
| Collection.CollReplaceChildSpec | src/HtmlParser/Elements/CollectionNode.php:95-116 | a CollectionNode's replaceChild fills the first slot holding c with the new nodes, in order, clears c's parent and points the new nodes at the collection; a c that is not listed changes nothing |
| Collection.FillFrame | src/HtmlParser/Elements/CollectionNode.php:105-114 | the three steps of the matching iteration together give the filled slot |
| Replace.RemoveAtIsUnlink | src/HtmlParser/Elements/ChildrenNode.php:87-91 | on a valid document, removeAt at a child's index is the unlinking of that child, and keeps the document valid |
| Replace.ReplaceChildValid | src/HtmlParser/Elements/ChildrenNode.php:117-123 | replaceChild keeps the document valid |
| Replace.ReplaceChildSpec | src/HtmlParser/Elements/ChildrenNode.php:117-123 | replaceChild removes c's slot, moves the new nodes out of their old lists and splices them in at c's old index; c loses its parent; an unlisted c changes nothing |
| Replace.ReplaceChildIsInsert | src/HtmlParser/Elements/ChildrenNode.php:117-123 | replaceChild of a listed child is insertAt, at that child's index, on the document with the child unlinked |
| Replace.ReplaceChildInPlace | src/HtmlParser/Elements/ChildrenNode.php:117-123 | when no new node is already a child of p, the new nodes take exactly c's slot between the same neighbours |
| Replace.BeforeChildSpec | src/HtmlParser/Elements/ChildrenNode.php:132-137 | beforeChild as written inserts at c's index taken before the new nodes leave p's list; keeps the document valid; an unlisted c changes nothing |
| Replace.AfterChildSpec | src/HtmlParser/Elements/ChildrenNode.php:125-130 | afterChild as written inserts one past c's index taken before the new nodes leave p's list; keeps the document valid |
| Replace.BeforeChildShifts | src/HtmlParser/Elements/ChildrenNode.php:132-137 | with children [a, b, c], beforeChild(c, a) yields [b, c, a]: the node lands after c |
| Replace.InsertAtList | src/HtmlParser/Elements/ChildrenNode.php:93-108 | insertAt's effect on the list it splices: the remaining children with the new nodes at the index |
| Replace.InsertBeforeSpec | src/HtmlParser/Elements/ChildrenNode.php:132-137 | the corrected beforeChild places the new nodes right before c among the remaining children and keeps the document valid |
| Replace.InsertAfterSpec | src/HtmlParser/Elements/ChildrenNode.php:125-130 | the corrected afterChild places the new nodes right after c among the remaining children and keeps the document valid |
| Replace.InsertBeforeKeepsPlace | src/HtmlParser/Elements/ChildrenNode.php:132-137 | with children [a, b, c], the corrected beforeChild(c, a) yields [b, a, c] |
| Replace.PlacedAt | src/HtmlParser/Elements/ChildrenNode.php:93-108 | insertAt at any index into a valid document keeps it valid and moves the nodes there |
| Replace.ReplaceWithChildrenSpec | src/HtmlParser/Elements/ChildrenNode.php:139-142 | under a TagNode or RootNode parent, replaceWithChildren puts n's children in n's place, in order, leaves n parentless and childless, and keeps the document valid |
| Replace.CollReplaceWithChildrenSpec | src/HtmlParser/Elements/CollectionNode.php:118-121 | under a CollectionNode parent, n's children fill n's slot and point at the collection while n keeps its own list |
| Replace.ReplaceWalkSkip | src/HtmlParser/Elements/AbstractNode.php:78-84 | replaceWith's loop changes nothing when the node is not in the rest of the parent's list |
| Replace.ReplaceWalkAt | src/HtmlParser/Elements/AbstractNode.php:78-84 | with the node once in the list, the loop splices exactly its slot and reports a match |
| Replace.ReplaceWithSpec | src/HtmlParser/Elements/AbstractNode.php:67-91 | replaceWith fills n's slot with the new nodes and points them at the parent, n ends parentless; without a parent or a matching slot nothing changes |
| Replace.ReplaceWithUnlinks | src/HtmlParser/Elements/AbstractNode.php:67-91 | replacement nodes that still have another parent stay listed there, so the links disagree |
| Replace.ReplaceWithValid | src/HtmlParser/Elements/AbstractNode.php:67-91 | with parentless replacement nodes not above the parent, replaceWith keeps the document valid |
| Replace.ReplaceWithIsLink | src/HtmlParser/Elements/AbstractNode.php:67-91 | for a listed node, replaceWith equals unlinking it and linking the new nodes at its index |
| Replace.WrapperRec | src/HtmlParser/Elements/AbstractNode.php:93-95 | the wrapper is a closing TagNode with the given tag, no parent and no children |
| Replace.WrapAsWrittenFails | src/HtmlParser/Elements/AbstractNode.php:93-99 | as written, wrap fails on every node but the root: addChild calls detach on a node whose parent replaceWith has just cleared |
| Replace.WrapSpec | src/HtmlParser/Elements/AbstractNode.php:93-99 | the corrected wrap puts the wrapper in n's place, makes n its only child, changes nothing else and keeps the document valid |
| Query.Matches | src/HtmlParser/Selector.php:95-122 | `**` matches every node; only `**`, `$` and `%` can match a non-tag; a matching tag has the stage's truthy name |
| Query.PlainMatches | src/HtmlParser/Selector.php:95-122 | a plain stage matches exactly the tags with its name that carry all of its ids and all of its classes |
| Query.Create | src/HtmlParser/Selector.php:79-93 | a callable or compiled selector is used as given, text is compiled by fromCss with the `\s*>\s` rewrite of the code, anything else is rejected with "Invalid Selector" |
| Query.CreateFromCode | src/HtmlParser/Selector.php:79-93 | create, with the rewrite of the code, rejects text exactly when it holds only whitespace and `>`, and accepts the text of any spellable chain as that chain |
| Query.Keep | src/HtmlParser/Elements/NodesArray.php:79-83 | the kept nodes are exactly the listed nodes that pass the test |
| Query.KeepAppend | src/HtmlParser/Elements/NodesArray.php:77-88 | filtering distributes over concatenation, so find's results come out in list order |
| Query.FindList | src/HtmlParser/Elements/NodesArray.php:64-97 | with a callable, everything find returns is a node of the document that passes the test |
| Query.Explode | src/HtmlParser/Elements/NodesArray.php:99-106 | explodeChildren returns exactly the children of the listed containers |
| Query.FindSel | src/HtmlParser/Elements/NodesArray.php:64-97 | with a compiled chain, everything find returns matches the chain's last stage |
| Query.Find | src/HtmlParser/Elements/NodesArray.php:64-97 | find returns document nodes that pass the callable, or that match the last stage of the selector |
| Query.FindAtAll | src/HtmlParser/Elements/NodesArray.php:77-88 | descending into every container without a limit, find below one node returns exactly the passing nodes of its subtree, in document order |
| Query.FindBelowAll | src/HtmlParser/Elements/NodesArray.php:77-88 | the same for the listed children of one node |
| Query.FindListAll | src/HtmlParser/Elements/NodesArray.php:64-97 | the corrected find at depth -1 returns the passing nodes of the listed subtrees, in document order |
| Query.FindListShallow | src/HtmlParser/Elements/NodesArray.php:76-88 | at depth 1 find tests only the listed nodes |
| Query.FindAsWrittenShallow | src/HtmlParser/Elements/NodesArray.php:84-86 | as written find descends only into CollectionNode, so in a parsed document it never looks below the listed nodes, whatever the depth |
| Query.FindMissesGrandchild | src/HtmlParser/Elements/NodesArray.php:84-86 | for root, div, p nested, as-written find on the root's children misses p; the corrected find returns it |
| Query.ParentOf | src/HtmlParser/Elements/AbstractNode.php:27-58 | a single node parent() returns is a non-root node that passes the test |
| Query.Ancestors | src/HtmlParser/Elements/AbstractNode.php:42-57 | the nodes parent() walks are document nodes other than the root |
| Query.Limit | src/HtmlParser/Elements/AbstractNode.php:42-57 | the first k nodes, or all of them for a negative k |
| Query.FirstMatch | src/HtmlParser/Elements/AbstractNode.php:48-57 | the first node that passes, and None exactly when none passes |
| Query.ParentIsFirstMatch | src/HtmlParser/Elements/AbstractNode.php:27-58 | with a callable, parent() returns the first passing ancestor below the root among the first depth of them, and null when there is none |
| Query.At | src/HtmlParser/Elements/NodesArray.php:36-49 | indexing yields a node exactly when the index is in range, and then the node at that index |
| Query.NodesArray.constructor | src/HtmlParser/Elements/NodesArray.php:12-15 | the array starts with the given nodes |
| Query.NodesArray.Count | src/HtmlParser/Elements/NodesArray.php:29-34 | count is the number of listed nodes |
| Query.NodesArray.First | src/HtmlParser/Elements/NodesArray.php:36-39 | the first node, and nothing on an empty array |
| Query.NodesArray.Nth | src/HtmlParser/Elements/NodesArray.php:41-44 | node i, and nothing when i is out of range |
| Query.NodesArray.Last | src/HtmlParser/Elements/NodesArray.php:46-49 | the last node, and nothing on an empty array |
| Query.NodesArray.Add | src/HtmlParser/Elements/NodesArray.php:51-54 | add appends one node |
| Query.NodesArray.AddRange | src/HtmlParser/Elements/NodesArray.php:56-62 | addRange appends the nodes in order |
| Selectors.ChildMarks | src/HtmlParser/Selector.php:40 | the corrected `>` rewrite leaves no whitespace next to any `>` and keeps a `>` only where the pattern matched |
| Selectors.ChildMarksKeeps | src/HtmlParser/Selector.php:40 | the `>` rewrite only drops whitespace: every other character survives, in order |
| Selectors.ChildMarksFixed | src/HtmlParser/Selector.php:40 | on text where no whitespace touches a `>`, the corrected rewrite changes nothing |
| Selectors.ChildMarksAsWrittenFixed | src/HtmlParser/Selector.php:40 | on such text the rewrite as written changes nothing either |
| Selectors.Collapse | src/HtmlParser/Selector.php:41 | after the collapse every whitespace character is a single space, never two in a row |
| Selectors.CollapseKeeps | src/HtmlParser/Selector.php:41 | collapsing keeps every non-whitespace character, in order |
| Selectors.CollapseFixed | src/HtmlParser/Selector.php:41 | text that is already single-spaced is left as it is |
| Selectors.NormalizeKeeps | src/HtmlParser/Selector.php:39-41 | normalising keeps the lower-cased characters that items are made of |
| Selectors.Tokens | src/HtmlParser/Selector.php:43 | every match of the item pattern is at most one separator followed by a non-empty run of kept characters |
| Selectors.TokensKeep | src/HtmlParser/Selector.php:43 | nothing is lost: the captured groups spell out exactly the kept characters |
| Selectors.TokensCons | src/HtmlParser/Selector.php:43 | a token followed by a separator or the end is matched whole |
| Selectors.TokensConcat | src/HtmlParser/Selector.php:43 | tokens written one after the other, each after the first starting with its separator, are matched back one by one |
| Selectors.TokensEmpty | src/HtmlParser/Selector.php:43 | there are no matches exactly when no character is kept |
| Selectors.Chain | src/HtmlParser/Selector.php:45-76 | the loop fails only with "Error parsing selector code", and yields null exactly when there are no items |
| Selectors.ChainFails | src/HtmlParser/Selector.php:56-58 | an item without pieces anywhere in the list aborts the whole chain with that message |
| Selectors.StageFails | src/HtmlParser/Selector.php:52-58 | an item throws exactly when its trimmed text holds nothing but `.`, `#` and `@` |
| Selectors.NullExactlyWhenBlank | src/HtmlParser/Selector.php:37-77 | fromCss, as written and corrected, returns null exactly when the code holds only whitespace and `>` |
| Selectors.BlankCode | src/HtmlParser/Selector.php:37-43 | the normalised code keeps no item character exactly when it holds only whitespace and `>` |
| Selectors.ChildMarksAsWrittenKeeps | src/HtmlParser/Selector.php:40 | the `>` rewrite as written only drops whitespace: every other character survives, in order |
| Selectors.NormalizeAsWrittenKeeps | src/HtmlParser/Selector.php:39-41 | normalising as written keeps the lower-cased characters that items are made of |
| Selectors.CompileCss | src/HtmlParser/Selector.php:37-77 | the loop over the reversed items and their pieces, after the rewrite of the code, computes fromCss as written: the stages, their depths, or the parse error |
| Selectors.RoundTrip | src/HtmlParser/Selector.php:37-77 | the selector text written for a spellable chain compiles back to that chain, with the `>` rewrite as written or corrected |
| Selectors.SpacingAsWritten | src/HtmlParser/Selector.php:40 | as written, `a >  b` becomes `a> b`: one space stays after `>` |
| Selectors.SpacingCorrected | src/HtmlParser/Selector.php:40 | corrected, `a >  b` becomes `a>b` |
| Selectors.SpacingItemsAsWritten | src/HtmlParser/Selector.php:43 | `a> b` is cut into `a` and ` b`, losing the child mark |
| Selectors.SpacingItemsCorrected | src/HtmlParser/Selector.php:43 | `a>b` is cut into `a` and `>b` |
| Selectors.ChildMarkSpacing | src/HtmlParser/Selector.php:40-49 | with two spaces after `>`, fromCss as written makes the second stage a descendant stage (depth -1); corrected it is a child stage (depth 1) |
| LegacySplitter.LeadingText | src/Parser.php:66-72 | the text before the next `<` is pushed at most once, only when it is truthy, and untrimmed it is pushed as read |
| LegacySplitter.MarkupStep | src/Parser.php:74-97 | the markup chunks read after the text glue back to exactly the input they consumed, and the reader always advances |
| LegacySplitter.LegacyStep | src/Parser.php:64-98 | one iteration advances the reader and, untrimmed, its chunks glue back to what it read unless the text was "0"; without a further `<` it reads to the end and pushes an empty last chunk |
| LegacySplitter.LegacySplitLossless | src/Parser.php:59-99 | untrimmed, the chunks from position p concatenate back to the rest of the document exactly when `!LegacyDropsZero(s, p)`: no text chunk equal to the falsy "0" is dropped |
| LegacySplitter.TrailingTextPushesEmpty | src/Parser.php:64-98 | a document ending in text yields an empty last chunk: "a" splits into "a" and "" |
| LegacySplitter.LegacyAdvance | src/Parser.php:66-97 | one pass of the loop body moves the reader exactly as the step function says and pushes its chunks |
| LegacySplitter.LegacySplitTokens | src/Parser.php:59-99 | the loop over the Reader produces exactly the chunk list LegacySplit describes |
| LegacyAttrs.UnquotedMatch | src/HtmlParser/Node.php:195 | the unquoted pattern matches `name=value` with a value of unquoted-value characters, exactly when `=` follows the name |
| LegacyAttrs.QuotedMatch | src/HtmlParser/Node.php:195 | a quoted pattern matches `name="value"` (or with `'`) where the value holds no closing quote |
| LegacyAttrs.PassMatchShape | src/HtmlParser/Node.php:195 | a match spells a non-empty name and the value its pattern allows; only the bare pattern captures no value, and it matches wherever a name character stands |
| LegacyAttrs.AttrOf | src/HtmlParser/Node.php:205 | the stored key is lowercase |
| LegacyAttrs.ScanProps | src/HtmlParser/Node.php:201-211 | one pattern stores lowercase keys, null values only for the bare pattern, and after the bare pattern no name character is left |
| LegacyAttrs.PutAllLookup | src/HtmlParser/Node.php:203-207 | a later match overwrites an earlier one under the same key |
| LegacyAttrs.PutAllKeys | src/HtmlParser/Node.php:203-207 | keys stay distinct, and are those before plus those added |
| LegacyAttrs.RunPassesProps | src/HtmlParser/Node.php:199-212 | after the passes keys are lowercase and distinct; after the bare pass no name character remains |
| LegacyAttrs.ParseAtts | src/HtmlParser/Node.php:197-213 | parsed keys are lowercase and distinct, and the leftover holds no character that could start a name |
| LegacyAttrs.QuotedWhole | src/HtmlParser/Node.php:195 | the double-quoted pattern matches all of `name="value"` |
| LegacyAttrs.ParseQuoted | src/HtmlParser/Node.php:197-213 | `name="value"` alone gives that one attribute, its name lowercased, and no leftover |
| LegacyAttrs.ScanNoEquals | src/HtmlParser/Node.php:195 | the patterns that need `=` find nothing in text without one |
| LegacyAttrs.NoEqualsFirstPasses | src/HtmlParser/Node.php:199-212 | on text without `=` only the bare pass matters |
| LegacyAttrs.ParseBare | src/HtmlParser/Node.php:197-213 | a bare name alone is stored with a null value, so it is present but not isset |
| LegacyAttrs.BareWhole | src/HtmlParser/Node.php:195 | the bare pattern takes a whole name as one match |
| LegacyAttrs.ScanPass | src/HtmlParser/Node.php:201-211 | one pattern's loop stores every match left to right and keeps the text between matches |
| LegacyAttrs.ParseRawAttributes | src/HtmlParser/Node.php:197-213 | the four patterns in turn, then the trim, compute the specified attributes and leftover |
| LegacyAttrs.SplitOut | src/HtmlParser/Node.php:215-224 | an isset attribute is exploded on spaces and unset; every other key keeps its value |
| LegacyAttrs.SplitIdClass | src/HtmlParser/Node.php:215-224 | after the split there is no id or class attribute, the ids and classes are the exploded values, and every other attribute is unchanged |
| LegacyAttrs.NodeTagData | src/HtmlParser/Node.php:25-39 | a truthy raw text is parsed and split into id, class and attributes, with a leftover free of name characters; otherwise nothing is parsed |
| LegacyAttrs.NodeAttString | src/HtmlParser/Node.php:356-382 | the attribute text is the newer att2str's, followed by the truthy leftover raw text after a space |
| LegacyAttrs.RemoveFirstClass | src/HtmlParser/Node.php:106-112 | removeClass takes exactly one occurrence out of the class multiset and leaves the class present only when it was there twice |
| LegacyAttrs.RemoveFirstClassProps | src/HtmlParser/Node.php:98-112 | with distinct classes the older removeClass is the newer one; removing a class just added restores the tag; classes [c, c] keep c after one removal |
| LegacyNode.LeafChildless | src/HtmlParser/Node.php:33-34 | in an older document only the root and the tags hold children |
| LegacyNode.AddChild | src/HtmlParser/Node.php:41-49 | addChild fails exactly on a text or comment, which has no collection |
| LegacyNode.AddChildIsLink | src/HtmlParser/Node.php:41-49 | on a container, addChild is the link of n at the end of p's list |
| LegacyNode.AddChildLinks | src/HtmlParser/Node.php:41-49 | a parentless node that is not above p is appended to p's list, points at p, and the document stays valid |
| LegacyNode.AddChildKeepsOldList | src/HtmlParser/Node.php:41-49 | a node still listed by another parent stays in that list, so addChild leaves the document invalid |
| LegacyNode.EachAt | src/HtmlParser/NodeCollection.php:128-142 | each visits a node first, then what it visits below |
| LegacyNode.EachAsWrittenAll | src/HtmlParser/NodeCollection.php:128-142 | with a level not above 0, each visits every node of the listed subtrees, in document order |
| LegacyNode.EachAtAll | src/HtmlParser/NodeCollection.php:128-142 | below one node, each with a negative level visits its subtree in document order |
| LegacyNode.Each | src/HtmlParser/NodeCollection.php:128-142 | the corrected each visits only the listed nodes at level 1, and every listed subtree in document order at a level not above 0 |
| LegacyNode.EachTwoLevels | src/HtmlParser/NodeCollection.php:128-142 | on a chain a, b, c at level 2, each as written reaches the grandchild c while the corrected each does not |
| LegacyNode.FindListHasList | src/HtmlParser/NodeCollection.php:111-126 | the older find descends into the root and the tags, which is the newer find's corrected descent |
| LegacyNode.AddChildrenAsWritten | src/HtmlParser/Node.php:51-61 | addChildren fails exactly on a text or comment |
| LegacyNode.AddChildrenReparents | src/HtmlParser/Node.php:51-61 | as written, the children of a listed node are pointed at p while that node still lists them, so the document is no longer valid |
| LegacyNode.AddChildren | src/HtmlParser/Node.php:51-61 | the corrected addChildren fails exactly on a text or comment |
| LegacyNode.AddChildrenValid | src/HtmlParser/Node.php:51-61 | the corrected addChildren on parentless nodes appends them in order, points them at p and keeps the document valid |
| LegacyNode.AddChildrenLeaves | src/HtmlParser/Node.php:51-61 | when the listed nodes hold no children, addChildren as written is the corrected one |
| LegacyNode.ClearChildren | src/HtmlParser/Node.php:63-69 | clearChildren fails exactly on a text or comment |
| LegacyNode.ClearThenAdd | src/HtmlParser/Node.php:51-69 | clearing a list and adding the same nodes back with the corrected addChildren gives the document back |
| LegacyNode.SetTag | src/HtmlParser/Node.php:169-173 | setTag renames a tag and leaves every other node, and any non-tag, unchanged |
| LegacyNode.SetClosing | src/HtmlParser/Node.php:180-185 | setClosing changes only the closing of a tag and fails on every other node, the root included |
| LegacyNode.SetTagValid | src/HtmlParser/Node.php:169-173 | renaming keeps the document valid and every subtree's preorder |
| LegacyNode.SetClosingValid | src/HtmlParser/Node.php:180-185 | re-closing keeps the document valid and every subtree's preorder |
| LegacyNode.FindParent | src/HtmlParser/Node.php:240-251 | a node findParent returns is a document node that passes the test |
| LegacyNode.FindParentFirst | src/HtmlParser/Node.php:240-251 | findParent returns the first passing node among the first levels nodes above n (all of them for a negative level), or null |
| LegacyNode.Detach | src/HtmlParser/Node.php:306-311 | detach leaves n without a parent |
| LegacyNode.ParentHasList | src/HtmlParser/Node.php:306-311 | a node with a parent sits in the list of a tag or the root, so detach can reach it |
| LegacyNode.DetachIsUnlink | src/HtmlParser/Node.php:306-311 | on an older document detach is the unlink of n and keeps the document valid |
| LegacyNode.AssignWalk | src/HtmlParser/NodeCollection.php:66-84 | replaceNodeWith with one node puts it at every index where the list held the old node, and changes nothing else |
| LegacyNode.AssignWalkAt | src/HtmlParser/NodeCollection.php:66-84 | on a list without repeats that is the splice of the old node's one slot |
| LegacyNode.ReplaceWithAsWritten | src/HtmlParser/Node.php:298-304 | replaceWith leaves n without a parent |
| LegacyNode.ReplaceWithStale | src/HtmlParser/Node.php:298-304 | as written, replaceWith differs from the newer replaceWith only in the new node's parent, which it never sets: a parentless replacement leaves the document invalid |
| LegacyNode.ReplaceWithChildrenAsWritten | src/HtmlParser/Node.php:290-296 | replaceWithChildren leaves n without a parent |
| LegacyNode.ReplaceWithChildrenStale | src/HtmlParser/Node.php:290-296 | as written, n's children take its slot in the parent's list, but they still point at n, which still lists them: with any child the document is invalid |
| LegacyNode.NodeFind | src/HtmlParser/Node.php:228-232 | Node.find is null exactly on texts and comments, and otherwise returns document nodes that pass |
| LegacyNode.NodeFindAll | src/HtmlParser/Node.php:228-232 | with a level not above 0 find returns the passing descendants in document order; with level 1 the passing children |
| LegacyNode.LegacyHtmlIsHtml | src/HtmlParser/Node.php:384-437 | on a tree without leftover raw attributes whose open tags are childless, the older getHtml is the newer one |
| LegacyCollection.FindEachBelow | src/HtmlParser/NodeCollection.php:111-126 | find's loop over a node's list of children is the descent below that node |
| LegacyCollection.NodeFindIsBelow | src/HtmlParser/Node.php:228-232 | Node.find on a node of the loop is the descent below it at the level find passes on |
| LegacyCollection.FindAtStep | src/HtmlParser/NodeCollection.php:116-124 | one step of find's loop: the node if it passes, then Node.find below it while the level allows |
| LegacyCollection.FindEachSplit | src/HtmlParser/NodeCollection.php:116-124 | after one more node, what the loop found there joins what it had |
| LegacyCollection.EachEachSplit | src/HtmlParser/NodeCollection.php:133-140 | each's loop after one more node |
| LegacyCollection.EachAtStep | src/HtmlParser/NodeCollection.php:133-140 | one step of each's loop: the node, then Node.each below it while the level allows |
| LegacyCollection.FindListEnds | src/HtmlParser/NodeCollection.php:111-126 | with a level not above 0 find returns the passing nodes of the listed subtrees in document order; with level 1 the passing listed nodes |
| LegacyCollection.NodeSelect | src/HtmlParser/Node.php:234-238 | Node.select is null exactly on texts and comments |
| LegacyCollection.NodeSelectMatches | src/HtmlParser/NodeCollection.php:86-109 | Node.select returns only tags that match the tag, ids and classes read off the selector; with a level not above 0, every such descendant in document order |
| LegacyCollection.NodeCollection.constructor | src/HtmlParser/NodeCollection.php:9-17 | an array is taken as the list, null gives an empty list, a node a list of one |
| LegacyCollection.NodeCollection.Add | src/HtmlParser/NodeCollection.php:21-25 | add appends one node |
| LegacyCollection.NodeCollection.AddRange | src/HtmlParser/NodeCollection.php:27-31 | addRange appends the other list |
| LegacyCollection.NodeCollection.Clear | src/HtmlParser/NodeCollection.php:33-37 | clear empties the list |
| LegacyCollection.NodeCollection.Count | src/HtmlParser/NodeCollection.php:39-42 | getCount is the number of listed nodes |
| LegacyCollection.NodeCollection.Remove | src/HtmlParser/NodeCollection.php:44-54 | remove splices at the copy's index of every entry with x's uid; on a list without repeats x is dropped and the rest keep their order |
| LegacyCollection.NodeCollection.First | src/HtmlParser/NodeCollection.php:56-59 | the first node, or null on an empty list |
| LegacyCollection.NodeCollection.Nth | src/HtmlParser/NodeCollection.php:61-64 | node i, or null when there is none |
| LegacyCollection.NodeCollection.ReplaceNodeWith | src/HtmlParser/NodeCollection.php:66-84 | the replacement goes at every index of the copy holding the old node; with the old node listed once, exactly its slot is replaced, by the node or by the collection's nodes in order |
| LegacyCollection.NodeCollection.Find | src/HtmlParser/NodeCollection.php:111-126 | find's loop computes the specified search; with a level not above 0 the passing nodes of the listed subtrees in document order; with level 1 the passing listed nodes |
| LegacyCollection.NodeCollection.Select | src/HtmlParser/NodeCollection.php:86-109 | select is find with Node.match against what the selector names; the results are matching tags |
| LegacyCollection.NodeCollection.Each | src/HtmlParser/NodeCollection.php:128-142 | each applies its function to the nodes of the as-written visit order; with a level not above 0, every node of the listed subtrees in document order |
| LegacyCollection.NodeCollection.Rewind | src/HtmlParser/NodeCollection.php:146-148 | rewind moves the position to 0 |
| LegacyCollection.NodeCollection.Current | src/HtmlParser/NodeCollection.php:150-152 | current is the node at the position, null past the end |
| LegacyCollection.NodeCollection.Key | src/HtmlParser/NodeCollection.php:154-156 | key is the position |
| LegacyCollection.NodeCollection.Next | src/HtmlParser/NodeCollection.php:158-160 | next advances the position by one |
| LegacyCollection.NodeCollection.IsValid | src/HtmlParser/NodeCollection.php:162-165 | valid holds exactly while a node sits at the position |
| LegacyCollection.NodeCollection.Walk | src/HtmlParser/NodeCollection.php:146-165 | iterating from rewind hands out the whole list in order and stops at its end |
| LegacySelect.NodeMatch | src/HtmlParser/Node.php:259-267 | only tags match; `*` matches every tag; otherwise a truthy name must equal the tag and every asked-for id and class must be present, and those conditions suffice |
| LegacySelect.MatchAgrees | src/HtmlParser/Node.php:259-267 | apart from the root, the older match and the newer Selector.match agree for every name that is not a newer wildcard |
| LegacySelect.MarkedScan | src/HtmlParser/NodeCollection.php:88-100 | scanning marked pieces adds them, in order, to the ids or the classes |
| LegacySelect.SelectRoundTrip | src/HtmlParser/NodeCollection.php:88-100 | a selector spelled from a tag, ids and classes scans back to them |
| LegacySelect.ParseSelectSpell | src/HtmlParser/NodeCollection.php:86-100 | with lowercase pieces, select's reading of the spelled selector gives back the tag, ids and classes |
| LegacySelect.TagOnlyFirst | src/HtmlParser/NodeCollection.php:88-100 | text that starts with a mark never changes the tag |
| LegacyBuild.LegacyElemOf | src/Parser.php:149-174 | a text or comment token makes that node; an opening tag an open tag of that name, a self-closing one a self-closed tag; without raw attribute text nothing is left over |
| LegacyBuild.LegacyMadeKinds | src/Parser.php:144-205 | the tokens make only tags, texts and comments |
| LegacyBuild.LastIndex | src/Parser.php:180-184 | the index of the last entry with the name, and none when no entry has it |
| LegacyBuild.CloseNames | src/Parser.php:176-203 | after a close tag the names before the last open tag with its name stay open, or none when no tag has it; with nothing open only '' names the root, any other name is the fatal error |
| LegacyBuild.OpenNamesStuck | src/Parser.php:176-203 | once a close tag has failed, every longer prefix fails |
| LegacyBuild.FindParentStep | src/HtmlParser/Node.php:240-251 | one level of findParent: the parent if it passes, else the search from the parent |
| LegacyBuild.FindParentOnPath | src/Parser.php:180-184 | from a node of the path below the root, findParent returns the node after the last name match above it, or the root, and null from the root itself |
| LegacyBuild.LegacyOpeningOnPath | src/Parser.php:178-184 | a close tag fails exactly when the stack of open names says so; otherwise it resolves to a node of the path whose predecessors' names are the stack after the close |
| LegacyBuild.RegroupIsFlattened | src/Parser.php:186-189 | getOpenChildren, clearChildren and the corrected addChildren (only the collected nodes change parent) together are the newer builder's flattening of the open elements below the resolved element |
| LegacyBuild.LegacyCloseAtIs | src/Parser.php:192-201 | with the corrected addChildren, closeNodes at the root and setClosing(YES) elsewhere is the newer close step |
| LegacyBuild.OutsideLater | src/Parser.php:176-203 | a node earlier on the path is not in the subtree of a later one |
| LegacyBuild.NamesAfterClose | src/Parser.php:192-201 | closing at a node of the path keeps the names of the nodes above it |
| LegacyBuild.LegacyAddNewIs | src/Parser.php:149-174 | on a fresh node the older addChild is the newer one |
| LegacyBuild.NamesAfterAdd | src/Parser.php:168-174 | adding a node keeps the names along the path, and an opening tag adds its own |
| LegacyBuild.LegacyAddToken | src/Parser.php:149-174 | a text, comment or tag token adds one node as the last child of the current element, exactly as the newer AddToken does, and records its raw attribute text |
| LegacyBuild.LegacyCloseFails | src/Parser.php:178-184 | on the builder's path a close tag fails exactly when the stack of open names does |
| LegacyBuild.LegacyCloseAtIndex | src/Parser.php:176-203 | with the corrected addChildren, once a close tag resolved to the path node at index k, the close step keeps the builder's invariant, moves up to the parent of the closed element (or stays at the root), and leaves the names the stack predicts |
| LegacyBuild.LegacyCloseTag | src/Parser.php:176-203 | a close tag fails exactly when findParent returns null; otherwise it creates no node, keeps the raw attributes and changes no identity |
| LegacyBuild.LegacyBuiltKinds | src/Parser.php:140-209 | the older tree has no CollectionNode |
| LegacyBuild.LegacyStep | src/Parser.php:146-205 | one token: only a close tag can fail, with the null-opening error; any other token adds its node under the current element with its raw attributes |
| LegacyBuild.LegacyAddStep | src/Parser.php:149-174 | the older addChild on a fresh node, with the new current, is the newer AddToken |
| LegacyBuild.FindParentHasList | src/HtmlParser/Node.php:240-251 | in a tree without CollectionNode whatever findParent finds holds children |
| LegacyBuild.LegacyCloseTagAt | src/Parser.php:176-203 | with the corrected addChildren, a close tag resolved to o regroups and closes at o and makes o's parent, or the root itself, current |
| LegacyBuild.LegacyCloseOpens | src/Parser.php:178-184 | on the builder's invariant, findParent fails exactly when the stack of open names does, and otherwise resolves to an index of the open path |
| LegacyBuild.ClosePathNames | src/Parser.php:176-203 | closing at index k of the open path keeps the invariant on the cut path and gives the names the stack predicts |
| LegacyBuild.LegacyClosePops | src/Parser.php:176-203 | with the corrected addChildren, a close tag resolved at index k succeeds with the cut trace, whose invariant holds with the stack's new names |
| LegacyBuild.LegacyAddPushes | src/Parser.php:149-174 | adding a node keeps the invariant and pushes an opening tag's name |
| LegacyBuild.LegacyCloseTrace | src/Parser.php:176-203 | with the corrected addChildren, a close tag fails exactly when the stack fails; otherwise the step's result keeps the invariant |
| LegacyBuild.LegacyAddTrace | src/Parser.php:149-174 | a non-close token's step fails exactly when the stack of open names does, and otherwise keeps the invariant |
| LegacyBuild.LegacyStepTrace | src/Parser.php:146-205 | with the corrected addChildren, any token fails exactly when the stack fails, and otherwise the step's result keeps the invariant |
| LegacyBuild.LegacyTraced | src/Parser.php:142-205 | the corrected loop over a token list fails exactly when the stack of open names does, and otherwise its invariant holds |
| LegacyBuild.LegacyTracedStep | src/Parser.php:146-205 | the loop's state after i + 1 tokens is LegacyStep on its state after i tokens, failing exactly when that step does |
| LegacyBuild.LegacyTracedStuck | src/Parser.php:176-203 | a failure at one token is a failure of the whole token list |
| LegacyBuild.LegacyParse | src/Parser.php:140-209 | the corrected parse fails exactly when the stack fails, and otherwise is a built, linked tree under root 0 (given itself as parent) |
| LegacyBuild.LegacyFinish | src/Parser.php:206-208 | after the corrected loop, the final closeNodes leaves a built tree that holds the tokens' nodes in token order |
| LegacyStale.CollectIsFlat | src/Parser.php:211-227 | getOpenChildren on the lists, with each open tag's children pulled in after it, is the corrected flattening of the open elements below the node |
| LegacyStale.VisitAll | src/HtmlParser/NodeCollection.php:128-140 | each(-1) over a list, walked on the lists, visits exactly the nodes of the listed subtrees in document order |
| LegacyStale.AddChildrenStaleIs | src/HtmlParser/Node.php:51-61 | addChildren walked on the lists is the arena's addChildren as written: every node of the added subtrees points at the new parent |
| LegacyStale.FindUpOnPath | src/HtmlParser/Node.php:240-251 | findParent walked on the parent links gives the same answer as on a linked document wherever the links along the path agree |
| LegacyStale.AwOpening | src/Parser.php:178-185 | the close tag resolves to the current element when its tag matches, else to what findParent returns; null is the fatal error |
| LegacyStale.RegroupStaleIs | src/Parser.php:187-190 | the regroup as written keeps the corrected regroup's kinds and lists and points every node strictly below the resolved element at it, leaving every other link |
| LegacyStale.CloseNodesStaleIs | src/Parser.php:229-240 | closeNodes on the lists closes the same tags as on a linked document and keeps every link |
| LegacyStale.AwCloseAt | src/Parser.php:187-202 | the close step at the resolved element fails exactly on a text or comment (clearChildren throws) and otherwise keeps the store's nodes |
| LegacyStale.AwCloseAtStale | src/Parser.php:187-202 | the close step as written succeeds with the corrected step's kinds and lists, and its links differ only below the closed element, which all point at it |
| LegacyStale.AwAddToken | src/Parser.php:150-174 | a text, comment or tag token adds a node under the current element with current as parent, fails exactly when current holds no list, and records the raw attribute text |
| LegacyStale.AwCloseTag | src/Parser.php:176-203 | a close tag keeps the nodes, the counter and the raw attributes |
| LegacyStale.AwStart | src/HtmlParser/Node.php:116-119 | the root, alone and current, with no parent |
| LegacyStale.OpeningAgrees | src/Parser.php:178-185 | where the links along the open path agree, the close tag resolves as in the corrected builder |
| LegacyStale.ClosedShadows | src/Parser.php:176-203 | closing at index k of the open path as written lands beside the corrected trace cut at k |
| LegacyStale.AwCloseShadows | src/Parser.php:176-203 | a close tag as written fails exactly when the corrected one does, with the null-opening error, and otherwise lands beside it |
| LegacyStale.AddedShadows | src/Parser.php:150-174 | any other token as written adds the same node as the corrected builder and lands beside it |
| LegacyStale.AwStepShadows | src/Parser.php:146-205 | one token as written fails exactly when the corrected step does, and otherwise keeps the same current node, counter, raw attributes, kinds and lists, and the same links along the open path |
| LegacyStale.AwLoopShadows | src/Parser.php:146-206 | the loop as written over any tokens fails exactly when the corrected loop does and otherwise lands beside it |
| LegacyStale.AwParseIs | src/Parser.php:140-209 | buildTree as written fails exactly when the stack of open names does, with the fatal error; otherwise its tree has the corrected tree's root, raw attributes, kinds and lists, and the root has no parent |
| LegacyStale.AwLoopStuck | src/Parser.php:146-206 | once a token fails, the loop fails with that error |
| LegacyStale.LegacyBuildTree | src/Parser.php:140-209 | buildTree token by token is the loop as written followed by closeNodes: it fails exactly when the stack of open names does; otherwise its tree has the corrected tree's kinds and lists under a root without a parent |
| LegacyStale.AddStepIs | src/Parser.php:150-174 | a non-close token appends the new node to current's list and points it at current, moving current to it for an opening tag |
| LegacyStale.CloseStepIs | src/Parser.php:193-202 | a close tag resolved to an element other than the root makes that element's parent current |
| LegacyStale.OuterRegroup | src/Parser.php:187-190 | closing a after `<a><b>x</b>`: b stays listed by a and x by b, yet x points at a |
| LegacyStale.NestedLoop | src/Parser.php:146-206 | the loop as written over `<a><b>x</b></a>` succeeds with b listing x and x pointing at a |
| LegacyStale.NestedStale | src/Parser.php:187-190 | buildTree as written on `<a><b>x</b></a>` gives a tree whose links do not match its lists, while the corrected tree on the same tokens is linked |

## Left out

- Node identities: the newer `AbstractNode` uid (a sha1 of the object hash and `uniqid`) and the older `Uid` class are replaced by arena keys handed out in creation order; the `Uid` class is not part of this model.
- Timing, `echo`/debug output and the debug dumps (`parse(&$times)`, `debugTree`, `printDebug`, `printIds`, `printClasses`) are I/O and are left out.
- `getInfo` and `getChildrenInfo` build diagnostic arrays only and are left out.
- The newer parser's `trimText` flag and `voidTags` list are set but never read by the modelled code, so they are left out; the older splitter's `trimText` flag is a parameter.
- PHP's loose `==` and `!=` on strings (numeric strings such as "1" and "01" comparing equal), used for tag names in `buildTree` (src/HtmlParser/Parser.php:169, src/Parser.php:181) and in `match` (src/HtmlParser/Selector.php:112), and the non-strict `in_array` and `array_search` of the older `hasClass`, `addClass` and `removeClass` (src/HtmlParser/Node.php:95,100,108), are modelled as plain string equality.
- PHP strings are byte strings; the model's strings are sequences of characters, so multi-byte text is not distinguished from its bytes and `strtolower` is modelled on ASCII letters only.
- PHP arrays turn numeric-string keys (an attribute named "1") into integer keys; attribute maps are modelled with string keys throughout, which changes nothing the modelled operations observe but their key type.
- `addChild`, `addChildren` and `insertAt` as written call `detach()` on every node, which fails on a node without a parent; the model's builder and edits use the guarded detach (only an attached node is detached), recorded under Findings.
- `buildTree` on a close tag that does not match the current element calls `parent($name)`, which reaches the undefined `Selector::build`; the model resolves it with `Build.ParentNamed`, the nearest ancestor with that name, recorded under Findings.
- `is_callable` and `call_user_func`: a callable is a Dafny function `Elem -> bool`; callbacks with side effects are not modelled.
- Selector text given to `NodesArray.find` and `AbstractNode.parent` reaches `Selector::build`, which `Selector.php` does not define; the model compiles such text with `create`, except for the close-tag lookup of `buildTree`, recorded under Findings.
- `addClass`, `removeClass`, `addId` and `removeId` end with `return this`, an undefined constant; their return value is not modelled, only their effect on the element.
- `Node.append` and `Node.getChildPosition` of the older generation index the `NodeCollection` object as an array, which PHP rejects; they are not modelled.
- `NodesArray.wrap` and `NodesArray.detach` are loops of the single-node `wrap` and `detach`; `detach` is modelled as `Moves.DetachAll`, `wrap` only through the single-node `Replace.Wrap`.
- Nodes are values in a map: object identity, aliasing and the PHP reference semantics of `$this->nodes` are captured only through the node identities.
- The older root's null tag is modelled as the root kind `RootE(RootData())`, whose name compares like `''`.
- `NodeCollection.each`'s callback is modelled as the sequence of nodes it is applied to, in order; only `Node.addChildren`'s callback (which sets the parent) is modelled as an effect.
- `NodeCollection.current` past the end returns null with a notice in PHP; the model returns `None`.
- LegacySplitter.LegacyStep: the chunks glue back to the input only when the text before `<` is not the falsy string "0", which `if($data)` drops.
- Query.Find: states that every result is a document node passing the callable or matching the chain's last stage, not the exact result list; the exact list is stated for callables by `Query.FindListAll` and `Query.FindListShallow`, not for chained selectors.
- Query.Matches: states the wildcards and necessary conditions; the full equivalence is `Query.PlainMatches`, for plain stages.
- Exceptions (`throw`) and the fatal error of a method called on null are modelled as `Err` results or, where the source calls a method on a value that must exist, as preconditions. Calls to methods or constants the source does not define are not: each has its own line here (`Selector::build`, `return this`, and the two Reader methods under Splitter.SplitTokens).
- Splitter.SplitTokens: the newer splitter calls `readUntilIncluding` and `readUntilExcluding` (src/HtmlParser/Parser.php:78,84-86,92,96), which `Reader` does not define (src/HtmlParser/Reader.php:21-31); the model reads them as `readUntil(key, true)` and `readUntil(key, false)`, and Splitter.Step and Splitter.Advance do the same, where the source as written stops with a fatal error on the first pass of its loop (so on any non-empty document).
- LegacyBuild.LegacyCloseAtIs, LegacyBuild.LegacyCloseAtIndex, LegacyBuild.LegacyCloseTagAt, LegacyBuild.LegacyClosePops, LegacyBuild.LegacyCloseTrace, LegacyBuild.LegacyStepTrace, LegacyBuild.LegacyTraced and LegacyBuild.LegacyFinish describe the builder with the corrected `addChildren`, in which only the collected nodes change parent; the builder as written is `LegacyStale`, proved to keep their kinds, lists and failures.
- LegacyBuild.LegacyCloseAtIs: states the corrected close step, not src/Parser.php:189-190 as written, whose `each(-1)` repoints the whole subtrees (`LegacyStale.AwCloseAtStale`).
- LegacyBuild.LegacyCloseAtIndex: states the corrected close step; the step as written is `LegacyStale.ClosedShadows`.
- LegacyBuild.LegacyCloseTagAt: states the corrected close step; the step as written is `LegacyStale.AwCloseTag`.
- LegacyBuild.LegacyClosePops: states the corrected close step; the step as written is `LegacyStale.ClosedShadows`.
- LegacyBuild.LegacyCloseTrace: states the corrected close step; the step as written is `LegacyStale.AwCloseShadows`.
- LegacyBuild.LegacyStepTrace: states the corrected step; the step as written is `LegacyStale.AwStepShadows`.
- LegacyBuild.LegacyTraced: states the corrected loop; the loop as written is `LegacyStale.AwLoopShadows`.
- LegacyBuild.LegacyCloseTag: its body is the corrected close step; what it states (failure exactly when findParent returns null, no node created, raw attributes kept) holds of the step as written too (`LegacyStale.AwCloseShadows`).
- LegacyBuild.LegacyStep: its body is the corrected step; what it states holds of the step as written too (`LegacyStale.AwStepShadows`, `LegacyStale.AddStepIs`).
- LegacyBuild.LegacyFinish: states the corrected tree; the tree as written is `LegacyStale.AwParseIs`.
- LegacyBuild.LegacyParse: states the corrected tree, which is linked and whose root is its own parent so that it meets the newer generation's validity; the tree as written (`LegacyStale.AwParseIs`) has the same kinds and lists, a root without a parent (`Node::new_Root`, src/HtmlParser/Node.php:116-119) and stale links below closed elements (`LegacyStale.NestedStale`).
- LegacyStale.AwCloseTag: a closed element always has a parent on the builder's path; were it missing, current would stay at the element rather than become null.
- LegacyStale.Collect: the walks of `getOpenChildren`, `each` and `findParent` carry the set of nodes not yet visited, so they end on any store; on the stores the builder makes, no node is visited twice and the bound never cuts a walk short.

## Findings

| source | as written | input that shows it | evidently intended | confidence | as-written member | corrected member |
|---|---|---|---|---|---|---|
| src/HtmlParser/Elements/ChildrenNode.php:59-65 | `addChild` calls `detach()` on every node, and `detach` calls `removeChild` on a null parent for a node that has none | any freshly created node, e.g. the first text of a document | detach only an attached node | not executed | TreeOps.AddChildAsWritten | TreeOps.AddChild |
| src/HtmlParser/Elements/AbstractNode.php:93-99 | `wrap` calls `replaceWith`, which clears the node's parent, then `addChild`, which detaches the now parentless node | wrapping any node of a parsed document but the root | move the node under the new wrapper | not executed | Replace.WrapAsWrittenFails | Replace.WrapSpec |
| src/HtmlParser/Parser.php:168-170 | a close tag whose name differs from the current element calls `parent($name)`, which reaches the undefined `Selector::build` | `<div><p></div>` | the nearest open ancestor with that name, or the root | not executed | Build.ParentNamedAsWritten | Build.ParentNamed |
| src/HtmlParser/Elements/NodesArray.php:84-86 | `find` descends only into `CollectionNode`, which `TagNode` and `RootNode` do not extend | root, div, p nested: `find` on the root's children misses p | descend into every container | not executed | Query.FindAsWrittenShallow | Query.FindListAll |
| src/HtmlParser/Elements/CollectionNode.php:86-93 | `removeChild` walks a copy and splices the live list at the copy's index | list [x, x, y], remove x: yields [x] | every entry equal to x is removed: [y] | not executed | TreeOps.CollRemoveAsWrittenDrops | TreeOps.Without |
| src/HtmlParser/Elements/ChildrenNode.php:125-137 | `beforeChild`/`afterChild` take c's index before `insertAt` removes the new nodes from the list | children [a, b, c], `beforeChild(c, a)`: yields [b, c, a] | [b, a, c] | not executed | Replace.BeforeChildShifts | Replace.InsertBeforeKeepsPlace |
| src/HtmlParser/Selector.php:40 | the rewrite `\s*>\s` removes one whitespace character after `>` | `a >  b`: the second stage loses its `>` and gets depth -1 | `\s*>\s*`: depth 1 | not executed | Selectors.ChildMarkSpacing | Selectors.RoundTrip |
| src/HtmlParser/Node.php:51-61 | `addChildren` calls `each` with level -1, which points every descendant of the added nodes at the new parent | adding a node a that has a child x: x points at the new parent while a still lists it | only the listed nodes change parent | not executed | LegacyNode.AddChildrenReparents | LegacyNode.AddChildrenValid |
| src/HtmlParser/NodeCollection.php:128-142 | `each` decrements the level and `Node.each` passes `levels - 1`, so each level below the first costs two | chain a, b, c at level 2: the grandchild c is visited | one level per generation, as `find` does | not executed | LegacyNode.EachTwoLevels | LegacyNode.Each |
| src/HtmlParser/Node.php:298-304 | `replaceWith` lists the new node in the parent but never points it at the parent | replacing with a parentless node | the new node's parent is the old node's parent | not executed | LegacyNode.ReplaceWithStale | Replace.ReplaceWithValid |
| src/HtmlParser/Node.php:290-296 | `replaceWithChildren` splices the children into the parent's list but leaves them pointing at the node, which still lists them | any node with a child | the children move to the parent | not executed | LegacyNode.ReplaceWithChildrenStale | Replace.ReplaceWithChildrenSpec |
| src/Parser.php:187-190 | the close step hands getOpenChildren's nodes to `addChildren`, whose `each(-1)` points every node of their subtrees at the closing element | `<a><b>x</b></a>`: b lists x while x points at a | only the regrouped nodes point at the closing element; their own children keep their parent | not executed | LegacyStale.NestedStale | LegacyBuild.LegacyParse |

/**
 * Selection in the older generation: Node.match, which tests one node
 * against a tag name, ids and classes, and the selector text that
 * NodeCollection.select cuts into those three parts.
 */
module LegacySelect {
  import opened Prelude
  import opened Elements
  import opened Dom
  import opened Selectors
  import opened Query

  // ------------------------------------------------------------------ match

  /**
   * Node.match: only tag nodes match (the root is not one); `*` matches
   * any tag; otherwise a truthy name must equal the tag, and every id and
   * every class asked for must be present.
   */
  function NodeMatch(e: Elem, tag: string, ids: seq<string>, classes: seq<string>): (r: bool)
    ensures r ==> e.TagE?
    ensures tag == "*" ==> (r <==> e.TagE?)
    ensures r && tag != "*" ==> HasAll(e.data.ids, ids) && HasAll(e.data.classes, classes)
    ensures r && tag != "*" && Truthy(tag) ==> e.data.tag == tag
    ensures (e.TagE? && (!Truthy(tag) || tag == e.data.tag) && HasAll(e.data.ids, ids)
             && HasAll(e.data.classes, classes)) ==> r
  {
    if !e.TagE? then false
    else if tag == "*" then true
    else if Truthy(tag) && tag != e.data.tag then false
    else if |ids| > 0 && !HasAll(e.data.ids, ids) then false
    else if |classes| > 0 && !HasAll(e.data.classes, classes) then false
    else true
  }

  /**
   * On everything but the root the older match and the newer Selector.match
   * agree for any name that is not one of the newer wildcards `**`, `$`
   * and `%`; the root, a TagNode in the newer generation, never matches
   * here.
   */
  lemma MatchAgrees(e: Elem, tag: string, ids: seq<string>, classes: seq<string>, depth: int, next: Option<Selector>)
    requires tag != "**" && tag != "$" && tag != "%"
    ensures !e.RootE? ==> NodeMatch(e, tag, ids, classes) == Matches(Selector(Some(tag), classes, ids, depth, next), e)
    ensures e.RootE? ==> !NodeMatch(e, tag, ids, classes)
  {
  }

  // ---------------------------------------------------------- select text

  /** The wanted tag (empty for any), ids and classes. */
  datatype Wanted = Wanted(tag: string, ids: seq<string>, classes: seq<string>)

  predicate IsMark(c: char) {
    c == '.' || c == '#'
  }

  predicate NotMark(c: char) {
    !IsMark(c)
  }

  predicate NoMarks(s: string) {
    forall i :: 0 <= i < |s| ==> NotMark(s[i])
  }

  /** One `.x` or `#x` piece. */
  function AddPiece(w: Wanted, m: char, x: string): Wanted {
    if m == '.' then w.(classes := w.classes + [x]) else w.(ids := w.ids + [x])
  }

  /**
   * The matches of `[.#]?([^.#]+)` from the left: a mark followed by a run
   * of other characters adds an id or a class; a run without a mark names
   * the tag, replacing any earlier one; a mark not followed by a run
   * matches nothing.
   */
  function SelectScan(s: string, w: Wanted): Wanted
    decreases |s|
  {
    if |s| == 0 then w
    else if IsMark(s[0]) then
      if |s| > 1 && NotMark(s[1]) then
        var e := RunEnd(s, 1, NotMark);
        SelectScan(s[e..], AddPiece(w, s[0], s[1..e]))
      else SelectScan(s[1..], w)
    else
      var e := RunEnd(s, 0, NotMark);
      SelectScan(s[e..], w.(tag := s[..e]))
  }

  /** NodeCollection.select's reading of the selector: lowercased, then scanned. */
  function ParseSelect(sel: string): Wanted {
    SelectScan(Lower(sel), Wanted("", [], []))
  }

  // ------------------------------------------------------------ spelling

  function Marked(m: char, xs: seq<string>): string {
    if |xs| == 0 then "" else [m] + xs[0] + Marked(m, xs[1..])
  }

  /** The selector text for a tag, ids and classes: `tag#id….class…`. */
  function Spell(w: Wanted): string {
    w.tag + Marked('#', w.ids) + Marked('.', w.classes)
  }

  predicate GoodPieces(xs: seq<string>) {
    forall i :: 0 <= i < |xs| ==> |xs[i]| > 0 && NoMarks(xs[i])
  }

  predicate Spellable(w: Wanted) {
    NoMarks(w.tag) && GoodPieces(w.ids) && GoodPieces(w.classes)
  }

  predicate StartsMarkOrEmpty(s: string) {
    |s| == 0 || IsMark(s[0])
  }

  lemma MarkedStarts(m: char, xs: seq<string>, rest: string)
    requires IsMark(m) && StartsMarkOrEmpty(rest)
    ensures StartsMarkOrEmpty(Marked(m, xs) + rest)
  {
    if |xs| > 0 {
      assert (Marked(m, xs) + rest)[0] == m;
    }
  }

  lemma RunEndNoMarks(s: string, k: nat, x: string)
    requires k + |x| <= |s| && s[k..k + |x|] == x && NoMarks(x)
    requires StartsMarkOrEmpty(s[k + |x|..])
    ensures RunEnd(s, k, NotMark) == k + |x|
  {
    assert forall i :: k <= i < k + |x| ==> s[i] == x[i - k];
    if k + |x| < |s| {
      assert s[k + |x|..][0] == s[k + |x|];
    }
  }

  lemma MarkedStep(m: char, x: string, tail: string, w: Wanted)
    requires IsMark(m) && |x| > 0 && NoMarks(x) && StartsMarkOrEmpty(tail)
    ensures SelectScan([m] + x + tail, w) == SelectScan(tail, AddPiece(w, m, x))
  {
    var s := [m] + x + tail;
    assert s[1..1 + |x|] == x && s[1 + |x|..] == tail;
    RunEndNoMarks(s, 1, x);
    assert s[1] == x[0];
  }

  /** The pieces added one by one. */
  function AddAll(w: Wanted, m: char, xs: seq<string>): Wanted
    decreases |xs|
  {
    if |xs| == 0 then w else AddAll(AddPiece(w, m, xs[0]), m, xs[1..])
  }

  lemma {:induction false} AddAllAppends(w: Wanted, m: char, xs: seq<string>)
    ensures AddAll(w, m, xs) == if m == '.' then w.(classes := w.classes + xs) else w.(ids := w.ids + xs)
    decreases |xs|
  {
    if |xs| == 0 {
      assert w.classes + xs == w.classes && w.ids + xs == w.ids;
    } else {
      var w2 := AddPiece(w, m, xs[0]);
      AddAllAppends(w2, m, xs[1..]);
      assert [xs[0]] + xs[1..] == xs;
      if m == '.' {
        assert w2.classes + xs[1..] == w.classes + xs;
      } else {
        assert w2.ids + xs[1..] == w.ids + xs;
      }
    }
  }

  /** Scanning marked pieces adds them, in order, to the ids or the classes. */
  lemma {:induction false} MarkedScan(m: char, xs: seq<string>, rest: string, w: Wanted)
    requires IsMark(m) && GoodPieces(xs) && StartsMarkOrEmpty(rest)
    ensures SelectScan(Marked(m, xs) + rest, w) == SelectScan(rest, AddAll(w, m, xs))
    decreases |xs|
  {
    if |xs| == 0 {
      assert Marked(m, xs) + rest == rest;
    } else {
      var x := xs[0];
      var tail := Marked(m, xs[1..]) + rest;
      MarkedStarts(m, xs[1..], rest);
      assert Marked(m, xs) + rest == [m] + x + tail;
      MarkedStep(m, x, tail, w);
      MarkedScan(m, xs[1..], rest, AddPiece(w, m, x));
    }
  }

  /** A selector spelled from a tag, ids and classes scans back to them. */
  lemma SelectRoundTrip(w: Wanted)
    requires Spellable(w)
    ensures SelectScan(Spell(w), Wanted("", [], [])) == w
  {
    var blank := Wanted("", [], []);
    var cls := Marked('.', w.classes);
    var rest := Marked('#', w.ids) + cls;
    MarkedStarts('.', w.classes, "");
    assert cls + "" == cls;
    MarkedStarts('#', w.ids, cls);
    var w0 := blank.(tag := w.tag);
    if |w.tag| > 0 {
      var s := w.tag + rest;
      assert s[0..|w.tag|] == w.tag && s[|w.tag|..] == rest;
      RunEndNoMarks(s, 0, w.tag);
      assert s[..|w.tag|] == w.tag;
      assert SelectScan(s, blank) == SelectScan(rest, w0);
    } else {
      assert Spell(w) == rest;
      assert w0 == blank;
    }
    assert Spell(w) == w.tag + rest;
    MarkedScan('#', w.ids, cls, w0);
    AddAllAppends(w0, '#', w.ids);
    var w1 := w0.(ids := w.ids);
    assert [] + w.ids == w.ids;
    MarkedScan('.', w.classes, "", w1);
    AddAllAppends(w1, '.', w.classes);
    assert [] + w.classes == w.classes;
  }

  predicate IsLowerStr(s: string) {
    forall i :: 0 <= i < |s| ==> LowerChar(s[i]) == s[i]
  }

  lemma LowerOfLower(s: string)
    requires IsLowerStr(s)
    ensures Lower(s) == s
  {
  }

  lemma {:induction false} MarkedLower(m: char, xs: seq<string>)
    requires IsMark(m) && forall i :: 0 <= i < |xs| ==> IsLowerStr(xs[i])
    ensures IsLowerStr(Marked(m, xs))
  {
    if |xs| > 0 {
      MarkedLower(m, xs[1..]);
      var t := Marked(m, xs[1..]);
      assert Marked(m, xs) == [m] + xs[0] + t;
      forall i | 0 <= i < |Marked(m, xs)|
        ensures LowerChar(Marked(m, xs)[i]) == Marked(m, xs)[i]
      {
        if i == 0 {
        } else if i <= |xs[0]| {
          assert Marked(m, xs)[i] == xs[0][i - 1];
        } else {
          assert Marked(m, xs)[i] == t[i - 1 - |xs[0]|];
        }
      }
    }
  }

  /**
   * select reads back a selector it could have been given: lowercase
   * pieces without marks, spelled as tag, ids, classes.
   */
  lemma ParseSelectSpell(w: Wanted)
    requires Spellable(w) && IsLowerStr(w.tag)
    requires forall i :: 0 <= i < |w.ids| ==> IsLowerStr(w.ids[i])
    requires forall i :: 0 <= i < |w.classes| ==> IsLowerStr(w.classes[i])
    ensures ParseSelect(Spell(w)) == w
  {
    MarkedLower('#', w.ids);
    MarkedLower('.', w.classes);
    var a := Marked('#', w.ids);
    var b := Marked('.', w.classes);
    var s := Spell(w);
    assert s == w.tag + a + b;
    assert IsLowerStr(s) by {
      forall i | 0 <= i < |s|
        ensures LowerChar(s[i]) == s[i]
      {
        if i < |w.tag| {
          assert s[i] == w.tag[i];
        } else if i < |w.tag| + |a| {
          assert s[i] == a[i - |w.tag|];
        } else {
          assert s[i] == b[i - |w.tag| - |a|];
        }
      }
    }
    LowerOfLower(s);
    SelectRoundTrip(w);
  }

  /** Only the text before the first mark can name the tag. */
  lemma {:induction false} TagOnlyFirst(s: string, w: Wanted)
    requires |s| > 0 && IsMark(s[0])
    ensures SelectScan(s, w).tag == w.tag
    decreases |s|
  {
    if |s| > 1 && NotMark(s[1]) {
      var e := RunEnd(s, 1, NotMark);
      var rest := s[e..];
      if |rest| > 0 {
        assert rest[0] == s[e];
        TagOnlyFirst(rest, AddPiece(w, s[0], s[1..e]));
      }
    } else if |s| > 1 {
      TagOnlyFirst(s[1..], w);
    }
  }
}

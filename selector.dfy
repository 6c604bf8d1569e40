/**
 * Selector.fromCss, create and match (newer generation): a CSS-like string
 * is lowercased, normalised around `>` and whitespace, cut into items and
 * each item into pieces; the items become a chain of simple selectors,
 * leftmost first, each carrying the depth find searches it with.
 */
module Selectors {
  import opened Prelude
  import opened Elements
  import opened Dom

  /** A simple selector and the rest of the chain, to its right. */
  datatype Selector = Selector(tag: Option<string>, classes: seq<string>, ids: seq<string>,
                               depth: int, next: Option<Selector>)

  // ---------------------------------------------------------------- scanning

  /** The characters of s that satisfy keep, in order. */
  function Filter(s: string, keep: char -> bool): (r: string)
    ensures |r| <= |s|
    ensures forall k :: 0 <= k < |r| ==> keep(r[k])
  {
    if |s| == 0 then "" else (if keep(s[0]) then [s[0]] else "") + Filter(s[1..], keep)
  }

  lemma FilterCons(c: char, t: string, keep: char -> bool)
    ensures Filter([c] + t, keep) == (if keep(c) then [c] else "") + Filter(t, keep)
  {
    assert ([c] + t)[1..] == t;
  }

  lemma {:induction false} FilterAppend(a: string, b: string, keep: char -> bool)
    ensures Filter(a + b, keep) == Filter(a, keep) + Filter(b, keep)
  {
    if |a| > 0 {
      assert (a + b)[1..] == a[1..] + b;
      FilterAppend(a[1..], b, keep);
    } else {
      assert a + b == b;
    }
  }

  lemma {:induction false} FilterNone(s: string, keep: char -> bool)
    requires forall k :: 0 <= k < |s| ==> !keep(s[k])
    ensures Filter(s, keep) == ""
  {
    if |s| > 0 {
      FilterNone(s[1..], keep);
    }
  }

  lemma {:induction false} FilterAll(s: string, keep: char -> bool)
    requires forall k :: 0 <= k < |s| ==> keep(s[k])
    ensures Filter(s, keep) == s
  {
    if |s| > 0 {
      FilterAll(s[1..], keep);
    }
  }

  predicate NotSpace(c: char) {
    !IsSpace(c)
  }

  /** End of the run of \s characters that starts at i. */
  function SpaceEnd(s: string, i: nat): (j: nat)
    requires i <= |s|
    ensures i <= j <= |s|
    ensures forall k :: i <= k < j ==> IsSpace(s[k])
    ensures j < |s| ==> !IsSpace(s[j])
    ensures j > i ==> IsSpace(s[j - 1])
    decreases |s| - i
  {
    if i < |s| && IsSpace(s[i]) then SpaceEnd(s, i + 1) else i
  }

  /** The pattern \s*>\s matches at i. */
  predicate ChildMarkAt(s: string, i: nat)
    requires i <= |s|
  {
    var j := SpaceEnd(s, i);
    j + 1 < |s| && s[j] == '>' && IsSpace(s[j + 1])
  }

  /** preg_replace('/\s*>\s/', '>', s), scanning from i: one space after `>` is removed. */
  function ChildMarksAsWritten(s: string, i: nat): string
    requires i <= |s|
    decreases |s| - i
  {
    if i == |s| then ""
    else if ChildMarkAt(s, i) then ">" + ChildMarksAsWritten(s, SpaceEnd(s, i) + 2)
    else [s[i]] + ChildMarksAsWritten(s, i + 1)
  }

  /** The pattern \s*> matches at i. */
  predicate GtAt(s: string, i: nat)
    requires i <= |s|
  {
    SpaceEnd(s, i) < |s| && s[SpaceEnd(s, i)] == '>'
  }

  /** From i on, no whitespace character touches a `>`. */
  predicate TightFrom(s: string, i: nat) {
    forall k :: i <= k < |s| && s[k] == '>' ==>
      (k + 1 < |s| ==> !IsSpace(s[k + 1])) && (k > i ==> !IsSpace(s[k - 1]))
  }

  /** No whitespace character touches a `>`. */
  predicate Tight(s: string) {
    TightFrom(s, 0)
  }

  /**
   * The rewrite with the whitespace on both sides of `>` removed
   * (\s*>\s*), which leaves no whitespace next to any `>`.
   */
  function ChildMarks(s: string, i: nat): (r: string)
    requires i <= |s|
    ensures Tight(r)
    ensures i == |s| <==> |r| == 0
    ensures |r| > 0 && r[0] == '>' ==> GtAt(s, i)
    ensures |r| > 0 && IsSpace(r[0]) ==> IsSpace(s[i]) && !GtAt(s, i)
    ensures i < |s| && !IsSpace(s[i]) ==> !IsSpace(r[0])
    decreases |s| - i
  {
    if i == |s| then ""
    else if GtAt(s, i) then ">" + ChildMarks(s, SpaceEnd(s, SpaceEnd(s, i) + 1))
    else
      assert IsSpace(s[i]) ==> SpaceEnd(s, i) == SpaceEnd(s, i + 1);
      [s[i]] + ChildMarks(s, i + 1)
  }

  /** The rewrite only drops whitespace. */
  lemma {:induction false} ChildMarksKeeps(s: string, i: nat)
    requires i <= |s|
    ensures Filter(ChildMarks(s, i), NotSpace) == Filter(s[i..], NotSpace)
    decreases |s| - i
  {
    if i < |s| {
      if GtAt(s, i) {
        var j := SpaceEnd(s, i);
        var k := SpaceEnd(s, j + 1);
        assert ChildMarks(s, i) == ">" + ChildMarks(s, k);
        ChildMarksKeeps(s, k);
        MarkDropsSpaces(s, i, j, k);
        FilterCons('>', ChildMarks(s, k), NotSpace);
      } else {
        assert ChildMarks(s, i) == [s[i]] + ChildMarks(s, i + 1);
        ChildMarksKeeps(s, i + 1);
        FilterCons(s[i], ChildMarks(s, i + 1), NotSpace);
        SuffixCons(s, i);
        FilterCons(s[i], s[i + 1..], NotSpace);
      }
    }
  }

  /** The rewrite as written only drops whitespace too. */
  lemma {:induction false} ChildMarksAsWrittenKeeps(s: string, i: nat)
    requires i <= |s|
    ensures Filter(ChildMarksAsWritten(s, i), NotSpace) == Filter(s[i..], NotSpace)
    decreases |s| - i
  {
    if i < |s| {
      if ChildMarkAt(s, i) {
        var j := SpaceEnd(s, i);
        assert ChildMarksAsWritten(s, i) == ">" + ChildMarksAsWritten(s, j + 2);
        ChildMarksAsWrittenKeeps(s, j + 2);
        MarkAsWrittenDropsSpaces(s, i, j);
        FilterCons('>', ChildMarksAsWritten(s, j + 2), NotSpace);
      } else {
        assert ChildMarksAsWritten(s, i) == [s[i]] + ChildMarksAsWritten(s, i + 1);
        ChildMarksAsWrittenKeeps(s, i + 1);
        FilterCons(s[i], ChildMarksAsWritten(s, i + 1), NotSpace);
        SuffixCons(s, i);
        FilterCons(s[i], s[i + 1..], NotSpace);
      }
    }
  }

  /** A run of whitespace contributes nothing to the filtered text. */
  lemma {:induction false} SkipSpaces(s: string, i: nat, j: nat)
    requires i <= j <= |s| && forall k :: i <= k < j ==> IsSpace(s[k])
    ensures Filter(s[i..], NotSpace) == Filter(s[j..], NotSpace)
    decreases j - i
  {
    if i < j {
      assert s[i..][1..] == s[i + 1..];
      SkipSpaces(s, i + 1, j);
    }
  }

  lemma MarkDropsSpaces(s: string, i: nat, j: nat, k: nat)
    requires i <= j < k <= |s| && j == SpaceEnd(s, i) && s[j] == '>' && k == SpaceEnd(s, j + 1)
    ensures Filter(s[i..], NotSpace) == ">" + Filter(s[k..], NotSpace)
  {
    SkipSpaces(s, i, j);
    assert s[j..][1..] == s[j + 1..];
    SkipSpaces(s, j + 1, k);
  }

  lemma MarkAsWrittenDropsSpaces(s: string, i: nat, j: nat)
    requires i <= j && j + 1 < |s| && j == SpaceEnd(s, i) && s[j] == '>' && IsSpace(s[j + 1])
    ensures Filter(s[i..], NotSpace) == ">" + Filter(s[j + 2..], NotSpace)
  {
    SkipSpaces(s, i, j);
    SuffixCons(s, j);
    FilterCons(s[j], s[j + 1..], NotSpace);
    SkipSpaces(s, j + 1, j + 2);
  }

  /** preg_replace('/\s+/', ' ', s), scanning from i. */
  function Collapse(s: string, i: nat): (r: string)
    requires i <= |s|
    ensures forall k :: 0 <= k < |r| && IsSpace(r[k]) ==> r[k] == ' '
    ensures forall k :: 0 <= k < |r| - 1 && r[k] == ' ' ==> r[k + 1] != ' '
    ensures i == |s| <==> |r| == 0
    ensures |r| > 0 ==> (IsSpace(r[0]) <==> IsSpace(s[i])) && (!IsSpace(s[i]) ==> r[0] == s[i])
    ensures TightFrom(s, i) ==> Tight(r)
    decreases |s| - i
  {
    if i == |s| then ""
    else if IsSpace(s[i]) then
      var j := SpaceEnd(s, i);
      assert j < |s| ==> s[j - 1] == s[j - 1] && IsSpace(s[j - 1]);
      " " + Collapse(s, j)
    else [s[i]] + Collapse(s, i + 1)
  }

  /** Collapsing only rewrites whitespace. */
  lemma {:induction false} CollapseKeeps(s: string, i: nat)
    requires i <= |s|
    ensures Filter(Collapse(s, i), NotSpace) == Filter(s[i..], NotSpace)
    decreases |s| - i
  {
    if i < |s| {
      if IsSpace(s[i]) {
        var j := SpaceEnd(s, i);
        CollapseKeeps(s, j);
        SkipSpaces(s, i, j);
      } else {
        CollapseKeeps(s, i + 1);
        assert s[i..][1..] == s[i + 1..];
      }
    }
  }

  // -------------------------------------------------------------- tokenizing

  /**
   * One match of `([^keep]?[keep]+)`: at most one separator, then a
   * non-empty run of kept characters.
   */
  predicate Token(t: string, keep: char -> bool) {
    && |t| > 0
    && (forall k :: 0 < k < |t| ==> keep(t[k]))
    && (keep(t[0]) || |t| > 1)
  }

  /** The token without its separator: the captured group. */
  function Body(t: string, keep: char -> bool): string {
    if |t| > 0 && !keep(t[0]) then t[1..] else t
  }

  function Bodies(ts: seq<string>, keep: char -> bool): (r: seq<string>)
    ensures |r| == |ts|
  {
    if |ts| == 0 then [] else [Body(ts[0], keep)] + Bodies(ts[1..], keep)
  }

  /**
   * preg_match_all with `([^keep]?[keep]+)`, leftmost first: a run of kept
   * characters, with the separator just before it when there is one; a
   * separator not followed by a kept character matches nothing.
   */
  function Tokens(s: string, keep: char -> bool): (r: seq<string>)
    ensures forall k :: 0 <= k < |r| ==> Token(r[k], keep)
    decreases |s|
  {
    if |s| == 0 then []
    else if keep(s[0]) then
      var j := RunEnd(s, 0, keep);
      [s[..j]] + Tokens(s[j..], keep)
    else if |s| > 1 && keep(s[1]) then
      var j := RunEnd(s, 1, keep);
      [s[..j]] + Tokens(s[j..], keep)
    else Tokens(s[1..], keep)
  }

  /** A run of kept characters passes through the filter unchanged. */
  lemma {:induction false} FilterRun(s: string, j: nat, keep: char -> bool)
    requires j <= |s| && forall k :: 0 <= k < j ==> keep(s[k])
    ensures Filter(s, keep) == s[..j] + Filter(s[j..], keep)
  {
    if j > 0 {
      FilterRun(s[1..], j - 1, keep);
      assert s[1..][..j - 1] == s[1..j] && s[1..][j - 1..] == s[j..];
      assert s[..j] == [s[0]] + s[1..j];
    }
  }

  /** Nothing is lost: the captured groups spell out the kept characters of s. */
  lemma {:induction false} TokensKeep(s: string, keep: char -> bool)
    ensures Concat(Bodies(Tokens(s, keep), keep)) == Filter(s, keep)
    decreases |s|
  {
    if |s| > 0 {
      if keep(s[0]) {
        var j := RunEnd(s, 0, keep);
        TokensKeep(s[j..], keep);
        FilterRun(s, j, keep);
        assert Bodies(Tokens(s, keep), keep)[1..] == Bodies(Tokens(s[j..], keep), keep);
      } else if |s| > 1 && keep(s[1]) {
        var j := RunEnd(s, 1, keep);
        TokensKeep(s[j..], keep);
        FilterRun(s[1..], j - 1, keep);
        assert s[1..][..j - 1] == s[..j][1..] && s[1..][j - 1..] == s[j..];
        assert Bodies(Tokens(s, keep), keep)[1..] == Bodies(Tokens(s[j..], keep), keep);
      } else {
        TokensKeep(s[1..], keep);
      }
    }
  }

  lemma {:induction false} RunEndAt(s: string, k: nat, e: nat, keep: char -> bool)
    requires k <= e <= |s| && forall i :: k <= i < e ==> keep(s[i])
    requires e == |s| || !keep(s[e])
    ensures RunEnd(s, k, keep) == e
    decreases e - k
  {
    if k < e {
      RunEndAt(s, k + 1, e, keep);
    }
  }

  /** A token followed by a separator or the end is matched whole. */
  lemma TokensCons(t: string, rest: string, keep: char -> bool)
    requires Token(t, keep) && (|rest| == 0 || !keep(rest[0]))
    ensures Tokens(t + rest, keep) == [t] + Tokens(rest, keep)
  {
    var s := t + rest;
    var k := if keep(t[0]) then 0 else 1;
    RunEndAt(s, k, |t|, keep);
    assert s[..|t|] == t && s[|t|..] == rest;
  }

  /**
   * Tokens in a row, each but the first beginning with its separator, are
   * matched back one by one.
   */
  lemma {:induction false} TokensConcat(ts: seq<string>, keep: char -> bool)
    requires forall k :: 0 <= k < |ts| ==> Token(ts[k], keep)
    requires forall k :: 0 < k < |ts| ==> |ts[k]| > 0 && !keep(ts[k][0])
    ensures Tokens(Concat(ts), keep) == ts
  {
    if |ts| > 0 {
      TokensConcat(ts[1..], keep);
      assert |ts| > 1 ==> Concat(ts[1..]) == ts[1] + Concat(ts[2..]);
      TokensCons(ts[0], Concat(ts[1..]), keep);
      assert ts == [ts[0]] + ts[1..];
    }
  }

  // ---------------------------------------------------------------- compiling

  const ParseError := "Error parsing selector code"

  /** `[^\s>]`: a character that belongs to an item's body. */
  predicate NotItemSep(c: char) {
    !IsSpace(c) && c != '>'
  }

  /** `[^\.#@]`: a character that belongs to a piece's value. */
  predicate NotMarker(c: char) {
    c != '.' && c != '#' && c != '@'
  }

  /** The character list ' >' given to trim. */
  predicate SpaceOrGt(c: char) {
    c == ' ' || c == '>'
  }

  /** The normalised code cut into items `([\s>]?[^\s>]+)`. */
  function Items(code: string): seq<string> {
    Tokens(code, NotItemSep)
  }

  /** An item's pieces `[\.#@]?([^\.#@]+)`, after trimming spaces and `>` from both ends. */
  function Pieces(item: string): seq<string> {
    Tokens(Trim(item, SpaceOrGt), NotMarker)
  }

  /** The values of the pieces that start with marker m, in order. */
  function ValuesOf(ps: seq<string>, m: char): seq<string> {
    if |ps| == 0 then []
    else
      var last := ps[|ps| - 1];
      ValuesOf(ps[..|ps| - 1], m) + (if |last| > 0 && last[0] == m then [Body(last, NotMarker)] else [])
  }

  /** A piece that starts with neither `.` nor `#` names the tag. */
  predicate IsTagPiece(p: string) {
    |p| > 0 && p[0] != '.' && p[0] != '#'
  }

  /** The value of the last tag piece: each one overwrites the previous. */
  function TagOf(ps: seq<string>): Option<string> {
    if |ps| == 0 then None
    else if IsTagPiece(ps[|ps| - 1]) then Some(Body(ps[|ps| - 1], NotMarker))
    else TagOf(ps[..|ps| - 1])
  }

  /** The depth of an item: 1 when it starts with `>`, -1 otherwise. */
  function DepthOf(item: string): int {
    if |item| > 0 && item[0] == '>' then 1 else -1
  }

  /** One pass of the loop over the items: the stage for item, in front of next. */
  function Stage(item: string, next: Option<Selector>): Result<Selector> {
    var ps := Pieces(item);
    if |ps| == 0 then Err(ParseError)
    else Ok(Selector(TagOf(ps), ValuesOf(ps, '.'), ValuesOf(ps, '#'), DepthOf(item), next))
  }

  /**
   * The loop over the reversed items as a fold from the right: the stages
   * are built rightmost first, and the first item without pieces aborts.
   */
  function Chain(items: seq<string>): (r: Result<Option<Selector>>)
    ensures r.Err? ==> r.msg == ParseError
    ensures r.Ok? ==> (r.value.None? <==> |items| == 0)
  {
    if |items| == 0 then Ok(None)
    else
      match Chain(items[1..])
      case Err(e) => Err(e)
      case Ok(rest) =>
        match Stage(items[0], rest)
        case Err(e) => Err(e)
        case Ok(st) => Ok(Some(st))
  }

  /** strtolower, then the `>` rewrite, then the whitespace collapse. */
  function Normalize(code: string): string {
    var low := Lower(code);
    Collapse(ChildMarks(low, 0), 0)
  }

  function NormalizeAsWritten(code: string): string {
    var low := Lower(code);
    Collapse(ChildMarksAsWritten(low, 0), 0)
  }

  /** fromCss: Ok(None) for the null result, Err for the exception. */
  function FromCss(code: string): Result<Option<Selector>> {
    Chain(Items(Normalize(code)))
  }

  /** fromCss with the `\s*>\s` rewrite as written. */
  function FromCssAsWritten(code: string): Result<Option<Selector>> {
    Chain(Items(NormalizeAsWritten(code)))
  }

  /** An item that fails aborts the whole chain, with the same message. */
  lemma {:induction false} ChainFails(items: seq<string>, k: nat)
    requires k < |items| && Chain(items[k..]).Err?
    ensures Chain(items) == Err(ParseError)
    decreases k
  {
    if k > 0 {
      assert items[k - 1..][1..] == items[k..];
      ChainFails(items, k - 1);
    } else {
      assert items[0..] == items;
    }
  }

  /**
   * fromCss's loops: the items right to left, each item's pieces left to
   * right, throwing at the first item without pieces. The items come from
   * the `\s*>\s` rewrite the code applies (FromCss is the corrected one).
   */
  method CompileCss(code: string) returns (r: Result<Option<Selector>>)
    ensures r == FromCssAsWritten(code)
  {
    var items := Items(NormalizeAsWritten(code));
    var sel: Option<Selector> := None;
    var k := |items|;
    while k > 0
      invariant 0 <= k <= |items|
      invariant Chain(items[k..]) == Ok(sel)
    {
      k := k - 1;
      var item := items[k];
      var depth := if |item| > 0 && item[0] == '>' then 1 else -1;
      var pieces := Pieces(item);
      assert items[k..][1..] == items[k + 1..];
      if |pieces| == 0 {
        ChainFails(items, k);
        return Err(ParseError);
      }
      var tag: Option<string> := None;
      var classes: seq<string> := [];
      var ids: seq<string> := [];
      var j := 0;
      while j < |pieces|
        invariant 0 <= j <= |pieces|
        invariant tag == TagOf(pieces[..j])
        invariant classes == ValuesOf(pieces[..j], '.')
        invariant ids == ValuesOf(pieces[..j], '#')
      {
        var p := pieces[j];
        assert pieces[..j + 1][..j] == pieces[..j];
        if p[0] == '.' {
          classes := classes + [Body(p, NotMarker)];
        } else if p[0] == '#' {
          ids := ids + [Body(p, NotMarker)];
        } else {
          tag := Some(Body(p, NotMarker));
        }
        j := j + 1;
      }
      assert pieces[..j] == pieces;
      sel := Some(Selector(tag, classes, ids, depth, sel));
    }
    assert items[0..] == items;
    return Ok(sel);
  }

  // ------------------------------------------------- normalised text is fixed

  lemma LowerFixed(s: string)
    requires forall k :: 0 <= k < |s| ==> !('A' <= s[k] <= 'Z')
    ensures Lower(s) == s
  {
  }

  /** On tight text a `>` match is the `>` alone. */
  lemma TightGt(s: string, i: nat)
    requires i < |s| && TightFrom(s, i) && GtAt(s, i)
    ensures s[i] == '>' && SpaceEnd(s, i) == i && SpaceEnd(s, i + 1) == i + 1
  {
    assert s[SpaceEnd(s, i)] == '>';
  }

  /** On tight text the corrected rewrite changes nothing. */
  lemma {:induction false} ChildMarksFixed(s: string, i: nat)
    requires i <= |s| && TightFrom(s, i)
    ensures ChildMarks(s, i) == s[i..]
    decreases |s| - i
  {
    if i < |s| {
      if GtAt(s, i) {
        TightGt(s, i);
      }
      ChildMarksFixed(s, i + 1);
      SuffixCons(s, i);
    }
  }

  /** On tight text the rewrite as written changes nothing either. */
  lemma {:induction false} ChildMarksAsWrittenFixed(s: string, i: nat)
    requires i <= |s| && TightFrom(s, i)
    ensures ChildMarksAsWritten(s, i) == s[i..]
    decreases |s| - i
  {
    if i < |s| {
      assert i + 1 < |s| && s[i + 1] == '>' ==> !IsSpace(s[i]);
      assert !ChildMarkAt(s, i);
      ChildMarksAsWrittenFixed(s, i + 1);
      SuffixCons(s, i);
    }
  }

  /** From i on the only whitespace is a single ' ' between other characters. */
  predicate SingleSpaced(s: string, i: nat) {
    forall k :: i <= k < |s| && IsSpace(s[k]) ==> s[k] == ' ' && (k + 1 < |s| ==> !IsSpace(s[k + 1]))
  }

  lemma {:induction false} CollapseFixed(s: string, i: nat)
    requires i <= |s| && SingleSpaced(s, i)
    ensures Collapse(s, i) == s[i..]
    decreases |s| - i
  {
    if i < |s| {
      if IsSpace(s[i]) {
        assert SpaceEnd(s, i + 1) == i + 1;
      }
      CollapseFixed(s, i + 1);
      SuffixCons(s, i);
    }
  }

  // ---------------------------------------------------------------- rendering

  /** A character a name may hold: no whitespace, `>`, marker or upper-case letter. */
  predicate NameChar(c: char) {
    NotItemSep(c) && NotMarker(c) && !('A' <= c <= 'Z')
  }

  predicate Name(x: string) {
    |x| > 0 && forall k :: 0 <= k < |x| ==> NameChar(x[k])
  }

  /**
   * A chain that selector text can spell: every tag, class and id a name,
   * depth 1 or -1, and at least one piece in every stage.
   */
  predicate Spellable(sel: Selector)
    decreases sel
  {
    && (sel.tag.Some? ==> Name(sel.tag.value))
    && (forall k :: 0 <= k < |sel.classes| ==> Name(sel.classes[k]))
    && (forall k :: 0 <= k < |sel.ids| ==> Name(sel.ids[k]))
    && (sel.depth == 1 || sel.depth == -1)
    && (sel.tag.Some? || |sel.classes| > 0 || |sel.ids| > 0)
    && (sel.next.Some? ==> Spellable(sel.next.value))
  }

  function Marked(m: char, xs: seq<string>): (r: seq<string>)
    ensures |r| == |xs|
    ensures forall k :: 0 <= k < |xs| ==> r[k] == [m] + xs[k]
  {
    if |xs| == 0 then [] else [[m] + xs[0]] + Marked(m, xs[1..])
  }

  /** The pieces of a stage: the tag, then `.class` for each class, then `#id` for each id. */
  function PieceList(sel: Selector): seq<string> {
    (if sel.tag.Some? then [sel.tag.value] else []) + Marked('.', sel.classes) + Marked('#', sel.ids)
  }

  /** A stage as an item: `>` before a child stage, a space before any other. */
  function ItemText(sel: Selector): string {
    [if sel.depth == 1 then '>' else ' '] + Concat(PieceList(sel))
  }

  function ItemList(sel: Selector): (r: seq<string>)
    ensures |r| > 0
    decreases sel
  {
    [ItemText(sel)] + (if sel.next.Some? then ItemList(sel.next.value) else [])
  }

  /** Selector text for a chain, the items left to right. */
  function ToCss(sel: Selector): string {
    Concat(ItemList(sel))
  }

  /** A character of a rendered stage body. */
  predicate BodyChar(c: char) {
    NameChar(c) || c == '.' || c == '#'
  }

  /** Every separator is a space or `>` and is followed by a body character. */
  predicate Rendered(x: string) {
    && (forall k :: 0 <= k < |x| ==> BodyChar(x[k]) || SpaceOrGt(x[k]))
    && (forall k :: 0 <= k < |x| && SpaceOrGt(x[k]) ==> k + 1 < |x| && BodyChar(x[k + 1]))
  }

  lemma RenderedAppend(a: string, b: string)
    requires Rendered(a) && Rendered(b)
    ensures Rendered(a + b)
  {
    var x := a + b;
    forall k | 0 <= k < |x| && SpaceOrGt(x[k])
      ensures k + 1 < |x| && BodyChar(x[k + 1])
    {
      if k < |a| {
        assert x[k] == a[k] && x[k + 1] == a[k + 1];
      } else {
        assert x[k] == b[k - |a|] && x[k + 1] == b[k + 1 - |a|];
      }
    }
  }

  lemma {:induction false} ConcatAll(ts: seq<string>, p: char -> bool)
    requires forall k, i :: 0 <= k < |ts| && 0 <= i < |ts[k]| ==> p(ts[k][i])
    ensures forall i :: 0 <= i < |Concat(ts)| ==> p(Concat(ts)[i])
  {
    if |ts| > 0 {
      ConcatAll(ts[1..], p);
      var c := Concat(ts);
      assert c == ts[0] + Concat(ts[1..]);
      forall i | 0 <= i < |c|
        ensures p(c[i])
      {
        if i < |ts[0]| {
          assert c[i] == ts[0][i];
        } else {
          assert c[i] == Concat(ts[1..])[i - |ts[0]|];
        }
      }
    }
  }

  lemma {:induction false} ValuesOfAppend(a: seq<string>, b: seq<string>, m: char)
    ensures ValuesOf(a + b, m) == ValuesOf(a, m) + ValuesOf(b, m)
    decreases |b|
  {
    if |b| == 0 {
      assert a + b == a;
    } else {
      assert (a + b)[..|a + b| - 1] == a + b[..|b| - 1];
      ValuesOfAppend(a, b[..|b| - 1], m);
    }
  }

  lemma {:induction false} TagOfAppend(a: seq<string>, b: seq<string>)
    ensures TagOf(a + b) == if TagOf(b).Some? then TagOf(b) else TagOf(a)
    decreases |b|
  {
    if |b| == 0 {
      assert a + b == a;
    } else {
      assert (a + b)[..|a + b| - 1] == a + b[..|b| - 1];
      TagOfAppend(a, b[..|b| - 1]);
    }
  }

  /** Marked pieces give back their names under their own marker and nothing else. */
  lemma {:induction false} MarkedValues(m: char, xs: seq<string>, m2: char)
    requires m == '.' || m == '#'
    ensures ValuesOf(Marked(m, xs), m2) == if m == m2 then xs else []
    ensures TagOf(Marked(m, xs)) == None
  {
    if |xs| > 0 {
      MarkedValues(m, xs[1..], m2);
      var p := [m] + xs[0];
      assert Marked(m, xs) == [p] + Marked(m, xs[1..]);
      ValuesOfAppend([p], Marked(m, xs[1..]), m2);
      TagOfAppend([p], Marked(m, xs[1..]));
      assert [p][..0] == [];
      assert p[1..] == xs[0];
    }
  }

  lemma TagPiece(t: string, m: char)
    requires Name(t) && (m == '.' || m == '#')
    ensures ValuesOf([t], m) == [] && TagOf([t]) == Some(t)
  {
    assert [t][..0] == [];
    assert NameChar(t[0]);
  }

  /** The pieces of a spellable stage are tokens, and only the tag piece lacks a marker. */
  lemma PieceListShape(sel: Selector)
    requires Spellable(sel)
    ensures var ps := PieceList(sel);
      && |ps| > 0
      && (forall k :: 0 <= k < |ps| ==> Token(ps[k], NotMarker))
      && (forall k :: 0 < k < |ps| ==> |ps[k]| > 0 && !NotMarker(ps[k][0]))
      && (forall k, i :: 0 <= k < |ps| && 0 <= i < |ps[k]| ==> BodyChar(ps[k][i]))
  {
    var t := if sel.tag.Some? then [sel.tag.value] else [];
    var cs, ds := Marked('.', sel.classes), Marked('#', sel.ids);
    var ps := PieceList(sel);
    assert ps == t + cs + ds;
    forall k | 0 <= k < |ps|
      ensures Token(ps[k], NotMarker) && (k > 0 ==> !NotMarker(ps[k][0]))
      ensures forall i :: 0 <= i < |ps[k]| ==> BodyChar(ps[k][i])
    {
      if k < |t| {
        assert ps[k] == sel.tag.value;
      } else if k < |t| + |cs| {
        assert ps[k] == ['.'] + sel.classes[k - |t|];
      } else {
        assert ps[k] == ['#'] + sel.ids[k - |t| - |cs|];
      }
    }
  }

  /** trim(' >') removes exactly a leading separator from a body without one. */
  lemma TrimSeparator(c: char, body: string)
    requires SpaceOrGt(c) && |body| > 0
    requires forall i :: 0 <= i < |body| ==> BodyChar(body[i])
    ensures Trim([c] + body, SpaceOrGt) == body
  {
    assert ([c] + body)[1..] == body;
    assert !SpaceOrGt(body[0]) && !SpaceOrGt(body[|body| - 1]);
  }

  /** The text of a spellable stage's pieces: non-empty, body characters only. */
  lemma PieceText(sel: Selector)
    requires Spellable(sel)
    ensures var body := Concat(PieceList(sel));
      |body| > 0 && forall i :: 0 <= i < |body| ==> BodyChar(body[i])
  {
    var ps := PieceList(sel);
    PieceListShape(sel);
    ConcatAll(ps, BodyChar);
    assert Concat(ps) == ps[0] + Concat(ps[1..]);
  }

  /** A rendered stage is cut back into its own pieces. */
  lemma ItemPieces(sel: Selector)
    requires Spellable(sel)
    ensures Pieces(ItemText(sel)) == PieceList(sel)
  {
    PieceText(sel);
    TrimSeparator(if sel.depth == 1 then '>' else ' ', Concat(PieceList(sel)));
    PieceListShape(sel);
    TokensConcat(PieceList(sel), NotMarker);
  }

  lemma PieceTag(sel: Selector)
    requires sel.tag.Some? ==> Name(sel.tag.value)
    ensures TagOf(PieceList(sel)) == sel.tag
  {
    var t := if sel.tag.Some? then [sel.tag.value] else [];
    var cs, ds := Marked('.', sel.classes), Marked('#', sel.ids);
    assert PieceList(sel) == (t + cs) + ds;
    MarkedValues('.', sel.classes, '.');
    MarkedValues('#', sel.ids, '#');
    TagOfAppend(t + cs, ds);
    TagOfAppend(t, cs);
    if sel.tag.Some? {
      TagPiece(sel.tag.value, '.');
    } else {
      assert t + cs == cs;
    }
  }

  lemma PieceValues(sel: Selector, m: char)
    requires (m == '.' || m == '#') && (sel.tag.Some? ==> Name(sel.tag.value))
    ensures ValuesOf(PieceList(sel), m) == if m == '.' then sel.classes else sel.ids
  {
    var t: seq<string> := if sel.tag.Some? then [sel.tag.value] else [];
    assert PieceList(sel) == t + Marked('.', sel.classes) + Marked('#', sel.ids);
    assert ValuesOf(t, m) == [] by {
      if sel.tag.Some? {
        TagPiece(sel.tag.value, m);
      }
    }
    if m == '.' {
      MarkedPieceValues(t, sel.classes, sel.ids, '.');
    } else {
      MarkedPieceValues(t, sel.classes, sel.ids, '#');
    }
  }

  /** The values under one marker, after a piece that holds none. */
  lemma MarkedPieceValues(t: seq<string>, classes: seq<string>, ids: seq<string>, m: char)
    requires (m == '.' || m == '#') && ValuesOf(t, m) == []
    ensures ValuesOf(t + Marked('.', classes) + Marked('#', ids), m) == if m == '.' then classes else ids
  {
    var cs, ds := Marked('.', classes), Marked('#', ids);
    ValuesOfThree(t, cs, ds, m);
    MarkedValues('.', classes, m);
    MarkedValues('#', ids, m);
    if m == '.' {
      assert ValuesOf(t, m) + ValuesOf(cs, m) + ValuesOf(ds, m) == [] + classes + [];
    } else {
      assert ValuesOf(t, m) + ValuesOf(cs, m) + ValuesOf(ds, m) == [] + [] + ids;
    }
  }

  lemma ValuesOfThree(t: seq<string>, cs: seq<string>, ds: seq<string>, m: char)
    ensures ValuesOf(t + cs + ds, m) == ValuesOf(t, m) + ValuesOf(cs, m) + ValuesOf(ds, m)
  {
    ValuesOfAppend(t, cs, m);
    ValuesOfAppend(t + cs, ds, m);
  }

  /** A rendered stage compiles back to that stage. */
  lemma StageOfItem(sel: Selector)
    requires Spellable(sel)
    ensures Stage(ItemText(sel), sel.next) == Ok(sel)
  {
    ItemPieces(sel);
    PieceTag(sel);
    PieceValues(sel, '.');
    PieceValues(sel, '#');
    PieceListShape(sel);
  }

  /** A rendered stage is one item token, separator first, in rendered form. */
  lemma ItemShape(sel: Selector)
    requires Spellable(sel)
    ensures var item := ItemText(sel);
      Token(item, NotItemSep) && !NotItemSep(item[0]) && Rendered(item)
  {
    PieceText(sel);
    var body := Concat(PieceList(sel));
    var item := ItemText(sel);
    assert forall k :: 0 < k < |item| ==> item[k] == body[k - 1];
  }

  lemma {:induction false} ItemListShape(sel: Selector)
    requires Spellable(sel)
    ensures var items := ItemList(sel);
      && (forall k :: 0 <= k < |items| ==> Token(items[k], NotItemSep))
      && (forall k :: 0 <= k < |items| ==> |items[k]| > 0 && !NotItemSep(items[k][0]))
      && Rendered(ToCss(sel))
    decreases sel
  {
    ItemShape(sel);
    var items := ItemList(sel);
    if sel.next.Some? {
      ItemListShape(sel.next.value);
      assert items == [ItemText(sel)] + ItemList(sel.next.value);
      assert ToCss(sel) == ItemText(sel) + ToCss(sel.next.value);
      RenderedAppend(ItemText(sel), ToCss(sel.next.value));
    } else {
      assert items == [ItemText(sel)];
      assert ToCss(sel) == ItemText(sel) + Concat([]);
      assert ToCss(sel) == ItemText(sel);
    }
  }

  lemma {:induction false} ChainOfItems(sel: Selector)
    requires Spellable(sel)
    ensures Chain(ItemList(sel)) == Ok(Some(sel))
    decreases sel
  {
    StageOfItem(sel);
    var items := ItemList(sel);
    if sel.next.Some? {
      ChainOfItems(sel.next.value);
      assert items[1..] == ItemList(sel.next.value);
    } else {
      assert items[1..] == [];
    }
  }

  lemma RenderedTight(x: string)
    requires Rendered(x)
    ensures TightFrom(x, 0) && SingleSpaced(x, 0)
    ensures forall k :: 0 <= k < |x| ==> !('A' <= x[k] <= 'Z')
  {
    forall k | 0 <= k < |x| && x[k] == '>' && k > 0
      ensures !IsSpace(x[k - 1])
    {
      assert SpaceOrGt(x[k - 1]) || BodyChar(x[k - 1]);
    }
  }

  /** Rendered text is already lower-case, tight and single-spaced. */
  lemma RenderedNormal(x: string)
    requires Rendered(x)
    ensures Normalize(x) == x && NormalizeAsWritten(x) == x
  {
    RenderedTight(x);
    LowerFixed(x);
    ChildMarksFixed(x, 0);
    ChildMarksAsWrittenFixed(x, 0);
    assert x[0..] == x;
    CollapseFixed(x, 0);
  }

  lemma ItemsOfToCss(sel: Selector)
    requires Spellable(sel)
    ensures Items(ToCss(sel)) == ItemList(sel)
  {
    ItemListShape(sel);
    assert Token(ItemList(sel)[0], NotItemSep);
    TokensConcat(ItemList(sel), NotItemSep);
  }

  /**
   * Round trip: the text ToCss writes for a spellable chain compiles back
   * to that chain, with the `>` rewrite corrected or as written.
   */
  lemma RoundTrip(sel: Selector)
    requires Spellable(sel)
    ensures FromCss(ToCss(sel)) == Ok(Some(sel))
    ensures FromCssAsWritten(ToCss(sel)) == Ok(Some(sel))
  {
    ItemListShape(sel);
    RenderedNormal(ToCss(sel));
    ItemsOfToCss(sel);
    ChainOfItems(sel);
  }

  // ------------------------------------------------------------ null result

  lemma {:induction false} FilterEmpty(s: string, keep: char -> bool)
    ensures Filter(s, keep) == "" <==> forall k :: 0 <= k < |s| ==> !keep(s[k])
  {
    if |s| > 0 {
      FilterEmpty(s[1..], keep);
      assert forall k :: 1 <= k < |s| ==> s[k] == s[1..][k - 1];
    }
  }

  /** Filtering by a stricter test after a looser one is filtering by the stricter one. */
  lemma {:induction false} FilterFilter(s: string, loose: char -> bool, strict: char -> bool)
    requires forall c :: strict(c) ==> loose(c)
    ensures Filter(Filter(s, loose), strict) == Filter(s, strict)
  {
    if |s| > 0 {
      FilterFilter(s[1..], loose, strict);
      FilterAppend(if loose(s[0]) then [s[0]] else "", Filter(s[1..], loose), strict);
    }
  }

  lemma {:induction false} BodiesNonEmpty(ts: seq<string>, keep: char -> bool)
    requires forall k :: 0 <= k < |ts| ==> Token(ts[k], keep)
    ensures |ts| > 0 ==> |Concat(Bodies(ts, keep))| > 0
  {
    if |ts| > 0 {
      assert Concat(Bodies(ts, keep)) == Body(ts[0], keep) + Concat(Bodies(ts[1..], keep));
    }
  }

  /** No matches exactly when no character is kept. */
  lemma TokensEmpty(s: string, keep: char -> bool)
    ensures |Tokens(s, keep)| == 0 <==> Filter(s, keep) == ""
  {
    TokensKeep(s, keep);
    BodiesNonEmpty(Tokens(s, keep), keep);
  }

  /** Normalising keeps the characters that items are made of. */
  lemma NormalizeKeeps(code: string)
    ensures Filter(Normalize(code), NotItemSep) == Filter(Lower(code), NotItemSep)
  {
    var low := Lower(code);
    var marked := ChildMarks(low, 0);
    ChildMarksKeeps(low, 0);
    CollapseKeeps(marked, 0);
    assert low[0..] == low && marked[0..] == marked;
    FilterFilter(Normalize(code), NotSpace, NotItemSep);
    FilterFilter(low, NotSpace, NotItemSep);
  }

  /** The normalisation as written keeps the same characters. */
  lemma NormalizeAsWrittenKeeps(code: string)
    ensures Filter(NormalizeAsWritten(code), NotItemSep) == Filter(Lower(code), NotItemSep)
  {
    var low := Lower(code);
    var marked := ChildMarksAsWritten(low, 0);
    ChildMarksAsWrittenKeeps(low, 0);
    CollapseKeeps(marked, 0);
    assert low[0..] == low && marked[0..] == marked;
    FilterFilter(NormalizeAsWritten(code), NotSpace, NotItemSep);
    FilterFilter(low, NotSpace, NotItemSep);
  }

  /** Only whitespace and `>` leave nothing an item is made of. */
  lemma BlankCode(code: string)
    ensures Filter(Lower(code), NotItemSep) == "" <==>
      forall k :: 0 <= k < |code| ==> IsSpace(code[k]) || code[k] == '>'
  {
    var low := Lower(code);
    FilterEmpty(low, NotItemSep);
    forall k | 0 <= k < |code|
      ensures NotItemSep(low[k]) <==> NotItemSep(code[k])
    {
      LowerSep(code[k]);
    }
  }

  lemma LowerSep(c: char)
    ensures NotItemSep(LowerChar(c)) <==> NotItemSep(c)
  {
  }

  /**
   * fromCss gives null exactly when the code holds nothing but whitespace
   * and `>`; otherwise it gives a chain or throws. This holds for the
   * rewrite as written and for the corrected one.
   */
  lemma NullExactlyWhenBlank(code: string)
    ensures FromCssAsWritten(code) == Ok(None) <==>
      forall k :: 0 <= k < |code| ==> IsSpace(code[k]) || code[k] == '>'
    ensures FromCss(code) == Ok(None) <==>
      forall k :: 0 <= k < |code| ==> IsSpace(code[k]) || code[k] == '>'
  {
    BlankCode(code);
    TokensEmpty(NormalizeAsWritten(code), NotItemSep);
    NormalizeAsWrittenKeeps(code);
    TokensEmpty(Normalize(code), NotItemSep);
    NormalizeKeeps(code);
  }

  /** An item throws exactly when its trimmed text holds nothing but `.`, `#` and `@`. */
  lemma StageFails(item: string, next: Option<Selector>)
    ensures Stage(item, next).Err? <==>
      var body := Trim(item, SpaceOrGt);
      forall k :: 0 <= k < |body| ==> !NotMarker(body[k])
  {
    TokensEmpty(Trim(item, SpaceOrGt), NotMarker);
    FilterEmpty(Trim(item, SpaceOrGt), NotMarker);
  }

  // ------------------------------------------------- the `>` rewrite finding

  /** The rewrite as written turns `a >  b` into `a> b`, one space left after `>`. */
  lemma SpacingAsWritten()
    ensures ChildMarksAsWritten("a >  b", 0) == "a> b"
  {
    var s := "a >  b";
    assert ChildMarksAsWritten(s, 6) == "";
    assert ChildMarksAsWritten(s, 5) == "b" by {
      assert SpaceEnd(s, 5) == 5;
    }
    assert ChildMarksAsWritten(s, 4) == " b" by {
      assert SpaceEnd(s, 4) == 5;
    }
    assert ChildMarksAsWritten(s, 1) == "> b" by {
      assert SpaceEnd(s, 2) == 2;
      assert SpaceEnd(s, 1) == 2;
    }
    assert ChildMarksAsWritten(s, 0) == "a> b" by {
      assert SpaceEnd(s, 0) == 0;
    }
  }

  /** The corrected rewrite turns `a >  b` into `a>b`. */
  lemma SpacingCorrected()
    ensures ChildMarks("a >  b", 0) == "a>b"
  {
    var s := "a >  b";
    assert ChildMarks(s, 5) == "b" by {
      assert SpaceEnd(s, 5) == 5;
      assert ChildMarks(s, 6) == "";
    }
    assert ChildMarks(s, 1) == ">b" by {
      assert SpaceEnd(s, 4) == 5;
      assert SpaceEnd(s, 3) == 5;
      assert SpaceEnd(s, 2) == 2;
      assert SpaceEnd(s, 1) == 2;
    }
    assert ChildMarks(s, 0) == "a>b" by {
      assert SpaceEnd(s, 0) == 0;
    }
  }

  lemma LowerSpacing()
    ensures Lower("a >  b") == "a >  b"
  {
    var s := "a >  b";
    assert forall k :: 0 <= k < |s| ==> !('A' <= s[k] <= 'Z');
    LowerFixed(s);
  }

  /** Collapsing leaves `a> b` and `a>b` as they are. */
  lemma CollapseSpacing()
    ensures Collapse("a> b", 0) == "a> b" && Collapse("a>b", 0) == "a>b"
  {
    var w, c := "a> b", "a>b";
    assert SingleSpaced(w, 0) by {
      assert !IsSpace(w[0]) && !IsSpace(w[1]) && !IsSpace(w[3]);
    }
    assert SingleSpaced(c, 0) by {
      assert !IsSpace(c[0]) && !IsSpace(c[1]) && !IsSpace(c[2]);
    }
    CollapseFixed(w, 0);
    CollapseFixed(c, 0);
    assert w[0..] == w && c[0..] == c;
  }

  lemma SpacingText()
    ensures NormalizeAsWritten("a >  b") == "a> b"
    ensures Normalize("a >  b") == "a>b"
  {
    LowerSpacing();
    SpacingAsWritten();
    SpacingCorrected();
    CollapseSpacing();
  }

  /** `a> b` is cut into `a` and ` b`: the `>` followed by a space matches nothing. */
  lemma SpacingItemsAsWritten()
    ensures Items("a> b") == ["a", " b"]
  {
    var rest := "> b";
    assert Tokens(" b", NotItemSep) == [" b"] by {
      TokensCons(" b", "", NotItemSep);
      assert " b" + "" == " b";
    }
    assert Tokens(rest, NotItemSep) == Tokens(rest[1..], NotItemSep) by {
      assert !NotItemSep(rest[0]) && !NotItemSep(rest[1]);
    }
    assert rest[1..] == " b";
    TokensCons("a", rest, NotItemSep);
    assert "a" + rest == "a> b";
  }

  /** `a>b` is cut into `a` and `>b`. */
  lemma SpacingItemsCorrected()
    ensures Items("a>b") == ["a", ">b"]
  {
    TokensConcat(["a", ">b"], NotItemSep);
    assert Concat(["a", ">b"]) == "a" + Concat([">b"]);
    assert Concat([">b"]) == ">b" + Concat([]);
    assert "a" + (">b" + "") == "a>b";
  }

  /** A leading space in front of the first item makes no difference. */
  lemma FirstItemSpace(x: string, rest: seq<string>)
    requires |x| > 0 && !SpaceOrGt(x[0])
    ensures Chain([x] + rest) == Chain([" " + x] + rest)
  {
    var y := " " + x;
    assert TrimLeft(y, SpaceOrGt) == TrimLeft(x, SpaceOrGt) by {
      assert y[1..] == x;
    }
    assert Pieces(x) == Pieces(y);
    assert DepthOf(x) == DepthOf(y);
    assert ([x] + rest)[1..] == rest == ([y] + rest)[1..];
  }

  /** A one-letter stage renders as that letter, with its separator. */
  lemma LetterItem(x: char, depth: int, next: Option<Selector>)
    ensures ItemText(Selector(Some([x]), [], [], depth, next))
      == [if depth == 1 then '>' else ' ', x]
  {
    var sel := Selector(Some([x]), [], [], depth, next);
    assert PieceList(sel) == [[x]];
    assert Concat([[x]]) == [x] + Concat([]);
  }

  /** The stages for `a b` and `a>b`, as ToCss renders them. */
  lemma SpacingRendered(d: int)
    requires d == 1 || d == -1
    ensures var b := Selector(Some("b"), [], [], d, None);
      ItemList(Selector(Some("a"), [], [], -1, Some(b))) == [" a", [if d == 1 then '>' else ' ', 'b']]
  {
    var b := Selector(Some("b"), [], [], d, None);
    var a := Selector(Some("a"), [], [], -1, Some(b));
    LetterItem('a', -1, Some(b));
    LetterItem('b', d, None);
    assert ItemList(b) == [ItemText(b)];
  }

  lemma SpacingSpellable(d: int)
    requires d == 1 || d == -1
    ensures Spellable(Selector(Some("a"), [], [], -1, Some(Selector(Some("b"), [], [], d, None))))
  {
    assert NameChar('a') && NameChar('b');
    assert Name("b");
    assert Name("a");
  }

  /** A chain whose first item is written without its leading space compiles the same. */
  lemma BareHead(a: Selector, x: string)
    requires Spellable(a) && |x| > 0 && !SpaceOrGt(x[0]) && ItemList(a)[0] == " " + x
    ensures Chain([x] + ItemList(a)[1..]) == Ok(Some(a))
  {
    ChainOfItems(a);
    FirstItemSpace(x, ItemList(a)[1..]);
    assert [" " + x] + ItemList(a)[1..] == ItemList(a);
  }

  lemma SpacingChainAt(d: int)
    requires d == 1 || d == -1
    ensures Chain(["a", [if d == 1 then '>' else ' ', 'b']])
      == Ok(Some(Selector(Some("a"), [], [], -1, Some(Selector(Some("b"), [], [], d, None)))))
  {
    var b := Selector(Some("b"), [], [], d, None);
    var a := Selector(Some("a"), [], [], -1, Some(b));
    var second: string := [if d == 1 then '>' else ' ', 'b'];
    SpacingSpellable(d);
    SpacingRendered(d);
    var items: seq<string> := [" a", second];
    assert ItemList(a) == items;
    assert items[0] == " " + "a" && items[1..] == [second];
    BareHead(a, "a");
  }

  lemma SpacingChain()
    ensures Chain(["a", " b"])
      == Ok(Some(Selector(Some("a"), [], [], -1, Some(Selector(Some("b"), [], [], -1, None)))))
    ensures Chain(["a", ">b"])
      == Ok(Some(Selector(Some("a"), [], [], -1, Some(Selector(Some("b"), [], [], 1, None)))))
  {
    SpacingChainAt(-1);
    SpacingChainAt(1);
    assert [' ', 'b'] == " b" && ['>', 'b'] == ">b";
  }

  /**
   * With two spaces after `>` the rewrite as written leaves one, so the
   * item after it loses its `>` and is searched at any depth; the corrected
   * rewrite keeps it a child stage.
   */
  lemma ChildMarkSpacing()
    ensures FromCssAsWritten("a >  b")
      == Ok(Some(Selector(Some("a"), [], [], -1, Some(Selector(Some("b"), [], [], -1, None)))))
    ensures FromCss("a >  b")
      == Ok(Some(Selector(Some("a"), [], [], -1, Some(Selector(Some("b"), [], [], 1, None)))))
  {
    SpacingText();
    SpacingItemsAsWritten();
    SpacingItemsCorrected();
    SpacingChain();
  }
}

/**
 * splitTokens of the newer parser: the document is cut into raw chunks,
 * checking at each position for a comment, a literal element (script,
 * style), a tag, and otherwise text up to the next `<`.
 */
module Splitter {
  import opened Prelude
  import opened Cursor

  const LiteralTags: seq<string> := ["script", "style"]

  /** The first literal tag, from index i of LiteralTags on, whose `<tag` starts at p. */
  function FirstLiteral(s: string, p: nat, i: nat): (r: Option<string>)
    requires i <= |LiteralTags|
    ensures r.Some? ==> r.value in LiteralTags && OccursAt(s, "<" + r.value, p)
    ensures r.None? ==> forall j :: i <= j < |LiteralTags| ==> !OccursAt(s, "<" + LiteralTags[j], p)
    decreases |LiteralTags| - i
  {
    if i == |LiteralTags| then None
    else if OccursAt(s, "<" + LiteralTags[i], p) then Some(LiteralTags[i])
    else FirstLiteral(s, p, i + 1)
  }

  /** An inclusive read of a non-empty key from before the end always moves forward. */
  lemma InclusiveReadAdvances(s: string, p: nat, key: string)
    requires p < |s| && |key| > 0
    ensures ReadEnd(s, p, key, true) > p
  {
  }

  /** A comment: everything through the next `-->`. */
  function CommentStep(s: string, p: nat): (r: (seq<string>, nat))
    requires p < |s|
    ensures p < r.1 <= |s| && r.1 == ReadEnd(s, p, "-->", true)
    ensures r.0 == [s[p..(r.1)]]
  {
    InclusiveReadAdvances(s, p, "-->");
    var e := ReadEnd(s, p, "-->", true);
    ([s[p..e]], e)
  }

  /** A literal element: the open tag, the raw content, and the close tag. */
  function LiteralStep(s: string, p: nat, tag: string): (r: (seq<string>, nat))
    requires p < |s|
    ensures p < r.1 <= |s|
    ensures |r.0| == 3 && Concat(r.0) == s[p..(r.1)]
    ensures r.0[0] == s[p..ReadEnd(s, p, ">", true)]
    ensures var e1 := ReadEnd(s, p, ">", true);
      forall k :: e1 <= k < e1 + |r.0[1]| ==> !OccursAt(s, "</" + tag + ">", k)
    ensures r.0[2] == "</" + tag + ">" || (r.0[2] == "" && r.1 == |s|)
  {
    InclusiveReadAdvances(s, p, ">");
    var e1 := ReadEnd(s, p, ">", true);
    var e2 := ReadEnd(s, e1, "</" + tag + ">", false);
    var e3 := ReadEnd(s, e2, "</" + tag + ">", true);
    Concat3(s[p..e1], s[e1..e2], s[e2..e3]);
    SliceSplit3(s, p, e1, e2, e3);
    ([s[p..e1], s[e1..e2], s[e2..e3]], e3)
  }

  /** A tag: everything through the next `>`. */
  function TagStep(s: string, p: nat): (r: (seq<string>, nat))
    requires p < |s|
    ensures p < r.1 <= |s| && r.1 == ReadEnd(s, p, ">", true)
    ensures r.0 == [s[p..(r.1)]]
  {
    InclusiveReadAdvances(s, p, ">");
    var e := ReadEnd(s, p, ">", true);
    ([s[p..e]], e)
  }

  /** Text up to the next `<`, kept only when PHP-truthy. */
  function TextStep(s: string, p: nat): (r: (seq<string>, nat))
    requires p < |s| && !OccursAt(s, "<", p)
    ensures p < r.1 <= |s| && r.1 == ReadEnd(s, p, "<", false)
    ensures r.1 == |s| || s[r.1] == '<'
    ensures r.0 == (if Truthy(s[p..(r.1)]) then [s[p..(r.1)]] else [])
    ensures r.0 == [] <==> s[p..(r.1)] == "0"
  {
    var e := ReadEnd(s, p, "<", false);
    assert e < |s| ==> OccursAt(s, "<", e) && s[e..e + 1][0] == s[e];
    var data := s[p..e];
    (if Truthy(data) then [data] else [], e)
  }

  /**
   * One iteration of the loop at position p: the chunks it pushes and the
   * position it leaves the cursor at.
   */
  function Step(s: string, p: nat): (r: (seq<string>, nat))
    requires p < |s|
    ensures p < r.1 <= |s|
    ensures r.0 != [] ==> Concat(r.0) == s[p..(r.1)]
    ensures r.0 == [] <==> s[p..(r.1)] == "0"
  {
    if OccursAt(s, "<!--", p) then
      MarkupNotZero(s, p, CommentStep(s, p).1, "<!--");
      CommentStep(s, p)
    else match FirstLiteral(s, p, 0)
      case Some(tag) =>
        MarkupNotZero(s, p, LiteralStep(s, p, tag).1, "<" + tag);
        LiteralStep(s, p, tag)
      case None =>
        if OccursAt(s, "<", p) then
          MarkupNotZero(s, p, TagStep(s, p).1, "<");
          TagStep(s, p)
        else TextStep(s, p)
  }

  /** A chunk that starts with a markup opener is not the text "0". */
  lemma MarkupNotZero(s: string, p: nat, e: nat, opener: string)
    requires p < e <= |s| && |opener| > 0 && opener[0] == '<' && OccursAt(s, opener, p)
    ensures s[p..e] != "0"
  {
    assert s[p..e][0] == s[p] == s[p..p + |opener|][0] == '<';
  }

  /** The chunks splitTokens pushes from position p to the end. */
  function SplitFrom(s: string, p: nat): seq<string>
    requires p <= |s|
    decreases |s| - p
  {
    if p == |s| then [] else Step(s, p).0 + SplitFrom(s, Step(s, p).1)
  }

  lemma SplitFromUnfold(s: string, p: nat)
    requires p < |s|
    ensures SplitFrom(s, p) == Step(s, p).0 + SplitFrom(s, Step(s, p).1)
  {
  }

  /** The chunks of a whole document. */
  function Split(s: string): seq<string> {
    SplitFrom(s, 0)
  }

  /** Somewhere from p on, the loop reads a text chunk "0", which `if($data)` drops. */
  ghost predicate DropsZero(s: string, p: nat)
    requires p <= |s|
    decreases |s| - p
  {
    p < |s| && (Step(s, p).0 == [] || DropsZero(s, Step(s, p).1))
  }

  /** The chunks are never longer than the text they come from, and shorter once a "0" is dropped. */
  lemma {:induction false} SplitLength(s: string, p: nat)
    requires p <= |s|
    ensures |Concat(SplitFrom(s, p))| <= |s| - p
    ensures DropsZero(s, p) ==> |Concat(SplitFrom(s, p))| < |s| - p
    ensures !DropsZero(s, p) ==> Concat(SplitFrom(s, p)) == s[p..]
    decreases |s| - p
  {
    if p < |s| {
      var (cs, q) := Step(s, p);
      SplitLength(s, q);
      ConcatAppend(cs, SplitFrom(s, q));
      SuffixSplit(s, p, q);
      if cs == [] {
        assert |s[p..q]| == 1;
      }
    }
  }

  /**
   * The chunks glue back to the document exactly when no text chunk is the
   * falsy "0": splitting loses nothing else, on any input.
   */
  lemma SplitLossless(s: string, p: nat)
    requires p <= |s|
    ensures Concat(SplitFrom(s, p)) == s[p..] <==> !DropsZero(s, p)
  {
    SplitLength(s, p);
  }

  /** A falsy text chunk is dropped: the document "0<b>" keeps only its tag. */
  lemma ZeroTextDropped()
    ensures Split("0<b>") == ["<b>"]
  {
    var s := "0<b>";
    assert s[0] == '0' && s[1] == '<' && s[2] == 'b' && s[3] == '>';
    assert !OccursAt(s, "<!--", 0) && !OccursAt(s, "<", 0) by {
      assert s[0..1][0] == '0';
    }
    assert FirstLiteral(s, 0, 0).None? by {
      assert !OccursAt(s, "<script", 0);
      assert !OccursAt(s, "<style", 0) by {
        assert |"<style"| > |s|;
      }
    }
    assert OccursAt(s, "<", 1) by {
      assert s[1..2] == "<";
    }
    assert IndexOf(s, "<", 0) == 1;
    assert Step(s, 0) == ([], 1);
    assert !OccursAt(s, "<!--", 1);
    assert FirstLiteral(s, 1, 0).None?;
    assert OccursAt(s, ">", 3) by {
      assert s[3..4] == ">";
    }
    assert !OccursAt(s, ">", 1) && !OccursAt(s, ">", 2) by {
      assert s[1..2][0] == '<';
      assert s[2..3][0] == 'b';
    }
    assert IndexOf(s, ">", 1) == 3;
    assert s[1..4] == "<b>";
    assert Step(s, 1) == (["<b>"], 4);
  }

  /** The literal-tag test of one iteration: the foreach over LiteralTags. */
  method MatchLiteral(reader: Reader) returns (literal: Option<string>)
    requires reader.Valid()
    ensures literal == FirstLiteral(reader.html, reader.position, 0)
  {
    literal := None;
    var k := 0;
    while k < |LiteralTags| && literal.None?
      invariant 0 <= k <= |LiteralTags|
      invariant literal.None? ==> FirstLiteral(reader.html, reader.position, k) == FirstLiteral(reader.html, reader.position, 0)
      invariant literal.Some? ==> literal == FirstLiteral(reader.html, reader.position, 0)
    {
      var hit := reader.DoesMatch("<" + LiteralTags[k]);
      if hit {
        literal := Some(LiteralTags[k]);
      }
      k := k + 1;
    }
  }

  /** One iteration of the loop body of splitTokens. */
  method Advance(reader: Reader) returns (pushed: seq<string>)
    requires reader.Valid() && reader.position < |reader.html|
    modifies reader
    ensures reader.Valid()
    ensures (pushed, reader.position) == Step(reader.html, old(reader.position))
  {
    var isComment := reader.DoesMatch("<!--");
    if isComment {
      var c := reader.ReadUntil("-->", true);
      return [c];
    }
    var literal := MatchLiteral(reader);
    if literal.Some? {
      var tag := literal.value;
      var open := reader.ReadUntil(">", true);
      var content := reader.ReadUntil("</" + tag + ">", false);
      var close := reader.ReadUntil("</" + tag + ">", true);
      return [open, content, close];
    }
    var isTag := reader.DoesMatch("<");
    if isTag {
      var t := reader.ReadUntil(">", true);
      return [t];
    }
    var data := reader.ReadUntil("<", false);
    pushed := if Truthy(data) then [data] else [];
  }

  /** splitTokens, driving a Reader over the document. */
  method SplitTokens(html: string) returns (chunks: seq<string>)
    ensures chunks == Split(html)
  {
    var reader := new Reader(html);
    chunks := [];
    var atEnd := reader.IsEnd();
    while !atEnd
      invariant reader.Valid() && reader.html == html
      invariant atEnd <==> reader.position == |html|
      invariant chunks + SplitFrom(html, reader.position) == Split(html)
      decreases |html| - reader.position
    {
      ghost var p := reader.position;
      var pushed := Advance(reader);
      SplitFromUnfold(html, p);
      assert chunks + pushed + SplitFrom(html, reader.position) == chunks + (pushed + SplitFrom(html, reader.position));
      chunks := chunks + pushed;
      atEnd := reader.IsEnd();
    }
  }
}

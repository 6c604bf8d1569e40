/**
 * splitTokens of the older parser. Each iteration first takes the text up
 * to the next `<` (trimmed when trimText is set, kept only when PHP-truthy)
 * and then reads one comment, literal element or tag; the reads themselves
 * are the ones of the newer parser.
 */
module LegacySplitter {
  import opened Prelude
  import opened Cursor
  import opened Splitter

  /** The leading text chunk of an iteration, if it is kept. */
  function LeadingText(s: string, p: nat, trimText: bool): (r: seq<string>)
    requires p <= |s|
    ensures |r| <= 1
    ensures !trimText && Truthy(s[p..ReadEnd(s, p, "<", false)]) ==> r == [s[p..ReadEnd(s, p, "<", false)]]
    ensures forall k :: 0 <= k < |r| ==> Truthy(r[k])
  {
    var raw := s[p..ReadEnd(s, p, "<", false)];
    var data := if trimText then Trim(raw, IsTrimDefault) else raw;
    if Truthy(data) then [data] else []
  }

  /** What follows the text: a comment, a literal element, or a read through `>`. */
  function MarkupStep(s: string, q: nat): (r: (seq<string>, nat))
    requires q <= |s|
    ensures q <= r.1 <= |s|
    ensures q < |s| ==> q < r.1
    ensures Concat(r.0) == s[q..(r.1)]
    ensures q == |s| ==> r.0 == [""]
  {
    if OccursAt(s, "<!--", q) then CommentStep(s, q)
    else match FirstLiteral(s, q, 0)
      case Some(tag) => LiteralStep(s, q, tag)
      case None =>
        if q < |s| then TagStep(s, q)
        else
          assert s[q..q] == "";
          ([s[q..q]], q)
  }

  /** One iteration of the loop at position p. */
  function LegacyStep(s: string, p: nat, trimText: bool): (r: (seq<string>, nat))
    requires p < |s|
    ensures p < r.1 <= |s|
    ensures !trimText && s[p..ReadEnd(s, p, "<", false)] != "0" ==> Concat(r.0) == s[p..(r.1)]
    ensures IndexOf(s, "<", p) == -1 ==> r.1 == |s| && |r.0| >= 1 && r.0[|r.0| - 1] == ""
  {
    var q := ReadEnd(s, p, "<", false);
    assert q == p ==> q < |s|;
    var m := MarkupStep(s, q);
    var text := LeadingText(s, p, trimText);
    assert !trimText && s[p..q] != "0" ==> Concat(text + m.0) == s[p..m.1] by {
      if !trimText && s[p..q] != "0" {
        ConcatAppend(text, m.0);
        assert Concat(text) == s[p..q] by {
          if text != [] {
            assert text[1..] == [];
          }
        }
        assert s[p..m.1] == s[p..q] + s[q..m.1];
      }
    }
    (text + m.0, m.1)
  }

  /** When the untrimmed leading text is "0", the iteration's chunks are the rest of what it read. */
  lemma LegacyStepDropsZero(s: string, p: nat)
    requires p < |s| && s[p..ReadEnd(s, p, "<", false)] == "0"
    ensures p + 1 <= LegacyStep(s, p, false).1 && Concat(LegacyStep(s, p, false).0) == s[p + 1..LegacyStep(s, p, false).1]
  {
    var q := ReadEnd(s, p, "<", false);
    assert q == p + 1 by {
      assert |s[p..q]| == 1;
    }
    assert LeadingText(s, p, false) == [];
    var m := MarkupStep(s, q);
    assert LegacyStep(s, p, false) == ([] + m.0, m.1);
    assert [] + m.0 == m.0;
  }

  function LegacySplitFrom(s: string, p: nat, trimText: bool): seq<string>
    requires p <= |s|
    decreases |s| - p
  {
    if p == |s| then [] else LegacyStep(s, p, trimText).0 + LegacySplitFrom(s, LegacyStep(s, p, trimText).1, trimText)
  }

  lemma LegacySplitFromUnfold(s: string, p: nat, trimText: bool)
    requires p < |s|
    ensures LegacySplitFrom(s, p, trimText)
            == LegacyStep(s, p, trimText).0 + LegacySplitFrom(s, LegacyStep(s, p, trimText).1, trimText)
  {
  }

  function LegacySplit(s: string, trimText: bool): seq<string> {
    LegacySplitFrom(s, 0, trimText)
  }

  /** Somewhere from p on, the untrimmed loop reads a leading text "0", which `if($data)` drops. */
  ghost predicate LegacyDropsZero(s: string, p: nat)
    requires p <= |s|
    decreases |s| - p
  {
    p < |s| && (s[p..ReadEnd(s, p, "<", false)] == "0" || LegacyDropsZero(s, LegacyStep(s, p, false).1))
  }

  /** The untrimmed chunks are never longer than the text, shorter once a "0" is dropped, and whole otherwise. */
  lemma {:induction false} LegacySplitLength(s: string, p: nat)
    requires p <= |s|
    ensures |Concat(LegacySplitFrom(s, p, false))| <= |s| - p
    ensures LegacyDropsZero(s, p) ==> |Concat(LegacySplitFrom(s, p, false))| < |s| - p
    ensures !LegacyDropsZero(s, p) ==> Concat(LegacySplitFrom(s, p, false)) == s[p..]
    decreases |s| - p
  {
    if p < |s| {
      var r := LegacyStep(s, p, false);
      var rest := LegacySplitFrom(s, r.1, false);
      LegacySplitFromUnfold(s, p, false);
      if s[p..ReadEnd(s, p, "<", false)] == "0" {
        LegacyStepDropsZero(s, p);
      }
      LegacySplitLength(s, r.1);
      ConcatAppend(r.0, rest);
      SuffixSplit(s, p, r.1);
    }
  }

  /**
   * Untrimmed, the chunks glue back to the document exactly when no
   * leading text is the falsy "0", on any input.
   */
  lemma LegacySplitLossless(s: string, p: nat)
    requires p <= |s|
    ensures Concat(LegacySplitFrom(s, p, false)) == s[p..] <==> !LegacyDropsZero(s, p)
  {
    LegacySplitLength(s, p);
  }

  /** A document ending in text yields an empty last chunk: "a" splits into "a" and "". */
  lemma TrailingTextPushesEmpty()
    ensures LegacySplit("a", false) == ["a", ""]
  {
    var s := "a";
    assert !OccursAt(s, "<", 0) by {
      assert s[0..1][0] == 'a';
    }
    assert IndexOf(s, "<", 0) == -1;
    assert ReadEnd(s, 0, "<", false) == 1;
    var m := MarkupStep(s, 1);
    assert m == ([""], 1);
    var text := LeadingText(s, 0, false);
    assert s[0..1] == "a";
    assert text == ["a"];
    assert text + m.0 == ["a", ""];
    assert LegacyStep(s, 0, false).0 == text + m.0;
    assert LegacySplitFrom(s, 1, false) == [];
  }

  /** One iteration of the loop body of the older splitTokens. */
  method LegacyAdvance(reader: Reader, trimText: bool) returns (pushed: seq<string>)
    requires reader.Valid() && reader.position < |reader.html|
    modifies reader
    ensures reader.Valid()
    ensures (pushed, reader.position) == LegacyStep(reader.html, old(reader.position), trimText)
  {
    var data := reader.ReadUntil("<", false);
    if trimText {
      data := Trim(data, IsTrimDefault);
    }
    pushed := if Truthy(data) then [data] else [];
    var isComment := reader.DoesMatch("<!--");
    if isComment {
      var c := reader.ReadUntil("-->", true);
      return pushed + [c];
    }
    var literal := MatchLiteral(reader);
    if literal.Some? {
      var tag := literal.value;
      var open := reader.ReadUntil(">", true);
      var content := reader.ReadUntil("</" + tag + ">", false);
      var close := reader.ReadUntil("</" + tag + ">", true);
      return pushed + [open, content, close];
    }
    var t := reader.ReadUntil(">", true);
    pushed := pushed + [t];
  }

  /** The older splitTokens, driving a Reader over the document. */
  method LegacySplitTokens(html: string, trimText: bool) returns (chunks: seq<string>)
    ensures chunks == LegacySplit(html, trimText)
  {
    var reader := new Reader(html);
    chunks := [];
    var atEnd := reader.IsEnd();
    while !atEnd
      invariant reader.Valid() && reader.html == html
      invariant atEnd <==> reader.position == |html|
      invariant chunks + LegacySplitFrom(html, reader.position, trimText) == LegacySplit(html, trimText)
      decreases |html| - reader.position
    {
      ghost var p := reader.position;
      var pushed := LegacyAdvance(reader, trimText);
      LegacySplitFromUnfold(html, p, trimText);
      assert chunks + pushed + LegacySplitFrom(html, reader.position, trimText)
          == chunks + (pushed + LegacySplitFrom(html, reader.position, trimText));
      chunks := chunks + pushed;
      atEnd := reader.IsEnd();
    }
  }
}

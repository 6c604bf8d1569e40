/**
 * Token records and the classification of raw chunks into tokens, shared
 * by both parser generations (their parseTokens bodies are identical).
 * The three regular expressions involved are written out as scanners:
 *   ^<!--.*-->$    (dot matches newline, $ also before a final "\n")
 *   ^<! and ^<.*>$ (same flags)
 *   </?(.*?)(?:\s(.*?))?/?>
 */
module Tokens {
  import opened Prelude

  datatype TokenKind = Text | Comment | TagOpen | TagSelf | TagClose

  datatype Token = Token(kind: TokenKind, text: string, tag: string, rawAtt: string)

  predicate IsTagKind(k: TokenKind) {
    k == TagOpen || k == TagSelf || k == TagClose
  }

  /** Text and comment tokens carry only text; tag tokens carry only a name and attributes. */
  predicate WellFormed(t: Token) {
    if IsTagKind(t.kind) then t.text == "" else t.tag == "" && t.rawAtt == ""
  }

  function NewText(text: string): (t: Token)
    ensures WellFormed(t) && t.kind == Text && t.text == text
  {
    Token(Text, text, "", "")
  }

  function NewComment(text: string): (t: Token)
    ensures WellFormed(t) && t.kind == Comment && t.text == text
  {
    Token(Comment, text, "", "")
  }

  /** new_Tag; callers omitting rawAtt pass "". */
  function NewTag(kind: TokenKind, tag: string, rawAtt: string): (t: Token)
    requires IsTagKind(kind)
    ensures WellFormed(t) && t.kind == kind && t.tag == tag && t.rawAtt == rawAtt
  {
    Token(kind, "", tag, rawAtt)
  }

  // ----------------------------------------------------------------- scanners

  predicate EndsWith(s: string, p: string) {
    |p| <= |s| && s[|s| - |p|..] == p
  }

  /** ^X.*Y$ with the dot matching newlines and $ also matching before a final "\n". */
  predicate Framed(t: string, open: string, close: string) {
    StartsWith(t, open)
    && ((|t| >= |open| + |close| && EndsWith(t, close))
        || (|t| >= |open| + |close| + 1 && EndsWith(t, close + "\n")))
  }

  predicate IsCommentChunk(t: string) {
    Framed(t, "<!--", "-->")
  }

  predicate IsTagChunk(t: string) {
    Framed(t, "<", ">")
  }

  /** `/?>` matches at j. */
  predicate Closer(t: string, j: nat) {
    j < |t| && (t[j] == '>' || (t[j] == '/' && j + 1 < |t| && t[j + 1] == '>'))
  }

  /** The lazy tag name stops at j: whitespace (attributes follow) or a closer. */
  predicate NameStop(t: string, j: nat) {
    j < |t| && (IsSpace(t[j]) || Closer(t, j))
  }

  /** First j >= i where the name stops, or |t|. */
  function NameEnd(t: string, i: nat): (e: nat)
    requires i <= |t|
    ensures i <= e <= |t|
    ensures e < |t| ==> NameStop(t, e)
    ensures forall j :: i <= j < e ==> !NameStop(t, j)
    decreases |t| - i
  {
    if i == |t| || NameStop(t, i) then i else NameEnd(t, i + 1)
  }

  /** First j >= i where a closer matches, or |t|. */
  function CloserFrom(t: string, i: nat): (e: nat)
    requires i <= |t|
    ensures i <= e <= |t|
    ensures e < |t| ==> Closer(t, e)
    ensures forall j :: i <= j < e ==> !Closer(t, j)
    decreases |t| - i
  {
    if i == |t| || Closer(t, i) then i else CloserFrom(t, i + 1)
  }

  /** The name starts after `<`, or after `</` (the optional slash is greedy). */
  function NameStart(t: string): nat
    requires |t| >= 2
  {
    if t[1] == '/' then 2 else 1
  }

  function TagName(t: string): string
    requires |t| >= 2
  {
    t[NameStart(t)..NameEnd(t, NameStart(t))]
  }

  function RawAtt(t: string): string
    requires |t| >= 2
  {
    var e := NameEnd(t, NameStart(t));
    if e < |t| && IsSpace(t[e]) then t[e + 1..CloserFrom(t, e + 1)] else ""
  }

  function TagKindOf(t: string): TokenKind
    requires |t| >= 2
  {
    if t[1] == '/' then TagClose else if t[|t| - 2] == '/' then TagSelf else TagOpen
  }

  /** One chunk of parseTokens. */
  function Classify(t: string): (tok: Token)
    ensures WellFormed(tok)
    ensures tok.kind == Comment <==> IsCommentChunk(t)
    ensures IsTagKind(tok.kind) <==> IsTagChunk(t) && !StartsWith(t, "<!")
    ensures tok.kind == Text || tok.kind == Comment ==> tok.text == t
  {
    if IsCommentChunk(t) then NewComment(t)
    else if StartsWith(t, "<!") then NewText(t)
    else if IsTagChunk(t) then NewTag(TagKindOf(t), TagName(t), RawAtt(t))
    else NewText(t)
  }

  /**
   * For a tag chunk the name is the run after `<` or `</` up to the first
   * whitespace or closer, which always exists; rawAtt is the text after
   * that whitespace up to the next closer, or empty when the name ends at
   * a closer.
   */
  lemma TagFields(t: string)
    requires IsTagChunk(t) && !StartsWith(t, "<!")
    ensures Classify(t).kind == TagKindOf(t)
    ensures Classify(t).kind == TagClose <==> t[1] == '/'
    ensures var st := NameStart(t); var e := st + |Classify(t).tag|;
      e < |t| && t[st..e] == Classify(t).tag && NameStop(t, e)
    ensures var st := NameStart(t);
      forall j :: st <= j < st + |Classify(t).tag| ==> !IsSpace(t[j]) && t[j] != '>'
    ensures var e := NameStart(t) + |Classify(t).tag|; var a := Classify(t).rawAtt;
      e < |t| && IsSpace(t[e]) ==> e + 1 + |a| < |t| && t[e + 1..e + 1 + |a|] == a && Closer(t, e + 1 + |a|)
    ensures var e := NameStart(t) + |Classify(t).tag|;
      e < |t| && !IsSpace(t[e]) ==> Classify(t).rawAtt == ""
  {
    FinalAngle(t);
    TagNameFields(t);
    TagAttFields(t);
  }

  /** A tag chunk opens with '<' and has its final '>' at or after where the name starts. */
  lemma FinalAngle(t: string)
    requires IsTagChunk(t)
    ensures |t| >= 2 && t[0] == '<'
    ensures exists f :: NameStart(t) <= f < |t| && t[f] == '>'
  {
    assert t[..1] == "<";
    if EndsWith(t, ">") {
      assert t[|t| - 1..] == ">";
      assert t[|t| - 1..][0] == t[|t| - 1];
    } else {
      assert t[|t| - 2..] == ">\n";
      assert t[|t| - 2..][0] == t[|t| - 2];
    }
  }

  /** The name of a tag chunk: the run from its start up to the first stop, which exists. */
  lemma TagNameFields(t: string)
    requires IsTagChunk(t) && !StartsWith(t, "<!")
    ensures Classify(t).kind == TagKindOf(t)
    ensures var st := NameStart(t); var e := st + |Classify(t).tag|;
      e < |t| && t[st..e] == Classify(t).tag && NameStop(t, e)
    ensures var st := NameStart(t);
      forall j :: st <= j < st + |Classify(t).tag| ==> !IsSpace(t[j]) && t[j] != '>'
  {
    FinalAngle(t);
    var st := NameStart(t);
    var f :| st <= f < |t| && t[f] == '>';
    var e := NameEnd(t, st);
    assert NameStop(t, f);
    assert Classify(t).tag == t[st..e];
    forall j | st <= j < e
      ensures !IsSpace(t[j]) && t[j] != '>'
    {
      assert !NameStop(t, j);
    }
  }

  /** The attribute text of a tag chunk: after the whitespace that ends the name, up to a closer. */
  lemma TagAttFields(t: string)
    requires IsTagChunk(t) && !StartsWith(t, "<!")
    ensures var e := NameStart(t) + |Classify(t).tag|; var a := Classify(t).rawAtt;
      e < |t| && IsSpace(t[e]) ==> e + 1 + |a| < |t| && t[e + 1..e + 1 + |a|] == a && Closer(t, e + 1 + |a|)
    ensures var e := NameStart(t) + |Classify(t).tag|;
      e < |t| && !IsSpace(t[e]) ==> Classify(t).rawAtt == ""
  {
    FinalAngle(t);
    var st := NameStart(t);
    var f :| st <= f < |t| && t[f] == '>';
    var e := NameEnd(t, st);
    assert NameStop(t, f);
    assert Classify(t).tag == t[st..e];
    if e < |t| && IsSpace(t[e]) {
      assert e < f;
      assert Closer(t, f);
      var c := CloserFrom(t, e + 1);
      assert c <= f;
      assert Classify(t).rawAtt == t[e + 1..c];
    }
  }

  /** parseTokens: one token per chunk, in order. */
  method ParseTokens(chunks: seq<string>) returns (tokens: seq<Token>)
    ensures |tokens| == |chunks|
    ensures forall i :: 0 <= i < |chunks| ==> tokens[i] == Classify(chunks[i])
  {
    tokens := [];
    var i := 0;
    while i < |chunks|
      invariant 0 <= i <= |chunks|
      invariant |tokens| == i
      invariant forall k :: 0 <= k < i ==> tokens[k] == Classify(chunks[k])
    {
      tokens := tokens + [Classify(chunks[i])];
      i := i + 1;
    }
  }
}

/**
 * The attribute handling of the older Node: the four-pattern attribute
 * parser that deletes what it matches and keeps the rest as the node's
 * leftover raw text, the id and class split, the attribute string that
 * getHtml writes (leftover text included), and the class edits, which
 * remove only the first occurrence of a class.
 */
module LegacyAttrs {
  import opened Prelude
  import opened Elements

  // ------------------------------------------------------------ the patterns

  /**
   * The four patterns, applied in this order: name="v", name='v', name=v
   * and a bare name. The name is `[^\s='"\/]+` in all four.
   */
  datatype Pass = DoubleQuoted | SingleQuoted | Unquoted | Bare

  function Passes(): seq<Pass> {
    [DoubleQuoted, SingleQuoted, Unquoted, Bare]
  }

  /** One match: the name as spelled, the captured value (none for a bare name), and where it ends. */
  datatype Match = Match(name: string, value: Option<string>, end: nat)

  /** The text a pattern matches, given its parts. */
  function Spelled(m: Match, pass: Pass): string {
    var v := if m.value.Some? then m.value.value else "";
    match pass
    case Bare => m.name
    case Unquoted => m.name + "=" + v
    case _ => m.name + "=" + [QuoteOf(pass)] + v + [QuoteOf(pass)]
  }

  function QuoteOf(pass: Pass): char {
    if pass == SingleQuoted then '\'' else '"'
  }

  predicate AllNameChars(s: string) {
    forall i :: 0 <= i < |s| ==> IsNameChar(s[i])
  }

  predicate NoNameChars(s: string) {
    forall i :: 0 <= i < |s| ==> !IsNameChar(s[i])
  }

  /** Every key is lowercase. */
  predicate LowerKeys(atts: seq<Attr>) {
    forall i :: 0 <= i < |atts| ==> Lower(atts[i].key) == atts[i].key
  }

  /** `=value` after the name s[k..j], the value a run of unquoted-value characters (possibly empty). */
  function UnquotedMatch(s: string, k: nat, j: nat): (r: Option<Match>)
    requires k < j <= |s|
    ensures r.Some? ==> j < r.value.end <= |s| && r.value.name == s[k..j]
    ensures r.Some? ==> r.value.value.Some? && s[k..(r.value.end)] == r.value.name + "=" + r.value.value.value
    ensures r.Some? ==> forall i :: 0 <= i < |r.value.value.value| ==> IsBareValueChar(r.value.value.value[i])
    ensures r.None? <==> j == |s| || s[j] != '='
  {
    if j < |s| && s[j] == '=' then
      var e := RunEnd(s, j + 1, IsBareValueChar);
      assert s[k..e] == s[k..j] + [s[j]] + s[j + 1..e];
      Some(Match(s[k..j], Some(s[j + 1..e]), e))
    else None
  }

  /** `="value"` or `='value'` after the name s[k..j]: the value runs to the next quote q. */
  function QuotedMatch(s: string, k: nat, j: nat, q: char): (r: Option<Match>)
    requires k < j <= |s|
    ensures r.Some? ==> j < r.value.end <= |s| && r.value.name == s[k..j]
    ensures r.Some? ==> r.value.value.Some? && s[k..(r.value.end)] == r.value.name + "=" + [q] + r.value.value.value + [q]
    ensures r.Some? ==> q !in r.value.value.value
    ensures j == |s| || s[j] != '=' ==> r.None?
  {
    if j + 1 < |s| && s[j] == '=' && s[j + 1] == q && FirstIndex(s[j + 2..], q) < |s| - (j + 2) then
      var x := FirstIndex(s[j + 2..], q);
      var e := j + 3 + x;
      var v := s[j + 2..e - 1];
      assert v == s[j + 2..][..x];
      assert s[k..e] == s[k..j] + [s[j]] + [s[j + 1]] + v + [s[e - 1]];
      Some(Match(s[k..j], Some(v), e))
    else None
  }

  /**
   * The match of one pattern that starts at k, if any. The name run is
   * greedy and cannot contain `=`, so it always takes the whole run; a
   * quoted value runs to the next matching quote.
   */
  function PassMatch(s: string, k: nat, pass: Pass): (r: Option<Match>)
    requires k < |s|
    ensures r.Some? ==> k < r.value.end <= |s|
  {
    if !IsNameChar(s[k]) then None
    else
      var j := RunEnd(s, k, IsNameChar);
      match pass
      case Bare => Some(Match(s[k..j], None, j))
      case Unquoted => UnquotedMatch(s, k, j)
      case _ => QuotedMatch(s, k, j, QuoteOf(pass))
  }

  /**
   * What a match is: the text from k to its end spells a non-empty name
   * and the value the pattern allows; a bare name matches wherever a name
   * character stands.
   */
  lemma PassMatchShape(s: string, k: nat, pass: Pass)
    requires k < |s|
    ensures var r := PassMatch(s, k, pass);
      && (r.Some? ==> s[k..r.value.end] == Spelled(r.value, pass))
      && (r.Some? ==> |r.value.name| > 0 && AllNameChars(r.value.name))
      && (r.Some? ==> (r.value.value.None? <==> pass == Bare))
      && (r.Some? && pass == Unquoted ==> forall i :: 0 <= i < |r.value.value.value| ==> IsBareValueChar(r.value.value.value[i]))
      && (r.Some? && (pass == DoubleQuoted || pass == SingleQuoted) ==> QuoteOf(pass) !in r.value.value.value)
      && (pass == Bare ==> (r.Some? <==> IsNameChar(s[k])))
  {
    if IsNameChar(s[k]) {
      var j := RunEnd(s, k, IsNameChar);
      assert AllNameChars(s[k..j]);
    }
  }

  /** The attribute a match stores: the name lowercased, the value as captured. */
  function AttrOf(m: Match): (a: Attr)
    ensures Lower(a.key) == a.key
  {
    LowerIdempotent(m.name);
    Attr(Lower(m.name), m.value)
  }

  /**
   * preg_match_all of one pattern from k, and the text with every match
   * deleted: the attributes in match order and the characters no match
   * covered. After a failed attempt the scan moves on by one character.
   */
  function Scan(s: string, k: nat, pass: Pass): (r: (seq<Attr>, string))
    requires k <= |s|
    decreases |s| - k
  {
    if k == |s| then ([], "")
    else match PassMatch(s, k, pass)
      case None =>
        var t := Scan(s, k + 1, pass);
        (t.0, [s[k]] + t.1)
      case Some(m) =>
        var t := Scan(s, m.end, pass);
        ([AttrOf(m)] + t.0, t.1)
  }

  /**
   * The stored keys are lowercase; only the bare-name pattern stores null;
   * and after the bare-name pattern no name character is left, since each
   * one starts a match.
   */
  lemma {:induction false} ScanProps(s: string, k: nat, pass: Pass)
    requires k <= |s|
    ensures LowerKeys(Scan(s, k, pass).0)
    ensures forall i :: 0 <= i < |Scan(s, k, pass).0| ==> (Scan(s, k, pass).0[i].value.None? <==> pass == Bare)
    ensures pass == Bare ==> NoNameChars(Scan(s, k, pass).1)
    decreases |s| - k
  {
    if k < |s| {
      PassMatchShape(s, k, pass);
      match PassMatch(s, k, pass)
      case None =>
        ScanProps(s, k + 1, pass);
      case Some(m) =>
        ScanProps(s, m.end, pass);
    }
  }

  /** `$attributes[$key] = $value` for each attribute in turn. */
  function PutAll(atts: seq<Attr>, ms: seq<Attr>): seq<Attr>
  {
    if |ms| == 0 then atts
    else Put(PutAll(atts, ms[..|ms| - 1]), ms[|ms| - 1].key, ms[|ms| - 1].value)
  }

  /** The value the last attribute with this key carries, else the key's value before. */
  function LastValueOf(atts: seq<Attr>, ms: seq<Attr>, k: string): Option<Option<string>>
  {
    if |ms| == 0 then Lookup(atts, k)
    else if ms[|ms| - 1].key == k then Some(ms[|ms| - 1].value)
    else LastValueOf(atts, ms[..|ms| - 1], k)
  }

  /** Later matches overwrite earlier ones under the same key. */
  lemma {:induction false} PutAllLookup(atts: seq<Attr>, ms: seq<Attr>, k: string)
    ensures Lookup(PutAll(atts, ms), k) == LastValueOf(atts, ms, k)
  {
    if |ms| > 0 {
      var last := ms[|ms| - 1];
      PutLookup(PutAll(atts, ms[..|ms| - 1]), last.key, last.value, k);
      PutAllLookup(atts, ms[..|ms| - 1], k);
    }
  }

  /** Keys stay distinct, and the keys are those before plus the keys added. */
  lemma {:induction false} PutAllKeys(atts: seq<Attr>, ms: seq<Attr>)
    ensures NoDup(Keys(atts)) ==> NoDup(Keys(PutAll(atts, ms)))
    ensures forall k :: k in Keys(PutAll(atts, ms)) <==> k in Keys(atts) || exists i :: 0 <= i < |ms| && ms[i].key == k
  {
    if |ms| > 0 {
      var init := ms[..|ms| - 1];
      var last := ms[|ms| - 1];
      PutAllKeys(atts, init);
      PutKeys(PutAll(atts, init), last.key, last.value);
      var before := Keys(PutAll(atts, init));
      if NoDup(Keys(atts)) && last.key !in before {
        NoDupAppend(before, [last.key]);
      }
      forall k
        ensures k in Keys(PutAll(atts, ms)) <==> k in Keys(atts) || exists i :: 0 <= i < |ms| && ms[i].key == k
      {
        if k in Keys(PutAll(atts, ms)) && k !in Keys(atts) {
          if k in before {
            var i :| 0 <= i < |init| && init[i].key == k;
            assert ms[i].key == k;
          } else {
            assert ms[|ms| - 1].key == k;
          }
        }
        if exists i :: 0 <= i < |ms| && ms[i].key == k {
          var i :| 0 <= i < |ms| && ms[i].key == k;
          if i < |ms| - 1 {
            assert init[i].key == k;
          }
        }
      }
    }
  }

  lemma PutAllLower(atts: seq<Attr>, ms: seq<Attr>)
    requires LowerKeys(atts) && LowerKeys(ms)
    ensures LowerKeys(PutAll(atts, ms))
  {
    PutAllKeys(atts, ms);
    var r := PutAll(atts, ms);
    forall i | 0 <= i < |r|
      ensures Lower(r[i].key) == r[i].key
    {
      assert Keys(r)[i] == r[i].key;
      if r[i].key in Keys(atts) {
        var j :| 0 <= j < |atts| && Keys(atts)[j] == r[i].key;
      } else {
        var j :| 0 <= j < |ms| && ms[j].key == r[i].key;
      }
    }
  }

  /** The passes in turn, each on the text the previous ones left. */
  function RunPasses(atts: seq<Attr>, s: string, ps: seq<Pass>): (r: (seq<Attr>, string))
    decreases |ps|
  {
    if |ps| == 0 then (atts, s)
    else
      var sc := Scan(s, 0, ps[0]);
      RunPasses(PutAll(atts, sc.0), sc.1, ps[1..])
  }

  lemma {:induction false} RunPassesProps(atts: seq<Attr>, s: string, ps: seq<Pass>)
    requires LowerKeys(atts) && NoDup(Keys(atts))
    ensures LowerKeys(RunPasses(atts, s, ps).0) && NoDup(Keys(RunPasses(atts, s, ps).0))
    ensures |ps| > 0 && ps[|ps| - 1] == Bare ==> NoNameChars(RunPasses(atts, s, ps).1)
    decreases |ps|
  {
    if |ps| > 0 {
      var sc := Scan(s, 0, ps[0]);
      ScanProps(s, 0, ps[0]);
      PutAllLower(atts, sc.0);
      PutAllKeys(atts, sc.0);
      RunPassesProps(PutAll(atts, sc.0), sc.1, ps[1..]);
      if |ps| == 1 && ps[0] == Bare {
        assert RunPasses(PutAll(atts, sc.0), sc.1, ps[1..]) == (PutAll(atts, sc.0), sc.1);
      }
    }
  }

  /**
   * parseAttributes without the id and class split: the attributes, and
   * the trimmed leftover. Every key is lowercase and distinct, and no
   * character that could start a name is left: the leftover text is only
   * spaces, `=`, quotes and slashes.
   */
  function ParseAtts(raw: string): (r: (seq<Attr>, string))
    ensures LowerKeys(r.0) && NoDup(Keys(r.0))
    ensures NoNameChars(r.1)
  {
    RunPassesProps([], raw, Passes());
    var p := RunPasses([], raw, Passes());
    NoNameCharsTrim(p.1);
    (p.0, Trim(p.1, IsTrimDefault))
  }

  lemma NoNameCharsTrim(x: string)
    requires NoNameChars(x)
    ensures NoNameChars(Trim(x, IsTrimDefault))
  {
    var t := TrimLeft(x, IsTrimDefault);
    assert NoNameChars(t) by {
      assert forall i :: 0 <= i < |t| ==> t[i] == x[|x| - |t| + i];
    }
    var u := TrimRight(t, IsTrimDefault);
    assert forall i :: 0 <= i < |u| ==> u[i] == t[i];
  }

  // ------------------------------------------------------- worked cases

  lemma RunEndName(s: string, n: string)
    requires |n| > 0 && AllNameChars(n) && |s| >= |n| && s[..|n|] == n
    requires |s| > |n| ==> !IsNameChar(s[|n|])
    ensures RunEnd(s, 0, IsNameChar) == |n|
  {
    assert forall i :: 0 <= i < |n| ==> s[i] == n[i];
  }

  lemma ScanEmpty(pass: Pass)
    ensures Scan("", 0, pass) == ([], "")
  {
  }

  lemma RunPassesEmpty(atts: seq<Attr>, ps: seq<Pass>)
    ensures RunPasses(atts, "", ps) == (atts, "")
    decreases |ps|
  {
    if |ps| > 0 {
      ScanEmpty(ps[0]);
      assert PutAll(atts, []) == atts;
      RunPassesEmpty(atts, ps[1..]);
    }
  }

  lemma {:induction false} FirstIndexAt(v: string, q: char, w: string)
    requires q !in v
    ensures FirstIndex(v + [q] + w, q) == |v|
  {
    if |v| > 0 {
      assert (v + [q] + w)[1..] == v[1..] + [q] + w;
      FirstIndexAt(v[1..], q, w);
    }
  }

  /** The double-quoted pattern matches all of `name="value"`. */
  lemma QuotedWhole(n: string, v: string)
    requires |n| > 0 && AllNameChars(n) && '"' !in v
    ensures PassMatch(n + "=\"" + v + "\"", 0, DoubleQuoted) == Some(Match(n, Some(v), |n| + |v| + 3))
  {
    var s := n + "=\"" + v + "\"";
    assert s[..|n|] == n && s[|n|] == '=';
    RunEndName(s, n);
    QuotedAfterName(s, n, v);
  }

  lemma QuotedAfterName(s: string, n: string, v: string)
    requires |n| > 0 && '"' !in v && s == n + "=\"" + v + "\""
    ensures QuotedMatch(s, 0, |n|, '"') == Some(Match(n, Some(v), |n| + |v| + 3))
  {
    assert s[|n|] == '=' && s[|n| + 1] == '"';
    assert s[|n| + 2..] == v + ['"'] + [];
    FirstIndexAt(v, '"', []);
    assert s[|n| + 2..|s| - 1] == v;
    assert s[0..|n|] == n;
  }

  /** `name="value"` alone gives that one attribute, its name lowercased, and no leftover. */
  lemma ParseQuoted(n: string, v: string)
    requires |n| > 0 && AllNameChars(n) && '"' !in v
    ensures ParseAtts(n + "=\"" + v + "\"") == ([Attr(Lower(n), Some(v))], "")
  {
    var s := n + "=\"" + v + "\"";
    QuotedWhole(n, v);
    var a := Attr(Lower(n), Some(v));
    assert |s| == |n| + |v| + 3;
    assert AttrOf(Match(n, Some(v), |s|)) == a;
    var m := PassMatch(s, 0, DoubleQuoted);
    assert m == Some(Match(n, Some(v), |s|));
    var t := Scan(s, |s|, DoubleQuoted);
    assert t == ([], "");
    assert Scan(s, 0, DoubleQuoted) == ([AttrOf(m.value)] + t.0, t.1);
    assert AttrOf(m.value) == a;
    assert [a] + t.0 == [a];
    assert PutAll([], [a]) == [a];
    RunPassesEmpty([a], Passes()[1..]);
  }

  /** Patterns that need `=` find nothing in text without one. */
  lemma {:induction false} ScanNoEquals(s: string, k: nat, pass: Pass)
    requires k <= |s| && pass != Bare && '=' !in s
    ensures Scan(s, k, pass) == ([], s[k..])
    decreases |s| - k
  {
    if k < |s| {
      assert PassMatch(s, k, pass).None? by {
        if IsNameChar(s[k]) {
          var j := RunEnd(s, k, IsNameChar);
          assert j < |s| ==> s[j] != '=';
        }
      }
      ScanNoEquals(s, k + 1, pass);
      assert Scan(s, k, pass) == (Scan(s, k + 1, pass).0, [s[k]] + Scan(s, k + 1, pass).1);
      assert s[k..] == [s[k]] + s[k + 1..];
    } else {
      assert s[k..] == [];
    }
  }

  /** The first three passes leave a string without `=` as it is. */
  lemma NoEqualsFirstPasses(s: string)
    requires '=' !in s
    ensures RunPasses([], s, Passes()) == RunPasses([], s, [Bare])
  {
    ScanNoEquals(s, 0, DoubleQuoted);
    ScanNoEquals(s, 0, SingleQuoted);
    ScanNoEquals(s, 0, Unquoted);
    assert s[0..] == s;
    assert PutAll([], []) == [];
    assert Passes()[1..] == [SingleQuoted, Unquoted, Bare];
    assert Passes()[1..][1..] == [Unquoted, Bare];
    assert Passes()[1..][1..][1..] == [Bare];
  }

  /** A bare name alone is stored with a null value: present, but not isset. */
  lemma ParseBare(n: string)
    requires |n| > 0 && AllNameChars(n)
    ensures ParseAtts(n) == ([Attr(Lower(n), None)], "")
    ensures !HasAttribute(TagData("", No, ParseAtts(n).0, [], []), Lower(n))
  {
    assert '=' !in n by {
      assert forall i :: 0 <= i < |n| ==> IsNameChar(n[i]);
    }
    NoEqualsFirstPasses(n);
    var a := Attr(Lower(n), None);
    BareWhole(n);
    assert RunPasses([], n, [Bare]) == RunPasses([a], "", []);
  }

  /** The bare-name pattern takes a whole name as one match. */
  lemma BareWhole(n: string)
    requires |n| > 0 && AllNameChars(n)
    ensures Scan(n, 0, Bare) == ([Attr(Lower(n), None)], "")
    ensures PutAll([], Scan(n, 0, Bare).0) == [Attr(Lower(n), None)]
  {
    RunEndName(n, n);
    assert n[0..|n|] == n;
    var a := Attr(Lower(n), None);
    var m := PassMatch(n, 0, Bare);
    assert m == Some(Match(n, None, |n|));
    var t := Scan(n, |n|, Bare);
    assert t == ([], "");
    assert Scan(n, 0, Bare) == ([AttrOf(m.value)] + t.0, t.1);
    assert AttrOf(m.value) == a;
    assert [a] + t.0 == [a];
    assert PutAll([], [a]) == Put([], a.key, a.value);
  }

  // ------------------------------------------------------- the parse loop

  /**
   * One pattern's loop: every match from left to right is stored, and the
   * text between matches is what remains once the matches are deleted.
   */
  method ScanPass(s: string, pass: Pass, before: seq<Attr>) returns (atts: seq<Attr>, kept: string)
    ensures atts == PutAll(before, Scan(s, 0, pass).0)
    ensures kept == Scan(s, 0, pass).1
  {
    var k := 0;
    var done: seq<Attr> := [];
    kept := "";
    atts := before;
    ghost var full := Scan(s, 0, pass);
    while k < |s|
      invariant 0 <= k <= |s|
      invariant done + Scan(s, k, pass).0 == full.0
      invariant kept + Scan(s, k, pass).1 == full.1
      invariant atts == PutAll(before, done)
      decreases |s| - k
    {
      var m := PassMatch(s, k, pass);
      ghost var cur := Scan(s, k, pass);
      if m.None? {
        ghost var t := Scan(s, k + 1, pass);
        assert cur == (t.0, [s[k]] + t.1);
        Regroup(kept, [s[k]], t.1, full.1);
        kept := kept + [s[k]];
        k := k + 1;
      } else {
        var a := AttrOf(m.value);
        ghost var t := Scan(s, m.value.end, pass);
        assert cur == ([a] + t.0, t.1);
        Regroup(done, [a], t.0, full.0);
        assert (done + [a])[..|done|] == done;
        atts := Put(atts, a.key, a.value);
        done := done + [a];
        k := m.value.end;
      }
    }
    assert done == done + Scan(s, k, pass).0;
  }

  lemma Regroup<T>(xs: seq<T>, ys: seq<T>, zs: seq<T>, whole: seq<T>)
    requires xs + (ys + zs) == whole
    ensures (xs + ys) + zs == whole
  {
  }

  /**
   * parseAttributes: the four patterns in turn, each on the text the
   * previous ones left; then the leftover is trimmed.
   */
  method ParseRawAttributes(raw: string) returns (atts: seq<Attr>, rest: string)
    ensures (atts, rest) == ParseAtts(raw)
  {
    atts := [];
    rest := raw;
    var ps := Passes();
    var p := 0;
    while p < |ps|
      invariant 0 <= p <= |ps|
      invariant RunPasses(atts, rest, ps[p..]) == RunPasses([], raw, ps)
    {
      assert ps[p..][1..] == ps[p + 1..];
      atts, rest := ScanPass(rest, ps[p], atts);
      p := p + 1;
    }
    assert ps[p..] == [];
    rest := Trim(rest, IsTrimDefault);
  }

  // ------------------------------------------------- id and class split

  /** The values an attribute's isset value explodes into, and the attributes without it. */
  function SplitOut(atts: seq<Attr>, name: string): (r: (seq<string>, seq<Attr>))
    ensures Lookup(r.1, name).None? || Lookup(r.1, name) == Some(None)
    ensures forall k :: k != name ==> Lookup(r.1, k) == Lookup(atts, k)
    ensures match Lookup(atts, name)
      case Some(Some(v)) => |r.0| >= 1 && Implode(' ', r.0) == v && r.1 == Unset(atts, name)
      case _ => r == ([], atts)
  {
    forall k ensures Lookup(Unset(atts, name), k) == if k == name then None else Lookup(atts, k) {
      UnsetLookup(atts, name, k);
    }
    match Lookup(atts, name)
    case Some(Some(v)) =>
      ImplodeExplode(' ', v);
      (Explode(' ', v), Unset(atts, name))
    case _ => ([], atts)
  }

  /** Unset keeps the keys it does not remove lowercase. */
  lemma {:induction false} UnsetLower(atts: seq<Attr>, key: string)
    requires LowerKeys(atts)
    ensures LowerKeys(Unset(atts, key))
  {
    if |atts| > 0 {
      UnsetLower(atts[1..], key);
    }
  }

  /** The id and class split applied to parsed attributes. */
  function SplitIdClass(tag: string, closing: Closing, atts: seq<Attr>): (d: TagData)
    requires LowerKeys(atts) && NoDup(Keys(atts))
    ensures d.tag == tag && d.closing == closing
    ensures LowerKeys(d.attributes) && NoDup(Keys(d.attributes))
    ensures !HasAttribute(d, "id") && !HasAttribute(d, "class")
    ensures forall k :: k != "id" && k != "class" ==> Lookup(d.attributes, k) == Lookup(atts, k)
    ensures match Lookup(atts, "id")
      case Some(Some(v)) => |d.ids| >= 1 && Implode(' ', d.ids) == v
      case _ => d.ids == []
    ensures match Lookup(atts, "class")
      case Some(Some(v)) => |d.classes| >= 1 && Implode(' ', d.classes) == v
      case _ => d.classes == []
  {
    var (ids, a1) := SplitOut(atts, "id");
    var (classes, a2) := SplitOut(a1, "class");
    UnsetLower(atts, "id");
    UnsetLower(a1, "class");
    UnsetKeys(atts, "id");
    UnsetKeys(a1, "class");
    TagData(tag, closing, a2, ids, classes)
  }

  /**
   * The older Node constructor's tag state: with a truthy raw text the
   * attributes are parsed and an isset id or class is exploded on spaces
   * (duplicates and empty pieces kept) and unset; the leftover raw text is
   * kept beside the tag. Otherwise nothing is parsed and the raw text stays.
   */
  function NodeTagData(tag: string, raw: string, closing: Closing): (r: (TagData, string))
    ensures r.0.tag == tag && r.0.closing == closing
    ensures LowerKeys(r.0.attributes) && NoDup(Keys(r.0.attributes))
    ensures !HasAttribute(r.0, "id") && !HasAttribute(r.0, "class")
    ensures Truthy(raw) ==> NoNameChars(r.1)
    ensures !Truthy(raw) ==> r == (TagData(tag, closing, [], [], []), raw)
    ensures Truthy(raw) ==> r.0 == SplitIdClass(tag, closing, ParseAtts(raw).0)
  {
    if Truthy(raw) then
      (SplitIdClass(tag, closing, ParseAtts(raw).0), ParseAtts(raw).1)
    else (TagData(tag, closing, [], [], []), raw)
  }

  // ------------------------------------------------- attribute string

  /**
   * getTagAttributesString: the id, class and attribute items as in the
   * newer att2str, followed by the leftover raw text when it is truthy.
   */
  function NodeAttString(d: TagData, rest: string): (r: string)
    ensures !Truthy(rest) ==> r == Att2Str(d)
    ensures Truthy(rest) && Att2Str(d) == "" ==> r == " " + rest
    ensures Truthy(rest) && Att2Str(d) != "" ==> r == Att2Str(d) + " " + rest
  {
    var base := AllItems(d);
    var items := base + (if Truthy(rest) then [rest] else []);
    assert Truthy(rest) && |base| > 0 ==> Implode(' ', base + [rest]) == Implode(' ', base) + " " + rest by {
      if Truthy(rest) && |base| > 0 {
        ImplodeSnoc(' ', base, rest);
      }
    }
    assert !Truthy(rest) ==> items == base;
    assert Truthy(rest) && |base| == 0 ==> items == [rest];
    if |items| == 0 then "" else " " + Implode(' ', items)
  }

  lemma {:induction false} ImplodeSnoc(sep: char, xs: seq<string>, y: string)
    requires |xs| >= 1
    ensures Implode(sep, xs + [y]) == Implode(sep, xs) + [sep] + y
  {
    if |xs| == 1 {
      assert (xs + [y])[1..] == [y];
    } else {
      assert (xs + [y])[1..] == xs[1..] + [y];
      ImplodeSnoc(sep, xs[1..], y);
    }
  }

  // ------------------------------------------------------- class edits

  /** hasClass: in_array. */
  predicate HasClass(d: TagData, c: string) {
    c in d.classes
  }

  /**
   * removeClass of the older Node: array_search finds the first
   * occurrence and array_splice removes it; later duplicates stay.
   */
  function RemoveFirstClass(d: TagData, c: string): (r: TagData)
    ensures r == d.(classes := r.classes)
    ensures multiset(r.classes) == multiset(d.classes) - multiset{c}
    ensures HasClass(r, c) <==> multiset(d.classes)[c] >= 2
  {
    var r := d.(classes := RemoveFirst(d.classes, c));
    assert multiset(r.classes)[c] == if c in d.classes then multiset(d.classes)[c] - 1 else 0;
    r
  }

  /**
   * With distinct classes the older removeClass is the newer one, and
   * removing a class just added restores the tag; the exploded class
   * attribute can carry a class twice, and then one removal leaves it.
   */
  lemma RemoveFirstClassProps(d: TagData, c: string)
    ensures NoDup(d.classes) ==> RemoveFirstClass(d, c) == RemoveClass(d, c)
    ensures c !in d.classes ==> RemoveFirstClass(AddClass(d, c), c) == d
    ensures d.classes == [c, c] ==> HasClass(RemoveFirstClass(d, c), c)
  {
    if NoDup(d.classes) {
      RemoveFirstDistinct(d.classes, c);
    }
    if c !in d.classes {
      var xs := d.classes + [c];
      assert AddClass(d, c).classes == xs;
      assert FirstIndex(xs, c) == |d.classes|;
      assert xs[..|d.classes|] == d.classes;
    }
  }

  lemma {:induction false} RemoveFirstDistinct(xs: seq<string>, x: string)
    requires NoDup(xs)
    ensures RemoveFirst(xs, x) == RemoveKey(xs, x)
  {
    if |xs| > 0 {
      assert NoDup(xs[1..]);
      RemoveFirstDistinct(xs[1..], x);
      if xs[0] == x {
        assert x !in xs[1..];
        RemoveKeyAbsent(xs[1..], x);
      } else {
        RemoveFirstCons(xs, x);
      }
    }
  }
}

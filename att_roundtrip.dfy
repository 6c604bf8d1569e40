/**
 * att2str and the constructor's attribute parsing are inverse on plain
 * element data: writing the id set, the class set and the attributes out
 * and parsing the text again gives the same data back, as long as names
 * are attribute-name characters, values hold no quote characters and set
 * members hold no space.
 */
module AttRoundTrip {
  import opened Prelude
  import opened Elements

  /** What att2str writes for a string value without `"`: key="v". */
  function QItem(key: string, v: string): string {
    key + "=\"" + v + "\""
  }

  predicate GoodKey(key: string) {
    |key| > 0 && forall i :: 0 <= i < |key| ==> IsNameChar(key[i])
  }

  predicate QuoteFree(v: string) {
    '"' !in v && '\'' !in v
  }

  predicate PlainSet(xs: seq<string>) {
    NoDup(xs) && forall i :: 0 <= i < |xs| ==> ' ' !in xs[i] && QuoteFree(xs[i])
  }

  predicate PlainAttr(a: Attr) {
    GoodKey(a.key) && a.key != "id" && a.key != "class" && a.value.Some? && QuoteFree(a.value.value)
  }

  /** Element data att2str and the parser agree on. */
  predicate Plain(d: TagData) {
    PlainSet(d.ids) && PlainSet(d.classes) && NoDup(Keys(d.attributes))
    && forall i :: 0 <= i < |d.attributes| ==> PlainAttr(d.attributes[i])
  }

  /** Each item preceded by one space. */
  function SpaceJoin(items: seq<string>): string {
    if |items| == 0 then "" else " " + items[0] + SpaceJoin(items[1..])
  }

  lemma {:induction false} ImplodeSpaceJoin(items: seq<string>)
    requires |items| >= 1
    ensures " " + Implode(' ', items) == SpaceJoin(items)
  {
    if |items| > 1 {
      ImplodeSpaceJoin(items[1..]);
    }
  }

  lemma {:induction false} ImplodeFree(sep: char, parts: seq<string>, c: char)
    requires |parts| >= 1 && c != sep
    requires forall i :: 0 <= i < |parts| ==> c !in parts[i]
    ensures c !in Implode(sep, parts)
  {
    if |parts| > 1 {
      ImplodeFree(sep, parts[1..], c);
    }
  }

  lemma RunEndIs(s: string, k: nat, e: nat, ok: char -> bool)
    requires k <= e <= |s|
    requires forall i :: k <= i < e ==> ok(s[i])
    requires e == |s| || !ok(s[e])
    ensures RunEnd(s, k, ok) == e
  {
  }

  /** The layout of key="v", character by character. */
  lemma QItemShape(key: string, v: string)
    ensures |QItem(key, v)| == |key| + |v| + 3
    ensures QItem(key, v)[..|key|] == key
    ensures QItem(key, v)[|key|] == '=' && QItem(key, v)[|key| + 1] == '"'
    ensures QItem(key, v)[|key| + 2..|key| + 2 + |v|] == v
    ensures QItem(key, v)[|key| + 2 + |v|] == '"'
    ensures QItem(key, v)[|key| + 1..] == "\"" + v + "\""
  {
  }

  /** At the start of key="v", the pattern matches exactly that item. */
  lemma QItemMatch(s: string, k: nat, key: string, v: string)
    requires GoodKey(key) && '"' !in v
    requires k + |key| + |v| + 3 <= |s| && s[k..k + |key| + |v| + 3] == QItem(key, v)
    ensures AttMatchEnd(s, k) == Some(k + |key| + |v| + 3)
  {
    var j := k + |key|;
    QItemAt(s, k, key, v);
    forall i | k <= i < j
      ensures IsNameChar(s[i])
    {
      assert s[i] == s[k..j][i - k];
    }
    RunEndIs(s, k, j, IsNameChar);
    var t := s[j + 2..];
    forall i | 0 <= i < |v|
      ensures t[i] != '"'
    {
      assert t[i] == t[..|v|][i];
    }
    FirstIndexIs(t, '"', |v|);
  }

  /** Where the parts of key="v" sit when it starts at k. */
  lemma QItemAt(s: string, k: nat, key: string, v: string)
    requires k + |key| + |v| + 3 <= |s| && s[k..k + |key| + |v| + 3] == QItem(key, v)
    ensures s[k..k + |key|] == key && s[k + |key|] == '=' && s[k + |key| + 1] == '"'
    ensures s[k + |key| + 2..][..|v|] == v && s[k + |key| + 2..][|v|] == '"'
  {
    var q := QItem(key, v);
    QItemShape(key, v);
    var j := k + |key|;
    assert s[k..j] == q[..|key|];
    assert s[j] == q[|key|];
    assert s[j + 1] == q[|key| + 1];
    var t := s[j + 2..];
    assert t[..|v|] == s[j + 2..j + 2 + |v|];
    assert s[j + 2..j + 2 + |v|] == s[k..k + |q|][|key| + 2..|key| + 2 + |v|];
    assert t[|v|] == q[|key| + 2 + |v|];
  }

  function QItems(pairs: seq<(string, string)>): (r: seq<string>)
    ensures |r| == |pairs|
    ensures forall i :: 0 <= i < |pairs| ==> r[i] == QItem(pairs[i].0, pairs[i].1)
  {
    if |pairs| == 0 then [] else [QItem(pairs[0].0, pairs[0].1)] + QItems(pairs[1..])
  }

  predicate GoodPairs(pairs: seq<(string, string)>) {
    forall i :: 0 <= i < |pairs| ==> GoodKey(pairs[i].0) && QuoteFree(pairs[i].1)
  }

  lemma SuffixSplit(s: string, k: nat, a: string, b: string)
    requires k <= |s| && s[k..] == a + b
    ensures k + |a| <= |s| && s[k..k + |a|] == a && s[k + |a|..] == b
  {
    assert s[k..k + |a|] == (a + b)[..|a|];
    assert s[k + |a|..] == (a + b)[|a|..];
  }

  lemma MatchesSome(s: string, k: nat, e: nat)
    requires k < |s| && AttMatchEnd(s, k) == Some(e)
    ensures AttMatches(s, k) == [s[k..e]] + AttMatches(s, e)
  {
  }

  /** Space-separated items are matched one by one. */
  lemma {:induction false} MatchesJoin(s: string, k: nat, pairs: seq<(string, string)>)
    requires k <= |s| && s[k..] == SpaceJoin(QItems(pairs)) && GoodPairs(pairs)
    ensures AttMatches(s, k) == QItems(pairs)
    decreases |pairs|
  {
    if |pairs| > 0 {
      var key, v := pairs[0].0, pairs[0].1;
      var e := k + |key| + |v| + 4;
      JoinHead(s, k, pairs);
      GoodPairsTail(pairs);
      MatchOne(s, k, key, v, SpaceJoin(QItems(pairs[1..])), e);
      MatchesJoin(s, e, pairs[1..]);
    } else {
      assert |s[k..]| == 0;
    }
  }

  /** The first item of a space-joined list, and what follows it. */
  lemma JoinHead(s: string, k: nat, pairs: seq<(string, string)>)
    requires k <= |s| && s[k..] == SpaceJoin(QItems(pairs)) && |pairs| > 0
    ensures s[k..] == " " + QItem(pairs[0].0, pairs[0].1) + SpaceJoin(QItems(pairs[1..]))
  {
    SpaceJoinCons(QItem(pairs[0].0, pairs[0].1), QItems(pairs[1..]));
  }

  lemma SpaceJoinCons(q: string, rest: seq<string>)
    ensures SpaceJoin([q] + rest) == " " + q + SpaceJoin(rest)
  {
    assert ([q] + rest)[1..] == rest;
  }

  lemma GoodPairsTail(pairs: seq<(string, string)>)
    requires GoodPairs(pairs) && |pairs| > 0
    ensures GoodKey(pairs[0].0) && QuoteFree(pairs[0].1) && GoodPairs(pairs[1..])
  {
    var tail := pairs[1..];
    forall i | 0 <= i < |tail|
      ensures GoodKey(tail[i].0) && QuoteFree(tail[i].1)
    {
      assert tail[i] == pairs[i + 1];
    }
  }

  /** A space and key="v": skipped, then matched as one item. */
  lemma MatchOne(s: string, k: nat, key: string, v: string, rest: string, e: nat)
    requires GoodKey(key) && QuoteFree(v) && e == k + |key| + |v| + 4
    requires k <= |s| && s[k..] == " " + QItem(key, v) + rest
    ensures e <= |s| && s[e..] == rest
    ensures AttMatches(s, k) == [QItem(key, v)] + AttMatches(s, e)
  {
    var q := QItem(key, v);
    QItemLength(key, v);
    JoinParts(s, k, q, rest);
    QItemMatch(s, k + 1, key, v);
    MatchAfterSpace(s, k, e, q);
  }

  /** A space followed by one match contributes exactly that match. */
  lemma MatchAfterSpace(s: string, k: nat, e: nat, q: string)
    requires k + 1 < e <= |s| && s[k] == ' ' && AttMatchEnd(s, k + 1) == Some(e) && s[k + 1..e] == q
    ensures AttMatches(s, k) == [q] + AttMatches(s, e)
  {
    SkipSpace(s, k);
    MatchesSome(s, k + 1, e);
  }

  lemma QItemLength(key: string, v: string)
    ensures |QItem(key, v)| == |key| + |v| + 3
  {
  }

  lemma JoinParts(s: string, k: nat, q: string, rest: string)
    requires k <= |s| && s[k..] == " " + q + rest
    ensures k + 1 + |q| <= |s| && s[k] == ' '
    ensures s[k + 1..k + 1 + |q|] == q && s[k + 1 + |q|..] == rest
  {
    assert " " + q + rest == " " + (q + rest);
    SuffixSplit(s, k, " ", q + rest);
    SuffixSplit(s, k + 1, q, rest);
  }

  /** A space is not part of any match. */
  lemma SkipSpace(s: string, k: nat)
    requires k < |s| && s[k] == ' '
    ensures AttMatches(s, k) == AttMatches(s, k + 1)
  {
    assert AttMatchEnd(s, k) == None;
  }

  /** Trimming quote characters from "v" leaves v when v holds none. */
  lemma TrimQuoted(v: string)
    requires QuoteFree(v)
    ensures Trim("\"" + v + "\"", IsQuote) == v
  {
    var w := "\"" + v + "\"";
    assert w[1..] == v + "\"";
    var l := TrimLeft(w, IsQuote);
    if |v| > 0 {
      assert !IsQuote(w[1]);
      assert l == w[1..];
      var u := v + "\"";
      assert u[..|u| - 1] == v;
      assert !IsQuote(u[|u| - 2]);
      assert TrimRight(u, IsQuote) == v;
    } else {
      assert l == "";
    }
  }

  lemma AttOfQItem(key: string, v: string)
    requires GoodKey(key) && QuoteFree(v)
    ensures AttOf(QItem(key, v)) == Attr(key, Some(v))
  {
    var m := QItem(key, v);
    QItemShape(key, v);
    forall i | 0 <= i < |key|
      ensures m[i] != '='
    {
      assert m[i] == m[..|key|][i];
    }
    assert FirstIndex(m, '=') == |key|;
    TrimQuoted(v);
  }

  function AttOfs(ms: seq<string>): (r: seq<Attr>)
    ensures |r| == |ms|
    ensures forall i :: 0 <= i < |ms| ==> r[i] == AttOf(ms[i])
  {
    seq(|ms|, i requires 0 <= i < |ms| => AttOf(ms[i]))
  }

  lemma {:induction false} PutAbsent(atts: seq<Attr>, key: string, v: Option<string>)
    requires key !in Keys(atts)
    ensures Put(atts, key, v) == atts + [Attr(key, v)]
  {
    if |atts| > 0 {
      assert Keys(atts) == [atts[0].key] + Keys(atts[1..]);
      PutAbsent(atts[1..], key, v);
      assert atts == [atts[0]] + atts[1..];
    }
  }

  /** With distinct keys, no match overwrites another. */
  lemma {:induction false} AttFoldDistinct(ms: seq<string>)
    requires NoDup(MatchKeys(ms))
    ensures AttFold(ms) == AttOfs(ms)
  {
    if |ms| > 0 {
      var init := ms[..|ms| - 1];
      var a := AttOf(ms[|ms| - 1]);
      MatchKeysSnoc(ms);
      AttFoldDistinct(init);
      AttOfsSnoc(ms);
      AttOfsKeys(init);
      PutAbsent(AttOfs(init), a.key, a.value);
    }
  }

  lemma MatchKeysSnoc(ms: seq<string>)
    requires |ms| > 0 && NoDup(MatchKeys(ms))
    ensures NoDup(MatchKeys(ms[..|ms| - 1]))
    ensures AttOf(ms[|ms| - 1]).key !in MatchKeys(ms[..|ms| - 1])
  {
    MatchKeysLast(ms);
    NoDupSnoc(MatchKeys(ms[..|ms| - 1]), AttOf(ms[|ms| - 1]).key);
  }

  lemma MatchKeysLast(ms: seq<string>)
    requires |ms| > 0
    ensures MatchKeys(ms) == MatchKeys(ms[..|ms| - 1]) + [AttOf(ms[|ms| - 1]).key]
  {
  }

  lemma NoDupSnoc<T>(xs: seq<T>, x: T)
    requires NoDup(xs + [x])
    ensures NoDup(xs) && x !in xs
  {
    assert forall i :: 0 <= i < |xs| ==> (xs + [x])[i] == xs[i];
    assert (xs + [x])[|xs|] == x;
  }

  lemma AttOfsSnoc(ms: seq<string>)
    requires |ms| > 0
    ensures AttOfs(ms) == AttOfs(ms[..|ms| - 1]) + [AttOf(ms[|ms| - 1])]
  {
    var init := ms[..|ms| - 1];
    forall i | 0 <= i < |init|
      ensures AttOfs(ms)[i] == AttOfs(init)[i]
    {
      assert init[i] == ms[i];
    }
  }

  lemma AttOfsKeys(ms: seq<string>)
    ensures Keys(AttOfs(ms)) == MatchKeys(ms)
  {
  }

  lemma {:induction false} UnsetAbsent(atts: seq<Attr>, key: string)
    requires key !in Keys(atts)
    ensures Unset(atts, key) == atts
  {
    if |atts| > 0 {
      assert Keys(atts) == [atts[0].key] + Keys(atts[1..]);
      UnsetAbsent(atts[1..], key);
    }
  }

  /** The item pair of a non-empty set. */
  function SetPairs(name: string, xs: seq<string>): seq<(string, string)> {
    if |xs| == 0 then [] else [(name, Implode(' ', xs))]
  }

  function AttPairs(atts: seq<Attr>): (r: seq<(string, string)>)
    requires AllSet(atts)
    ensures |r| == |atts|
    ensures forall i :: 0 <= i < |atts| ==> r[i] == (atts[i].key, atts[i].value.value)
  {
    if |atts| == 0 then [] else [(atts[0].key, atts[0].value.value)] + AttPairs(atts[1..])
  }

  /** The attributes the pairs stand for. */
  function PairAttrs(pairs: seq<(string, string)>): (r: seq<Attr>)
    ensures |r| == |pairs|
    ensures forall i :: 0 <= i < |pairs| ==> r[i] == Attr(pairs[i].0, Some(pairs[i].1))
  {
    if |pairs| == 0 then [] else [Attr(pairs[0].0, Some(pairs[0].1))] + PairAttrs(pairs[1..])
  }

  lemma SetPairsGood(name: string, xs: seq<string>)
    requires GoodKey(name) && PlainSet(xs)
    ensures GoodPairs(SetPairs(name, xs))
    ensures QItems(SetPairs(name, xs)) == SetItem(name, xs)
  {
    if |xs| > 0 {
      ImplodeFree(' ', xs, '"');
      ImplodeFree(' ', xs, '\'');
    }
  }

  /** Extracting a set written by att2str gives the set back and leaves the rest. */
  lemma ExtractSet(rest: seq<Attr>, name: string, xs: seq<string>)
    requires PlainSet(xs) && name !in Keys(rest)
    ensures Extract(PairAttrs(SetPairs(name, xs)) + rest, name) == (xs, rest)
  {
    var head := PairAttrs(SetPairs(name, xs));
    if |xs| == 0 {
      assert head + rest == rest;
      LookupKeys(rest, name);
    } else {
      var v := Implode(' ', xs);
      var atts := head + rest;
      assert atts[0] == Attr(name, Some(v)) && atts[1..] == rest;
      assert Lookup(atts, name) == Some(Some(v));
      UnsetAbsent(rest, name);
      assert Unset(atts, name) == rest;
      ExplodeImplode(' ', xs);
      DedupOfDistinct(xs);
    }
  }

  lemma SetPairsKeys(name: string, xs: seq<string>)
    ensures Keys(PairAttrs(SetPairs(name, xs))) == if |xs| == 0 then [] else [name]
  {
  }

  /** att2str's items of plain data, as pairs of a key and a value. */
  function ItemPairs(d: TagData): seq<(string, string)>
    requires Plain(d)
  {
    SetPairs("id", d.ids) + SetPairs("class", d.classes) + AttPairs(d.attributes)
  }

  lemma QItemsAppend(a: seq<(string, string)>, b: seq<(string, string)>)
    ensures QItems(a + b) == QItems(a) + QItems(b)
  {
    assert forall i :: 0 <= i < |a + b| ==> QItems(a + b)[i] == (QItems(a) + QItems(b))[i];
  }

  lemma PairAttrsAppend(a: seq<(string, string)>, b: seq<(string, string)>)
    ensures PairAttrs(a + b) == PairAttrs(a) + PairAttrs(b)
  {
    assert forall i :: 0 <= i < |a + b| ==> PairAttrs(a + b)[i] == (PairAttrs(a) + PairAttrs(b))[i];
  }

  lemma AttItemQuoted(a: Attr)
    requires a.value.Some? && '"' !in a.value.value
    ensures AttItem(a) == QItem(a.key, a.value.value)
  {
    var v := a.value.value;
    assert QuoteFor(v) == '"';
    assert "=" + ['"'] == "=\"";
    assert AttItem(a) == a.key + ("=" + ['"']) + v + ['"'];
  }

  lemma AttPairsFacts(atts: seq<Attr>)
    requires forall i :: 0 <= i < |atts| ==> PlainAttr(atts[i])
    ensures AllSet(atts)
    ensures GoodPairs(AttPairs(atts))
    ensures QItems(AttPairs(atts)) == AttItems(atts)
    ensures PairAttrs(AttPairs(atts)) == atts
  {
    assert AllSet(atts) by {
      forall i | 0 <= i < |atts|
        ensures atts[i].value.Some?
      {
        assert PlainAttr(atts[i]);
      }
    }
    var ps := AttPairs(atts);
    forall i | 0 <= i < |ps|
      ensures GoodKey(ps[i].0) && QuoteFree(ps[i].1)
      ensures QItems(ps)[i] == AttItems(atts)[i]
      ensures PairAttrs(ps)[i] == atts[i]
    {
      assert PlainAttr(atts[i]);
      AttItemQuoted(atts[i]);
    }
    assert QItems(ps) == AttItems(atts);
    assert PairAttrs(ps) == atts;
  }

  lemma NameKeys()
    ensures GoodKey("id") && GoodKey("class")
  {
    assert IsNameChar('i') && IsNameChar('d');
    assert IsNameChar('c') && IsNameChar('l') && IsNameChar('a') && IsNameChar('s');
  }

  lemma GoodPairsAppend(a: seq<(string, string)>, b: seq<(string, string)>)
    requires GoodPairs(a) && GoodPairs(b)
    ensures GoodPairs(a + b)
  {
    forall i | 0 <= i < |a + b|
      ensures GoodKey((a + b)[i].0) && QuoteFree((a + b)[i].1)
    {
      if i < |a| {
        assert (a + b)[i] == a[i];
      } else {
        assert (a + b)[i] == b[i - |a|];
      }
    }
  }

  lemma AttrsAssoc(a: seq<Attr>, b: seq<Attr>, c: seq<Attr>)
    ensures a + b + c == a + (b + c)
  {
  }

  /** The three runs of pairs att2str writes, taken together. */
  lemma PairRuns(p1: seq<(string, string)>, p2: seq<(string, string)>, p3: seq<(string, string)>)
    requires GoodPairs(p1) && GoodPairs(p2) && GoodPairs(p3)
    ensures GoodPairs(p1 + p2 + p3)
    ensures QItems(p1 + p2 + p3) == QItems(p1) + QItems(p2) + QItems(p3)
    ensures PairAttrs(p1 + p2 + p3) == PairAttrs(p1) + (PairAttrs(p2) + PairAttrs(p3))
  {
    GoodPairsAppend(p1, p2);
    GoodPairsAppend(p1 + p2, p3);
    QItemsAppend(p1 + p2, p3);
    QItemsAppend(p1, p2);
    PairAttrsAppend(p1 + p2, p3);
    PairAttrsAppend(p1, p2);
    AttrsAssoc(PairAttrs(p1), PairAttrs(p2), PairAttrs(p3));
  }

  lemma ItemPairsFacts(d: TagData)
    requires Plain(d)
    ensures GoodPairs(ItemPairs(d))
    ensures QItems(ItemPairs(d)) == AllItems(d)
    ensures PairAttrs(ItemPairs(d))
            == PairAttrs(SetPairs("id", d.ids)) + (PairAttrs(SetPairs("class", d.classes)) + d.attributes)
  {
    NameKeys();
    SetPairsGood("id", d.ids);
    SetPairsGood("class", d.classes);
    AttPairsFacts(d.attributes);
    PairRuns(SetPairs("id", d.ids), SetPairs("class", d.classes), AttPairs(d.attributes));
  }

  lemma KeysAppend(a: seq<Attr>, b: seq<Attr>)
    ensures Keys(a + b) == Keys(a) + Keys(b)
  {
    assert forall i :: 0 <= i < |a + b| ==> Keys(a + b)[i] == (Keys(a) + Keys(b))[i];
  }

  /** The matches of att2str's text are its items, one attribute each. */
  lemma ParsedMatches(d: TagData)
    requires Plain(d)
    ensures AttMatches(Att2Str(d), 0) == QItems(ItemPairs(d))
  {
    var s := Att2Str(d);
    var items := AllItems(d);
    ItemPairsFacts(d);
    if |items| == 0 {
      assert s == "";
    } else {
      ImplodeSpaceJoin(items);
      assert s[0..] == s;
      MatchesJoin(s, 0, ItemPairs(d));
    }
  }

  /** Matches that each stand for one attribute of a distinct-keyed list fold to that list. */
  lemma FoldOfDistinct(ms: seq<string>, want: seq<Attr>)
    requires |ms| == |want| && NoDup(Keys(want))
    requires forall i :: 0 <= i < |ms| ==> AttOf(ms[i]) == want[i]
    ensures AttFold(ms) == want
  {
    var got := AttOfs(ms);
    assert got == want;
    var ks := MatchKeys(ms);
    assert ks == Keys(want);
    AttFoldDistinct(ms);
  }

  lemma ParsedFold(pairs: seq<(string, string)>)
    requires GoodPairs(pairs) && NoDup(Keys(PairAttrs(pairs)))
    ensures AttFold(QItems(pairs)) == PairAttrs(pairs)
  {
    var items := QItems(pairs);
    var want := PairAttrs(pairs);
    forall i | 0 <= i < |items|
      ensures AttOf(items[i]) == want[i]
    {
      AttOfQItem(pairs[i].0, pairs[i].1);
    }
    FoldOfDistinct(items, want);
  }

  lemma ParsedKeys(d: TagData)
    requires Plain(d)
    ensures "id" !in Keys(PairAttrs(SetPairs("class", d.classes)) + d.attributes)
    ensures "class" !in Keys(d.attributes)
    ensures NoDup(Keys(PairAttrs(SetPairs("id", d.ids)) + (PairAttrs(SetPairs("class", d.classes)) + d.attributes)))
  {
    var h1 := PairAttrs(SetPairs("id", d.ids));
    var h2 := PairAttrs(SetPairs("class", d.classes));
    var atts := d.attributes;
    SetPairsKeys("id", d.ids);
    SetPairsKeys("class", d.classes);
    KeysAppend(h2, atts);
    KeysAppend(h1, h2 + atts);
    forall i | 0 <= i < |atts|
      ensures atts[i].key != "id" && atts[i].key != "class"
    {
      assert PlainAttr(atts[i]);
    }
    assert "id" !in Keys(atts) && "class" !in Keys(atts);
    NoDupAppend(Keys(h2), Keys(atts));
    NoDupAppend(Keys(h1), Keys(h2) + Keys(atts));
  }

  /**
   * The constructor parses att2str's text back into the same element
   * data, for data whose names and values att2str writes unambiguously.
   */
  lemma Att2StrRoundTrip(d: TagData)
    requires Plain(d)
    ensures NewTagData(d.tag, Att2Str(d), d.closing) == d
  {
    var h1 := PairAttrs(SetPairs("id", d.ids));
    var h2 := PairAttrs(SetPairs("class", d.classes));
    ItemPairsFacts(d);
    ParsedMatches(d);
    ParsedKeys(d);
    ParsedFold(ItemPairs(d));
    assert AttFold(AttMatches(Att2Str(d), 0)) == h1 + (h2 + d.attributes);
    ExtractSet(h2 + d.attributes, "id", d.ids);
    ExtractSet(d.attributes, "class", d.classes);
  }
}

/**
 * The element state of the newer TagNode: a tag name, a closing mode, an
 * ordered attribute map, and the id and class sets. Attribute text is
 * parsed by the constructor; att2str writes it back out.
 */
module Elements {
  import opened Prelude

  /** ClosingType: YES has a close tag, NO is still open (or never closed), SELF is `<x />`. */
  datatype Closing = Yes | No | Self

  /** One attribute; a PHP null value is None. */
  datatype Attr = Attr(key: string, value: Option<string>)

  datatype TagData = TagData(tag: string, closing: Closing, attributes: seq<Attr>,
                             ids: seq<string>, classes: seq<string>)

  // ------------------------------------------------------- ordered attribute map

  function Keys(atts: seq<Attr>): (r: seq<string>)
    ensures |r| == |atts|
    ensures forall i :: 0 <= i < |atts| ==> r[i] == atts[i].key
  {
    if |atts| == 0 then [] else [atts[0].key] + Keys(atts[1..])
  }

  /** The value stored under key, if the key is present. */
  function Lookup(atts: seq<Attr>, key: string): Option<Option<string>> {
    if |atts| == 0 then None
    else if atts[0].key == key then Some(atts[0].value)
    else Lookup(atts[1..], key)
  }

  /**
   * `$attributes[$key] = $value`: an existing key keeps its position and
   * takes the new value, a new key goes last.
   */
  function Put(atts: seq<Attr>, key: string, value: Option<string>): seq<Attr> {
    if |atts| == 0 then [Attr(key, value)]
    else if atts[0].key == key then [Attr(key, value)] + atts[1..]
    else [atts[0]] + Put(atts[1..], key, value)
  }

  /** `unset($attributes[$key])`. */
  function Unset(atts: seq<Attr>, key: string): seq<Attr> {
    if |atts| == 0 then []
    else if atts[0].key == key then Unset(atts[1..], key)
    else [atts[0]] + Unset(atts[1..], key)
  }

  lemma {:induction false} LookupKeys(atts: seq<Attr>, key: string)
    ensures Lookup(atts, key).None? <==> key !in Keys(atts)
    ensures Lookup(atts, key).Some? ==> Attr(key, Lookup(atts, key).value) in atts
  {
    if |atts| > 0 {
      LookupKeys(atts[1..], key);
      assert Keys(atts) == [atts[0].key] + Keys(atts[1..]);
    }
  }

  /** After a put, the key holds the new value and every other key is unchanged. */
  lemma {:induction false} PutLookup(atts: seq<Attr>, key: string, value: Option<string>, k: string)
    ensures Lookup(Put(atts, key, value), k) == if k == key then Some(value) else Lookup(atts, k)
  {
    if |atts| > 0 && atts[0].key != key {
      PutLookup(atts[1..], key, value, k);
      assert ([atts[0]] + Put(atts[1..], key, value))[1..] == Put(atts[1..], key, value);
    }
  }

  /** A put keeps the key order, adding a new key last. */
  lemma {:induction false} PutKeys(atts: seq<Attr>, key: string, value: Option<string>)
    ensures Keys(Put(atts, key, value)) == if key in Keys(atts) then Keys(atts) else Keys(atts) + [key]
  {
    if |atts| > 0 {
      assert Keys(atts) == [atts[0].key] + Keys(atts[1..]);
      if atts[0].key != key {
        var rest := Put(atts[1..], key, value);
        PutKeys(atts[1..], key, value);
        assert ([atts[0]] + rest)[1..] == rest;
        assert Keys([atts[0]] + rest) == [atts[0].key] + Keys(rest);
      } else {
        assert ([Attr(key, value)] + atts[1..])[1..] == atts[1..];
        assert Keys([Attr(key, value)] + atts[1..]) == [key] + Keys(atts[1..]);
      }
    }
  }

  /** After an unset, the key is gone and every other key is unchanged. */
  lemma {:induction false} UnsetLookup(atts: seq<Attr>, key: string, k: string)
    ensures Lookup(Unset(atts, key), k) == if k == key then None else Lookup(atts, k)
  {
    if |atts| > 0 {
      UnsetLookup(atts[1..], key, k);
      if atts[0].key != key {
        assert ([atts[0]] + Unset(atts[1..], key))[1..] == Unset(atts[1..], key);
      }
    }
  }

  lemma {:induction false} UnsetKeys(atts: seq<Attr>, key: string)
    ensures forall k :: k in Keys(Unset(atts, key)) <==> k in Keys(atts) && k != key
    ensures NoDup(Keys(atts)) ==> NoDup(Keys(Unset(atts, key)))
  {
    if |atts| > 0 {
      UnsetKeys(atts[1..], key);
      assert Keys(atts) == [atts[0].key] + Keys(atts[1..]);
      if atts[0].key != key {
        var rest := Unset(atts[1..], key);
        assert ([atts[0]] + rest)[1..] == rest;
        assert Keys([atts[0]] + rest) == [atts[0].key] + Keys(rest);
        if NoDup(Keys(atts)) {
          assert Keys(atts[1..]) == Keys(atts)[1..];
          assert atts[0].key !in Keys(atts[1..]);
          assert atts[0].key !in Keys(rest);
        }
      } else if NoDup(Keys(atts)) {
        assert Keys(atts[1..]) == Keys(atts)[1..];
      }
    }
  }

  // --------------------------------------------------------- id and class sets

  /** `$set[$x] = true` on a set kept as the keys of a PHP array. */
  function AddKey(xs: seq<string>, x: string): (r: seq<string>)
    ensures x in r
    ensures forall y :: y != x ==> (y in r <==> y in xs)
    ensures NoDup(xs) ==> NoDup(r)
    ensures x in xs ==> r == xs
  {
    if x in xs then xs else xs + [x]
  }

  /** `unset($set[$x])`. */
  function RemoveKey(xs: seq<string>, x: string): (r: seq<string>)
    ensures x !in r
    ensures forall y :: y != x ==> (y in r <==> y in xs)
    ensures NoDup(xs) ==> NoDup(r)
  {
    if |xs| == 0 then []
    else if xs[0] == x then RemoveKey(xs[1..], x)
    else
      var rest := RemoveKey(xs[1..], x);
      assert NoDup(xs) ==> NoDup(xs[1..]) && xs[0] !in rest;
      [xs[0]] + rest
  }

  /** hasClass / hasId with an array: array_diff against the keys is empty. */
  predicate HasAll(xs: seq<string>, wanted: seq<string>) {
    forall i :: 0 <= i < |wanted| ==> wanted[i] in xs
  }

  lemma AddKeyIdempotent(xs: seq<string>, x: string)
    ensures AddKey(AddKey(xs, x), x) == AddKey(xs, x)
  {
  }

  // ----------------------------------------------------- attribute text scanner

  /** `[^\s='"\/]`, the characters of an attribute name. */
  predicate IsNameChar(c: char) {
    !IsSpace(c) && c != '=' && c != '\'' && c != '"' && c != '/'
  }

  /** `[^'"\/\s]`, the characters of an unquoted value. */
  predicate IsBareValueChar(c: char) {
    !IsSpace(c) && c != '\'' && c != '"' && c != '/'
  }

  predicate IsQuote(c: char) {
    c == '"' || c == '\''
  }

  /** End of the longest run from k of characters passing ok. */
  function RunEnd(s: string, k: nat, ok: char -> bool): (e: nat)
    requires k <= |s|
    ensures k <= e <= |s|
    ensures forall i :: k <= i < e ==> ok(s[i])
    ensures e < |s| ==> !ok(s[e])
    decreases |s| - k
  {
    if k == |s| || !ok(s[k]) then k else RunEnd(s, k + 1, ok)
  }

  /**
   * The end of the match of the attribute pattern at k, if one starts
   * there. The four alternatives, in priority order, are name="v",
   * name='v', name=v and a bare name; the greedy name always takes the
   * whole run, and a quote without its partner falls through to name=.
   */
  function AttMatchEnd(s: string, k: nat): (r: Option<nat>)
    requires k < |s|
    ensures r.Some? ==> k < r.value <= |s|
    ensures r.Some? <==> IsNameChar(s[k])
  {
    if !IsNameChar(s[k]) then None
    else
      var j := RunEnd(s, k, IsNameChar);
      if j + 1 < |s| && s[j] == '=' && IsQuote(s[j + 1])
         && FirstIndex(s[j + 2..], s[j + 1]) < |s| - (j + 2)
      then Some(j + 3 + FirstIndex(s[j + 2..], s[j + 1]))
      else if j < |s| && s[j] == '=' then Some(RunEnd(s, j + 1, IsBareValueChar))
      else Some(j)
  }

  /** preg_match_all of the attribute pattern from k: the matched texts, left to right. */
  function AttMatches(s: string, k: nat): (r: seq<string>)
    requires k <= |s|
    ensures forall i :: 0 <= i < |r| ==> |r[i]| > 0 && IsNameChar(r[i][0])
    decreases |s| - k
  {
    if k == |s| then []
    else match AttMatchEnd(s, k)
      case None => AttMatches(s, k + 1)
      case Some(e) => [s[k..e]] + AttMatches(s, e)
  }

  /**
   * One match: explode('=', m, 2); the key is what precedes the first `=`
   * and keeps its case, the value is the rest with quote characters trimmed
   * from both ends, or "" (trim of null) when there is no `=`.
   */
  function AttOf(m: string): (a: Attr)
    ensures a.value.Some?
    ensures '=' !in a.key && |a.key| <= |m| && a.key == m[..|a.key|]
  {
    var i := FirstIndex(m, '=');
    Attr(m[..i], Some(if i < |m| then Trim(m[i + 1..], IsQuote) else ""))
  }

  /** Every attribute holds a string value (none holds null). */
  predicate AllSet(atts: seq<Attr>) {
    forall i :: 0 <= i < |atts| ==> atts[i].value.Some?
  }

  lemma {:induction false} PutAllSet(atts: seq<Attr>, key: string, value: Option<string>)
    requires AllSet(atts) && value.Some?
    ensures AllSet(Put(atts, key, value))
  {
    if |atts| > 0 && atts[0].key != key {
      PutAllSet(atts[1..], key, value);
    }
  }

  lemma {:induction false} UnsetAllSet(atts: seq<Attr>, key: string)
    requires AllSet(atts)
    ensures AllSet(Unset(atts, key))
  {
    if |atts| > 0 {
      UnsetAllSet(atts[1..], key);
    }
  }

  /** The attribute map the constructor loop builds from the matches. */
  function AttFold(ms: seq<string>): seq<Attr> {
    if |ms| == 0 then []
    else
      var a := AttOf(ms[|ms| - 1]);
      Put(AttFold(ms[..|ms| - 1]), a.key, a.value)
  }

  lemma {:induction false} AttFoldAllSet(ms: seq<string>)
    ensures AllSet(AttFold(ms))
  {
    if |ms| > 0 {
      AttFoldAllSet(ms[..|ms| - 1]);
      var a := AttOf(ms[|ms| - 1]);
      PutAllSet(AttFold(ms[..|ms| - 1]), a.key, a.value);
    }
  }

  /** The value of the last match that has key k, as the loop leaves it. */
  function LastValue(ms: seq<string>, k: string): Option<Option<string>> {
    if |ms| == 0 then None
    else if AttOf(ms[|ms| - 1]).key == k then Some(AttOf(ms[|ms| - 1]).value)
    else LastValue(ms[..|ms| - 1], k)
  }

  /** A repeated attribute keeps the value of its last occurrence. */
  lemma {:induction false} AttFoldLookup(ms: seq<string>, k: string)
    ensures Lookup(AttFold(ms), k) == LastValue(ms, k)
  {
    if |ms| > 0 {
      AttFoldLookup(ms[..|ms| - 1], k);
      var a := AttOf(ms[|ms| - 1]);
      PutLookup(AttFold(ms[..|ms| - 1]), a.key, a.value, k);
    }
  }

  function MatchKeys(ms: seq<string>): (r: seq<string>)
    ensures |r| == |ms|
    ensures forall i :: 0 <= i < |ms| ==> r[i] == AttOf(ms[i]).key
  {
    if |ms| == 0 then [] else MatchKeys(ms[..|ms| - 1]) + [AttOf(ms[|ms| - 1]).key]
  }

  /** Keys are distinct and appear in the order of their first occurrence. */
  lemma {:induction false} AttFoldKeys(ms: seq<string>)
    ensures Keys(AttFold(ms)) == Dedup(MatchKeys(ms))
    ensures NoDup(Keys(AttFold(ms)))
  {
    if |ms| > 0 {
      var init := ms[..|ms| - 1];
      AttFoldKeys(init);
      var a := AttOf(ms[|ms| - 1]);
      PutKeys(AttFold(init), a.key, a.value);
      var ks := MatchKeys(ms);
      assert ks[..|ks| - 1] == MatchKeys(init);
    }
  }

  /** The constructor loop over the matches of the attribute text. */
  method ParseAttributes(rawAtt: string) returns (atts: seq<Attr>)
    ensures atts == AttFold(AttMatches(rawAtt, 0))
  {
    var ms := AttMatches(rawAtt, 0);
    atts := [];
    var i := 0;
    while i < |ms|
      invariant 0 <= i <= |ms|
      invariant atts == AttFold(ms[..i])
    {
      var a := AttOf(ms[i]);
      assert ms[..i + 1][..i] == ms[..i];
      atts := Put(atts, a.key, a.value);
      i := i + 1;
    }
    assert ms[..|ms|] == ms;
  }

  /**
   * The `foreach (['id', 'class'] ...)` step for one name: a set value is
   * split on ' ' into a set and removed from the map.
   */
  function Extract(atts: seq<Attr>, name: string): (r: (seq<string>, seq<Attr>))
    ensures NoDup(r.0)
    ensures match Lookup(atts, name)
      case Some(Some(v)) => r == (Dedup(Explode(' ', v)), Unset(atts, name))
      case _ => r == ([], atts)
  {
    match Lookup(atts, name)
    case Some(Some(v)) => (Dedup(Explode(' ', v)), Unset(atts, name))
    case _ => ([], atts)
  }

  /** What Extract leaves in the map: the other keys, unchanged. */
  lemma ExtractRest(atts: seq<Attr>, name: string)
    ensures NoDup(Keys(atts)) ==> NoDup(Keys(Extract(atts, name).1))
    ensures AllSet(atts) ==> AllSet(Extract(atts, name).1)
    ensures AllSet(atts) ==> name !in Keys(Extract(atts, name).1)
    ensures forall k :: k in Keys(Extract(atts, name).1) ==> k in Keys(atts)
    ensures forall k :: k != name ==> Lookup(Extract(atts, name).1, k) == Lookup(atts, k)
  {
    UnsetKeys(atts, name);
    LookupKeys(atts, name);
    forall k | k != name
      ensures Lookup(Extract(atts, name).1, k) == Lookup(atts, k)
    {
      UnsetLookup(atts, name, k);
    }
    if AllSet(atts) {
      UnsetAllSet(atts, name);
      if Lookup(atts, name).Some? {
        var v := Lookup(atts, name).value;
        var i :| 0 <= i < |atts| && atts[i] == Attr(name, v);
      }
    }
  }

  /** The constructor with a string of attributes (the parser's and wrap's form). */
  function NewTagData(tag: string, rawAtt: string, closing: Closing): (d: TagData)
    ensures d.tag == tag && d.closing == closing
    ensures NoDup(Keys(d.attributes)) && NoDup(d.ids) && NoDup(d.classes)
    ensures "id" !in Keys(d.attributes) && "class" !in Keys(d.attributes)
    ensures AllSet(d.attributes)
  {
    var atts := AttFold(AttMatches(rawAtt, 0));
    AttFoldKeys(AttMatches(rawAtt, 0));
    AttFoldAllSet(AttMatches(rawAtt, 0));
    var (ids, a1) := Extract(atts, "id");
    ExtractRest(atts, "id");
    var (classes, a2) := Extract(a1, "class");
    ExtractRest(a1, "class");
    TagData(tag, closing, a2, ids, classes)
  }

  /** The set a `Lookup` result yields: the value split on ' ', or none. */
  function SplitSet(v: Option<Option<string>>): seq<string> {
    match v
    case Some(Some(x)) => Dedup(Explode(' ', x))
    case _ => []
  }

  /**
   * What the constructor reads out of the attribute text: the ids and the
   * classes are the last `id` and `class` values split on ' ', and every
   * other key holds the value of its last occurrence.
   */
  lemma NewTagDataLookup(tag: string, rawAtt: string, closing: Closing)
    ensures NewTagData(tag, rawAtt, closing).ids == SplitSet(LastValue(AttMatches(rawAtt, 0), "id"))
    ensures NewTagData(tag, rawAtt, closing).classes == SplitSet(LastValue(AttMatches(rawAtt, 0), "class"))
    ensures forall k :: k != "id" && k != "class" ==>
      Lookup(NewTagData(tag, rawAtt, closing).attributes, k) == LastValue(AttMatches(rawAtt, 0), k)
  {
    var ms := AttMatches(rawAtt, 0);
    var atts := AttFold(ms);
    ExtractBoth(atts);
    AttFoldLookup(ms, "id");
    AttFoldLookup(ms, "class");
    forall k | k != "id" && k != "class"
      ensures Lookup(Extract(Extract(atts, "id").1, "class").1, k) == LastValue(ms, k)
    {
      AttFoldLookup(ms, k);
    }
  }

  /** The two extraction steps of the constructor, on any attribute map. */
  lemma ExtractBoth(atts: seq<Attr>)
    ensures Extract(atts, "id").0 == SplitSet(Lookup(atts, "id"))
    ensures Extract(Extract(atts, "id").1, "class").0 == SplitSet(Lookup(atts, "class"))
    ensures forall k :: k != "id" && k != "class" ==>
      Lookup(Extract(Extract(atts, "id").1, "class").1, k) == Lookup(atts, k)
  {
    var a1 := Extract(atts, "id").1;
    ExtractKeeps(atts, "id", "class");
    forall k | k != "id" && k != "class"
      ensures Lookup(Extract(a1, "class").1, k) == Lookup(atts, k)
    {
      ExtractKeeps(atts, "id", k);
      ExtractKeeps(a1, "class", k);
    }
  }

  /** Extract leaves every other key's entry as it was. */
  lemma ExtractKeeps(atts: seq<Attr>, name: string, k: string)
    requires k != name
    ensures Lookup(Extract(atts, name).1, k) == Lookup(atts, k)
  {
    UnsetLookup(atts, name, k);
  }

  /** The constructor with an array of attributes, whose keys PHP keeps distinct. */
  function NewTagDataFrom(tag: string, atts: seq<Attr>, closing: Closing): (d: TagData)
    requires NoDup(Keys(atts))
    ensures d.tag == tag && d.closing == closing
    ensures NoDup(Keys(d.attributes)) && NoDup(d.ids) && NoDup(d.classes)
    ensures forall k :: k != "id" && k != "class" ==> Lookup(d.attributes, k) == Lookup(atts, k)
  {
    var (ids, a1) := Extract(atts, "id");
    ExtractRest(atts, "id");
    var (classes, a2) := Extract(a1, "class");
    ExtractRest(a1, "class");
    TagData(tag, closing, a2, ids, classes)
  }

  // ------------------------------------------------------------ accessors

  /** hasAttribute: isset, so a key holding null does not count. */
  predicate HasAttribute(d: TagData, key: string) {
    Lookup(d.attributes, key).Some? && Lookup(d.attributes, key).value.Some?
  }

  /** getAttribute: null unless hasAttribute. */
  function GetAttribute(d: TagData, key: string): (r: Option<string>)
    ensures r.Some? <==> HasAttribute(d, key)
    ensures r.Some? ==> Lookup(d.attributes, key) == Some(r)
  {
    if HasAttribute(d, key) then Lookup(d.attributes, key).value else None
  }

  function SetAttribute(d: TagData, key: string, value: Option<string>): (r: TagData)
    ensures GetAttribute(r, key) == value
    ensures forall k :: k != key ==> GetAttribute(r, k) == GetAttribute(d, k)
    ensures Keys(r.attributes) == if key in Keys(d.attributes) then Keys(d.attributes) else Keys(d.attributes) + [key]
    ensures r.(attributes := d.attributes) == d
  {
    PutKeys(d.attributes, key, value);
    forall k
      ensures Lookup(Put(d.attributes, key, value), k) == if k == key then Some(value) else Lookup(d.attributes, k)
    {
      PutLookup(d.attributes, key, value, k);
    }
    d.(attributes := Put(d.attributes, key, value))
  }

  // --------------------------------------------------------------- att2str

  function QuoteFor(v: string): char {
    if '"' in v then '\'' else '"'
  }

  /** One attribute as att2str writes it. */
  function AttItem(a: Attr): string {
    match a.value
    case None => a.key
    case Some(v) => a.key + "=" + [QuoteFor(v)] + v + [QuoteFor(v)]
  }

  function AttItems(atts: seq<Attr>): (r: seq<string>)
    ensures |r| == |atts|
    ensures forall i :: 0 <= i < |atts| ==> r[i] == AttItem(atts[i])
  {
    if |atts| == 0 then [] else [AttItem(atts[0])] + AttItems(atts[1..])
  }

  /** The id and class items, each present only when its set is not empty. */
  function SetItem(name: string, xs: seq<string>): seq<string> {
    if |xs| == 0 then [] else [name + "=\"" + Implode(' ', xs) + "\""]
  }

  /** Every item written, in order: id, class, then the attributes. */
  function AllItems(d: TagData): seq<string> {
    SetItem("id", d.ids) + SetItem("class", d.classes) + AttItems(d.attributes)
  }

  /** att2str: a leading space, then the items separated by spaces; "" when there are none. */
  function Att2Str(d: TagData): (r: string)
    ensures r == "" <==> d.ids == [] && d.classes == [] && d.attributes == []
    ensures r != "" ==> r[0] == ' '
  {
    var items := AllItems(d);
    if |items| == 0 then ""
    else
      assert |SetItem("id", d.ids)| + |SetItem("class", d.classes)| + |d.attributes| == |items|;
      " " + Implode(' ', items)
  }

  // ---------------------------------------------------------- class and id

  /**
   * addClass: the class becomes present, the classes already present stay,
   * and nothing else of the tag changes.
   */
  function AddClass(d: TagData, c: string): (r: TagData)
    ensures HasAll(r.classes, [c])
    ensures forall w :: HasAll(d.classes, w) ==> HasAll(r.classes, w)
    ensures forall y :: y in r.classes ==> y == c || y in d.classes
    ensures NoDup(d.classes) ==> NoDup(r.classes)
    ensures r == d.(classes := r.classes)
  {
    d.(classes := AddKey(d.classes, c))
  }

  /**
   * removeClass: the class is gone, every request not naming it is answered
   * as before, and nothing else of the tag changes.
   */
  function RemoveClass(d: TagData, c: string): (r: TagData)
    ensures !HasAll(r.classes, [c])
    ensures forall w :: c !in w ==> (HasAll(r.classes, w) <==> HasAll(d.classes, w))
    ensures NoDup(d.classes) ==> NoDup(r.classes)
    ensures r == d.(classes := r.classes)
  {
    assert [c][0] == c;
    d.(classes := RemoveKey(d.classes, c))
  }

  /** addId, as addClass for the ids. */
  function AddId(d: TagData, x: string): (r: TagData)
    ensures HasAll(r.ids, [x])
    ensures forall w :: HasAll(d.ids, w) ==> HasAll(r.ids, w)
    ensures forall y :: y in r.ids ==> y == x || y in d.ids
    ensures NoDup(d.ids) ==> NoDup(r.ids)
    ensures r == d.(ids := r.ids)
  {
    d.(ids := AddKey(d.ids, x))
  }

  /** removeId, as removeClass for the ids. */
  function RemoveId(d: TagData, x: string): (r: TagData)
    ensures !HasAll(r.ids, [x])
    ensures forall w :: x !in w ==> (HasAll(r.ids, w) <==> HasAll(d.ids, w))
    ensures NoDup(d.ids) ==> NoDup(r.ids)
    ensures r == d.(ids := r.ids)
  {
    assert [x][0] == x;
    d.(ids := RemoveKey(d.ids, x))
  }

  /** Adding a class twice is adding it once; removing it undoes adding it to a tag without it. */
  lemma AddRemoveClass(d: TagData, c: string)
    ensures AddClass(AddClass(d, c), c) == AddClass(d, c)
    ensures c !in d.classes ==> RemoveClass(AddClass(d, c), c).classes == RemoveKey(d.classes, c)
    ensures c !in d.classes && NoDup(d.classes) ==> RemoveClass(AddClass(d, c), c) == d
  {
    if c !in d.classes {
      RemoveKeyAppend(d.classes, c);
      if NoDup(d.classes) {
        RemoveKeyAbsent(d.classes, c);
      }
    }
  }

  lemma {:induction false} RemoveKeyAppend(xs: seq<string>, x: string)
    ensures RemoveKey(xs + [x], x) == RemoveKey(xs, x)
  {
    if |xs| == 0 {
      assert [x][1..] == [];
    } else {
      assert (xs + [x])[1..] == xs[1..] + [x];
      RemoveKeyAppend(xs[1..], x);
    }
  }

  lemma {:induction false} RemoveKeyAbsent(xs: seq<string>, x: string)
    requires x !in xs
    ensures RemoveKey(xs, x) == xs
  {
    if |xs| > 0 {
      RemoveKeyAbsent(xs[1..], x);
    }
  }
}

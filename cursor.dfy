/**
 * The character cursor the tokenizers walk the document with.
 */
module Cursor {

  /** key occurs in s starting at index k. */
  predicate OccursAt(s: string, key: string, k: nat) {
    k + |key| <= |s| && s[k..k + |key|] == key
  }

  /** PHP strpos(s, key, from): the first occurrence at or after from. */
  function IndexOf(s: string, key: string, from: nat): (r: int)
    requires from <= |s|
    ensures r == -1 || from <= r <= |s|
    ensures r >= 0 ==> OccursAt(s, key, r)
    ensures forall k :: from <= k <= |s| && (r == -1 || k < r) ==> !OccursAt(s, key, k)
    decreases |s| - from
  {
    if OccursAt(s, key, from) then from
    else if from == |s| then -1
    else IndexOf(s, key, from + 1)
  }

  /**
   * Where readUntil stops when called at p: just before the first key
   * (or just after it when `including`), or the end of s when there is none.
   */
  function ReadEnd(s: string, p: nat, key: string, including: bool): (e: nat)
    requires p <= |s|
    ensures p <= e <= |s|
    ensures IndexOf(s, key, p) == -1 ==> e == |s|
    ensures IndexOf(s, key, p) >= 0 && including ==> |key| <= e && OccursAt(s, key, e - |key|)
    ensures IndexOf(s, key, p) >= 0 && !including ==> OccursAt(s, key, e)
    ensures !including ==> forall k :: p <= k < e ==> !OccursAt(s, key, k)
    ensures including ==> forall k :: p <= k < e - |key| ==> !OccursAt(s, key, k)
  {
    var i := IndexOf(s, key, p);
    if i == -1 then |s| else if including then i + |key| else i
  }

  class Reader {
    const html: string
    var position: nat

    ghost predicate Valid()
      reads this
    {
      position <= |html|
    }

    constructor(html: string)
      ensures this.html == html && position == 0 && Valid()
    {
      this.html := html;
      position := 0;
    }

    /** Returns the text from the cursor up to the stop point and moves there. */
    method ReadUntil(key: string, including: bool) returns (r: string)
      requires Valid()
      modifies this
      ensures Valid()
      ensures position == ReadEnd(html, old(position), key, including)
      ensures r == html[old(position)..position]
    {
      var end := IndexOf(html, key, position);
      if end == -1 {
        end := |html|;
      } else if including {
        end := end + |key|;
      }
      r := html[position..end];
      position := end;
    }

    /** Does key occur at the cursor? */
    method DoesMatch(key: string) returns (b: bool)
      requires Valid()
      ensures b <==> OccursAt(html, key, position)
    {
      var l := |key|;
      if |html| - position < l {
        return false;
      }
      var i := 0;
      while i < l
        invariant 0 <= i <= l
        invariant forall j :: 0 <= j < i ==> html[position + j] == key[j]
      {
        if html[position + i] != key[i] {
          return false;
        }
        i := i + 1;
      }
      assert html[position..position + l] == key;
      return true;
    }

    /** Nothing is left to read. */
    method IsEnd() returns (b: bool)
      requires Valid()
      ensures b <==> html[position..] == ""
    {
      b := position >= |html|;
    }
  }
}

/**
 Substring search with the meaning of JavaScript's `String.prototype.includes`:
 `s.includes(sub)` holds when `sub` occurs at some position of `s`; the empty
 string occurs everywhere.
 */
module Strings {

  /** `sub` occurs in `s` starting at index `i`. */
  ghost predicate OccursAt(s: string, sub: string, i: int) {
    0 <= i && i + |sub| <= |s| && s[i..i + |sub|] == sub
  }

  /** `s.includes(sub)`, scanning start positions left to right. */
  predicate Contains(s: string, sub: string)
    decreases |s|
  {
    sub <= s || (|s| > 0 && Contains(s[1..], sub))
  }

  /** Whatever the scan finds occurs at some position. */
  lemma {:induction false} ContainsHasOccurrence(s: string, sub: string)
    requires Contains(s, sub)
    ensures exists i :: OccursAt(s, sub, i)
    decreases |s|
  {
    if sub <= s {
      assert OccursAt(s, sub, 0);
    } else {
      ContainsHasOccurrence(s[1..], sub);
      var i :| OccursAt(s[1..], sub, i);
      assert s[i + 1..i + 1 + |sub|] == s[1..][i..i + |sub|];
      assert OccursAt(s, sub, i + 1);
    }
  }

  /** Every occurrence is found by the scan. */
  lemma {:induction false} OccurrenceContains(s: string, sub: string, i: int)
    requires OccursAt(s, sub, i)
    ensures Contains(s, sub)
    decreases i
  {
    if i > 0 {
      assert s[1..][i - 1..i - 1 + |sub|] == s[i..i + |sub|];
      OccurrenceContains(s[1..], sub, i - 1);
    }
  }

  /** The scan finds `sub` exactly when it occurs at some position. */
  lemma ContainsIff(s: string, sub: string)
    ensures Contains(s, sub) <==> exists i :: OccursAt(s, sub, i)
  {
    if Contains(s, sub) {
      ContainsHasOccurrence(s, sub);
    }
    if exists i :: OccursAt(s, sub, i) {
      var i :| OccursAt(s, sub, i);
      OccurrenceContains(s, sub, i);
    }
  }

  /** An occurrence in a part is an occurrence in the whole. */
  lemma ContainsInfix(a: string, b: string, c: string, sub: string)
    requires Contains(b, sub)
    ensures Contains(a + b + c, sub)
  {
    ContainsIff(b, sub);
    var i :| OccursAt(b, sub, i);
    var s := a + b + c;
    assert s[|a| + i..|a| + i + |sub|] == b[i..i + |sub|];
    assert OccursAt(s, sub, |a| + i);
    ContainsIff(s, sub);
  }

  /** A needle longer than the haystack is never found. */
  lemma ContainsTooLong(s: string, sub: string)
    requires |sub| > |s|
    ensures !Contains(s, sub)
  {
    ContainsIff(s, sub);
  }

  /** In a haystack of the needle's length, the only candidate position is 0. */
  lemma ContainsSameLength(s: string, sub: string)
    requires |sub| == |s|
    ensures Contains(s, sub) <==> s == sub
  {
    ContainsIff(s, sub);
    if Contains(s, sub) {
      var i :| OccursAt(s, sub, i);
      assert i == 0;
    } else {
      assert !OccursAt(s, sub, 0);
    }
  }

  /** A string lacking one of the needle's characters contains no needle that has it. */
  lemma NotContainsChar(s: string, sub: string, k: int)
    requires 0 <= k < |sub|
    requires forall i :: 0 <= i < |s| ==> s[i] != sub[k]
    ensures !Contains(s, sub)
  {
    forall i | 0 <= i && i + |sub| <= |s|
      ensures !OccursAt(s, sub, i)
    {
      assert s[i..i + |sub|][k] == s[i + k];
    }
    ContainsIff(s, sub);
  }
}

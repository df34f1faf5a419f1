/** Substring search used by the file finder (server.go: stringContains, contains). */
module Strings {

  /** `sub` starts at offset `i` of `s`. */
  predicate OccursAt(s: string, sub: string, i: int) {
    0 <= i <= |s| - |sub| && s[i..i + |sub|] == sub
  }

  /** `sub` occurs in `s` at some offset: the meaning of Go's `stringContains`. */
  predicate Occurs(s: string, sub: string) {
    exists i | 0 <= i <= |s| - |sub| :: OccursAt(s, sub, i)
  }

  /** The index loop of `stringContains`: tries every offset from 0 to len(s)-len(sub). */
  method StringContains(s: string, sub: string) returns (found: bool)
    ensures found <==> Occurs(s, sub)
  {
    var i := 0;
    while i <= |s| - |sub|
      invariant 0 <= i
      invariant i <= |s| - |sub| + 1 || i == 0
      invariant forall k :: 0 <= k < i ==> !OccursAt(s, sub, k)
    {
      if s[i..i + |sub|] == sub {
        assert OccursAt(s, sub, i);
        return true;
      }
      i := i + 1;
    }
    return false;
  }

  /** Go's `contains(haystack, needle)`: `len(needle) > 0 && (needle == "" || stringContains(...))`. */
  predicate Contains(haystack: string, needle: string) {
    |needle| > 0 && (needle == "" || Occurs(haystack, needle))
  }

  /** The empty string occurs in every string. */
  lemma OccursEmpty(s: string)
    ensures Occurs(s, "")
  {
    assert OccursAt(s, "", 0);
  }

  /** A needle longer than the haystack never occurs. */
  lemma OccursTooLong(s: string, sub: string)
    requires |sub| > |s|
    ensures !Occurs(s, sub)
  {
  }

  /** `contains` is `Occurs` for a non-empty needle and false for the empty one:
      the `needle == ""` disjunct can never make it true. */
  lemma ContainsMeaning(haystack: string, needle: string)
    ensures needle == "" ==> !Contains(haystack, needle)
    ensures needle != "" ==> (Contains(haystack, needle) <==> Occurs(haystack, needle))
  {
  }

  /** A string occurs in any string that extends it on either side. */
  lemma OccursInFrame(pre: string, sub: string, post: string)
    ensures Occurs(pre + sub + post, sub)
  {
    var s := pre + sub + post;
    assert OccursAt(s, sub, |pre|);
  }
}

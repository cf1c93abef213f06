/**
 * The two string tests of the core: `strings.HasPrefix` (middleware/auth.go)
 * and the substring match that `LIKE '%s%'` performs (handlers/notes.go),
 * the latter for patterns without the wildcards `%`, `_` and `\`.
 */
module Text {

  predicate HasPrefix(s: string, prefix: string)
  {
    |prefix| <= |s| && s[..|prefix|] == prefix
  }

  /** `needle` occurs in `haystack` starting at position `i`. */
  predicate OccursAt(haystack: string, needle: string, i: nat)
  {
    i + |needle| <= |haystack| && haystack[i..i + |needle|] == needle
  }

  /** Substring search, trying each start position in turn. */
  function Contains(haystack: string, needle: string): (r: bool)
    ensures r <==> exists i: nat :: OccursAt(haystack, needle, i)
    decreases |haystack|
  {
    if HasPrefix(haystack, needle) then
      assert OccursAt(haystack, needle, 0);
      true
    else if haystack == [] then
      assert forall i: nat :: !OccursAt(haystack, needle, i);
      false
    else
      var tail := haystack[1..];
      var r := Contains(tail, needle);
      ShiftOccurrence(haystack, needle);
      assert !OccursAt(haystack, needle, 0);
      assert (exists i: nat :: OccursAt(haystack, needle, i)) ==> r by {
        if exists i: nat :: OccursAt(haystack, needle, i) {
          var i: nat :| OccursAt(haystack, needle, i);
          assert OccursAt(tail, needle, i - 1);
        }
      }
      r
  }

  /** Occurrences in `haystack[1..]` are the occurrences in `haystack` past position 0. */
  lemma ShiftOccurrence(haystack: string, needle: string)
    requires haystack != []
    ensures forall i: nat :: OccursAt(haystack[1..], needle, i) <==> OccursAt(haystack, needle, i + 1)
  {
    forall i: nat
      ensures OccursAt(haystack[1..], needle, i) <==> OccursAt(haystack, needle, i + 1)
    {
      if i + |needle| <= |haystack[1..]| {
        assert haystack[1..][i..i + |needle|] == haystack[i + 1..i + 1 + |needle|];
      }
    }
  }
}

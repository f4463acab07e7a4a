/** Textual containment, the only string operation the interceptor uses.

    JavaScript's `hay.includes(needle)` answers whether `needle` occurs as a
    contiguous, case-sensitive run of characters somewhere in `hay`; the empty
    string occurs everywhere. `Includes` is the scanning implementation and
    `IsSubstring` the declarative reference it is proved equal to.
 */
module Strings {

  /** `needle` occurs in `hay` starting at index `k`. */
  predicate OccursAt(hay: string, needle: string, k: int) {
    0 <= k && k + |needle| <= |hay| && hay[k..k + |needle|] == needle
  }

  /** `needle` is a contiguous substring of `hay`. */
  ghost predicate IsSubstring(needle: string, hay: string) {
    exists k :: OccursAt(hay, needle, k)
  }

  /** Scans `hay` for `needle` from index `from` onwards, one start position at a time. */
  function IncludesFrom(hay: string, needle: string, from: nat): (b: bool)
    ensures b <==> exists k :: from <= k && OccursAt(hay, needle, k)
    decreases |hay| - from
  {
    if from + |needle| > |hay| then
      false
    else if hay[from..from + |needle|] == needle then
      assert OccursAt(hay, needle, from);
      true
    else
      IncludesFrom(hay, needle, from + 1)
  }

  /** `hay.includes(needle)`: true exactly when `needle` is a substring of `hay`. */
  function Includes(hay: string, needle: string): (b: bool)
    ensures b <==> IsSubstring(needle, hay)
    ensures needle == "" ==> b
    ensures |needle| > |hay| ==> !b
  {
    assert needle == "" ==> OccursAt(hay, needle, 0);
    IncludesFrom(hay, needle, 0)
  }
}

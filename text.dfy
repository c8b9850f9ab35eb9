/**
 * Substring search on cell text, after `std::string::find`: the result is the
 * lowest position at which the needle starts, or no position at all (the C++
 * library's `npos`, modelled here as `None`). Text is a sequence of characters,
 * not bytes, so a position is a character index; whether the needle is found
 * at all is the same as for the UTF-8 bytes of the same text.
 */
module Text {
  import opened Wrappers

  /** `needle` starts at position `i` of `s`. */
  predicate OccursAt(s: string, needle: string, i: nat) {
    i + |needle| <= |s| && s[i..i + |needle|] == needle
  }

  /** `needle` occurs as a contiguous substring of `s`. */
  ghost predicate IsSubstring(needle: string, s: string) {
    exists i: nat :: OccursAt(s, needle, i)
  }

  /** The first occurrence of `needle` in `s` at or after position `from`. */
  function FindFrom(s: string, needle: string, from: nat): (r: Option<nat>)
    requires from <= |s|
    ensures r.Some? ==> from <= r.value && OccursAt(s, needle, r.value)
    ensures r.Some? ==> forall j: nat :: from <= j < r.value ==> !OccursAt(s, needle, j)
    ensures r.None? ==> forall j: nat :: from <= j ==> !OccursAt(s, needle, j)
    decreases |s| - from
  {
    if |s| < from + |needle| then None
    else if s[from..from + |needle|] == needle then Some(from)
    else FindFrom(s, needle, from + 1)
  }

  /**
   * `s.find(needle)`: the lowest start position of `needle` in `s`, or `None`
   * (npos) when there is none. An empty needle is found at position 0.
   */
  function Find(s: string, needle: string): (r: Option<nat>)
    ensures r.Some? <==> IsSubstring(needle, s)
    ensures r.Some? ==> OccursAt(s, needle, r.value)
    ensures r.Some? ==> forall j: nat :: j < r.value ==> !OccursAt(s, needle, j)
    ensures needle == [] ==> r == Some(0)
  {
    FindFrom(s, needle, 0)
  }
}

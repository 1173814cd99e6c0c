/**
 * The few `String.prototype` operations the loader's filename filter uses,
 * with the edge cases of section 22.1.3 of ECMA-262 written out: `indexOf`
 * answers -1 when the text does not occur and 0 for the empty text, and
 * `slice` with a negative start counts from the end and clamps at 0.
 */
module JsString {

  /** `sub` occurs in `s` starting at index `i`. */
  predicate OccursAt(s: string, sub: string, i: int) {
    0 <= i && i + |sub| <= |s| && s[i..i + |sub|] == sub
  }

  /** `sub` occurs somewhere in `s`. */
  ghost predicate Contains(s: string, sub: string) {
    exists i :: OccursAt(s, sub, i)
  }

  /** `s` ends with `suffix`. */
  predicate EndsWith(s: string, suffix: string) {
    |suffix| <= |s| && s[|s| - |suffix|..] == suffix
  }

  /** `s.indexOf(sub, k)` for a position `k` within the string: the first
      occurrence at or after `k`, or -1 when there is none. */
  function IndexOfFrom(s: string, sub: string, k: nat): (r: int)
    requires k <= |s|
    ensures r == -1 || (k <= r && OccursAt(s, sub, r))
    ensures r == -1 <==> forall j :: k <= j ==> !OccursAt(s, sub, j)
    ensures r != -1 ==> forall j :: k <= j < r ==> !OccursAt(s, sub, j)
    decreases |s| - k
  {
    if OccursAt(s, sub, k) then k
    else if k == |s| then -1
    else IndexOfFrom(s, sub, k + 1)
  }

  /** `s.indexOf(sub)`: the index of the first occurrence, or -1. */
  function IndexOf(s: string, sub: string): (r: int)
    ensures r == -1 <==> !Contains(s, sub)
    ensures r != -1 ==> 0 <= r && OccursAt(s, sub, r)
    ensures r != -1 ==> forall j :: 0 <= j < r ==> !OccursAt(s, sub, j)
  {
    IndexOfFrom(s, sub, 0)
  }

  /** `s.slice(start)`: a negative start counts back from the end of the
      string and is clamped at 0; a start past the end gives "". */
  function Slice(s: string, start: int): (r: string)
    ensures start < 0 && -start <= |s| ==> r == s[|s| + start..]
    ensures start < 0 && -start > |s| ==> r == s
    ensures 0 <= start ==> r == if start <= |s| then s[start..] else ""
  {
    var from := if start < 0 then (if |s| + start < 0 then 0 else |s| + start)
                else (if start < |s| then start else |s|);
    s[from..]
  }

  /** `s.slice(-n) === suffix` for a suffix of length `n` is `EndsWith`: a
      string shorter than `n` slices to itself, which is then too short. */
  lemma SliceFromEndIsEndsWith(s: string, suffix: string)
    requires |suffix| > 0
    ensures Slice(s, -|suffix|) == suffix <==> EndsWith(s, suffix)
  {
  }

  /** `s.indexOf(c) !== 0` for a single character `c` holds exactly when
      `s` is empty or does not start with `c`. */
  lemma IndexOfCharNotZero(s: string, c: char)
    ensures IndexOf(s, [c]) != 0 <==> (|s| == 0 || s[0] != c)
  {
  }
}

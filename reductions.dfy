/**
 * The reductions the source applies to lists and rows of losses: Python's
 * built-in `min`, `max` and `list.index`, and numpy's `argmin`/`argmax`,
 * which return the first position of an extreme value.
 */
module Reductions {

  /** `k` is the first position holding a largest element of `s`. */
  predicate IsFirstMax(s: seq<real>, k: nat) {
    k < |s| &&
    (forall j :: 0 <= j < |s| ==> s[j] <= s[k]) &&
    (forall j :: 0 <= j < k ==> s[j] < s[k])
  }

  /** `k` is the first position holding a smallest element of `s`. */
  predicate IsFirstMin(s: seq<real>, k: nat) {
    k < |s| &&
    (forall j :: 0 <= j < |s| ==> s[k] <= s[j]) &&
    (forall j :: 0 <= j < k ==> s[k] < s[j])
  }

  /** Python's `min(s)`, which raises on an empty list. */
  function MinOf(s: seq<real>): (m: real)
    requires |s| > 0
    ensures m in s
    ensures forall j :: 0 <= j < |s| ==> m <= s[j]
  {
    if |s| == 1 then s[0]
    else
      var rest := MinOf(s[1..]);
      if s[0] <= rest then s[0] else rest
  }

  /** Python's `max(s)`, which raises on an empty list. */
  function MaxOf(s: seq<real>): (m: real)
    requires |s| > 0
    ensures m in s
    ensures forall j :: 0 <= j < |s| ==> s[j] <= m
  {
    if |s| == 1 then s[0]
    else
      var rest := MaxOf(s[1..]);
      if s[0] >= rest then s[0] else rest
  }

  /** Python's `s.index(x)`: the first position holding `x` (it raises when there is none). */
  function IndexOf(s: seq<real>, x: real): (k: nat)
    requires x in s
    ensures k < |s| && s[k] == x
    ensures forall j :: 0 <= j < k ==> s[j] != x
  {
    if s[0] == x then 0 else 1 + IndexOf(s[1..], x)
  }

  /** numpy's `argmin` on one row. */
  function ArgMin(s: seq<real>): (k: nat)
    requires |s| > 0
    ensures IsFirstMin(s, k)
  {
    IndexOf(s, MinOf(s))
  }

  /** numpy's `argmax` on one row. */
  function ArgMax(s: seq<real>): (k: nat)
    requires |s| > 0
    ensures IsFirstMax(s, k)
  {
    IndexOf(s, MaxOf(s))
  }
}

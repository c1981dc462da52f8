/**
 * The two JavaScript array operations the dashboard relies on, as pure
 * functions over sequences: `slice(start)` with a single argument, and
 * `reverse()` applied to an array nobody else holds (so that reversing it in
 * place cannot be observed, and it can be modelled as a value).
 */
module JsArray {

  function Min(a: int, b: int): int
  {
    if a <= b then a else b
  }

  /** `s` ends with `t`. */
  ghost predicate IsSuffix<T>(t: seq<T>, s: seq<T>)
  {
    |t| <= |s| && t == s[|s| - |t|..]
  }

  /**
   * `s.slice(start)`: a negative start counts back from the end of the array
   * and is clamped at its front, a non-negative one is clamped at its end.
   * Either way the result is the suffix of `s` of the stated length.
   */
  function Slice<T>(s: seq<T>, start: int): (r: seq<T>)
    ensures |r| == if start < 0 then Min(|s|, -start) else |s| - Min(start, |s|)
    ensures IsSuffix(r, s)
  {
    if start < 0 then
      (if |s| + start <= 0 then s else s[|s| + start..])
    else if start < |s| then s[start..] else []
  }

  /** `s.reverse()`: element `i` of the result is element `|s| - 1 - i` of `s`. */
  function Reverse<T>(s: seq<T>): (r: seq<T>)
    ensures |r| == |s|
    ensures forall i :: 0 <= i < |s| ==> r[i] == s[|s| - 1 - i]
  {
    if s == [] then [] else Reverse(s[1..]) + [s[0]]
  }

  /** Reversing neither adds nor drops an element. */
  lemma {:induction false} ReversePermutes<T>(s: seq<T>)
    ensures multiset(Reverse(s)) == multiset(s)
  {
    if s != [] {
      ReversePermutes(s[1..]);
      assert s == [s[0]] + s[1..];
    }
  }
}

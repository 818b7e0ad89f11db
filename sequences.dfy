/** Small sequence helpers with JavaScript array semantics. */
module Sequences {

  /** `Math.min` on integers. */
  function Min(a: int, b: int): (m: int)
    ensures m <= a && m <= b
    ensures m == a || m == b
  {
    if a <= b then a else b
  }

  /** `s.slice(0, n)` for n >= 0: the first n elements, or all of s when it is shorter. */
  function Take<T>(s: seq<T>, n: nat): (r: seq<T>)
    ensures |r| == Min(n, |s|)
    ensures r == s[..|r|]
  {
    if n <= |s| then s[..n] else s
  }

  /** Take n from s ++ t, once s is used up, continues into t. */
  lemma TakeAcross<T>(s: seq<T>, t: seq<T>, n: nat)
    requires |s| <= n
    ensures Take(s + t, n) == s + Take(t, n - |s|)
  {
  }
}

/** The smallest and the largest element of a non-empty sequence, as the
    frame decoder takes them over a frame's pixel samples. */
module Extrema {

  /** The least element of `s`. */
  function Min(s: seq<int>): (m: int)
    requires |s| > 0
    ensures m in s
    ensures forall i :: 0 <= i < |s| ==> m <= s[i]
    decreases |s|
  {
    if |s| == 1 then s[0]
    else
      var m' := Min(s[..|s| - 1]);
      if s[|s| - 1] < m' then s[|s| - 1] else m'
  }

  /** The greatest element of `s`. */
  function Max(s: seq<int>): (m: int)
    requires |s| > 0
    ensures m in s
    ensures forall i :: 0 <= i < |s| ==> s[i] <= m
    decreases |s|
  {
    if |s| == 1 then s[0]
    else
      var m' := Max(s[..|s| - 1]);
      if s[|s| - 1] > m' then s[|s| - 1] else m'
  }

  /** One left-to-right pass that finds both extrema. */
  method MinMax(s: seq<int>) returns (lo: int, hi: int)
    requires |s| > 0
    ensures lo in s && hi in s
    ensures forall i :: 0 <= i < |s| ==> lo <= s[i] <= hi
    ensures lo == Min(s) && hi == Max(s)
  {
    lo, hi := s[0], s[0];
    var k := 1;
    while k < |s|
      invariant 1 <= k <= |s|
      invariant lo == Min(s[..k]) && hi == Max(s[..k])
    {
      ExtendPrefix(s, k);
      if s[k] < lo {
        lo := s[k];
      }
      if s[k] > hi {
        hi := s[k];
      }
      k := k + 1;
    }
    assert s[..k] == s;
    assert Min(s) == lo && Max(s) == hi;
  }

  /** Extending a prefix by one element updates its extrema with that
      element alone. */
  lemma ExtendPrefix(s: seq<int>, k: int)
    requires 0 < k < |s|
    ensures Min(s[..k + 1]) == if s[k] < Min(s[..k]) then s[k] else Min(s[..k])
    ensures Max(s[..k + 1]) == if s[k] > Max(s[..k]) then s[k] else Max(s[..k])
  {
    assert s[..k + 1][..k] == s[..k];
  }

  /** The two extrema coincide exactly when every element is the same. */
  lemma MinEqualsMaxIffConstant(s: seq<int>)
    requires |s| > 0
    ensures Min(s) == Max(s) <==> forall i :: 0 <= i < |s| ==> s[i] == s[0]
  {
    if Min(s) == Max(s) {
      assert forall i :: 0 <= i < |s| ==> Min(s) <= s[i] <= Max(s);
    } else {
      var lo :| 0 <= lo < |s| && s[lo] == Min(s);
      var hi :| 0 <= hi < |s| && s[hi] == Max(s);
      assert s[lo] != s[hi];
    }
  }
}

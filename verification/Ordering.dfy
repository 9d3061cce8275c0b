/** What a sort promises, and how far a quicksort with a shrinking depth budget can nest. */
module Ordering {
  import opened Arith

  /** A strict weak order, as std::less and the like are. */
  ghost predicate StrictWeak<T(!new)>(comp: (T, T) -> bool) {
    && (forall x, y :: comp(x, y) ==> !comp(y, x))
    && (forall x, y, z :: comp(x, y) && comp(y, z) ==> comp(x, z))
    && forall x, y, z :: comp(x, z) ==> comp(x, y) || comp(y, z)
  }

  /** No element of s[lo..hi] is less than one before it. */
  ghost predicate Sorted<T(!new)>(comp: (T, T) -> bool, s: seq<T>, lo: int, hi: int)
    requires 0 <= lo && hi <= |s|
  {
    forall i, j :: lo <= i < j < hi ==> !comp(s[j], s[i])
  }

  /** s[lo..hi] has been permuted, and the rest of s is as it was. */
  ghost predicate Rearranged<T>(s: seq<T>, t: seq<T>, lo: int, hi: int)
    requires 0 <= lo <= hi <= |s|
  {
    |t| == |s| && t[..lo] == s[..lo] && t[hi..] == s[hi..] && multiset(t[lo..hi]) == multiset(s[lo..hi])
  }

  /** Every element of s[lo..hi] has the property. */
  ghost predicate All<T(!new)>(p: T -> bool, s: seq<T>, lo: int, hi: int)
    requires 0 <= lo && hi <= |s|
  {
    forall i :: lo <= i < hi ==> p(s[i])
  }

  lemma SwapRearranges<T>(s: seq<T>, i: int, j: int, lo: int, hi: int)
    requires 0 <= lo <= i < hi <= |s| && lo <= j < hi
    ensures Rearranged(s, s[i := s[j]][j := s[i]], lo, hi)
  {
    var t := s[i := s[j]][j := s[i]];
    var a, b := s[lo..hi], t[lo..hi];
    assert b == a[i - lo := a[j - lo]][j - lo := a[i - lo]];
  }

  /** A permutation of a part is a permutation of the whole. */
  lemma Widen<T>(s: seq<T>, t: seq<T>, lo: int, hi: int, lo': int, hi': int)
    requires 0 <= lo' <= lo <= hi <= hi' <= |s| && Rearranged(s, t, lo, hi)
    ensures Rearranged(s, t, lo', hi')
  {
    assert s[lo'..hi'] == s[..lo][lo'..] + s[lo..hi] + s[hi..][..hi' - hi];
    assert t[lo'..hi'] == t[..lo][lo'..] + t[lo..hi] + t[hi..][..hi' - hi];
    assert t[..lo'] == t[..lo][..lo'] && s[..lo'] == s[..lo][..lo'];
    assert t[hi'..] == t[hi..][hi' - hi..] && s[hi'..] == s[hi..][hi' - hi..];
  }

  /** Outside the permuted part elements have kept their places. */
  lemma Kept<T>(s: seq<T>, t: seq<T>, lo: int, hi: int)
    requires 0 <= lo <= hi <= |s| && Rearranged(s, t, lo, hi)
    ensures |t| == |s| && forall i :: 0 <= i < |s| && !(lo <= i < hi) ==> t[i] == s[i]
  {
    forall i | 0 <= i < |s| && !(lo <= i < hi)
      ensures t[i] == s[i]
    {
      if i < lo {
        assert t[i] == t[..lo][i] && s[i] == s[..lo][i];
      } else {
        assert t[i] == t[hi..][i - hi] && s[i] == s[hi..][i - hi];
      }
    }
  }

  /** A permutation keeps what holds of all elements. */
  lemma AllKept<T(!new)>(p: T -> bool, s: seq<T>, t: seq<T>, lo: int, hi: int)
    requires 0 <= lo <= hi <= |s| && Rearranged(s, t, lo, hi) && All(p, s, lo, hi)
    ensures All(p, t, lo, hi)
  {
    forall i | lo <= i < hi
      ensures p(t[i])
    {
      assert t[i] == t[lo..hi][i - lo];
      assert t[i] in multiset(t[lo..hi]);
      assert t[i] in s[lo..hi];
    }
  }

  // ---- the depth of a quicksort ----

  /** How many binary digits n has. */
  function Bits(n: nat): nat {
    if n == 0 then 0 else 1 + Bits(n / 2)
  }

  lemma {:induction false} BitsMonotone(m: nat, n: nat)
    requires m <= n
    ensures Bits(m) <= Bits(n)
  {
    if m > 0 {
      BitsMonotone(m / 2, n / 2);
    }
  }

  lemma {:induction false} BitsOfPower(j: nat, n: nat)
    requires Pow2(j) <= n
    ensures j < Bits(n)
  {
    if j > 0 {
      BitsOfPower(j - 1, n / 2);
    }
  }

  /** The depth budget after one more level. */
  function Shrunk(d: nat): (r: nat)
    ensures d > 0 ==> r < d
  {
    d / 2 + d / 2 / 16
  }

  /** How often a budget can be shrunk before it is used up. */
  function Levels(d: nat): nat {
    if d == 0 then 0 else 1 + Levels(Shrunk(d))
  }

  lemma {:induction false} LevelsMonotone(d: nat, e: nat)
    requires d <= e
    ensures Levels(d) <= Levels(e)
  {
    if d > 0 {
      LevelsMonotone(Shrunk(d), Shrunk(e));
    }
  }

  /** Two levels at least halve the budget. */
  lemma {:induction false} LevelsBound(d: nat)
    ensures Levels(d) <= 2 * Bits(d)
  {
    if d > 0 {
      var e := Shrunk(Shrunk(d));
      LevelsBound(d / 2);
      LevelsMonotone(e, d / 2);
    }
  }
}

/** Lexicographic order and common prefixes of the suffixes of one sequence, with the end of
    the sequence acting as a sentinel smaller than every symbol (suffix_array.py). */
module SuffixOrder {

  /** The suffix at a is smaller than the suffix at b. Position |s| is the empty suffix, the
      implicit sentinel, smaller than every non-empty suffix. */
  predicate Less(s: seq<int>, a: int, b: int)
    requires 0 <= a <= |s| && 0 <= b <= |s|
    decreases |s| - a
  {
    if a == |s| then b < |s|
    else if b == |s| then false
    else s[a] < s[b] || (s[a] == s[b] && Less(s, a + 1, b + 1))
  }

  /** Length of the longest common prefix of the suffixes at a and b. */
  function Lcp(s: seq<int>, a: int, b: int): nat
    requires 0 <= a <= |s| && 0 <= b <= |s|
    decreases |s| - a
  {
    if a < |s| && b < |s| && s[a] == s[b] then 1 + Lcp(s, a + 1, b + 1) else 0
  }

  /** The common prefix fits inside both suffixes. */
  lemma {:induction false} LcpBounds(s: seq<int>, a: int, b: int)
    requires 0 <= a <= |s| && 0 <= b <= |s|
    ensures a + Lcp(s, a, b) <= |s| && b + Lcp(s, a, b) <= |s|
    decreases |s| - a
  {
    if a < |s| && b < |s| && s[a] == s[b] {
      LcpBounds(s, a + 1, b + 1);
    }
  }

  /** The first Lcp symbols of the two suffixes agree. */
  lemma {:induction false} LcpCommon(s: seq<int>, a: int, b: int)
    requires 0 <= a <= |s| && 0 <= b <= |s| && a + Lcp(s, a, b) <= |s| && b + Lcp(s, a, b) <= |s|
    ensures s[a..a + Lcp(s, a, b)] == s[b..b + Lcp(s, a, b)]
    decreases |s| - a
  {
    if a < |s| && b < |s| && s[a] == s[b] {
      var h := Lcp(s, a + 1, b + 1);
      LcpCommon(s, a + 1, b + 1);
      assert s[a..a + 1 + h] == [s[a]] + s[a + 1..a + 1 + h];
      assert s[b..b + 1 + h] == [s[b]] + s[b + 1..b + 1 + h];
    }
  }

  /** The symbols right after the common prefix differ, unless one suffix has ended. */
  lemma {:induction false} LcpMaximal(s: seq<int>, a: int, b: int)
    requires 0 <= a <= |s| && 0 <= b <= |s| && a + Lcp(s, a, b) <= |s| && b + Lcp(s, a, b) <= |s|
    ensures a + Lcp(s, a, b) == |s| || b + Lcp(s, a, b) == |s| || s[a + Lcp(s, a, b)] != s[b + Lcp(s, a, b)]
    decreases |s| - a
  {
    if a < |s| && b < |s| && s[a] == s[b] {
      LcpMaximal(s, a + 1, b + 1);
    }
  }

  /** Lcp is the length of a common prefix of the two suffixes that cannot be extended. */
  lemma LcpMeaning(s: seq<int>, a: int, b: int)
    requires 0 <= a <= |s| && 0 <= b <= |s|
    ensures a + Lcp(s, a, b) <= |s| && b + Lcp(s, a, b) <= |s|
    ensures s[a..a + Lcp(s, a, b)] == s[b..b + Lcp(s, a, b)]
    ensures a + Lcp(s, a, b) == |s| || b + Lcp(s, a, b) == |s| || s[a + Lcp(s, a, b)] != s[b + Lcp(s, a, b)]
  {
    LcpBounds(s, a, b);
    LcpCommon(s, a, b);
    LcpMaximal(s, a, b);
  }

  /** A common prefix of length k followed by one more matching symbol gives a common
      prefix of length k + 1. */
  lemma {:induction false} LcpExtend(s: seq<int>, a: int, b: int, k: nat)
    requires 0 <= a <= |s| && 0 <= b <= |s| && k <= Lcp(s, a, b)
    requires a + k < |s| && b + k < |s| && s[a + k] == s[b + k]
    ensures k + 1 <= Lcp(s, a, b)
    decreases k
  {
    if k > 0 {
      LcpExtend(s, a + 1, b + 1, k - 1);
    }
  }

  /** The suffix order is irreflexive. */
  lemma {:induction false} LessIrreflexive(s: seq<int>, a: int)
    requires 0 <= a <= |s|
    ensures !Less(s, a, a)
    decreases |s| - a
  {
    if a < |s| {
      LessIrreflexive(s, a + 1);
    }
  }

  /** The suffix order is asymmetric. */
  lemma {:induction false} LessAsymmetric(s: seq<int>, a: int, b: int)
    requires 0 <= a <= |s| && 0 <= b <= |s| && Less(s, a, b)
    ensures !Less(s, b, a)
    decreases |s| - a
  {
    if a < |s| && b < |s| && s[a] == s[b] {
      LessAsymmetric(s, a + 1, b + 1);
    }
  }

  /** The suffix order is transitive. */
  lemma {:induction false} LessTransitive(s: seq<int>, a: int, b: int, c: int)
    requires 0 <= a <= |s| && 0 <= b <= |s| && 0 <= c <= |s|
    requires Less(s, a, b) && Less(s, b, c)
    ensures Less(s, a, c)
    decreases |s| - a
  {
    if a < |s| && b < |s| && c < |s| && s[a] == s[b] && s[b] == s[c] {
      LessTransitive(s, a + 1, b + 1, c + 1);
    }
  }

  /** Two different suffixes are ordered one way or the other. */
  lemma {:induction false} LessTotal(s: seq<int>, a: int, b: int)
    requires 0 <= a <= |s| && 0 <= b <= |s| && a != b
    ensures Less(s, a, b) || Less(s, b, a)
    decreases |s| - a
  {
    if a < |s| && b < |s| && s[a] == s[b] {
      LessTotal(s, a + 1, b + 1);
    }
  }

  /** A suffix b lying between a and c in the order shares with a at least the prefix
      that a shares with c. */
  lemma {:induction false} LessBetween(s: seq<int>, a: int, b: int, c: int)
    requires 0 <= a <= |s| && 0 <= b <= |s| && 0 <= c <= |s|
    requires Less(s, a, b) && Less(s, b, c)
    ensures Lcp(s, a, c) <= Lcp(s, a, b)
    decreases |s| - a
  {
    if a < |s| && b < |s| && c < |s| && s[a] == s[b] && s[b] == s[c] {
      LessBetween(s, a + 1, b + 1, c + 1);
    }
  }

  /** A valid suffix array of s: every position once, in increasing suffix order. */
  predicate IsSuffixArray(s: seq<int>, sa: seq<int>)
  {
    |sa| == |s| &&
    (forall k :: 0 <= k < |sa| ==> 0 <= sa[k] < |s|) &&
    (forall x :: 0 <= x < |s| ==> x in sa) &&
    (forall k :: 0 <= k < |sa| - 1 ==> Less(s, sa[k], sa[k + 1]))
  }

  /** In a valid suffix array every earlier suffix is smaller than every later one, so no
      position occurs twice. */
  lemma {:induction false} SortedAll(s: seq<int>, sa: seq<int>, r: int, t: int)
    requires IsSuffixArray(s, sa) && 0 <= r < t < |sa|
    ensures Less(s, sa[r], sa[t]) && sa[r] != sa[t]
    decreases t - r
  {
    if r + 1 < t {
      SortedAll(s, sa, r + 1, t);
      LessTransitive(s, sa[r], sa[r + 1], sa[t]);
    }
    if sa[r] == sa[t] {
      LessIrreflexive(s, sa[r]);
    }
  }
}

/** The first stages of suffix_array (suffix_array.py): S/L classification, symbol counts,
    the sorted symbol set with its ranks, and the bucket start offsets. */
module SaisTypes {
  import opened SuffixOrder

  /** Position i is L-type: its suffix is larger than the suffix one position later (the
      empty suffix after the last position being the sentinel). */
  predicate LType(s: seq<int>, i: int)
    requires 0 <= i < |s|
  {
    Less(s, i + 1, i)
  }

  /** The rule the backward loop applies: the last position is L; otherwise a larger symbol
      than the next one makes L, a smaller one makes S, and an equal one copies the type of
      the next position. */
  lemma TypeRule(s: seq<int>, i: int)
    requires 0 <= i < |s|
    ensures i == |s| - 1 ==> LType(s, i)
    ensures i < |s| - 1 && s[i] > s[i + 1] ==> LType(s, i)
    ensures i < |s| - 1 && s[i] < s[i + 1] ==> !LType(s, i)
    ensures i < |s| - 1 && s[i] == s[i + 1] ==> (LType(s, i) <==> LType(s, i + 1))
  {
  }

  /** Every position holding the largest symbol is L-type. */
  lemma {:induction false} LargestIsL(s: seq<int>, i: int)
    requires 0 <= i < |s| && forall k :: 0 <= k < |s| ==> s[k] <= s[i]
    ensures LType(s, i)
    decreases |s| - i
  {
    TypeRule(s, i);
    if i < |s| - 1 && s[i] == s[i + 1] {
      LargestIsL(s, i + 1);
      TypeRule(s, i);
    }
  }

  /** The backward loop of suffix_array: classifies every position and counts every symbol
      (char_count, filled through setdefault). */
  method Classify(s: seq<int>) returns (sl: seq<bool>, count: map<int, int>)
    ensures |sl| == |s| && forall i :: 0 <= i < |s| ==> (sl[i] <==> LType(s, i))
    ensures forall c :: c in count <==> c in s
    ensures forall c :: c in count ==> count[c] == multiset(s)[c]
  {
    sl := seq(|s|, _ => true);
    count := map[];
    var i := |s|;
    while i > 0
      invariant 0 <= i <= |s| && |sl| == |s|
      invariant forall k :: i <= k < |s| ==> (sl[k] <==> LType(s, k))
      invariant forall c :: c in count <==> c in s[i..]
      invariant forall c :: c in count ==> count[c] == multiset(s[i..])[c]
    {
      i := i - 1;
      assert s[i..] == [s[i]] + s[i + 1..];
      var prior := if s[i] in count then count[s[i]] else 0;
      count := count[s[i] := prior + 1];
      TypeRule(s, i);
      if i == |s| - 1 || s[i] > s[i + 1] {
        sl := sl[i := true];
      } else if s[i] < s[i + 1] {
        sl := sl[i := false];
      } else {
        sl := sl[i := sl[i + 1]];
      }
    }
  }

  /** Strictly increasing. */
  predicate Increasing(xs: seq<int>)
  {
    forall i, j :: 0 <= i < j < |xs| ==> xs[i] < xs[j]
  }

  /** c inserted into its place in the increasing xs, unless already there. */
  function InsertSymbol(xs: seq<int>, c: int): (r: seq<int>)
    requires Increasing(xs)
    ensures Increasing(r) && forall d :: d in r <==> d in xs || d == c
  {
    if xs == [] then [c]
    else if c < xs[0] then [c] + xs
    else if c == xs[0] then xs
    else
      var t := InsertSymbol(xs[1..], c);
      assert xs == [xs[0]] + xs[1..];
      forall d | d in t
        ensures xs[0] < d
      {
        if d in xs[1..] {
          var k :| 0 <= k < |xs[1..]| && xs[1..][k] == d;
          assert xs[k + 1] == d;
        }
      }
      ConsIncreasing(xs[0], t);
      [xs[0]] + t
  }

  /** Putting a value below every entry in front keeps a list increasing. */
  lemma ConsIncreasing(x: int, t: seq<int>)
    requires Increasing(t) && forall d :: d in t ==> x < d
    ensures Increasing([x] + t)
  {
    forall i, j | 0 <= i < j < |[x] + t|
      ensures ([x] + t)[i] < ([x] + t)[j]
    {
      assert ([x] + t)[j] == t[j - 1];
      if i == 0 {
        assert t[j - 1] in t;
      } else {
        assert ([x] + t)[i] == t[i - 1];
      }
    }
  }

  /** sorted(char_count.keys()): the symbols of s, each once, in increasing order. */
  function SortedSymbols(s: seq<int>): (cs: seq<int>)
    ensures Increasing(cs) && forall c :: c in cs <==> c in s
  {
    if s == [] then []
    else
      var cs := InsertSymbol(SortedSymbols(s[..|s| - 1]), s[|s| - 1]);
      assert forall c :: c in s <==> c in s[..|s| - 1] || c == s[|s| - 1] by {
        assert s == s[..|s| - 1] + [s[|s| - 1]];
      }
      cs
  }

  /** char_rank: each symbol's index in the sorted symbol list. */
  function Ranks(cs: seq<int>): (rank: map<int, int>)
    requires Increasing(cs)
    ensures forall c :: c in rank <==> c in cs
    ensures forall r :: 0 <= r < |cs| ==> cs[r] in rank && rank[cs[r]] == r
  {
    var rank := map r | 0 <= r < |cs| :: cs[r] := r;
    assert forall r :: 0 <= r < |cs| ==> cs[r] in rank;
    rank
  }

  /** The number of positions of s whose symbol is below v. */
  function CountBelow(s: seq<int>, v: int): nat
  {
    if s == [] then 0
    else CountBelow(s[..|s| - 1], v) + (if s[|s| - 1] < v then 1 else 0)
  }

  /** Below the smallest symbol there is nothing. */
  lemma {:induction false} CountBelowMin(s: seq<int>, v: int)
    requires forall x :: x in s ==> v <= x
    ensures CountBelow(s, v) == 0
  {
    if s != [] {
      var t := s[..|s| - 1];
      assert s == t + [s[|s| - 1]] && s[|s| - 1] in s;
      forall x | x in t
        ensures x in s
      {
        var k :| 0 <= k < |t| && t[k] == x;
        assert s[k] == x;
      }
      CountBelowMin(t, v);
    }
  }

  /** Between consecutive symbols v < w of s lie exactly the occurrences of v. */
  lemma {:induction false} CountBelowNext(s: seq<int>, v: int, w: int)
    requires v < w && forall x :: x in s ==> x <= v || w <= x
    ensures CountBelow(s, w) == CountBelow(s, v) + multiset(s)[v]
  {
    if s != [] {
      var t := s[..|s| - 1];
      assert s == t + [s[|s| - 1]] && s[|s| - 1] in s;
      assert multiset(s) == multiset(t) + multiset{s[|s| - 1]};
      forall x | x in t
        ensures x in s
      {
        var k :| 0 <= k < |t| && t[k] == x;
        assert s[k] == x;
      }
      CountBelowNext(t, v, w);
    }
  }

  /** Below-or-at the largest symbol lies every position. */
  lemma {:induction false} CountBelowMax(s: seq<int>, v: int)
    requires forall x :: x in s ==> x <= v
    ensures CountBelow(s, v) + multiset(s)[v] == |s|
  {
    if s != [] {
      var t := s[..|s| - 1];
      assert s == t + [s[|s| - 1]] && s[|s| - 1] in s;
      assert multiset(s) == multiset(t) + multiset{s[|s| - 1]};
      forall x | x in t
        ensures x in s
      {
        var k :| 0 <= k < |t| && t[k] == x;
        assert s[k] == x;
      }
      CountBelowMax(t, v);
    }
  }

  /** The buckets tile 0..n-1: bucket r starts where bucket r - 1 ends, the first starts at
      0 and the last ends at n. */
  lemma BucketsTile(s: seq<int>, cs: seq<int>, r: int)
    requires Increasing(cs) && (forall c :: c in cs <==> c in s) && 0 <= r < |cs|
    ensures r == 0 ==> CountBelow(s, cs[r]) == 0
    ensures r + 1 < |cs| ==> CountBelow(s, cs[r + 1]) == CountBelow(s, cs[r]) + multiset(s)[cs[r]]
    ensures r + 1 == |cs| ==> CountBelow(s, cs[r]) + multiset(s)[cs[r]] == |s|
  {
    if r == 0 {
      forall x | x in s
        ensures cs[0] <= x
      {
        var k :| 0 <= k < |cs| && cs[k] == x;
      }
      CountBelowMin(s, cs[0]);
    }
    if r + 1 < |cs| {
      forall x | x in s
        ensures x <= cs[r] || cs[r + 1] <= x
      {
        var k :| 0 <= k < |cs| && cs[k] == x;
      }
      CountBelowNext(s, cs[r], cs[r + 1]);
    }
    if r + 1 == |cs| {
      forall x | x in s
        ensures x <= cs[r]
      {
        var k :| 0 <= k < |cs| && cs[k] == x;
      }
      CountBelowMax(s, cs[r]);
    }
  }

  /** The symbols and counts as Classify and SortedSymbols produce them. */
  ghost predicate Alphabet(s: seq<int>, cs: seq<int>, count: map<int, int>)
  {
    Increasing(cs) && (forall c :: c in cs <==> c in s) &&
    (forall c :: c in count <==> c in s) &&
    (forall c :: c in count ==> count[c] == multiset(s)[c])
  }

  /** The loop building position_array: entry r is the start of the bucket of the r-th
      symbol, the number of positions holding a smaller symbol. */
  method BucketStarts(ghost s: seq<int>, cs: seq<int>, count: map<int, int>) returns (pos: seq<int>)
    requires Alphabet(s, cs, count)
    ensures |pos| == |cs|
    ensures forall r :: 0 <= r < |cs| ==> pos[r] == CountBelow(s, cs[r])
  {
    pos := seq(|cs|, _ => 0);
    var cnt := 0;
    if |cs| > 0 {
      BucketsTile(s, cs, 0);
    }
    for i := 0 to |cs|
      invariant |pos| == |cs|
      invariant forall r :: 0 <= r < i ==> pos[r] == CountBelow(s, cs[r])
      invariant i < |cs| ==> cnt == CountBelow(s, cs[i])
    {
      BucketsTile(s, cs, i);
      pos := pos[i := cnt];
      cnt := cnt + count[cs[i]];
    }
  }
}

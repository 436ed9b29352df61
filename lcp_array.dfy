/** Kasai's longest-common-prefix array over a finished suffix array (lcp_array in
    suffix_array.py). */
module LcpArrays {
  import opened SuffixOrder

  /** rank is the inverse of sa: the suffix at sa[k] has rank k. */
  ghost predicate InverseOf(rank: seq<int>, sa: seq<int>)
  {
    |rank| == |sa| &&
    forall k :: 0 <= k < |sa| ==> 0 <= sa[k] < |rank| && rank[sa[k]] == k
  }

  /** The ranks of a valid suffix array run over 0..n-1 and are undone by sa. */
  lemma RankInRange(s: seq<int>, sa: seq<int>, rank: seq<int>, x: int)
    requires IsSuffixArray(s, sa) && InverseOf(rank, sa) && 0 <= x < |s|
    ensures 0 <= rank[x] < |s| && sa[rank[x]] == x
  {
    assert x in sa;
    var k :| 0 <= k < |sa| && sa[k] == x;
  }

  /** The step of Kasai's algorithm: when the suffix at i shares h > 0 symbols with the
      suffix that follows it in sa, the suffix at i + 1 is not last in sa and shares at
      least h - 1 symbols with the suffix that follows it. */
  lemma KasaiStep(s: seq<int>, sa: seq<int>, rank: seq<int>, i: int)
    requires IsSuffixArray(s, sa) && InverseOf(rank, sa)
    requires 0 <= i && i + 1 < |s|
    requires 0 <= rank[i] < |s| - 1 && 0 < Lcp(s, i, sa[rank[i] + 1])
    ensures 0 <= rank[i + 1] < |s| - 1
    ensures Lcp(s, i, sa[rank[i] + 1]) - 1 <= Lcp(s, i + 1, sa[rank[i + 1] + 1])
  {
    var n := |s|;
    RankInRange(s, sa, rank, i);
    var j := sa[rank[i] + 1];
    assert Less(s, i, j);
    assert s[i] == s[j] && Less(s, i + 1, j + 1);
    assert Lcp(s, i + 1, j + 1) == Lcp(s, i, j) - 1;
    assert j + 1 < n;
    RankInRange(s, sa, rank, i + 1);
    RankInRange(s, sa, rank, j + 1);
    if rank[j + 1] <= rank[i + 1] {
      if rank[j + 1] < rank[i + 1] {
        SortedAll(s, sa, rank[j + 1], rank[i + 1]);
        LessAsymmetric(s, j + 1, i + 1);
      }
      assert false;
    }
    var k := sa[rank[i + 1] + 1];
    if rank[i + 1] + 1 < rank[j + 1] {
      SortedAll(s, sa, rank[i + 1] + 1, rank[j + 1]);
      LessBetween(s, i + 1, k, j + 1);
    }
  }

  /** The first loop of lcp_array: rank[sa[i]] = i for every i, giving the inverse of sa. */
  method Ranks(s: seq<int>, sa: seq<int>) returns (rank: seq<int>)
    requires IsSuffixArray(s, sa)
    ensures InverseOf(rank, sa)
    ensures forall x :: 0 <= x < |s| ==> 0 <= rank[x] < |s| && sa[rank[x]] == x
  {
    var ranks := new int[|s|](_ => 0);
    for i := 0 to |s|
      invariant forall k :: 0 <= k < i ==> ranks[sa[k]] == k
    {
      forall k | 0 <= k < i
        ensures sa[k] != sa[i]
      {
        SortedAll(s, sa, k, i);
      }
      ranks[sa[i]] := i;
    }
    rank := ranks[..];
    forall x | 0 <= x < |s|
      ensures 0 <= rank[x] < |s| && sa[rank[x]] == x
    {
      RankInRange(s, sa, rank, x);
    }
  }

  /** The inner loop of lcp_array: extends a known common prefix of the suffixes at i and j
      symbol by symbol to the longest one. */
  method ExtendMatch(s: seq<int>, i: int, j: int, start: nat) returns (cnt: nat)
    requires 0 <= i < |s| && 0 <= j < |s| && start <= Lcp(s, i, j)
    ensures cnt == Lcp(s, i, j)
  {
    var n := |s|;
    cnt := start;
    while i + cnt < n && j + cnt < n && s[i + cnt] == s[j + cnt]
      invariant cnt <= Lcp(s, i, j)
      decreases n - cnt
    {
      LcpExtend(s, i, j, cnt);
      cnt := cnt + 1;
    }
    LcpMeaning(s, i, j);
  }

  /** The conclusion of KasaiStep at position i. */
  ghost predicate StepHolds(s: seq<int>, sa: seq<int>, rank: seq<int>, i: int)
    requires |sa| == |s| && |rank| == |s|
    requires forall x :: 0 <= x < |s| ==> 0 <= rank[x] < |s| && 0 <= sa[x] < |s|
    requires 0 <= i < |s|
  {
    i + 1 < |s| && rank[i] < |s| - 1 && 0 < Lcp(s, i, sa[rank[i] + 1]) ==>
      rank[i + 1] < |s| - 1 && Lcp(s, i, sa[rank[i] + 1]) - 1 <= Lcp(s, i + 1, sa[rank[i + 1] + 1])
  }

  /** What the second loop of lcp_array relies on: rank inverts sa, and KasaiStep holds at
      every position. */
  ghost predicate Chained(s: seq<int>, sa: seq<int>, rank: seq<int>)
  {
    |sa| == |s| && InverseOf(rank, sa) &&
    (forall x :: 0 <= x < |s| ==> 0 <= rank[x] < |s| && sa[rank[x]] == x) &&
    (forall i :: 0 <= i < |s| ==> StepHolds(s, sa, rank, i))
  }

  lemma ChainedSuffixArray(s: seq<int>, sa: seq<int>, rank: seq<int>)
    requires IsSuffixArray(s, sa) && InverseOf(rank, sa)
    requires forall x :: 0 <= x < |s| ==> 0 <= rank[x] < |s| && sa[rank[x]] == x
    ensures Chained(s, sa, rank)
  {
    forall i | 0 <= i < |s|
      ensures StepHolds(s, sa, rank, i)
    {
      if i + 1 < |s| && rank[i] < |s| - 1 && 0 < Lcp(s, i, sa[rank[i] + 1]) {
        KasaiStep(s, sa, rank, i);
      }
    }
  }

  /** lcp_array(s, sa): for a valid suffix array, entry k is the length of the common prefix
      of the suffixes at sa[k] and sa[k + 1]. */
  method LcpArray(s: seq<int>, sa: seq<int>) returns (lcp: seq<int>)
    requires IsSuffixArray(s, sa)
    ensures |lcp| == if |s| == 0 then 0 else |s| - 1
    ensures forall k :: 0 <= k < |s| - 1 ==> lcp[k] == Lcp(s, sa[k], sa[k + 1])
  {
    var rank := Ranks(s, sa);
    ChainedSuffixArray(s, sa, rank);
    lcp := Kasai(s, sa, rank);
  }

  /** The entries of out for the suffixes starting below i hold their common prefix
      with the next suffix in sa. */
  ghost predicate Filled(s: seq<int>, sa: seq<int>, out: seq<int>, i: int)
    requires |sa| == |s| && |out| == if |s| == 0 then 0 else |s| - 1
    requires forall k :: 0 <= k < |sa| ==> 0 <= sa[k] < |s|
  {
    forall k :: 0 <= k < |s| - 1 && sa[k] < i ==> out[k] == Lcp(s, sa[k], sa[k + 1])
  }

  /** One turn of the second loop of lcp_array: the suffix at i gets its entry, at its
      rank, unless it is last in sa, and cnt carries the shortened match to i + 1. */
  method KasaiVisit(s: seq<int>, sa: seq<int>, rank: seq<int>, out: seq<int>, cnt: int, i: int)
    returns (out': seq<int>, cnt': int)
    requires Chained(s, sa, rank) && 0 <= i < |s|
    requires |out| == |s| - 1 && 0 <= cnt
    requires rank[i] < |s| - 1 ==> cnt <= Lcp(s, i, sa[rank[i] + 1])
    requires Filled(s, sa, out, i)
    ensures |out'| == |s| - 1 && 0 <= cnt'
    ensures i + 1 < |s| && rank[i + 1] < |s| - 1 ==> cnt' <= Lcp(s, i + 1, sa[rank[i + 1] + 1])
    ensures Filled(s, sa, out', i + 1)
  {
    var n := |s|;
    out', cnt' := out, cnt;
    if rank[i] == n - 1 {
      cnt' := 0;
      forall k | 0 <= k < n - 1 && sa[k] < i + 1
        ensures out'[k] == Lcp(s, sa[k], sa[k + 1])
      {
        assert sa[k] != i;
      }
    } else {
      cnt' := ExtendMatch(s, i, sa[rank[i] + 1], cnt);
      out' := out[rank[i] := cnt'];
      assert StepHolds(s, sa, rank, i);
      forall k | 0 <= k < n - 1 && sa[k] < i + 1
        ensures out'[k] == Lcp(s, sa[k], sa[k + 1])
      {
        if sa[k] == i {
          assert k == rank[i];
        }
      }
      if cnt' > 0 {
        cnt' := cnt' - 1;
      }
    }
  }

  /** The second loop of lcp_array, with the running match length cnt. */
  method Kasai(s: seq<int>, sa: seq<int>, rank: seq<int>) returns (lcp: seq<int>)
    requires Chained(s, sa, rank)
    ensures |lcp| == if |s| == 0 then 0 else |s| - 1
    ensures forall k :: 0 <= k < |s| - 1 ==> lcp[k] == Lcp(s, sa[k], sa[k + 1])
  {
    var n := |s|;
    var out := seq(if n == 0 then 0 else n - 1, _ => 0);
    var cnt := 0;
    for i := 0 to n
      invariant |out| == if n == 0 then 0 else n - 1
      invariant 0 <= cnt
      invariant i < n && rank[i] < n - 1 ==> cnt <= Lcp(s, i, sa[rank[i] + 1])
      invariant Filled(s, sa, out, i)
    {
      out, cnt := KasaiVisit(s, sa, rank, out, cnt, i);
    }
    lcp := out;
  }
}

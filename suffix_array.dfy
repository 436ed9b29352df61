/** suffix_array (suffix_array.py): the SA-IS construction as written, with its base cases,
    the all-distinct shortcut, the two rounds of seeding and induced sorting, and the
    recursion on the reduced sequence of block names. */
module SuffixArrays {
  import opened Wrappers
  import opened SuffixOrder
  import opened SaisTypes
  import opened SaisLms
  import opened SaisPasses
  import opened SaisNaming

  // ---------------------------------------------------------------------------------------
  // n <= 2

  /** The base case: the positions sorted by (symbol, position). */
  function SmallSuffixArray(s: seq<int>): (sa: seq<int>)
    requires |s| <= 2
    ensures |sa| == |s| && (forall k :: 0 <= k < |sa| ==> 0 <= sa[k] < |s|) && (forall x :: 0 <= x < |s| ==> x in sa)
    ensures forall k :: 0 <= k < |sa| - 1 ==> s[sa[k]] < s[sa[k + 1]] || (s[sa[k]] == s[sa[k + 1]] && sa[k] < sa[k + 1])
  {
    if |s| == 0 then []
    else if |s| == 1 then [0]
    else if s[1] < s[0] then [1, 0]
    else [0, 1]
  }

  /** With the last symbol the unique smallest one, as callers are to guarantee, the base
      case is a valid suffix array. */
  lemma SmallSentinel(s: seq<int>)
    requires |s| <= 2 && forall k :: 0 <= k < |s| - 1 ==> s[|s| - 1] < s[k]
    ensures IsSuffixArray(s, SmallSuffixArray(s))
  {
    if |s| == 2 {
      assert Less(s, 1, 0);
    }
  }

  // ---------------------------------------------------------------------------------------
  // All symbols distinct

  /** Below the r-th symbol lie at least r positions, since every symbol occurs. */
  lemma {:induction false} BucketsFromBelow(s: seq<int>, cs: seq<int>, count: map<int, int>, r: int)
    requires Alphabet(s, cs, count) && 0 <= r < |cs|
    ensures CountBelow(s, cs[r]) >= r
    decreases r
  {
    if r == 0 {
      BucketsTile(s, cs, 0);
    } else {
      BucketsFromBelow(s, cs, count, r - 1);
      BucketsTile(s, cs, r - 1);
      assert cs[r - 1] in cs && cs[r - 1] in multiset(s);
    }
  }

  /** At or above the r-th symbol lie at least |cs| - r positions. */
  lemma {:induction false} BucketsFromAbove(s: seq<int>, cs: seq<int>, count: map<int, int>, r: int)
    requires Alphabet(s, cs, count) && 0 <= r < |cs|
    ensures |s| - CountBelow(s, cs[r]) >= |cs| - r
    decreases |cs| - r
  {
    BucketsTile(s, cs, r);
    assert cs[r] in cs && cs[r] in multiset(s);
    if r + 1 < |cs| {
      BucketsFromAbove(s, cs, count, r + 1);
    }
  }

  /** Two positions holding one symbol count twice. */
  lemma TwoOccurrences(s: seq<int>, i: int, j: int)
    requires 0 <= i < j < |s| && s[i] == s[j]
    ensures multiset(s)[s[i]] >= 2
  {
    assert s == s[..j] + s[j..];
    assert s[i] in s[..j] && s[j] in s[j..];
  }

  /** As many symbols as positions: every symbol occurs once, so no two positions share one. */
  lemma Distinct(s: seq<int>, cs: seq<int>, count: map<int, int>)
    requires Alphabet(s, cs, count) && |cs| == |s|
    ensures forall i, j :: 0 <= i < |s| && 0 <= j < |s| && s[i] == s[j] ==> i == j
  {
    forall i, j | 0 <= i < j < |s| && s[i] == s[j]
      ensures false
    {
      assert s[i] in cs;
      var r :| 0 <= r < |cs| && cs[r] == s[i];
      BucketsFromBelow(s, cs, count, r);
      BucketsFromAbove(s, cs, count, r);
      BucketsTile(s, cs, r);
      if r + 1 < |cs| {
        BucketsFromBelow(s, cs, count, r + 1);
        BucketsFromAbove(s, cs, count, r + 1);
      }
      TwoOccurrences(s, i, j);
    }
  }

  /** The shortcut when num_c == n: each position goes to the slot of its symbol's rank, which
      is a valid suffix array since the first symbols alone already order the suffixes. */
  method PlaceDistinct(s: seq<int>, cs: seq<int>, count: map<int, int>, rank: map<int, int>) returns (sa: seq<int>)
    requires Alphabet(s, cs, count) && |cs| == |s|
    requires forall r :: 0 <= r < |cs| ==> cs[r] in rank && rank[cs[r]] == r
    ensures |sa| == |s|
    ensures forall i :: 0 <= i < |s| ==> s[i] in rank && 0 <= rank[s[i]] < |s| && sa[rank[s[i]]] == i
    ensures IsSuffixArray(s, sa)
  {
    Distinct(s, cs, count);
    var n := |s|;
    forall c | c in s
      ensures c in cs
    {
    }
    forall i | 0 <= i < n
      ensures s[i] in rank && 0 <= rank[s[i]] < n && cs[rank[s[i]]] == s[i]
    {
      assert s[i] in s;
      var r :| 0 <= r < |cs| && cs[r] == s[i];
    }
    var a := new int[n](_ => -1);
    for i := 0 to n
      invariant forall k :: 0 <= k < i ==> a[rank[s[k]]] == k
    {
      a[rank[s[i]]] := i;
    }
    sa := a[..];
    forall r | 0 <= r < n
      ensures 0 <= sa[r] < n && s[sa[r]] == cs[r]
    {
      assert cs[r] in cs && cs[r] in s;
      var i :| 0 <= i < n && s[i] == cs[r];
    }
    forall x | 0 <= x < n
      ensures x in sa
    {
      assert sa[rank[s[x]]] == x;
    }
    forall k | 0 <= k < n - 1
      ensures Less(s, sa[k], sa[k + 1])
    {
      assert cs[k] < cs[k + 1];
    }
  }

  // ---------------------------------------------------------------------------------------
  // One round of seeding and induced sorting

  /** The types Classify computes, as a function of s. */
  function Types(s: seq<int>): (sl: seq<bool>)
    ensures |sl| == |s| && forall i :: 0 <= i < |s| ==> (sl[i] <==> LType(s, i))
  {
    seq(|s|, i requires 0 <= i < |s| => LType(s, i))
  }

  /** A fresh sa of -1 entries, seeded, then the forward and the reverse pass. */
  function Induced(s: seq<int>, sl: seq<bool>, cs: seq<int>, rank: map<int, int>, pos: seq<int>,
                   count: map<int, int>, charLms: map<int, seq<int>>): (r: Result<seq<int>, PyError>)
    requires |s| == |sl| > 0 && SeedReady(|s|, cs, charLms, pos, count) && Ranked(s, rank, |pos|)
    ensures r.Success? ==> |r.value| == |s|
  {
    var seeded := Seeded(seq(|s|, _ => -1), cs, charLms, pos, count, |cs|);
    match Forward(s, sl, rank, pos, seeded)
    case Failure(e) => Failure(e)
    case Success(b) => ReverseDown(s, sl, rank, b, pos, |s|)
  }

  /** sa = [-1] * n followed by the three passes, as suffix_array runs them twice. */
  method Induce(s: seq<int>, sl: seq<bool>, cs: seq<int>, rank: map<int, int>, pos: seq<int>,
                count: map<int, int>, charLms: map<int, seq<int>>) returns (r: Result<seq<int>, PyError>)
    requires |s| == |sl| > 0 && SeedReady(|s|, cs, charLms, pos, count) && Ranked(s, rank, |pos|)
    ensures r == Induced(s, sl, cs, rank, pos, count, charLms)
  {
    var sa := new int[|s|](_ => -1);
    assert sa[..] == seq(|s|, _ => -1);
    FillLms(cs, charLms, pos, count, sa);
    var err := ForwardInducedSort(s, sa, pos, rank, sl);
    if err.Some? {
      return Failure(err.value);
    }
    err := ReverseInducedSort(s, sa, pos, sl, rank);
    if err.Some? {
      return Failure(err.value);
    }
    return Success(sa[..]);
  }

  // ---------------------------------------------------------------------------------------
  // Facts the top level relies on

  /** Every symbol of s has its rank among the |cs| sorted symbols. */
  lemma RankedSymbols(s: seq<int>, cs: seq<int>, rank: map<int, int>)
    requires forall c :: c in cs <==> c in s
    requires forall r :: 0 <= r < |cs| ==> cs[r] in rank && rank[cs[r]] == r
    ensures Ranked(s, rank, |cs|)
  {
    forall c | c in s
      ensures c in cs
    {
    }
    forall i | 0 <= i < |s|
      ensures s[i] in rank && 0 <= rank[s[i]] < |cs|
    {
      assert s[i] in s;
      var r :| 0 <= r < |cs| && cs[r] == s[i];
    }
  }

  /** A strictly increasing list of positions below n has at most n entries. */
  lemma {:induction false} IncreasingLength(xs: seq<int>, n: int)
    requires 0 <= n && Increasing(xs) && forall k :: 0 <= k < |xs| ==> 0 <= xs[k] < n
    ensures |xs| <= n
    decreases |xs|
  {
    if xs != [] {
      var init := xs[..|xs| - 1];
      assert forall k :: 0 <= k < |init| ==> init[k] == xs[k];
      assert Increasing(init);
      forall k | 0 <= k < |init|
        ensures 0 <= init[k] < xs[|xs| - 1]
      {
      }
      IncreasingLength(init, xs[|xs| - 1]);
    }
  }

  /** The buckets of BucketStarts with lists of at most n entries satisfy what seeding needs. */
  lemma ReadyToSeed(s: seq<int>, cs: seq<int>, pos: seq<int>, count: map<int, int>, charLms: map<int, seq<int>>)
    requires Alphabet(s, cs, count) && |pos| == |cs|
    requires forall r :: 0 <= r < |cs| ==> pos[r] == CountBelow(s, cs[r])
    requires forall c :: c in charLms ==> |charLms[c]| <= |s|
    ensures SeedReady(|s|, cs, charLms, pos, count)
  {
    forall r | 0 <= r < |cs|
      ensures cs[r] in count && 0 <= BucketEnd(cs, pos, count, r) <= |s|
    {
      BucketEnds(s, cs, pos, count, r);
    }
  }

  /** The first lists of LMS positions are no longer than n. */
  lemma LmsListsShort(s: seq<int>, sl: seq<bool>, charLms: map<int, seq<int>>)
    requires |sl| == |s| && LmsLists(s, sl, charLms, |s|)
    ensures forall c :: c in charLms ==> |charLms[c]| <= |s|
  {
    forall c | c in charLms
      ensures |charLms[c]| <= |s|
    {
      IncreasingLength(charLms[c], |s|);
    }
  }

  /** An LMS position below hi is counted. */
  lemma {:induction false} LmsCounted(sl: seq<bool>, p: int, hi: int)
    requires 0 <= p < hi <= |sl| && IsLms(sl, p)
    ensures LmsBelow(sl, hi) >= 1
    decreases hi
  {
    if p < hi - 1 {
      LmsCounted(sl, p, hi - 1);
    }
  }

  /** The blocks found lie inside s and are keyed by LMS positions. */
  lemma BlocksFound(s: seq<int>, sl: seq<bool>, blocks: map<Option<int>, int>)
    requires |sl| == |s| && Blocks(sl, blocks)
    ensures BlocksInside(s, blocks)
    ensures forall p :: Some(p) in blocks ==> IsLms(sl, p)
    ensures LmsBelow(sl, |sl|) == 0 ==> forall p :: Some(p) !in blocks
  {
    forall p | Some(p) in blocks
      ensures IsLms(sl, p) && 0 <= p < blocks[Some(p)] <= |s|
    {
      assert Some(p).Some?;
    }
    if LmsBelow(sl, |sl|) == 0 && FirstLmsFrom(sl, 0) < |sl| {
      LmsCounted(sl, FirstLmsFrom(sl, 0), |sl|);
    }
  }

  // ---------------------------------------------------------------------------------------
  // suffix_array

  /** suffix_array as written. For n <= 2 it is the (symbol, position) sort; when all symbols
      differ it is a valid suffix array; without an LMS position (n > 2, some symbol repeated)
      it fails, at the latest with the TypeError of s[None]; a result always has n entries. */
  method SuffixArray(s: seq<int>) returns (r: Result<seq<int>, PyError>)
    ensures r.Success? ==> |r.value| == |s|
    ensures |s| <= 2 ==> r == Success(SmallSuffixArray(s))
    ensures |s| > 2 && |SortedSymbols(s)| == |s| ==> r.Success? && IsSuffixArray(s, r.value)
    ensures |s| > 2 && |SortedSymbols(s)| < |s| && LmsBelow(Types(s), |s|) == 0 ==> r.Failure?
    decreases |s|, 2
  {
    var n := |s|;
    if n <= 2 {
      return Success(SmallSuffixArray(s));
    }
    var sl, count := Classify(s);
    assert sl == Types(s);
    var cs := SortedSymbols(s);
    var rank := Ranks(cs);
    if |cs| == n {
      var sa := PlaceDistinct(s, cs, count, rank);
      return Success(sa);
    }
    r := SuffixArrayByReduction(s, sl, count, cs, rank);
  }

  /** The part of suffix_array after the all-distinct shortcut: bucket starts, LMS positions,
      the first round, the recursive ordering of the LMS positions and the final round. */
  method SuffixArrayByReduction(s: seq<int>, sl: seq<bool>, count: map<int, int>, cs: seq<int>, rank: map<int, int>)
    returns (r: Result<seq<int>, PyError>)
    requires |s| > 2 && sl == Types(s) && Alphabet(s, cs, count)
    requires forall r :: 0 <= r < |cs| ==> cs[r] in rank && rank[cs[r]] == r
    ensures r.Success? ==> |r.value| == |s|
    ensures LmsBelow(sl, |s|) == 0 ==> r.Failure?
    decreases |s|, 1
  {
    var n := |s|;
    RankedSymbols(s, cs, rank);
    var pos := BucketStarts(s, cs, count);
    var charLms, blocks := FindLms(s, sl);
    LmsListsShort(s, sl, charLms);
    ReadyToSeed(s, cs, pos, count, charLms);
    BlocksFound(s, sl, blocks);
    TypeRule(s, n - 1);
    ReducedShorter(sl);

    var first := Induce(s, sl, cs, rank, pos, count, charLms);
    if first.Failure? {
      return Failure(first.error);
    }
    var sorted := SortLms(s, sl, blocks, first.value);
    if sorted.Failure? {
      return Failure(sorted.error);
    }
    var charLms', err := Regroup(s, sorted.value);
    if err.Some? {
      return Failure(err.value);
    }
    forall c | c in charLms'
      ensures |charLms'[c]| <= n
    {
      assert Get(charLms', c) == charLms'[c];
    }
    ReadyToSeed(s, cs, pos, count, charLms');
    r := Induce(s, sl, cs, rank, pos, count, charLms');
  }

  /** Naming the blocks in the order the first round left them, the reduced sequence, its
      recursive suffix array and the LMS positions in that order (None where the
      correspondence has no entry). Without an LMS position the only entry is None. */
  method SortLms(s: seq<int>, sl: seq<bool>, blocks: map<Option<int>, int>, sa: seq<int>)
    returns (r: Result<seq<Option<int>>, PyError>)
    requires |sl| == |s| == |sa| && BlocksInside(s, blocks)
    requires forall p :: Some(p) in blocks ==> IsLms(sl, p)
    requires LmsBelow(sl, |s|) <= |blocks| < |s|
    requires LmsBelow(sl, |s|) == 0 ==> |blocks| == 1 && forall p :: Some(p) !in blocks
    ensures r.Success? ==> |r.value| == |blocks|
    ensures r.Success? ==> forall k :: 0 <= k < |r.value| && r.value[k].Some? ==> 0 <= r.value[k].value < |s|
    ensures r.Success? && LmsBelow(sl, |s|) == 0 ==> r.value[0].None?
    decreases |s|, 0
  {
    var mapping := NameBlocks(s, sa, blocks);
    var reduced, corr, m := Reduce(sl, mapping, |blocks|);
    var sub := SuffixArray(reduced);
    if sub.Failure? {
      return Failure(sub.error);
    }
    var sortedLms := LmsOrder(sub.value, corr, |blocks|);
    forall k | 0 <= k < |sortedLms| && sortedLms[k].Some?
      ensures 0 <= sortedLms[k].value < |s|
    {
      var t := sub.value[k];
      assert t in corr && 0 <= t < m;
      assert sortedLms[k].value == corr[t];
    }
    if LmsBelow(sl, |s|) == 0 {
      KeysWithinLms(sl, mapping, |s|);
      assert reduced == [0];
      assert sortedLms[0].None?;
    }
    r := Success(sortedLms);
  }

  /** "banana$" as symbol codes, and its L-types: 0, 2, 4, 5 and 6 are L, 1 and 3 are S. */
  const BananaCodes: seq<int> := [98, 97, 110, 97, 110, 97, 36]
  const BananaTypes: seq<bool> := [true, false, true, false, true, true, true]
  const BananaRank: map<int, int> := map[36 := 0, 97 := 1, 98 := 2, 110 := 3]

  lemma BananaTypesHold()
    ensures Types(BananaCodes) == BananaTypes
  {
    var s := BananaCodes;
    assert Less(s, 6, 5) && Less(s, 5, 4) && !Less(s, 4, 3) && Less(s, 3, 2) && !Less(s, 2, 1) && Less(s, 1, 0);
  }

  /** Seeding puts the LMS list [3, 1] of 'a' at the end of its bucket, indices 2 and 3. */
  lemma BananaSeeded()
    ensures Seeded(seq(7, _ => -1), [36, 97, 98, 110], map[97 := [3, 1]], [0, 1, 4, 5],
                   map[36 := 1, 97 := 3, 98 := 1, 110 := 2], 4)
            == [-1, -1, 3, 1, -1, -1, -1]
  {
    var empty := seq(7, _ => -1);
    var cs, charLms, pos, count := [36, 97, 98, 110], map[97 := [3, 1]], [0, 1, 4, 5], map[36 := 1, 97 := 3, 98 := 1, 110 := 2];
    assert WriteTail(empty, 4, [3]) == [-1, -1, -1, 3, -1, -1, -1];
    assert WriteTail(empty, 4, [3, 1]) == [-1, -1, 3, 1, -1, -1, -1];
    assert Seeded(empty, cs, charLms, pos, count, 1) == empty;
    assert Seeded(empty, cs, charLms, pos, count, 2) == [-1, -1, 3, 1, -1, -1, -1];
  }

  /** The first four turns of the forward loop each write the L-type position before an
      entry at the cursor of its bucket. */
  lemma BananaForwardWrites()
    ensures ForwardFrom(BananaCodes, BananaTypes, BananaRank, [6, -1, 3, 1, -1, -1, -1], [1, 1, 4, 5], 0)
            == ForwardFrom(BananaCodes, BananaTypes, BananaRank, [6, 5, 3, 1, 0, 4, 2], [1, 2, 5, 7], 4)
  {
    var s, sl, rank := BananaCodes, BananaTypes, BananaRank;
    assert ForwardStep(s, sl, rank, [6, -1, 3, 1, -1, -1, -1], [1, 1, 4, 5], 0) == Success(([6, 5, 3, 1, -1, -1, -1], [1, 2, 4, 5])) by {
      assert [6, -1, 3, 1, -1, -1, -1][0] == 6 && PyIndex(5, 7) == Some(5) && BananaCodes[5] == 97 && BananaTypes[5] == true;
      assert BananaRank[97] == 1 && [1, 1, 4, 5][1] == 1 && PyIndex(1, 7) == Some(1);
      assert [6, -1, 3, 1, -1, -1, -1][1 := 5] == [6, 5, 3, 1, -1, -1, -1] && [1, 1, 4, 5][1 := 2] == [1, 2, 4, 5];
    }
    assert ForwardStep(s, sl, rank, [6, 5, 3, 1, -1, -1, -1], [1, 2, 4, 5], 1) == Success(([6, 5, 3, 1, -1, 4, -1], [1, 2, 4, 6])) by {
      assert [6, 5, 3, 1, -1, -1, -1][1] == 5 && PyIndex(4, 7) == Some(4) && BananaCodes[4] == 110 && BananaTypes[4] == true;
      assert BananaRank[110] == 3 && [1, 2, 4, 5][3] == 5 && PyIndex(5, 7) == Some(5);
      assert [6, 5, 3, 1, -1, -1, -1][5 := 4] == [6, 5, 3, 1, -1, 4, -1] && [1, 2, 4, 5][3 := 6] == [1, 2, 4, 6];
    }
    assert ForwardStep(s, sl, rank, [6, 5, 3, 1, -1, 4, -1], [1, 2, 4, 6], 2) == Success(([6, 5, 3, 1, -1, 4, 2], [1, 2, 4, 7])) by {
      assert [6, 5, 3, 1, -1, 4, -1][2] == 3 && PyIndex(2, 7) == Some(2) && BananaCodes[2] == 110 && BananaTypes[2] == true;
      assert BananaRank[110] == 3 && [1, 2, 4, 6][3] == 6 && PyIndex(6, 7) == Some(6);
      assert [6, 5, 3, 1, -1, 4, -1][6 := 2] == [6, 5, 3, 1, -1, 4, 2] && [1, 2, 4, 6][3 := 7] == [1, 2, 4, 7];
    }
    assert ForwardStep(s, sl, rank, [6, 5, 3, 1, -1, 4, 2], [1, 2, 4, 7], 3) == Success(([6, 5, 3, 1, 0, 4, 2], [1, 2, 5, 7])) by {
      assert [6, 5, 3, 1, -1, 4, 2][3] == 1 && PyIndex(0, 7) == Some(0) && BananaCodes[0] == 98 && BananaTypes[0] == true;
      assert BananaRank[98] == 2 && [1, 2, 4, 7][2] == 4 && PyIndex(4, 7) == Some(4);
      assert [6, 5, 3, 1, -1, 4, 2][4 := 0] == [6, 5, 3, 1, 0, 4, 2] && [1, 2, 4, 7][2 := 5] == [1, 2, 5, 7];
    }
  }

  /** The rest of the forward loop: index 4 holds 0, whose prev -1 Python reads as position
      6, so -1 overwrites the 5 at index 1; indices 5 and 6 hold S-type successors. */
  lemma BananaForwardWrap()
    ensures ForwardFrom(BananaCodes, BananaTypes, BananaRank, [6, 5, 3, 1, 0, 4, 2], [1, 2, 5, 7], 4)
            == Success([6, -1, 3, 1, 0, 4, 2])
  {
    var s, sl, rank := BananaCodes, BananaTypes, BananaRank;
    assert ForwardStep(s, sl, rank, [6, 5, 3, 1, 0, 4, 2], [1, 2, 5, 7], 4) == Success(([6, -1, 3, 1, 0, 4, 2], [2, 2, 5, 7])) by {
      assert [6, 5, 3, 1, 0, 4, 2][4] == 0 && PyIndex(-1, 7) == Some(6) && BananaCodes[6] == 36 && BananaTypes[6] == true;
      assert BananaRank[36] == 0 && [1, 2, 5, 7][0] == 1 && PyIndex(1, 7) == Some(1);
      assert [6, 5, 3, 1, 0, 4, 2][1 := -1] == [6, -1, 3, 1, 0, 4, 2] && [1, 2, 5, 7][0 := 2] == [2, 2, 5, 7];
    }
    assert ForwardStep(s, sl, rank, [6, -1, 3, 1, 0, 4, 2], [2, 2, 5, 7], 5) == Success(([6, -1, 3, 1, 0, 4, 2], [2, 2, 5, 7])) by {
      assert [6, -1, 3, 1, 0, 4, 2][5] == 4 && PyIndex(3, 7) == Some(3) && BananaCodes[3] == 97 && BananaTypes[3] == false;
    }
    assert ForwardStep(s, sl, rank, [6, -1, 3, 1, 0, 4, 2], [2, 2, 5, 7], 6) == Success(([6, -1, 3, 1, 0, 4, 2], [2, 2, 5, 7])) by {
      assert [6, -1, 3, 1, 0, 4, 2][6] == 2 && PyIndex(1, 7) == Some(1) && BananaCodes[1] == 97 && BananaTypes[1] == false;
    }
  }

  /** Before the loop, position 6 (the '$') goes to the front of the first bucket. */
  lemma BananaForwardStart()
    ensures ForwardStart(BananaCodes, BananaRank, [0, 1, 4, 5], [-1, -1, 3, 1, -1, -1, -1])
            == Success(([6, -1, 3, 1, -1, -1, -1], [1, 1, 4, 5]))
  {
    assert BananaCodes[6] == 36 && BananaRank[36] == 0 && PyIndex(0, 7) == Some(0);
    assert [-1, -1, 3, 1, -1, -1, -1][0 := 6] == [6, -1, 3, 1, -1, -1, -1] && [0, 1, 4, 5][0 := 1] == [1, 1, 4, 5];
  }

  /** The forward pass on the seeded array. */
  lemma BananaForward()
    ensures Forward(BananaCodes, BananaTypes, BananaRank, [0, 1, 4, 5], [-1, -1, 3, 1, -1, -1, -1])
            == Success([6, -1, 3, 1, 0, 4, 2])
  {
    BananaForwardStart();
    BananaForwardWrites();
    BananaForwardWrap();
  }

  /** The reverse pass at indices 6 and 5 rewrites 1 and 3, the S-type positions, where they
      already stand, moving the cursor of the 'b' bucket down to 2. */
  lemma BananaReverseWrites()
    ensures ReverseDown(BananaCodes, BananaTypes, BananaRank, [6, -1, 3, 1, 0, 4, 2], [0, 1, 4, 5], 7)
            == ReverseDown(BananaCodes, BananaTypes, BananaRank, [6, -1, 3, 1, 0, 4, 2], [0, 1, 2, 5], 5)
  {
    var s, sl, rank := BananaCodes, BananaTypes, BananaRank;
    assert ReverseStep(s, sl, rank, [6, -1, 3, 1, 0, 4, 2], [0, 1, 4, 5], 6) == Success(([6, -1, 3, 1, 0, 4, 2], [0, 1, 3, 5])) by {
      assert [6, -1, 3, 1, 0, 4, 2][6] == 2 && PyIndex(1, 7) == Some(1) && BananaTypes[1] == false;
      assert BananaCodes[1] == 97 && BananaRank[97] == 1 && [0, 1, 4, 5][2] == 4 && PyIndex(3, 7) == Some(3);
      assert [6, -1, 3, 1, 0, 4, 2][3 := 1] == [6, -1, 3, 1, 0, 4, 2] && [0, 1, 4, 5][2 := 3] == [0, 1, 3, 5];
    }
    assert ReverseStep(s, sl, rank, [6, -1, 3, 1, 0, 4, 2], [0, 1, 3, 5], 5) == Success(([6, -1, 3, 1, 0, 4, 2], [0, 1, 2, 5])) by {
      assert [6, -1, 3, 1, 0, 4, 2][5] == 4 && PyIndex(3, 7) == Some(3) && BananaTypes[3] == false;
      assert BananaCodes[3] == 97 && BananaRank[97] == 1 && [0, 1, 3, 5][2] == 3 && PyIndex(2, 7) == Some(2);
      assert [6, -1, 3, 1, 0, 4, 2][2 := 3] == [6, -1, 3, 1, 0, 4, 2] && [0, 1, 3, 5][2 := 2] == [0, 1, 2, 5];
    }
  }

  /** Below index 5 every entry has an L-type predecessor, so the reverse pass changes nothing. */
  lemma BananaReverse()
    ensures ReverseDown(BananaCodes, BananaTypes, BananaRank, [6, -1, 3, 1, 0, 4, 2], [0, 1, 4, 5], 7)
            == Success([6, -1, 3, 1, 0, 4, 2])
  {
    var s, sl, rank := BananaCodes, BananaTypes, BananaRank;
    assert ReverseStep(s, sl, rank, [6, -1, 3, 1, 0, 4, 2], [0, 1, 2, 5], 4) == Success(([6, -1, 3, 1, 0, 4, 2], [0, 1, 2, 5])) by {
      assert [6, -1, 3, 1, 0, 4, 2][4] == 0 && PyIndex(-1, 7) == Some(6) && BananaTypes[6] == true;
    }
    assert ReverseStep(s, sl, rank, [6, -1, 3, 1, 0, 4, 2], [0, 1, 2, 5], 3) == Success(([6, -1, 3, 1, 0, 4, 2], [0, 1, 2, 5])) by {
      assert [6, -1, 3, 1, 0, 4, 2][3] == 1 && PyIndex(0, 7) == Some(0) && BananaTypes[0] == true;
    }
    assert ReverseStep(s, sl, rank, [6, -1, 3, 1, 0, 4, 2], [0, 1, 2, 5], 2) == Success(([6, -1, 3, 1, 0, 4, 2], [0, 1, 2, 5])) by {
      assert [6, -1, 3, 1, 0, 4, 2][2] == 3 && PyIndex(2, 7) == Some(2) && BananaTypes[2] == true;
    }
    assert ReverseStep(s, sl, rank, [6, -1, 3, 1, 0, 4, 2], [0, 1, 2, 5], 1) == Success(([6, -1, 3, 1, 0, 4, 2], [0, 1, 2, 5])) by {
      assert [6, -1, 3, 1, 0, 4, 2][1] == -1 && PyIndex(-2, 7) == Some(5) && BananaTypes[5] == true;
    }
    assert ReverseStep(s, sl, rank, [6, -1, 3, 1, 0, 4, 2], [0, 1, 2, 5], 0) == Success(([6, -1, 3, 1, 0, 4, 2], [0, 1, 2, 5])) by {
      assert [6, -1, 3, 1, 0, 4, 2][0] == 6 && PyIndex(5, 7) == Some(5) && BananaTypes[5] == true;
    }
    BananaReverseWrites();
  }

  /** "banana$" in the final pass: its LMS positions 1 and 3 both hold 'a', sorted as [3, 1].
      Seeding them, then the forward and the reverse pass, leaves -1 in sa, written where the
      suffix at 0 wraps to the last position. */
  lemma BananaFinalPass()
    ensures Induced([98, 97, 110, 97, 110, 97, 36], Types([98, 97, 110, 97, 110, 97, 36]),
                    [36, 97, 98, 110], map[36 := 0, 97 := 1, 98 := 2, 110 := 3], [0, 1, 4, 5],
                    map[36 := 1, 97 := 3, 98 := 1, 110 := 2], map[97 := [3, 1]])
            == Success([6, -1, 3, 1, 0, 4, 2])
  {
    BananaTypesHold();
    BananaSeeded();
    BananaForward();
    BananaReverse();
  }
}

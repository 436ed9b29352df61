/** The passes of suffix_array that rewrite sa in place (suffix_array.py): seeding the LMS
    positions at the bucket tails, the forward induced sort of the L-type positions and the
    reverse induced sort of the S-type positions. Indices follow Python's list indexing, so a
    negative index counts from the end. */
module SaisPasses {
  import opened Wrappers
  import opened SaisTypes

  /** The exceptions the passes and suffix_array can raise. */
  datatype PyError = IndexError | TypeError

  /** Python's list indexing on a list of length len: -len..-1 count from the end, anything
      outside -len..len-1 raises IndexError (None here). */
  function PyIndex(k: int, len: int): (r: Option<int>)
    ensures r.Some? <==> -len <= k < len
    ensures r.Some? ==> 0 <= r.value < len && (r.value == k || r.value == k + len)
  {
    if 0 <= k < len then Some(k) else if -len <= k < 0 then Some(k + len) else None
  }

  /** Every symbol of s has a rank in 0..k-1. */
  predicate Ranked(s: seq<int>, rank: map<int, int>, k: int)
  {
    forall i :: 0 <= i < |s| ==> s[i] in rank && 0 <= rank[s[i]] < k
  }

  /** char_lms.get(c, []). */
  function Get(m: map<int, seq<int>>, c: int): seq<int>
  {
    if c in m then m[c] else []
  }

  // ---------------------------------------------------------------------------------------
  // _first_pass_fill_lms

  /** The writes for one bucket: the list's entries, in order, into the |list| slots just
      before end, a negative slot counting from the end of a. */
  function WriteTail(a: seq<int>, end: int, list: seq<int>): (r: seq<int>)
    requires end <= |a| && -|a| <= end - |list|
    ensures |r| == |a|
    decreases |list|
  {
    if list == [] then a
    else
      var b := WriteTail(a, end - 1, list[..|list| - 1]);
      b[PyIndex(end - 1, |a|).value := list[|list| - 1]]
  }

  /** The end of bucket r, position_array[r] + char_count[char_set[r]]. */
  function BucketEnd(cs: seq<int>, pos: seq<int>, count: map<int, int>, r: int): int
    requires |pos| == |cs| && 0 <= r < |cs| && cs[r] in count
  {
    pos[r] + count[cs[r]]
  }

  /** What _first_pass_fill_lms relies on: bucket ends within 0..n and lists no longer than
      n, so that no write index falls below -n. */
  predicate SeedReady(n: int, cs: seq<int>, charLms: map<int, seq<int>>, pos: seq<int>, count: map<int, int>)
  {
    |pos| == |cs| &&
    (forall r :: 0 <= r < |cs| ==> cs[r] in count && 0 <= BucketEnd(cs, pos, count, r) <= n) &&
    (forall c :: c in charLms ==> |charLms[c]| <= n)
  }

  /** The array after the buckets below r are seeded. */
  function Seeded(a: seq<int>, cs: seq<int>, charLms: map<int, seq<int>>, pos: seq<int>, count: map<int, int>,
                  r: int): (b: seq<int>)
    requires SeedReady(|a|, cs, charLms, pos, count) && 0 <= r <= |cs|
    ensures |b| == |a|
  {
    if r == 0 then a
    else WriteTail(Seeded(a, cs, charLms, pos, count, r - 1), BucketEnd(cs, pos, count, r - 1), Get(charLms, cs[r - 1]))
  }

  /** _first_pass_fill_lms: writes each symbol's list of LMS positions, in list order, into the
      last slots of that symbol's bucket. */
  method FillLms(cs: seq<int>, charLms: map<int, seq<int>>, pos: seq<int>, count: map<int, int>, sa: array<int>)
    requires SeedReady(sa.Length, cs, charLms, pos, count)
    modifies sa
    ensures sa[..] == Seeded(old(sa[..]), cs, charLms, pos, count, |cs|)
  {
    ghost var a := sa[..];
    for i := 0 to |cs|
      invariant sa[..] == Seeded(a, cs, charLms, pos, count, i)
    {
      var current := Get(charLms, cs[i]);
      WriteBucket(sa, pos[i] + count[cs[i]], current);
    }
  }

  /** The inner loop of _first_pass_fill_lms: list[j] goes to slot end - |list| + j. */
  method WriteBucket(sa: array<int>, end: int, list: seq<int>)
    requires end <= sa.Length && -sa.Length <= end - |list|
    modifies sa
    ensures sa[..] == WriteTail(old(sa[..]), end, list)
  {
    var m := |list|;
    for j := 0 to m
      invariant sa[..] == WriteTail(old(sa[..]), end - m + j, list[..j])
    {
      assert list[..j + 1][..j] == list[..j];
      sa[PyIndex(end - m + j, sa.Length).value] := list[j];
    }
    assert list[..m] == list;
  }

  /** Writing a list into the slots before end, when they are all in range, sets exactly those
      slots, in order. */
  lemma {:induction false} WriteTailSlots(a: seq<int>, end: int, list: seq<int>, k: int)
    requires end <= |a| && 0 <= end - |list| && 0 <= k < |a|
    ensures WriteTail(a, end, list)[k] ==
            if end - |list| <= k < end then list[k - (end - |list|)] else a[k]
    decreases |list|
  {
    if list != [] {
      WriteTailSlots(a, end - 1, list[..|list| - 1], k);
    }
  }

  /** The buckets as BucketStarts and Classify produce them, each list fitting in its bucket:
      the lists of LMS positions the first seeding uses. */
  ghost predicate SeedFits(s: seq<int>, cs: seq<int>, charLms: map<int, seq<int>>, pos: seq<int>, count: map<int, int>)
  {
    Alphabet(s, cs, count) && |pos| == |cs| &&
    (forall r :: 0 <= r < |cs| ==> pos[r] == CountBelow(s, cs[r])) &&
    (forall r :: 0 <= r < |cs| ==> |Get(charLms, cs[r])| <= count[cs[r]])
  }

  /** Bucket ends lie within 0..n and only move up. */
  lemma BucketEnds(s: seq<int>, cs: seq<int>, pos: seq<int>, count: map<int, int>, r: int)
    requires Alphabet(s, cs, count) && |pos| == |cs|
    requires forall r :: 0 <= r < |cs| ==> pos[r] == CountBelow(s, cs[r])
    requires 0 <= r < |cs|
    ensures cs[r] in s && 0 <= pos[r] <= BucketEnd(cs, pos, count, r) <= |s|
    ensures r + 1 < |cs| ==> BucketEnd(cs, pos, count, r) == pos[r + 1]
  {
    assert cs[r] in cs;
    BucketsTile(s, cs, r);
    if r + 1 < |cs| {
      BucketsTile(s, cs, r + 1);
      if r + 2 < |cs| {
        BucketsTile(s, cs, r + 2);
      }
    }
    BucketEndBound(s, cs, pos, count, r);
  }

  lemma {:induction false} BucketEndBound(s: seq<int>, cs: seq<int>, pos: seq<int>, count: map<int, int>, r: int)
    requires Alphabet(s, cs, count) && |pos| == |cs|
    requires forall r :: 0 <= r < |cs| ==> pos[r] == CountBelow(s, cs[r])
    requires 0 <= r < |cs|
    ensures cs[r] in count && BucketEnd(cs, pos, count, r) <= |s|
    decreases |cs| - r
  {
    assert cs[r] in cs;
    BucketsTile(s, cs, r);
    if r + 1 < |cs| {
      BucketEndBound(s, cs, pos, count, r + 1);
      assert cs[r + 1] in cs;
    }
  }

  /** Slots start..end-1 of b form a seeded bucket: its last |list| slots hold the list, in
      order, and the slots before them hold what a holds. */
  ghost predicate BucketSeeded(b: seq<int>, a: seq<int>, list: seq<int>, start: int, end: int)
  {
    |b| == |a| && 0 <= start <= end - |list| && end <= |a| &&
    forall k :: start <= k < end ==> b[k] == if end - |list| <= k then list[k - (end - |list|)] else a[k]
  }

  /** Slots from start on are as in a. */
  ghost predicate UnchangedFrom(b: seq<int>, a: seq<int>, start: int)
  {
    |b| == |a| && forall k :: 0 <= start <= k < |a| ==> b[k] == a[k]
  }

  /** Writing a list at the tail of a bucket seeds that bucket and leaves what lies above it. */
  lemma WriteTailSeeds(b: seq<int>, a: seq<int>, list: seq<int>, start: int, end: int)
    requires UnchangedFrom(b, a, start) && 0 <= start <= end - |list| && end <= |a|
    ensures BucketSeeded(WriteTail(b, end, list), a, list, start, end)
    ensures UnchangedFrom(WriteTail(b, end, list), a, end)
  {
    forall k | 0 <= k < |a|
      ensures WriteTail(b, end, list)[k] == if end - |list| <= k < end then list[k - (end - |list|)] else b[k]
    {
      WriteTailSlots(b, end, list, k);
    }
  }

  /** Writing a list at the tail of a later bucket leaves an earlier seeded bucket seeded. */
  lemma WriteTailKeeps(b: seq<int>, a: seq<int>, other: seq<int>, start: int, end: int, list: seq<int>, end': int)
    requires BucketSeeded(b, a, other, start, end) && end <= end' - |list| && end' <= |a|
    ensures BucketSeeded(WriteTail(b, end', list), a, other, start, end)
  {
    forall k | start <= k < end
      ensures WriteTail(b, end', list)[k] == b[k]
    {
      WriteTailSlots(b, end', list, k);
    }
  }

  /** After the buckets below r are seeded, everything from bucket r on is as before. */
  lemma {:induction false} SeedAbove(s: seq<int>, a: seq<int>, cs: seq<int>, charLms: map<int, seq<int>>,
                                     pos: seq<int>, count: map<int, int>, r: int)
    requires |a| == |s| && SeedFits(s, cs, charLms, pos, count)
    requires SeedReady(|a|, cs, charLms, pos, count)
    requires 0 <= r <= |cs|
    ensures UnchangedFrom(Seeded(a, cs, charLms, pos, count, r), a, if r < |cs| then pos[r] else |a|)
    decreases r
  {
    if r == 0 {
      assert UnchangedFrom(a, a, if 0 < |cs| then pos[0] else |a|);
    } else {
      SeedAbove(s, a, cs, charLms, pos, count, r - 1);
      var b := Seeded(a, cs, charLms, pos, count, r - 1);
      var list := Get(charLms, cs[r - 1]);
      var end := BucketEnd(cs, pos, count, r - 1);
      BucketEnds(s, cs, pos, count, r - 1);
      assert |list| <= count[cs[r - 1]];
      WriteTailSeeds(b, a, list, pos[r - 1], end);
      if r < |cs| {
        assert end == pos[r];
      }
    }
  }

  /** The seeding stage's guarantee: when each list fits in its bucket, every bucket's last
      |list| slots hold its symbol's list of LMS positions, in list order, and the slots before
      them keep their values. */
  lemma {:induction false} SeedTails(s: seq<int>, a: seq<int>, cs: seq<int>, charLms: map<int, seq<int>>,
                                      pos: seq<int>, count: map<int, int>, r: int)
    requires |a| == |s| && SeedFits(s, cs, charLms, pos, count)
    requires SeedReady(|a|, cs, charLms, pos, count)
    requires 0 <= r <= |cs|
    ensures forall q :: 0 <= q < r ==>
              BucketSeeded(Seeded(a, cs, charLms, pos, count, r), a, Get(charLms, cs[q]), pos[q], BucketEnd(cs, pos, count, q))
    decreases r
  {
    if r > 0 {
      SeedTails(s, a, cs, charLms, pos, count, r - 1);
      SeedAbove(s, a, cs, charLms, pos, count, r - 1);
      var b := Seeded(a, cs, charLms, pos, count, r - 1);
      var list := Get(charLms, cs[r - 1]);
      var end := BucketEnd(cs, pos, count, r - 1);
      BucketEnds(s, cs, pos, count, r - 1);
      assert |list| <= count[cs[r - 1]];
      var c := WriteTail(b, end, list);
      assert Seeded(a, cs, charLms, pos, count, r) == c;
      WriteTailSeeds(b, a, list, pos[r - 1], end);
      forall q | 0 <= q < r
        ensures BucketSeeded(c, a, Get(charLms, cs[q]), pos[q], BucketEnd(cs, pos, count, q))
      {
        if q < r - 1 {
          BucketsBelow(s, cs, pos, count, q, r - 1);
          WriteTailKeeps(b, a, Get(charLms, cs[q]), pos[q], BucketEnd(cs, pos, count, q), list, end);
        }
      }
    }
  }

  /** An earlier bucket ends before a later one starts. */
  lemma {:induction false} BucketsBelow(s: seq<int>, cs: seq<int>, pos: seq<int>, count: map<int, int>, q: int, r: int)
    requires Alphabet(s, cs, count) && |pos| == |cs|
    requires forall r :: 0 <= r < |cs| ==> pos[r] == CountBelow(s, cs[r])
    requires 0 <= q < r < |cs|
    ensures BucketEnd(cs, pos, count, q) <= pos[r]
    decreases r - q
  {
    BucketEnds(s, cs, pos, count, q);
    if q + 1 < r {
      BucketsBelow(s, cs, pos, count, q + 1, r);
      BucketEnds(s, cs, pos, count, q + 1);
    }
  }

  // ---------------------------------------------------------------------------------------
  // _second_pass_forward_induced_sort

  /** One turn of the forward loop at index i, with first_pass_pos as cur: the position
      before sa[i], when it is L-type, is written at its bucket's cursor, which moves up. */
  function ForwardStep(s: seq<int>, sl: seq<bool>, rank: map<int, int>, a: seq<int>, cur: seq<int>, i: int)
    : (r: Result<(seq<int>, seq<int>), PyError>)
    requires |a| == |s| == |sl| && Ranked(s, rank, |cur|) && 0 <= i < |a|
    ensures r.Success? ==> |r.value.0| == |a| && |r.value.1| == |cur|
  {
    if a[i] == -1 then Success((a, cur))
    else
      var prev := a[i] - 1;
      match PyIndex(prev, |s|)
      case None => Failure(IndexError)
      case Some(q) =>
        var rk := rank[s[q]];
        if !sl[q] then Success((a, cur))
        else
          match PyIndex(cur[rk], |a|)
          case None => Failure(IndexError)
          case Some(t) => Success((a[t := prev], cur[rk := cur[rk] + 1]))
  }

  /** The forward loop from index i to the end. */
  function ForwardFrom(s: seq<int>, sl: seq<bool>, rank: map<int, int>, a: seq<int>, cur: seq<int>, i: int)
    : (r: Result<seq<int>, PyError>)
    requires |a| == |s| == |sl| && Ranked(s, rank, |cur|) && 0 <= i <= |a|
    ensures r.Success? ==> |r.value| == |a|
    decreases |a| - i
  {
    if i == |a| then Success(a)
    else
      match ForwardStep(s, sl, rank, a, cur, i)
      case Failure(e) => Failure(e)
      case Success(next) => ForwardFrom(s, sl, rank, next.0, next.1, i + 1)
  }

  /** The explicit step before the loop: position n - 1, the one before the implicit
      sentinel, goes to the front of its symbol's bucket. */
  function ForwardStart(s: seq<int>, rank: map<int, int>, pos: seq<int>, a: seq<int>)
    : (r: Result<(seq<int>, seq<int>), PyError>)
    requires |a| == |s| > 0 && Ranked(s, rank, |pos|)
    ensures r.Success? ==> |r.value.0| == |a| && |r.value.1| == |pos|
  {
    var rk := rank[s[|s| - 1]];
    match PyIndex(pos[rk], |a|)
    case None => Failure(IndexError)
    case Some(t) => Success((a[t := |s| - 1], pos[rk := pos[rk] + 1]))
  }

  /** The whole forward pass on a copy of position_array. */
  function Forward(s: seq<int>, sl: seq<bool>, rank: map<int, int>, pos: seq<int>, a: seq<int>)
    : (r: Result<seq<int>, PyError>)
    requires |a| == |s| == |sl| > 0 && Ranked(s, rank, |pos|)
    ensures r.Success? ==> |r.value| == |a|
  {
    match ForwardStart(s, rank, pos, a)
    case Failure(e) => Failure(e)
    case Success(st) => ForwardFrom(s, sl, rank, st.0, st.1, 0)
  }

  /** _second_pass_forward_induced_sort: rewrites sa as the forward pass does, or reports the
      IndexError it raises. */
  method ForwardInducedSort(s: seq<int>, sa: array<int>, pos: seq<int>, rank: map<int, int>, sl: seq<bool>)
    returns (err: Option<PyError>)
    requires sa.Length == |s| == |sl| > 0 && Ranked(s, rank, |pos|)
    modifies sa
    ensures match Forward(s, sl, rank, pos, old(sa[..]))
            case Success(b) => err == None && sa[..] == b
            case Failure(e) => err == Some(e)
  {
    var n := |s|;
    var cur := pos;
    var rk := rank[s[n - 1]];
    var t := PyIndex(cur[rk], n);
    if t.None? {
      return Some(IndexError);
    }
    sa[t.value] := n - 1;
    cur := cur[rk := cur[rk] + 1];
    err := None;
    for i := 0 to n
      invariant |cur| == |pos|
      invariant Forward(s, sl, rank, pos, old(sa[..])) == ForwardFrom(s, sl, rank, sa[..], cur, i)
    {
      if sa[i] != -1 {
        var prev := sa[i] - 1;
        var q := PyIndex(prev, n);
        if q.None? {
          return Some(IndexError);
        }
        var r := rank[s[q.value]];
        if sl[q.value] {
          var w := PyIndex(cur[r], n);
          if w.None? {
            return Some(IndexError);
          }
          sa[w.value] := prev;
          cur := cur[r := cur[r] + 1];
        }
      }
    }
  }

  /** Entries between -1 and n - 1: what seeding leaves in sa. */
  predicate Entries(a: seq<int>, n: int)
  {
    forall k :: 0 <= k < |a| ==> -1 <= a[k] < n
  }

  /** The forward pass keeps every entry between -1 and n - 1: each value it writes is the
      position before an entry, and an entry 0 gives the wrapped -1 (the always-L position
      n - 1 read through Python's negative index). So its reads s[prev] never leave the list. */
  lemma {:induction false} ForwardEntries(s: seq<int>, sl: seq<bool>, rank: map<int, int>, a: seq<int>, cur: seq<int>, i: int)
    requires |a| == |s| == |sl| && Ranked(s, rank, |cur|) && 0 <= i <= |a| && Entries(a, |s|)
    ensures ForwardFrom(s, sl, rank, a, cur, i).Success? ==> Entries(ForwardFrom(s, sl, rank, a, cur, i).value, |s|)
    decreases |a| - i
  {
    if i < |a| {
      var r := ForwardStep(s, sl, rank, a, cur, i);
      if r.Success? {
        assert Entries(r.value.0, |s|);
        ForwardEntries(s, sl, rank, r.value.0, r.value.1, i + 1);
      }
    }
  }

  /** The wrapped index reproduced: at an entry 0, prev is -1, which Python reads as the
      always-L position n - 1, so -1 is written at the cursor of the bucket of s[n - 1]. */
  lemma ForwardWrap(s: seq<int>, sl: seq<bool>, rank: map<int, int>, a: seq<int>, cur: seq<int>, i: int)
    requires |a| == |s| == |sl| && Ranked(s, rank, |cur|) && 0 <= i < |a| && a[i] == 0
    requires sl[|s| - 1]
    requires 0 <= cur[rank[s[|s| - 1]]] < |a|
    ensures var rk := rank[s[|s| - 1]];
            ForwardStep(s, sl, rank, a, cur, i) == Success((a[cur[rk] := -1], cur[rk := cur[rk] + 1]))
  {
  }

  // ---------------------------------------------------------------------------------------
  // _third_pass_reverse_induced_sort

  /** One turn of the reverse loop at index i, with second_pass_pos as cur: the position
      before sa[i], when it is S-type, is written just below the cursor of the next bucket,
      which moves down. */
  function ReverseStep(s: seq<int>, sl: seq<bool>, rank: map<int, int>, a: seq<int>, cur: seq<int>, i: int)
    : (r: Result<(seq<int>, seq<int>), PyError>)
    requires |a| == |s| == |sl| && Ranked(s, rank, |cur|) && 0 <= i < |a|
    ensures r.Success? ==> |r.value.0| == |a| && |r.value.1| == |cur|
  {
    var prev := a[i] - 1;
    match PyIndex(prev, |s|)
    case None => Failure(IndexError)
    case Some(q) =>
      if sl[q] then Success((a, cur))
      else
        var rk := rank[s[q]];
        if rk + 1 >= |cur| then Failure(IndexError)
        else
          match PyIndex(cur[rk + 1] - 1, |a|)
          case None => Failure(IndexError)
          case Some(t) => Success((a[t := prev], cur[rk + 1 := cur[rk + 1] - 1]))
  }

  /** The reverse loop over the indices below i, from i - 1 down to 0. */
  function ReverseDown(s: seq<int>, sl: seq<bool>, rank: map<int, int>, a: seq<int>, cur: seq<int>, i: int)
    : (r: Result<seq<int>, PyError>)
    requires |a| == |s| == |sl| && Ranked(s, rank, |cur|) && 0 <= i <= |a|
    ensures r.Success? ==> |r.value| == |a|
    decreases i
  {
    if i == 0 then Success(a)
    else
      match ReverseStep(s, sl, rank, a, cur, i - 1)
      case Failure(e) => Failure(e)
      case Success(next) => ReverseDown(s, sl, rank, next.0, next.1, i - 1)
  }

  /** _third_pass_reverse_induced_sort: rewrites sa as the reverse pass does, on a copy of
      position_array, or reports the IndexError it raises. */
  method ReverseInducedSort(s: seq<int>, sa: array<int>, pos: seq<int>, sl: seq<bool>, rank: map<int, int>)
    returns (err: Option<PyError>)
    requires sa.Length == |s| == |sl| && Ranked(s, rank, |pos|)
    modifies sa
    ensures match ReverseDown(s, sl, rank, old(sa[..]), pos, |s|)
            case Success(b) => err == None && sa[..] == b
            case Failure(e) => err == Some(e)
  {
    var n := |s|;
    var cur := pos;
    err := None;
    var i := n;
    while i > 0
      invariant 0 <= i <= n && |cur| == |pos|
      invariant ReverseDown(s, sl, rank, old(sa[..]), pos, n) == ReverseDown(s, sl, rank, sa[..], cur, i)
    {
      i := i - 1;
      var prev := sa[i] - 1;
      var q := PyIndex(prev, n);
      if q.None? {
        return Some(IndexError);
      }
      if !sl[q.value] {
        var r := rank[s[q.value]];
        if r + 1 >= |cur| {
          return Some(IndexError);
        }
        var w := PyIndex(cur[r + 1] - 1, n);
        if w.None? {
          return Some(IndexError);
        }
        sa[w.value] := prev;
        cur := cur[r + 1 := cur[r + 1] - 1];
      }
    }
  }

  /** The reverse pass never needs a cursor past the last bucket: an S-type position never
      holds the largest symbol, so its rank plus one is still a rank. */
  lemma SCursorExists(s: seq<int>, cs: seq<int>, rank: map<int, int>, q: int)
    requires Increasing(cs) && (forall c :: c in cs <==> c in s)
    requires forall r :: 0 <= r < |cs| ==> cs[r] in rank && rank[cs[r]] == r
    requires 0 <= q < |s| && !LType(s, q)
    ensures s[q] in rank && rank[s[q]] + 1 < |cs|
  {
    assert s[q] in cs;
    var r :| 0 <= r < |cs| && cs[r] == s[q];
    if r == |cs| - 1 {
      forall c | c in s
        ensures c <= s[q]
      {
        assert c in cs;
        var r' :| 0 <= r' < |cs| && cs[r'] == c;
      }
      forall k | 0 <= k < |s|
        ensures s[k] <= s[q]
      {
        assert s[k] in s;
      }
      LargestIsL(s, q);
    }
  }

  /** The reverse pass writes only S-type positions: after it, every entry is either the one
      the pass found there or, read as a Python index, an S-type position. */
  lemma {:induction false} ReverseWritesS(s: seq<int>, sl: seq<bool>, rank: map<int, int>, a0: seq<int>,
                                          a: seq<int>, cur: seq<int>, i: int)
    requires |a0| == |a| == |s| == |sl| && Ranked(s, rank, |cur|) && 0 <= i <= |a|
    requires forall k :: 0 <= k < |a| ==> a[k] == a0[k] || (PyIndex(a[k], |s|).Some? && !sl[PyIndex(a[k], |s|).value])
    ensures var r := ReverseDown(s, sl, rank, a, cur, i);
            r.Success? ==> forall k :: 0 <= k < |a| ==>
              r.value[k] == a0[k] || (PyIndex(r.value[k], |s|).Some? && !sl[PyIndex(r.value[k], |s|).value])
    decreases i
  {
    if i > 0 {
      var r := ReverseStep(s, sl, rank, a, cur, i - 1);
      if r.Success? {
        ReverseWritesS(s, sl, rank, a0, r.value.0, r.value.1, i - 1);
      }
    }
  }
}

/** The LMS positions of suffix_array (suffix_array.py): the S-type positions right after an
    L-type one, grouped by symbol, and the block each of them starts. */
module SaisLms {
  import opened Wrappers
  import opened SaisTypes

  /** i is an LMS position: S-type with an L-type position just before it. */
  predicate IsLms(sl: seq<bool>, i: int)
  {
    1 <= i < |sl| && sl[i - 1] && !sl[i]
  }

  /** The first LMS position at or after k, or |sl| when there is none. */
  function FirstLmsFrom(sl: seq<bool>, k: int): (q: int)
    requires 0 <= k <= |sl|
    ensures k <= q <= |sl| && (q < |sl| ==> IsLms(sl, q))
    ensures forall m :: k <= m < q ==> !IsLms(sl, m)
    decreases |sl| - k
  {
    if k == |sl| then |sl| else if IsLms(sl, k) then k else FirstLmsFrom(sl, k + 1)
  }

  /** The exclusive end of the LMS block starting at p: one past the next LMS position, or
      the end of the sequence for the last block. */
  function BlockEnd(sl: seq<bool>, p: int): int
    requires 0 <= p < |sl|
  {
    var q := FirstLmsFrom(sl, p + 1);
    if q == |sl| then |sl| else q + 1
  }

  /** The number of LMS positions below hi. */
  function LmsBelow(sl: seq<bool>, hi: int): nat
    requires 0 <= hi <= |sl|
  {
    if hi == 0 then 0 else LmsBelow(sl, hi - 1) + (if IsLms(sl, hi - 1) then 1 else 0)
  }

  /** No two LMS positions are adjacent, so at most every second position is one. */
  lemma {:induction false} LmsBound(sl: seq<bool>, hi: int)
    requires 0 <= hi <= |sl|
    ensures 2 * LmsBelow(sl, hi) <= hi
    decreases hi
  {
    if hi > 0 {
      if IsLms(sl, hi - 1) {
        assert !IsLms(sl, hi - 2);
        LmsBound(sl, hi - 2);
      } else {
        LmsBound(sl, hi - 1);
      }
    }
  }

  /** The reduced sequence has one entry per LMS block (one block when there is no LMS
      position), and so for n >= 2 it is strictly shorter than the input: the recursion of
      suffix_array terminates. */
  lemma ReducedShorter(sl: seq<bool>)
    requires |sl| >= 2 && sl[|sl| - 1]
    ensures (if LmsBelow(sl, |sl|) == 0 then 1 else LmsBelow(sl, |sl|)) < |sl|
  {
    LmsBound(sl, |sl|);
  }

  /** Every list of char_lms is increasing and not empty. */
  ghost predicate ListsIncreasing(charLms: map<int, seq<int>>)
  {
    forall c :: c in charLms ==> Increasing(charLms[c]) && charLms[c] != []
  }

  /** Every entry of c's list is an LMS position below hi holding c. */
  ghost predicate ListsSound(s: seq<int>, sl: seq<bool>, charLms: map<int, seq<int>>, hi: int)
    requires |sl| == |s|
  {
    forall c, j :: c in charLms && 0 <= j < |charLms[c]| ==>
      0 <= charLms[c][j] < hi && IsLms(sl, charLms[c][j]) && s[charLms[c][j]] == c
  }

  /** Every LMS position below hi is in the list of its symbol. */
  ghost predicate ListsComplete(s: seq<int>, sl: seq<bool>, charLms: map<int, seq<int>>, hi: int)
    requires |sl| == |s|
  {
    forall p :: 0 <= p < hi && IsLms(sl, p) ==> s[p] in charLms && p in charLms[s[p]]
  }

  /** char_lms up to hi: for each symbol, the LMS positions below hi holding it, in increasing
      order; symbols without one have no entry. */
  ghost predicate LmsLists(s: seq<int>, sl: seq<bool>, charLms: map<int, seq<int>>, hi: int)
    requires |sl| == |s|
  {
    ListsIncreasing(charLms) && ListsSound(s, sl, charLms, hi) && ListsComplete(s, sl, charLms, hi)
  }

  /** lms_blocks: every LMS position maps to the end of its block; with no LMS position the
      only key is None, mapped to n. */
  ghost predicate Blocks(sl: seq<bool>, blocks: map<Option<int>, int>)
  {
    (forall k :: k in blocks <==>
       if FirstLmsFrom(sl, 0) == |sl| then k == None else k.Some? && 0 <= k.value < |sl| && IsLms(sl, k.value)) &&
    (forall p :: 0 <= p < |sl| && IsLms(sl, p) ==> blocks[Some(p)] == BlockEnd(sl, p)) &&
    (FirstLmsFrom(sl, 0) == |sl| ==> blocks[None] == |sl|)
  }

  /** Appending i to the list of s[i] keeps every list increasing. */
  lemma IncreasingStep(s: seq<int>, sl: seq<bool>, charLms: map<int, seq<int>>, i: int)
    requires |sl| == |s| && 0 <= i < |s|
    requires ListsIncreasing(charLms) && ListsSound(s, sl, charLms, i)
    ensures ListsIncreasing(charLms[s[i] := (if s[i] in charLms then charLms[s[i]] else []) + [i]])
  {
    var list := if s[i] in charLms then charLms[s[i]] else [];
    if s[i] in charLms {
      ListOf(s, sl, charLms, i, s[i]);
    }
    SnocIncreasing(list, i);
    var m := charLms[s[i] := list + [i]];
    forall c | c in m
      ensures Increasing(m[c]) && m[c] != []
    {
      if c != s[i] {
        assert m[c] == charLms[c];
      }
    }
  }

  /** Appending the LMS position i to the list of s[i] keeps every entry an LMS position with
      its list's symbol. */
  lemma SoundStep(s: seq<int>, sl: seq<bool>, charLms: map<int, seq<int>>, i: int)
    requires |sl| == |s| && 0 <= i < |s| && ListsSound(s, sl, charLms, i)
    ensures ListsSound(s, sl, charLms, i + 1)
    ensures IsLms(sl, i) ==>
      ListsSound(s, sl, charLms[s[i] := (if s[i] in charLms then charLms[s[i]] else []) + [i]], i + 1)
  {
    if IsLms(sl, i) {
      var list := if s[i] in charLms then charLms[s[i]] else [];
      var m := charLms[s[i] := list + [i]];
      forall c, j | c in m && 0 <= j < |m[c]|
        ensures 0 <= m[c][j] < i + 1 && IsLms(sl, m[c][j]) && s[m[c][j]] == c
      {
        if c != s[i] {
          assert m[c] == charLms[c];
        } else if j < |list| {
          assert m[c][j] == list[j] == charLms[c][j];
        }
      }
    }
  }

  /** After the step at i, every LMS position up to i is in its symbol's list. */
  lemma CompleteStep(s: seq<int>, sl: seq<bool>, charLms: map<int, seq<int>>, i: int)
    requires |sl| == |s| && 0 <= i < |s| && ListsComplete(s, sl, charLms, i)
    ensures !IsLms(sl, i) ==> ListsComplete(s, sl, charLms, i + 1)
    ensures IsLms(sl, i) ==>
      ListsComplete(s, sl, charLms[s[i] := (if s[i] in charLms then charLms[s[i]] else []) + [i]], i + 1)
  {
    var list := if s[i] in charLms then charLms[s[i]] else [];
    var m := charLms[s[i] := list + [i]];
    if IsLms(sl, i) {
      forall p | 0 <= p < i + 1 && IsLms(sl, p)
        ensures s[p] in m && p in m[s[p]]
      {
        if p < i {
          assert p in charLms[s[p]];
          if s[p] == s[i] {
            assert p in list;
          }
        }
      }
    } else {
      forall p | 0 <= p < i + 1 && IsLms(sl, p)
        ensures s[p] in charLms && p in charLms[s[p]]
      {
        assert p != i;
      }
    }
  }

  /** What ListsIncreasing and ListsSound say about the list of one symbol c. */
  lemma ListOf(s: seq<int>, sl: seq<bool>, charLms: map<int, seq<int>>, hi: int, c: int)
    requires |sl| == |s| && ListsIncreasing(charLms) && ListsSound(s, sl, charLms, hi) && c in charLms
    ensures Increasing(charLms[c]) && charLms[c] != []
    ensures forall j :: 0 <= j < |charLms[c]| ==> charLms[c][j] < hi
  {
  }

  /** Appending a value above every entry keeps a list increasing. */
  lemma SnocIncreasing(list: seq<int>, x: int)
    requires Increasing(list) && forall j :: 0 <= j < |list| ==> list[j] < x
    ensures Increasing(list + [x])
  {
  }

  /** One step of the loop for char_lms: position i is appended to its symbol's list when it
      is an LMS position. */
  lemma LmsListsStep(s: seq<int>, sl: seq<bool>, charLms: map<int, seq<int>>, i: int)
    requires |sl| == |s| && 0 < i < |s| && LmsLists(s, sl, charLms, i)
    ensures !IsLms(sl, i) ==> LmsLists(s, sl, charLms, i + 1)
    ensures IsLms(sl, i) ==>
      LmsLists(s, sl, charLms[s[i] := (if s[i] in charLms then charLms[s[i]] else []) + [i]], i + 1)
  {
    IncreasingStep(s, sl, charLms, i);
    SoundStep(s, sl, charLms, i);
    CompleteStep(s, sl, charLms, i);
  }

  /** The state of lms_blocks and prev_lms after the positions below i. */
  ghost predicate BlocksUpTo(sl: seq<bool>, blocks: map<Option<int>, int>, prev: Option<int>, i: int)
    requires 0 <= i <= |sl|
  {
    (prev.None? <==> FirstLmsFrom(sl, 0) >= i) &&
    (prev.Some? ==> 0 < prev.value < i && IsLms(sl, prev.value) && FirstLmsFrom(sl, prev.value + 1) >= i) &&
    (forall k :: k in blocks <==> k.Some? && 0 <= k.value < i && IsLms(sl, k.value) && k != prev) &&
    (forall p :: 0 <= p < i && IsLms(sl, p) && Some(p) != prev ==> blocks[Some(p)] == BlockEnd(sl, p)) &&
    |blocks| + (if prev.Some? then 1 else 0) == LmsBelow(sl, i)
  }

  /** Position 0 is never an LMS position, so the loop starts at 1 with nothing found. */
  lemma BlocksStart(sl: seq<bool>)
    requires |sl| > 0
    ensures BlocksUpTo(sl, map[], None, 1)
  {
    assert !IsLms(sl, 0);
    assert LmsBelow(sl, 1) == 0;
  }

  /** A position that is not LMS leaves lms_blocks and prev_lms as they are. */
  lemma BlocksSkip(sl: seq<bool>, blocks: map<Option<int>, int>, prev: Option<int>, i: int)
    requires 0 < i < |sl| && BlocksUpTo(sl, blocks, prev, i) && !IsLms(sl, i)
    ensures BlocksUpTo(sl, blocks, prev, i + 1)
  {
    assert FirstLmsFrom(sl, 0) != i;
    assert prev.Some? ==> FirstLmsFrom(sl, prev.value + 1) != i;
    assert LmsBelow(sl, i + 1) == LmsBelow(sl, i);
    forall k
      ensures k in blocks <==> k.Some? && 0 <= k.value < i + 1 && IsLms(sl, k.value) && k != prev
    {
    }
  }

  /** An LMS position i closes the block of the previous one at i + 1 and becomes prev_lms. */
  lemma BlocksClose(sl: seq<bool>, blocks: map<Option<int>, int>, prev: Option<int>, i: int,
                    b: map<Option<int>, int>)
    requires 0 < i < |sl| && BlocksUpTo(sl, blocks, prev, i) && IsLms(sl, i)
    requires b == if prev.Some? then blocks[prev := i + 1] else blocks
    ensures BlocksUpTo(sl, b, Some(i), i + 1)
  {
    assert prev !in blocks;
    assert |b| == |blocks| + (if prev.Some? then 1 else 0);
    assert FirstLmsFrom(sl, 0) <= i;
    CloseKeys(sl, blocks, prev, i, b);
    CloseEnds(sl, blocks, prev, i, b);
  }

  /** The keys after closing: the LMS positions up to i, without i itself. */
  lemma CloseKeys(sl: seq<bool>, blocks: map<Option<int>, int>, prev: Option<int>, i: int,
                  b: map<Option<int>, int>)
    requires 0 < i < |sl| && IsLms(sl, i)
    requires prev.Some? ==> 0 < prev.value < i && IsLms(sl, prev.value)
    requires forall k :: k in blocks <==> k.Some? && 0 <= k.value < i && IsLms(sl, k.value) && k != prev
    requires b == if prev.Some? then blocks[prev := i + 1] else blocks
    ensures forall k :: k in b <==> k.Some? && 0 <= k.value < i + 1 && IsLms(sl, k.value) && k != Some(i)
  {
    forall k
      ensures k in b <==> k.Some? && 0 <= k.value < i + 1 && IsLms(sl, k.value) && k != Some(i)
    {
      if k != prev {
        assert k in b <==> k in blocks;
      }
    }
  }

  /** The ends after closing: the block of prev_lms now ends at i + 1. */
  lemma CloseEnds(sl: seq<bool>, blocks: map<Option<int>, int>, prev: Option<int>, i: int,
                  b: map<Option<int>, int>)
    requires 0 < i < |sl| && BlocksUpTo(sl, blocks, prev, i) && IsLms(sl, i)
    requires b == if prev.Some? then blocks[prev := i + 1] else blocks
    requires forall k :: k in b <==> k.Some? && 0 <= k.value < i + 1 && IsLms(sl, k.value) && k != Some(i)
    ensures forall p :: 0 <= p < i + 1 && IsLms(sl, p) && Some(p) != Some(i) ==> b[Some(p)] == BlockEnd(sl, p)
  {
    forall p | 0 <= p < i + 1 && IsLms(sl, p) && Some(p) != Some(i)
      ensures b[Some(p)] == BlockEnd(sl, p)
    {
      if Some(p) == prev {
        assert FirstLmsFrom(sl, p + 1) == i;
      } else {
        assert b[Some(p)] == blocks[Some(p)];
      }
    }
  }

  /** The closing assignment lms_blocks[prev_lms] = n. */
  lemma BlocksFinish(sl: seq<bool>, blocks: map<Option<int>, int>, prev: Option<int>)
    requires BlocksUpTo(sl, blocks, prev, |sl|)
    ensures Blocks(sl, blocks[prev := |sl|])
    ensures |blocks[prev := |sl|]| == if LmsBelow(sl, |sl|) == 0 then 1 else LmsBelow(sl, |sl|)
  {
    var n := |sl|;
    var b := blocks[prev := n];
    assert prev !in blocks;
    if prev.None? {
      assert blocks == map[];
    }
    forall k
      ensures k in b <==> if FirstLmsFrom(sl, 0) == n then k == None else k.Some? && 0 <= k.value < n && IsLms(sl, k.value)
    {
      if k != prev {
        assert k in b <==> k in blocks;
      }
    }
    forall p | 0 <= p < n && IsLms(sl, p)
      ensures b[Some(p)] == BlockEnd(sl, p)
    {
      if Some(p) != prev {
        assert b[Some(p)] == blocks[Some(p)];
      }
    }
  }

  /** One turn of the loop finding the LMS positions: an LMS position i joins the list of
      its symbol and closes the block of the previous one at i + 1. */
  method VisitLms(s: seq<int>, sl: seq<bool>, charLms: map<int, seq<int>>, blocks: map<Option<int>, int>,
                  prev: Option<int>, i: int)
    returns (charLms': map<int, seq<int>>, blocks': map<Option<int>, int>, prev': Option<int>)
    requires |sl| == |s| && 0 < i < |s|
    requires LmsLists(s, sl, charLms, i) && BlocksUpTo(sl, blocks, prev, i)
    ensures LmsLists(s, sl, charLms', i + 1) && BlocksUpTo(sl, blocks', prev', i + 1)
  {
    LmsListsStep(s, sl, charLms, i);
    charLms', blocks', prev' := charLms, blocks, prev;
    if sl[i - 1] && !sl[i] {
      var list := if s[i] in charLms then charLms[s[i]] else [];
      charLms' := charLms[s[i] := list + [i]];
      if prev.Some? {
        blocks' := blocks[prev := i + 1];
      }
      BlocksClose(sl, blocks, prev, i, blocks');
      prev' := Some(i);
    } else {
      BlocksSkip(sl, blocks, prev, i);
    }
  }

  /** The loop finding the LMS positions and the closing assignment lms_blocks[prev_lms] = n. */
  method FindLms(s: seq<int>, sl: seq<bool>) returns (charLms: map<int, seq<int>>, blocks: map<Option<int>, int>)
    requires |sl| == |s| > 0
    ensures LmsLists(s, sl, charLms, |s|)
    ensures Blocks(sl, blocks)
    ensures |blocks| == if LmsBelow(sl, |sl|) == 0 then 1 else LmsBelow(sl, |sl|)
  {
    var n := |s|;
    charLms := map[];
    blocks := map[];
    var prev: Option<int> := None;
    BlocksStart(sl);
    for i := 1 to n
      invariant LmsLists(s, sl, charLms, i)
      invariant BlocksUpTo(sl, blocks, prev, i)
    {
      charLms, blocks, prev := VisitLms(s, sl, charLms, blocks, prev, i);
    }
    BlocksFinish(sl, blocks, prev);
    blocks := blocks[prev := n];
  }
}

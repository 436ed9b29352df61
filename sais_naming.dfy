/** The reduction step of suffix_array (suffix_array.py): naming the LMS blocks in the order
    the induced sort left them, the reduced sequence of names with its correspondence back to
    positions, and the LMS lists rebuilt from the recursively sorted order. */
module SaisNaming {
  import opened Wrappers
  import opened SaisLms
  import opened SaisPasses

  /** The block of LMS position p: s[p:lms_blocks[p]]. */
  function Block(s: seq<int>, blocks: map<Option<int>, int>, p: int): seq<int>
    requires Some(p) in blocks && 0 <= p <= blocks[Some(p)] <= |s|
  {
    s[p..blocks[Some(p)]]
  }

  /** Every block lies inside s and is not empty. */
  ghost predicate BlocksInside(s: seq<int>, blocks: map<Option<int>, int>)
  {
    forall p :: Some(p) in blocks ==> 0 <= p < blocks[Some(p)] <= |s|
  }

  /** prev_lms_block: a block that does not reach the end of s, kept with its end. */
  ghost predicate PrevBlock(s: seq<int>, blocks: map<Option<int>, int>, prev: Option<(int, int)>)
    requires BlocksInside(s, blocks)
  {
    prev.Some? ==> Some(prev.value.0) in blocks && blocks[Some(prev.value.0)] == prev.value.1 < |s|
  }

  /** The naming loop's invariant after the entries of sa below i. */
  ghost predicate Named(s: seq<int>, sa: seq<int>, blocks: map<Option<int>, int>, i: int,
                        mapping: map<int, int>, prev: Option<(int, int)>, curr: int)
    requires BlocksInside(s, blocks) && 0 <= i <= |sa|
  {
    PrevBlock(s, blocks, prev) &&
    (forall p :: p in mapping <==> Some(p) in blocks && p in sa[..i]) &&
    0 <= curr && (forall p :: p in mapping ==> 0 <= mapping[p] <= curr) &&
    (prev.None? ==> forall p :: p in mapping ==> blocks[Some(p)] == |s|) &&
    (forall p :: p in mapping && blocks[Some(p)] < |s| && mapping[p] == curr ==>
       prev.Some? && Block(s, blocks, p) == Block(s, blocks, prev.value.0)) &&
    (forall p, q :: (p in mapping && q in mapping && blocks[Some(p)] < |s| && blocks[Some(q)] < |s| &&
                     mapping[p] == mapping[q]) ==> Block(s, blocks, p) == Block(s, blocks, q))
  }

  /** One turn of the naming loop. The block ending at n takes the counter and moves it on
      without comparing; the first other block takes the counter; any later one keeps the
      counter when its content equals the previous named block's and otherwise moves it on. */
  method NameStep(s: seq<int>, sa: seq<int>, blocks: map<Option<int>, int>, i: int,
                  mapping: map<int, int>, prev: Option<(int, int)>, curr: int)
    returns (mapping': map<int, int>, prev': Option<(int, int)>, curr': int)
    requires BlocksInside(s, blocks) && 0 <= i < |sa|
    requires Named(s, sa, blocks, i, mapping, prev, curr)
    ensures Named(s, sa, blocks, i + 1, mapping', prev', curr')
  {
    assert sa[..i + 1] == sa[..i] + [sa[i]];
    mapping', prev', curr' := mapping, prev, curr;
    var p := sa[i];
    if Some(p) in blocks {
      var end := blocks[Some(p)];
      if end == |s| {
        mapping' := mapping[p := curr];
        curr' := curr + 1;
      } else if prev.None? {
        mapping' := mapping[p := curr];
        prev' := Some((p, end));
        forall q | q in mapping' && blocks[Some(q)] < |s|
          ensures q == p
        {
        }
      } else if s[p..end] == s[prev.value.0..prev.value.1] {
        mapping' := mapping[p := curr];
        assert Block(s, blocks, p) == Block(s, blocks, prev.value.0);
        forall q | q in mapping' && blocks[Some(q)] < |s| && mapping'[q] == curr
          ensures Block(s, blocks, q) == Block(s, blocks, prev.value.0)
        {
          if q != p {
            assert mapping[q] == curr;
          }
        }
      } else {
        curr' := curr + 1;
        mapping' := mapping[p := curr'];
        prev' := Some((p, end));
        forall q | q in mapping' && mapping'[q] == curr'
          ensures q == p
        {
        }
      }
    }
  }

  /** The naming loop: every LMS position met in sa gets a name, and two blocks that do not
      reach the end of s and share a name have identical content. The block that reaches the
      end is left out of that promise: it takes the counter without any comparison. */
  method NameBlocks(s: seq<int>, sa: seq<int>, blocks: map<Option<int>, int>) returns (mapping: map<int, int>)
    requires BlocksInside(s, blocks) && |sa| == |s|
    ensures forall p :: p in mapping <==> Some(p) in blocks && p in sa
    ensures forall p :: p in mapping ==> 0 <= mapping[p]
    ensures forall p, q :: (p in mapping && q in mapping && blocks[Some(p)] < |s| && blocks[Some(q)] < |s| &&
                            mapping[p] == mapping[q]) ==> Block(s, blocks, p) == Block(s, blocks, q)
  {
    mapping := map[];
    var prev: Option<(int, int)> := None;
    var curr := 0;
    for i := 0 to |sa|
      invariant Named(s, sa, blocks, i, mapping, prev, curr)
    {
      mapping, prev, curr := NameStep(s, sa, blocks, i, mapping, prev, curr);
    }
    assert sa[..|sa|] == sa;
  }

  /** Positions below hi that are keys of mapping. */
  function KeysBelow(mapping: map<int, int>, hi: int): nat
    requires 0 <= hi
  {
    if hi == 0 then 0 else KeysBelow(mapping, hi - 1) + (if hi - 1 in mapping then 1 else 0)
  }

  /** Only LMS positions are named, so there are no more names below hi than LMS positions. */
  lemma {:induction false} KeysWithinLms(sl: seq<bool>, mapping: map<int, int>, hi: int)
    requires 0 <= hi <= |sl| && forall p :: p in mapping ==> IsLms(sl, p)
    ensures KeysBelow(mapping, hi) <= LmsBelow(sl, hi)
    decreases hi
  {
    if hi > 0 {
      KeysWithinLms(sl, mapping, hi - 1);
    }
  }

  /** reduced_lms and recursion_correspondence after the positions below i, j entries set. */
  ghost predicate ReducedUpTo(mapping: map<int, int>, size: int, i: int, reduced: seq<int>, corr: map<int, int>, j: int)
  {
    0 <= j <= size && |reduced| == size &&
    (forall t :: t in corr <==> 0 <= t < j) &&
    (forall t :: 0 <= t < j ==> corr[t] in mapping && 0 <= corr[t] < i && reduced[t] == mapping[corr[t]]) &&
    (forall t, u :: 0 <= t < u < j ==> corr[t] < corr[u]) &&
    (forall p :: p in mapping && p < i ==> exists t :: 0 <= t < j && corr[t] == p) &&
    (forall t :: j <= t < size ==> reduced[t] == 0)
  }

  /** One turn of the loop: a named position i takes the next entry. */
  method ReduceStep(mapping: map<int, int>, size: int, i: int, reduced: seq<int>, corr: map<int, int>, j: int)
    returns (reduced': seq<int>, corr': map<int, int>, j': int)
    requires 0 <= i && ReducedUpTo(mapping, size, i, reduced, corr, j)
    requires i in mapping ==> j < size
    ensures ReducedUpTo(mapping, size, i + 1, reduced', corr', j')
    ensures j' == j + (if i in mapping then 1 else 0)
  {
    reduced', corr', j' := reduced, corr, j;
    if i in mapping {
      corr' := corr[j := i];
      forall p | p in mapping && p < i + 1
        ensures exists t :: 0 <= t < j + 1 && corr'[t] == p
      {
        if p == i {
          assert corr'[j] == p;
        } else {
          var t :| 0 <= t < j && corr[t] == p;
          assert corr'[t] == p;
        }
      }
      reduced' := reduced[j := mapping[i]];
      j' := j + 1;
    }
  }

  /** The loop building reduced_lms and recursion_correspondence: the names in increasing
      position order, and for each index of the reduced sequence the position it stands for.
      The entries past the last name stay 0. */
  method Reduce(sl: seq<bool>, mapping: map<int, int>, size: int)
    returns (reduced: seq<int>, corr: map<int, int>, ghost m: nat)
    requires forall p :: p in mapping ==> IsLms(sl, p)
    requires LmsBelow(sl, |sl|) <= size
    ensures |reduced| == size && m == KeysBelow(mapping, |sl|) <= size
    ensures forall t :: t in corr <==> 0 <= t < m
    ensures forall t :: 0 <= t < m ==> corr[t] in mapping && 0 <= corr[t] < |sl| && reduced[t] == mapping[corr[t]]
    ensures forall t, u :: 0 <= t < u < m ==> corr[t] < corr[u]
    ensures forall p :: p in mapping ==> exists t :: 0 <= t < m && corr[t] == p
    ensures forall t :: m <= t < size ==> reduced[t] == 0
  {
    KeysWithinLms(sl, mapping, |sl|);
    reduced := seq(size, _ => 0);
    corr := map[];
    var j := 0;
    for i := 0 to |sl|
      invariant j == KeysBelow(mapping, i) <= KeysBelow(mapping, |sl|)
      invariant ReducedUpTo(mapping, size, i, reduced, corr, j)
    {
      KeysMono(mapping, i + 1, |sl|);
      reduced, corr, j := ReduceStep(mapping, size, i, reduced, corr, j);
    }
    m := j;
    forall p | p in mapping
      ensures exists t :: 0 <= t < m && corr[t] == p
    {
      assert IsLms(sl, p);
    }
  }

  /** More positions, no fewer keys. */
  lemma {:induction false} KeysMono(mapping: map<int, int>, lo: int, hi: int)
    requires 0 <= lo <= hi
    ensures KeysBelow(mapping, lo) <= KeysBelow(mapping, hi)
    decreases hi - lo
  {
    if lo < hi {
      KeysMono(mapping, lo, hi - 1);
    }
  }

  /** The loop building sorted_lms: each index of the recursively sorted reduced sequence,
      turned back into a position through recursion_correspondence.get, None when it has no
      entry there. */
  method LmsOrder(sortedBlocks: seq<int>, corr: map<int, int>, size: int) returns (sortedLms: seq<Option<int>>)
    requires 0 <= size <= |sortedBlocks|
    ensures |sortedLms| == size
    ensures forall k :: 0 <= k < size ==>
              (sortedLms[k].Some? <==> sortedBlocks[k] in corr) &&
              (sortedLms[k].Some? ==> sortedLms[k].value == corr[sortedBlocks[k]])
  {
    sortedLms := seq(size, _ => Some(0));
    for i := 0 to size
      invariant |sortedLms| == size
      invariant forall k :: 0 <= k < i ==>
                  (sortedLms[k].Some? <==> sortedBlocks[k] in corr) &&
                  (sortedLms[k].Some? ==> sortedLms[k].value == corr[sortedBlocks[k]])
    {
      var found := if sortedBlocks[i] in corr then Some(corr[sortedBlocks[i]]) else None;
      sortedLms := sortedLms[i := found];
    }
  }

  /** The entries of xs holding symbol c, in order. */
  function WithSymbol(s: seq<int>, xs: seq<int>, c: int): (ys: seq<int>)
    requires forall k :: 0 <= k < |xs| ==> 0 <= xs[k] < |s|
    ensures |ys| <= |xs|
  {
    if xs == [] then []
    else
      var last := xs[|xs| - 1];
      var init := xs[..|xs| - 1];
      WithSymbol(s, init, c) + (if s[last] == c then [last] else [])
  }

  /** The list of c holds exactly the entries of xs that carry c. */
  lemma {:induction false} WithSymbolMembers(s: seq<int>, xs: seq<int>, c: int)
    requires forall k :: 0 <= k < |xs| ==> 0 <= xs[k] < |s|
    ensures forall y :: y in WithSymbol(s, xs, c) <==> y in xs && s[y] == c
  {
    if xs != [] {
      var last := xs[|xs| - 1];
      var init := xs[..|xs| - 1];
      assert xs == init + [last];
      WithSymbolMembers(s, init, c);
    }
  }

  /** The map the loop over xs builds: each entry appended to the list of its symbol. */
  function Grouped(s: seq<int>, xs: seq<int>): map<int, seq<int>>
    requires forall k :: 0 <= k < |xs| ==> 0 <= xs[k] < |s|
  {
    if xs == [] then map[]
    else
      var last := xs[|xs| - 1];
      var g := Grouped(s, xs[..|xs| - 1]);
      g[s[last] := Get(g, s[last]) + [last]]
  }

  /** In the grouped map, the list of c is the entries of xs holding c, in order. */
  lemma {:induction false} GroupedAt(s: seq<int>, xs: seq<int>, c: int)
    requires forall k :: 0 <= k < |xs| ==> 0 <= xs[k] < |s|
    ensures Get(Grouped(s, xs), c) == WithSymbol(s, xs, c)
  {
    if xs != [] {
      GroupedAt(s, xs[..|xs| - 1], c);
    }
  }

  /** Grouping one more entry appends it to the list of its own symbol. */
  lemma GroupedStep(s: seq<int>, xs: seq<int>, x: int)
    requires (forall k :: 0 <= k < |xs| ==> 0 <= xs[k] < |s|) && 0 <= x < |s|
    ensures Grouped(s, xs + [x]) == var g := Grouped(s, xs); g[s[x] := Get(g, s[x]) + [x]]
  {
    assert (xs + [x])[..|xs|] == xs;
  }

  /** The positions of a list in which every entry is present. */
  function Values(xs: seq<Option<int>>): (ps: seq<int>)
    requires forall k :: 0 <= k < |xs| ==> xs[k].Some?
  {
    seq(|xs|, k requires 0 <= k < |xs| => xs[k].value)
  }

  /** The rebuild of char_lms from sorted_lms: a missing position is the TypeError of s[None];
      otherwise each symbol's list is the sorted positions holding it, in sorted order. */
  method Regroup(s: seq<int>, sortedLms: seq<Option<int>>) returns (charLms: map<int, seq<int>>, err: Option<PyError>)
    requires forall k :: 0 <= k < |sortedLms| && sortedLms[k].Some? ==> 0 <= sortedLms[k].value < |s|
    ensures err.None? <==> forall k :: 0 <= k < |sortedLms| ==> sortedLms[k].Some?
    ensures err.Some? ==> err.value == TypeError
    ensures err.None? ==> forall c :: Get(charLms, c) == WithSymbol(s, Values(sortedLms), c)
  {
    charLms := map[];
    err := None;
    ghost var done: seq<int> := [];
    for i := 0 to |sortedLms|
      invariant forall k :: 0 <= k < i ==> sortedLms[k].Some?
      invariant |done| == i && forall k :: 0 <= k < i ==> done[k] == sortedLms[k].value
      invariant charLms == Grouped(s, done)
    {
      if sortedLms[i].None? {
        return charLms, Some(TypeError);
      }
      var lms := sortedLms[i].value;
      var list := if s[lms] in charLms then charLms[s[lms]] else [];
      GroupedStep(s, done, lms);
      charLms := charLms[s[lms] := list + [lms]];
      done := done + [lms];
    }
    assert done == Values(sortedLms);
    forall c
      ensures Get(charLms, c) == WithSymbol(s, done, c)
    {
      GroupedAt(s, done, c);
    }
  }
}

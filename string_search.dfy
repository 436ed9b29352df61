/** KMP search with a failure table (string_search.py). */
module StringSearch {

  /** k is the length of a proper border of w: a proper prefix that is also a suffix. */
  ghost predicate IsBorder<T>(w: seq<T>, k: nat)
  {
    k < |w| && w[..k] == w[|w| - k..]
  }

  /** k is the length of the longest proper border of w. */
  ghost predicate IsLongestBorder<T>(w: seq<T>, k: nat)
  {
    IsBorder(w, k) && forall k': nat :: IsBorder(w, k') ==> k' <= k
  }

  /** The first i entries of p are those of the failure table of s. */
  ghost predicate TableUpTo<T>(s: seq<T>, p: seq<int>, i: nat)
  {
    |p| == |s| && i <= |s| &&
    forall k :: 0 <= k < i ==> -1 <= p[k] < k && IsLongestBorder(s[..k + 1], p[k] + 1)
  }

  /** The failure table the source builds: p[i] + 1 is the longest proper border of s[..i+1]. */
  ghost predicate IsPrefixTable<T>(s: seq<T>, p: seq<int>)
  {
    TableUpTo(s, p, |s|)
  }

  /** No border of w longer than b can be extended by c. */
  ghost predicate Blocked<T>(w: seq<T>, c: T, b: int)
  {
    forall j: nat :: b < j < |w| && IsBorder(w, j) ==> w[j] != c
  }

  lemma TableEntry<T>(s: seq<T>, p: seq<int>, i: nat, k: nat)
    requires TableUpTo(s, p, i) && k < i
    ensures -1 <= p[k] < k && IsLongestBorder(s[..i][..k + 1], p[k] + 1)
  {
    assert s[..i][..k + 1] == s[..k + 1];
  }

  lemma TableStep<T>(s: seq<T>, p: seq<int>, i: nat, v: int)
    requires TableUpTo(s, p, i) && i < |s| && -1 <= v < i && IsLongestBorder(s[..i] + [s[i]], v + 1)
    ensures TableUpTo(s, p[i := v], i + 1)
  {
    assert s[..i] + [s[i]] == s[..i + 1];
  }

  /** Borders of w shorter than a border k of w are exactly the borders of w[..k]. */
  lemma BorderChain<T>(w: seq<T>, k: nat, k': nat)
    requires IsBorder(w, k) && k' < k
    ensures IsBorder(w, k') <==> IsBorder(w[..k], k')
  {
    assert w[..k][..k'] == w[..k'];
    assert w[..k][k - k'..] == w[|w| - k..][k - k'..] == w[|w| - k'..];
  }

  /** A border of w + [c] of length k + 1 is a border of w of length k followed by c. */
  lemma BorderExtend<T>(w: seq<T>, c: T, k: nat)
    requires k < |w|
    ensures IsBorder(w + [c], k + 1) <==> IsBorder(w, k) && w[k] == c
  {
    var v := w + [c];
    assert v[..k + 1] == w[..k] + [w[k]];
    assert v[|v| - (k + 1)..] == w[|w| - k..] + [c];
    if IsBorder(v, k + 1) {
      assert w[..k] == v[..k + 1][..k] && w[|w| - k..] == v[|v| - (k + 1)..][..k];
    }
  }

  /** The longest border of w + [c], for the value the table loop settles on. */
  lemma LongestAfterExtend<T>(w: seq<T>, c: T, b: int)
    requires -1 <= b < |w|
    requires b >= 0 ==> IsBorder(w, b) && w[b] == c
    requires b < 0 ==> |w| == 0 || w[0] != c
    requires Blocked(w, c, b)
    ensures IsLongestBorder(w + [c], b + 1)
  {
    var v := w + [c];
    if b >= 0 {
      BorderExtend(w, c, b);
    } else {
      assert v[..0] == v[|v|..];
    }
    forall k': nat | IsBorder(v, k') ensures k' <= b + 1 {
      if k' > b + 1 {
        BorderExtend(w, c, k' - 1);
      }
    }
  }

  /** One fallback of the inner loop: from a border k of w that cannot be extended
      by c, move to the longest border of w[..k]; no border in between can be extended. */
  lemma Fallback<T>(w: seq<T>, c: T, k: nat, k': nat)
    requires IsBorder(w, k) && w[k] != c && IsLongestBorder(w[..k], k')
    requires Blocked(w, c, k)
    ensures IsBorder(w, k') && k' < k
    ensures Blocked(w, c, k')
  {
    BorderChain(w, k, k');
    forall j | k' < j < |w| && IsBorder(w, j) ensures w[j] != c {
      if j < k {
        BorderChain(w, k, j);
      }
    }
  }

  /** The inner loop of the table build, one step: fall back from border b + 1 of s[..i]
      to the longest border of s[..b + 1], which the table already holds. */
  lemma TableFallback<T>(s: seq<T>, p: seq<int>, i: nat, b: nat)
    requires TableUpTo(s, p, i) && b < i < |s| && s[i] != s[b + 1]
    requires IsBorder(s[..i], b + 1) && Blocked(s[..i], s[i], b + 1)
    ensures -1 <= p[b] < b && IsBorder(s[..i], p[b] + 1) && Blocked(s[..i], s[i], p[b] + 1)
  {
    TableEntry(s, p, i, b);
    Fallback(s[..i], s[i], b + 1, p[b] + 1);
  }

  /** The end of one outer iteration of the table build: the inner loop stopped at b and
      v is the value stored at p[i]. */
  lemma TableExtend<T>(s: seq<T>, p: seq<int>, i: nat, b: int, v: int)
    requires TableUpTo(s, p, i) && 0 < i < |s| && -1 <= b < i - 1
    requires IsBorder(s[..i], b + 1) && Blocked(s[..i], s[i], b + 1)
    requires b < 0 || s[i] == s[b + 1]
    requires v == if s[i] == s[b + 1] then b + 1 else b
    ensures -1 <= v < i && TableUpTo(s, p[i := v], i + 1)
  {
    if s[i] == s[b + 1] {
      LongestAfterExtend(s[..i], s[i], b + 1);
    } else {
      LongestAfterExtend(s[..i], s[i], -1);
    }
    TableStep(s, p, i, v);
  }

  /** The inner loop of _build_prefix_table: follows the table from border b + 1 of s[..i]
      until the border can be extended by s[i] or is empty. */
  method SkipTableBorders<T(==)>(s: seq<T>, p: seq<int>, i: nat, b: int) returns (b': int)
    requires TableUpTo(s, p, i) && 0 < i < |s| && -1 <= b < i - 1
    requires IsBorder(s[..i], b + 1) && Blocked(s[..i], s[i], b + 1)
    ensures -1 <= b' <= b
    ensures IsBorder(s[..i], b' + 1) && Blocked(s[..i], s[i], b' + 1)
    ensures b' < 0 || s[i] == s[b' + 1]
  {
    b' := b;
    while b' >= 0 && s[i] != s[b' + 1]
      invariant -1 <= b' <= b
      invariant IsBorder(s[..i], b' + 1) && Blocked(s[..i], s[i], b' + 1)
    {
      TableFallback(s, p, i, b');
      b' := p[b'];
    }
  }

  /** _build_prefix_table(s): p[i] is one less than the longest proper border of s[..i+1]. */
  method BuildPrefixTable<T(==)>(s: seq<T>) returns (table: seq<int>)
    ensures IsPrefixTable(s, table)
  {
    var p := new int[|s|](_ => -1);
    if |s| == 0 {
      return p[..];
    }
    assert TableUpTo(s, p[..], 1) by {
      assert s[..1][..0] == s[..1][1..];
    }
    var backtrack := -1;
    for i := 1 to |s|
      invariant backtrack == p[i - 1]
      invariant TableUpTo(s, p[..], i)
    {
      TableEntry(s, p[..], i, i - 1);
      backtrack := SkipTableBorders(s, p[..], i, backtrack);
      ghost var b := backtrack;
      if s[i] == s[backtrack + 1] {
        backtrack := backtrack + 1;
      }
      TableExtend(s, p[..], i, b, backtrack);
      p[i] := backtrack;
    }
    table := p[..];
  }

  /** The last k symbols of t[..j] spell the first k symbols of s. */
  ghost predicate Cand<T>(t: seq<T>, s: seq<T>, j: int, k: int)
  {
    0 <= k <= j <= |t| && k <= |s| && t[j - k..j] == s[..k]
  }

  /** No overlap of t[..j] with s that is longer than k and at most `bound`. */
  ghost predicate NoCandAbove<T>(t: seq<T>, s: seq<T>, j: int, k: int, bound: int)
  {
    forall k' :: k < k' <= bound ==> !Cand(t, s, j, k')
  }

  /** k is the longest overlap of t[..j] with s that is at most `bound`. */
  ghost predicate IsMaxCand<T>(t: seq<T>, s: seq<T>, j: int, k: int, bound: int)
  {
    Cand(t, s, j, k) && k <= bound && NoCandAbove(t, s, j, k, bound)
  }

  /** No overlap of t[..j] with s longer than b can be extended by t[j]. */
  ghost predicate TextBlocked<T>(t: seq<T>, s: seq<T>, j: nat, b: int)
    requires j < |t|
  {
    forall i :: b < i < |s| && Cand(t, s, j, i) ==> s[i] != t[j]
  }

  /** s occurs in t at m. */
  ghost predicate OccursAt<T>(t: seq<T>, s: seq<T>, m: int)
  {
    0 <= m && m + |s| <= |t| && t[m..m + |s|] == s
  }

  /** The occurrences of s in t that end at or before j, in increasing order. */
  ghost function MatchesBelow<T>(t: seq<T>, s: seq<T>, j: nat): seq<int>
    requires j <= |t|
  {
    if j == 0 then []
    else MatchesBelow(t, s, j - 1) + (if |s| <= j && t[j - |s|..j] == s then [j - |s|] else [])
  }

  /** MatchesBelow lists exactly the occurrences, strictly increasing and in range. */
  lemma {:induction false} MatchesBelowExact<T>(t: seq<T>, s: seq<T>, j: nat)
    requires j <= |t| && |s| > 0
    ensures forall m :: m in MatchesBelow(t, s, j) <==> OccursAt(t, s, m) && m + |s| <= j
    ensures forall a, b :: 0 <= a < b < |MatchesBelow(t, s, j)| ==>
              MatchesBelow(t, s, j)[a] < MatchesBelow(t, s, j)[b]
    ensures forall a :: 0 <= a < |MatchesBelow(t, s, j)| ==> 0 <= MatchesBelow(t, s, j)[a] <= j - |s|
  {
    if j > 0 {
      MatchesBelowExact(t, s, j - 1);
    }
  }

  lemma CandExtend<T>(t: seq<T>, s: seq<T>, j: nat, k: nat)
    requires j < |t| && k < |s|
    ensures Cand(t, s, j + 1, k + 1) <==> Cand(t, s, j, k) && s[k] == t[j]
  {
    if Cand(t, s, j + 1, k + 1) {
      assert t[j - k..j] == t[j - k..j + 1][..k];
      assert s[..k] == s[..k + 1][..k];
    }
    if Cand(t, s, j, k) && s[k] == t[j] {
      assert t[j - k..j + 1] == t[j - k..j] + [t[j]];
      assert s[..k + 1] == s[..k] + [s[k]];
    }
  }

  /** Overlaps shorter than an overlap k are exactly the borders of s[..k]. */
  lemma CandChain<T>(t: seq<T>, s: seq<T>, j: nat, k: nat, k': nat)
    requires Cand(t, s, j, k) && k' < k
    ensures Cand(t, s, j, k') <==> IsBorder(s[..k], k')
  {
    assert s[..k][..k'] == s[..k'];
    assert s[..k][k - k'..] == t[j - k..j][k - k'..] == t[j - k'..j];
  }

  /** The inner loop of the search, one step: fall back from overlap b + 1. */
  lemma SearchFallback<T>(t: seq<T>, s: seq<T>, p: seq<int>, j: nat, b: nat)
    requires IsPrefixTable(s, p) && j < |t| && b < |s| - 1 && s[b + 1] != t[j]
    requires Cand(t, s, j, b + 1) && TextBlocked(t, s, j, b + 1)
    ensures -1 <= p[b] < b && Cand(t, s, j, p[b] + 1) && TextBlocked(t, s, j, p[b] + 1)
  {
    assert -1 <= p[b] < b && IsLongestBorder(s[..b + 1], p[b] + 1);
    CandChain(t, s, j, b + 1, p[b] + 1);
    forall i | p[b] + 1 < i < |s| && Cand(t, s, j, i) ensures s[i] != t[j] {
      if i < b + 1 {
        CandChain(t, s, j, b + 1, i);
      }
    }
  }

  /** The longest overlap of t[..j+1] with s, once the inner loop stopped at b. */
  lemma SearchExtend<T>(t: seq<T>, s: seq<T>, j: nat, b: int)
    requires j < |t| && -1 <= b < |s| - 1
    requires Cand(t, s, j, b + 1) && TextBlocked(t, s, j, b + 1)
    requires b < 0 || s[b + 1] == t[j]
    ensures var v := if t[j] == s[b + 1] then b + 1 else b;
            IsMaxCand(t, s, j + 1, v + 1, |s|)
  {
    var v := if t[j] == s[b + 1] then b + 1 else b;
    if t[j] == s[b + 1] {
      CandExtend(t, s, j, b + 1);
    } else {
      assert t[j + 1..j + 1] == s[..0];
    }
    var j1 := j + 1;
    forall k' | v + 1 < k' <= |s| ensures !Cand(t, s, j1, k') {
      CandExtend(t, s, j, k' - 1);
    }
  }

  /** After a full match the source falls back to the longest proper border of s. */
  lemma SearchAfterMatch<T>(t: seq<T>, s: seq<T>, p: seq<int>, j: nat)
    requires IsPrefixTable(s, p) && |s| > 0 && j <= |t| && Cand(t, s, j, |s|)
    ensures -1 <= p[|s| - 1] < |s| - 1 && IsMaxCand(t, s, j, p[|s| - 1] + 1, |s| - 1)
  {
    var b := p[|s| - 1];
    assert IsLongestBorder(s[..|s|], b + 1);
    CandChain(t, s, j, |s|, b + 1);
    forall k | b + 1 < k <= |s| - 1 ensures !Cand(t, s, j, k) {
      CandChain(t, s, j, |s|, k);
    }
  }

  /** One outer iteration of the search: how the list of matches grows. */
  lemma SearchRecord<T>(t: seq<T>, s: seq<T>, j: nat, v: int)
    requires j < |t| && |s| > 0 && IsMaxCand(t, s, j + 1, v, |s|)
    ensures MatchesBelow(t, s, j + 1)
         == MatchesBelow(t, s, j) + (if v == |s| then [j + 1 - |s|] else [])
    ensures v < |s| ==> IsMaxCand(t, s, j + 1, v, |s| - 1)
  {
    assert s[..|s|] == s;
    if v < |s| {
      assert !Cand(t, s, j + 1, |s|);
    }
  }

  /** The longest overlap bounded by |s| - 1 blocks every longer extension. */
  lemma MaxCandBlocked<T>(t: seq<T>, s: seq<T>, j: nat, k: int)
    requires j < |t| && IsMaxCand(t, s, j, k, |s| - 1)
    ensures TextBlocked(t, s, j, k)
  {
  }

  /** One outer iteration of the search once the inner loop stopped at b:
      the new fallback value and the match it records, if any. */
  lemma SearchStep<T>(t: seq<T>, s: seq<T>, p: seq<int>, j: nat, b: int, v: int, nb: int)
    requires IsPrefixTable(s, p) && j < |t| && -1 <= b < |s| - 1
    requires Cand(t, s, j, b + 1) && TextBlocked(t, s, j, b + 1)
    requires b < 0 || s[b + 1] == t[j]
    requires v == if t[j] == s[b + 1] then b + 1 else b
    requires nb == if v == |s| - 1 then p[v] else v
    ensures -1 <= nb < |s| - 1 && IsMaxCand(t, s, j + 1, nb + 1, |s| - 1)
    ensures MatchesBelow(t, s, j + 1) == MatchesBelow(t, s, j) + (if v == |s| - 1 then [j - v] else [])
  {
    SearchExtend(t, s, j, b);
    assert IsMaxCand(t, s, j + 1, v + 1, |s|);
    SearchRecord(t, s, j, v + 1);
    if v == |s| - 1 {
      SearchAfterMatch(t, s, p, j + 1);
    }
  }

  /** The inner loop of string_search: follows the prefix table from overlap
      b + 1 until the overlap can be extended by text[j] or is empty. */
  method SkipOverlaps<T(==)>(text: seq<T>, s: seq<T>, p: seq<int>, j: nat, b: int) returns (b': int)
    requires IsPrefixTable(s, p) && j < |text| && -1 <= b < |s| - 1
    requires Cand(text, s, j, b + 1) && TextBlocked(text, s, j, b + 1)
    ensures -1 <= b' <= b
    ensures Cand(text, s, j, b' + 1) && TextBlocked(text, s, j, b' + 1)
    ensures b' < 0 || s[b' + 1] == text[j]
  {
    b' := b;
    while b' >= 0 && text[j] != s[b' + 1]
      invariant -1 <= b' <= b
      invariant Cand(text, s, j, b' + 1) && TextBlocked(text, s, j, b' + 1)
    {
      SearchFallback(text, s, p, j, b');
      b' := p[b'];
    }
  }

  /** string_search(text, s): every index at which s occurs in text, in increasing order.
      With an empty pattern the source indexes s[0] and raises unless text is empty too. */
  method Search<T(==)>(text: seq<T>, s: seq<T>) returns (res: seq<int>)
    requires |s| > 0 || |text| == 0
    ensures |s| > 0 ==> res == MatchesBelow(text, s, |text|)
    ensures forall m :: m in res <==> OccursAt(text, s, m) && |s| > 0
    ensures forall a, b :: 0 <= a < b < |res| ==> res[a] < res[b]
    ensures forall a :: 0 <= a < |res| ==> 0 <= res[a] <= |text| - |s|
  {
    res := [];
    var backtrack := -1;
    var p := BuildPrefixTable(s);
    if |s| == 0 {
      return;
    }
    assert Cand(text, s, 0, 0) by { assert text[0..0] == s[..0]; }
    for i := 0 to |text|
      invariant -1 <= backtrack < |s| - 1 && IsMaxCand(text, s, i, backtrack + 1, |s| - 1)
      invariant res == MatchesBelow(text, s, i)
    {
      MaxCandBlocked(text, s, i, backtrack + 1);
      backtrack := SkipOverlaps(text, s, p, i, backtrack);
      ghost var b := backtrack;
      if text[i] == s[backtrack + 1] {
        backtrack := backtrack + 1;
      }
      ghost var v := backtrack;
      if backtrack == |s| - 1 {
        res := res + [i - backtrack];
        backtrack := p[backtrack];
      }
      SearchStep(text, s, p, i, b, v, backtrack);
    }
    MatchesBelowExact(text, s, |text|);
  }
}

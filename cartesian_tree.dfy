/** Cartesian tree construction along the right spine (cartesian_tree.py).
    Node objects are modelled by the position they were created for: the node made for
    values[i] is node i, and its links live in three arrays indexed by node, where -1 stands
    for the source's None. Every key is the pair (values[i], i), so keys never tie. */
module CartesianTrees {
  import opened Wrappers

  /** Python's tuple order on the keys (values[a], a) and (values[b], b). */
  predicate KeyLess(v: seq<int>, a: int, b: int)
    requires 0 <= a < |v| && 0 <= b < |v|
  {
    v[a] < v[b] || (v[a] == v[b] && a < b)
  }

  /** The keys are pairwise distinct and totally ordered. */
  lemma KeyTotal(v: seq<int>, a: int, b: int)
    requires 0 <= a < |v| && 0 <= b < |v| && a != b
    ensures KeyLess(v, a, b) != KeyLess(v, b, a)
  {
  }

  /** Node j holds the smallest key among positions 0..j: the first occurrence of the
      minimum of values[..j+1]. */
  predicate PrefixMin(v: seq<int>, j: int)
    requires 0 <= j < |v|
  {
    forall k :: 0 <= k < j ==> KeyLess(v, j, k)
  }

  /** Node r holds the smallest key of all: the first occurrence of the minimum value. */
  predicate FirstMinimum(v: seq<int>, r: int)
    requires 0 <= r < |v|
  {
    forall k :: 0 <= k < |v| && k != r ==> KeyLess(v, r, k)
  }

  /** Every link is None or a node, and each child's key is greater than its parent's. */
  predicate HeapOrdered(v: seq<int>, left: seq<int>, right: seq<int>)
  {
    |left| == |v| && |right| == |v| &&
    forall j :: 0 <= j < |v| ==>
      (left[j] == -1 || (0 <= left[j] < |v| && KeyLess(v, j, left[j]))) &&
      (right[j] == -1 || (0 <= right[j] < |v| && KeyLess(v, j, right[j])))
  }

  /** The parent links as the source leaves them: the root and every root that a smaller
      key pushed down (a left child of a prefix minimum) keep None; every other child points
      at its parent. */
  predicate ParentLinks(v: seq<int>, left: seq<int>, right: seq<int>, parent: seq<int>, root: int)
  {
    |left| == |v| && |right| == |v| && |parent| == |v| && 0 <= root < |v| && parent[root] == -1 &&
    (forall j {:trigger left[j]} :: 0 <= j < |v| && 0 <= left[j] < |v| ==>
      parent[left[j]] == if PrefixMin(v, j) then -1 else j) &&
    (forall j {:trigger right[j]} :: 0 <= j < |v| && 0 <= right[j] < |v| ==> parent[right[j]] == j)
  }

  /** The positions a..b-1 in increasing order. */
  function Range(a: int, b: int): (r: seq<int>)
    requires a <= b
    ensures |r| == b - a && forall k :: 0 <= k < |r| ==> r[k] == a + k
  {
    seq(b - a, k => a + k)
  }

  /** In-order traversal from node j, following at most `fuel` links down. */
  function InOrder(left: seq<int>, right: seq<int>, j: int, fuel: nat): seq<int>
    decreases fuel
  {
    if fuel == 0 || !(0 <= j < |left|) || |right| != |left| then []
    else InOrder(left, right, left[j], fuel - 1) + [j] + InOrder(left, right, right[j], fuel - 1)
  }

  // ---------------------------------------------------------------------------------------
  // The invariant of the construction after nodes 0..i-1 exist. Node j spans the positions
  // lo[j]..hi[j]-1: its left subtree spans lo[j]..j-1 and its right subtree j+1..hi[j]-1.
  // The right spine runs from the root down to node i-1.

  ghost predicate Sized(v: seq<int>, L: seq<int>, R: seq<int>, P: seq<int>, lo: seq<int>, hi: seq<int>)
  {
    |L| == |v| && |R| == |v| && |P| == |v| && |lo| == |v| && |hi| == |v|
  }

  ghost predicate Spans(L: seq<int>, R: seq<int>, lo: seq<int>, hi: seq<int>, i: int)
    requires |L| == |R| == |lo| == |hi| && 0 <= i <= |L|
  {
    (forall j {:trigger lo[j]} :: 0 <= j < i ==> 0 <= lo[j] <= j < hi[j] <= i) &&
    (forall j {:trigger L[j]} :: 0 <= j < i ==>
      if L[j] == -1 then lo[j] == j else 0 <= L[j] < j && lo[L[j]] == lo[j] && hi[L[j]] == j) &&
    (forall j {:trigger R[j]} :: 0 <= j < i ==>
      if R[j] == -1 then hi[j] == j + 1 else j < R[j] < i && lo[R[j]] == j + 1 && hi[R[j]] == hi[j])
  }

  ghost predicate Heap(v: seq<int>, L: seq<int>, R: seq<int>, i: int)
    requires |L| == |R| == |v| && 0 <= i <= |v|
  {
    (forall j {:trigger L[j]} :: 0 <= j < i && 0 <= L[j] < |v| ==> KeyLess(v, j, L[j])) &&
    (forall j {:trigger R[j]} :: 0 <= j < i && 0 <= R[j] < |v| ==> KeyLess(v, j, R[j]))
  }

  ghost predicate Parents(L: seq<int>, R: seq<int>, P: seq<int>, lo: seq<int>, i: int)
    requires |L| == |R| == |P| == |lo| && 0 <= i <= |L|
  {
    (forall j {:trigger L[j]} :: 0 <= j < i && 0 <= L[j] < |L| ==>
      P[L[j]] == if lo[j] == 0 then -1 else j) &&
    (forall j {:trigger R[j]} :: 0 <= j < i && 0 <= R[j] < |L| ==> P[R[j]] == j)
  }

  ghost predicate Unused(L: seq<int>, R: seq<int>, P: seq<int>, i: int)
    requires |L| == |R| == |P| && 0 <= i <= |L|
  {
    forall j :: i <= j < |L| ==> L[j] == -1 && R[j] == -1 && P[j] == -1
  }

  ghost predicate LeftEdge(v: seq<int>, lo: seq<int>, i: int)
    requires |lo| == |v| && 0 <= i <= |v|
  {
    forall j {:trigger lo[j]} :: 0 <= j < i ==> (lo[j] == 0 <==> PrefixMin(v, j))
  }

  ghost predicate Spine(R: seq<int>, hi: seq<int>, spine: seq<int>, root: int, i: int)
    requires |R| == |hi|
  {
    |spine| >= 1 && spine[0] == root && spine[|spine| - 1] == i - 1 &&
    (forall a {:trigger spine[a]} :: 0 <= a < |spine| ==> 0 <= spine[a] < i && spine[a] < |R| && hi[spine[a]] == i) &&
    (forall a {:trigger R[spine[a]]} :: 0 <= a < |spine| - 1 ==> R[spine[a]] == spine[a + 1]) &&
    (forall a, b {:trigger spine[a], spine[b]} :: 0 <= a < b < |spine| ==> spine[a] < spine[b])
  }

  /** The links, spans and spine alone. */
  ghost predicate Shape(L: seq<int>, R: seq<int>, lo: seq<int>, hi: seq<int>, i: int, root: int, spine: seq<int>)
  {
    |L| == |R| == |lo| == |hi| && 1 <= i <= |L| &&
    Spans(L, R, lo, hi, i) && 0 <= root < i && lo[root] == 0 && hi[root] == i &&
    Spine(R, hi, spine, root, i)
  }

  /** The loop invariant of the construction once nodes 0..i-1 are placed: the links
      form a heap-ordered tree over them, rooted at the first minimum, with its spans,
      parent links and right spine. */
  ghost predicate Tree(v: seq<int>, L: seq<int>, R: seq<int>, P: seq<int>, lo: seq<int>, hi: seq<int>,
                       i: int, root: int, spine: seq<int>)
  {
    Sized(v, L, R, P, lo, hi) && Shape(L, R, lo, hi, i, root, spine) &&
    Heap(v, L, R, i) && Parents(L, R, P, lo, i) && Unused(L, R, P, i) && LeftEdge(v, lo, i) &&
    P[root] == -1 && (forall k :: 0 <= k < i && k != root ==> KeyLess(v, root, k))
  }

  /** The spans after node i joins: the nodes of the new right spine now reach past i. */
  function NextHi(hi: seq<int>, spine: seq<int>, x: int): (r: seq<int>)
    ensures |r| == |hi| && forall j :: 0 <= j < |hi| ==> r[j] == if j in spine then x else hi[j]
  {
    seq(|hi|, j requires 0 <= j < |hi| => if j in spine then x else hi[j])
  }

  /** A right child on the spine has its parent on the spine, just above it. */
  lemma RightChildOnSpine(L: seq<int>, R: seq<int>, lo: seq<int>, hi: seq<int>,
                          i: int, root: int, spine: seq<int>, j: int, k: int)
    requires Shape(L, R, lo, hi, i, root, spine)
    requires 0 <= j < i && R[j] != -1 && 0 <= k < |spine| && R[j] == spine[k]
    ensures k > 0 && j == spine[k - 1]
  {
    assert lo[R[j]] == j + 1;
    if k > 0 {
      assert R[spine[k - 1]] == spine[k];
    }
  }

  /** Reading the spine upwards through the parent links. */
  lemma SpineParent(v: seq<int>, L: seq<int>, R: seq<int>, P: seq<int>, lo: seq<int>, hi: seq<int>,
                    i: int, root: int, spine: seq<int>, m: int)
    requires Tree(v, L, R, P, lo, hi, i, root, spine) && 0 <= m < |spine|
    ensures m == 0 ==> P[spine[m]] == -1
    ensures m > 0 ==> P[spine[m]] == spine[m - 1]
  {
    if m > 0 {
      assert R[spine[m - 1]] == spine[m];
    }
  }

  /** The parent links lead up the whole spine to the root, whose parent is None. */
  lemma SpineParents(v: seq<int>, L: seq<int>, R: seq<int>, P: seq<int>, lo: seq<int>, hi: seq<int>,
                     i: int, root: int, spine: seq<int>)
    requires Tree(v, L, R, P, lo, hi, i, root, spine)
    ensures forall m :: 0 <= m < |spine| ==> (P[spine[m]] == -1 <==> m == 0)
    ensures forall m :: 0 < m < |spine| ==> P[spine[m]] == spine[m - 1]
  {
    forall m | 0 <= m < |spine|
      ensures (P[spine[m]] == -1 <==> m == 0) && (m > 0 ==> P[spine[m]] == spine[m - 1])
    {
      SpineParent(v, L, R, P, lo, hi, i, root, spine, m);
    }
  }

  /** The first node alone is a tree. */
  lemma StepFirst(v: seq<int>, L: seq<int>, R: seq<int>, P: seq<int>, lo: seq<int>, hi: seq<int>)
    requires Sized(v, L, R, P, lo, hi) && |v| > 0 && Unused(L, R, P, 0)
    ensures Tree(v, L, R, P, lo[0 := 0], hi[0 := 1], 1, 0, [0])
  {
  }

  /** Node i, smaller than the root, becomes the root with the whole old tree on its left
      (cartesian_tree.py:31-35). */
  lemma StepNewRoot(v: seq<int>, L: seq<int>, R: seq<int>, P: seq<int>, lo: seq<int>, hi: seq<int>,
                    i: int, root: int, spine: seq<int>)
    requires Tree(v, L, R, P, lo, hi, i, root, spine) && i < |v| && KeyLess(v, i, root)
    ensures Tree(v, L[i := root], R, P, lo[i := 0], NextHi(hi, [i], i + 1), i + 1, i, [i])
  {
    NewRootSpans(L, R, lo, hi, i, root, spine);
    forall k | 0 <= k < i
      ensures KeyLess(v, i, k)
    {
      if k != root {
        assert KeyLess(v, root, k);
      }
    }
    assert PrefixMin(v, i);
    assert LeftEdge(v, lo[i := 0], i + 1);
  }

  lemma NewRootSpans(L: seq<int>, R: seq<int>, lo: seq<int>, hi: seq<int>, i: int, root: int, spine: seq<int>)
    requires Shape(L, R, lo, hi, i, root, spine) && i < |L| && R[i] == -1
    ensures Spans(L[i := root], R, lo[i := 0], NextHi(hi, [i], i + 1), i + 1)
  {
    var L', lo', hi' := L[i := root], lo[i := 0], NextHi(hi, [i], i + 1);
    forall j | 0 <= j < i + 1
      ensures 0 <= lo'[j] <= j < hi'[j] <= i + 1
    {
    }
    forall j | 0 <= j < i + 1
      ensures if L'[j] == -1 then lo'[j] == j else 0 <= L'[j] < j && lo'[L'[j]] == lo'[j] && hi'[L'[j]] == j
    {
    }
    forall j | 0 <= j < i + 1
      ensures if R[j] == -1 then hi'[j] == j + 1
              else j < R[j] < i + 1 && lo'[R[j]] == j + 1 && hi'[R[j]] == hi'[j]
    {
    }
  }



  /** Node i goes below the spine's last node as its right child (cartesian_tree.py:40-43). */
  lemma StepAppend(v: seq<int>, L: seq<int>, R: seq<int>, P: seq<int>, lo: seq<int>, hi: seq<int>,
                   i: int, root: int, spine: seq<int>, m: int)
    requires Tree(v, L, R, P, lo, hi, i, root, spine) && i < |v|
    requires 0 <= m < |spine| && R[spine[m]] == -1 && KeyLess(v, spine[m], i)
    ensures m == |spine| - 1
    ensures Tree(v, L, R[spine[m] := i], P[i := spine[m]], lo[i := i], NextHi(hi, spine + [i], i + 1),
                 i + 1, root, spine + [i])
  {
    assert hi[spine[m]] == spine[m] + 1;
    AppendSpans(L, R, lo, hi, i, root, spine);
    AppendRest(v, L, R, P, lo, hi, i, root, spine);
  }

  lemma AppendSpans(L: seq<int>, R: seq<int>, lo: seq<int>, hi: seq<int>, i: int, root: int, spine: seq<int>)
    requires Shape(L, R, lo, hi, i, root, spine) && i < |L| && L[i] == -1 && R[i] == -1 && R[i - 1] == -1
    ensures Spans(L, R[i - 1 := i], lo[i := i], NextHi(hi, spine + [i], i + 1), i + 1)
  {
    var curr := i - 1;
    var sp := spine + [i];
    var R', lo', hi' := R[curr := i], lo[i := i], NextHi(hi, sp, i + 1);
    assert curr in sp;
    forall j | 0 <= j < i + 1
      ensures 0 <= lo'[j] <= j < hi'[j] <= i + 1
    {
    }
    forall j | 0 <= j < i + 1
      ensures if L[j] == -1 then lo'[j] == j else 0 <= L[j] < j && lo'[L[j]] == lo'[j] && hi'[L[j]] == j
    {
      if j < i && L[j] != -1 {
        assert L[j] !in sp;
      }
    }
    forall j | 0 <= j < i + 1
      ensures if R'[j] == -1 then hi'[j] == j + 1
              else j < R'[j] < i + 1 && lo'[R'[j]] == j + 1 && hi'[R'[j]] == hi'[j]
    {
      if j < i && j != curr && R[j] != -1 && R[j] in sp {
        var k :| 0 <= k < |spine| && R[j] == spine[k];
        RightChildOnSpine(L, R, lo, hi, i, root, spine, j, k);
      }
    }
  }


  lemma AppendRest(v: seq<int>, L: seq<int>, R: seq<int>, P: seq<int>, lo: seq<int>, hi: seq<int>,
                   i: int, root: int, spine: seq<int>)
    requires Tree(v, L, R, P, lo, hi, i, root, spine) && i < |v| && R[i - 1] == -1 && KeyLess(v, i - 1, i)
    ensures Heap(v, L, R[i - 1 := i], i + 1) && Parents(L, R[i - 1 := i], P[i := i - 1], lo[i := i], i + 1)
    ensures Unused(L, R[i - 1 := i], P[i := i - 1], i + 1) && LeftEdge(v, lo[i := i], i + 1)
    ensures forall k :: 0 <= k < i + 1 && k != root ==> KeyLess(v, root, k)
    ensures Spine(R[i - 1 := i], NextHi(hi, spine + [i], i + 1), spine + [i], root, i + 1)
  {
    var curr := i - 1;
    KeyTotal(v, i, curr);
    assert !PrefixMin(v, i);
    assert KeyLess(v, root, i) by {
      if curr != root {
        assert KeyLess(v, root, curr);
      }
    }
  }

  /** Node i takes the place of the spine node it is smaller than, which becomes its left
      child (cartesian_tree.py:47-55). */
  lemma StepSplice(v: seq<int>, L: seq<int>, R: seq<int>, P: seq<int>, lo: seq<int>, hi: seq<int>,
                   i: int, root: int, spine: seq<int>, m: int)
    requires Tree(v, L, R, P, lo, hi, i, root, spine) && i < |v|
    requires 0 <= m < |spine| && R[spine[m]] != -1 && KeyLess(v, spine[m], i)
    requires forall k :: m < k < |spine| ==> KeyLess(v, i, spine[k])
    ensures m < |spine| - 1 && R[spine[m]] == spine[m + 1]
    ensures Tree(v, L[i := R[spine[m]]], R[spine[m] := i], P[i := spine[m]][R[spine[m]] := i],
                 lo[i := spine[m] + 1], NextHi(hi, spine[..m + 1] + [i], i + 1),
                 i + 1, root, spine[..m + 1] + [i])
  {
    var curr := spine[m];
    assert curr < R[curr] < i;
    assert R[spine[m]] == spine[m + 1];
    SpliceSpans(L, R, lo, hi, i, root, spine, m);
    SpliceRest(v, L, R, P, lo, hi, i, root, spine, m);
    SpliceSpine(R, hi, i, root, spine, m);
  }

  lemma SpliceSpans(L: seq<int>, R: seq<int>, lo: seq<int>, hi: seq<int>, i: int, root: int, spine: seq<int>, m: int)
    requires Shape(L, R, lo, hi, i, root, spine) && i < |L| && R[i] == -1
    requires 0 <= m < |spine| - 1 && R[spine[m]] == spine[m + 1]
    ensures Spans(L[i := spine[m + 1]], R[spine[m] := i], lo[i := spine[m] + 1],
                  NextHi(hi, spine[..m + 1] + [i], i + 1), i + 1)
  {
    var curr, c := spine[m], spine[m + 1];
    var sp := spine[..m + 1] + [i];
    var L', R', lo', hi' := L[i := c], R[curr := i], lo[i := curr + 1], NextHi(hi, sp, i + 1);
    assert c !in sp && curr in sp;
    forall j | 0 <= j < i + 1
      ensures 0 <= lo'[j] <= j < hi'[j] <= i + 1
    {
    }
    forall j | 0 <= j < i + 1
      ensures if L'[j] == -1 then lo'[j] == j else 0 <= L'[j] < j && lo'[L'[j]] == lo'[j] && hi'[L'[j]] == j
    {
      if j < i && L[j] != -1 {
        assert L[j] !in sp;
      }
    }
    forall j | 0 <= j < i + 1
      ensures if R'[j] == -1 then hi'[j] == j + 1
              else j < R'[j] < i + 1 && lo'[R'[j]] == j + 1 && hi'[R'[j]] == hi'[j]
    {
      if j < i && j != curr && R[j] != -1 && R[j] in sp {
        var k :| 0 <= k <= m && R[j] == spine[k];
        RightChildOnSpine(L, R, lo, hi, i, root, spine, j, k);
        assert j == sp[k - 1];
      }
    }
  }


  lemma SpliceRest(v: seq<int>, L: seq<int>, R: seq<int>, P: seq<int>, lo: seq<int>, hi: seq<int>,
                   i: int, root: int, spine: seq<int>, m: int)
    requires Tree(v, L, R, P, lo, hi, i, root, spine) && i < |v|
    requires 0 <= m < |spine| - 1 && R[spine[m]] == spine[m + 1]
    requires KeyLess(v, spine[m], i) && KeyLess(v, i, spine[m + 1])
    ensures Heap(v, L[i := spine[m + 1]], R[spine[m] := i], i + 1)
    ensures Parents(L[i := spine[m + 1]], R[spine[m] := i], P[i := spine[m]][spine[m + 1] := i],
                    lo[i := spine[m] + 1], i + 1)
    ensures Unused(L[i := spine[m + 1]], R[spine[m] := i], P[i := spine[m]][spine[m + 1] := i], i + 1)
    ensures LeftEdge(v, lo[i := spine[m] + 1], i + 1)
    ensures forall k :: 0 <= k < i + 1 && k != root ==> KeyLess(v, root, k)
  {
    var curr, c := spine[m], spine[m + 1];
    var sp := spine[..m + 1] + [i];
    forall j | 0 <= j < i && L[j] != -1
      ensures L[j] != c
    {
    }
    forall j | 0 <= j < i && j != curr && R[j] != -1
      ensures R[j] != c
    {
      if R[j] == c {
        RightChildOnSpine(L, R, lo, hi, i, root, spine, j, m + 1);
      }
    }
    KeyTotal(v, i, curr);
    assert !PrefixMin(v, i);
    assert KeyLess(v, root, i) by {
      if curr != root {
        assert KeyLess(v, root, curr);
      }
    }
  }

  lemma SpliceSpine(R: seq<int>, hi: seq<int>, i: int, root: int, spine: seq<int>, m: int)
    requires |R| == |hi| && 0 <= i < |R| && Spine(R, hi, spine, root, i) && 0 <= m < |spine| - 1
    ensures Spine(R[spine[m] := i], NextHi(hi, spine[..m + 1] + [i], i + 1), spine[..m + 1] + [i], root, i + 1)
  {
    var sp := spine[..m + 1] + [i];
    var R', hi' := R[spine[m] := i], NextHi(hi, sp, i + 1);
    forall a | 0 <= a < |sp|
      ensures 0 <= sp[a] < i + 1 && sp[a] < |R'| && hi'[sp[a]] == i + 1
    {
    }
    forall a | 0 <= a < |sp| - 1
      ensures R'[sp[a]] == sp[a + 1]
    {
      if a < m {
        assert R[spine[a]] == spine[a + 1];
      }
    }
    forall a, b | 0 <= a < b < |sp|
      ensures sp[a] < sp[b]
    {
      if b <= m {
        assert spine[a] < spine[b];
      }
    }
  }

  lemma RangeSplit(a: int, j: int, b: int)
    requires a <= j < b
    ensures Range(a, j) + [j] + Range(j + 1, b) == Range(a, b)
  {
  }

  lemma {:induction false} InOrderSpan(L: seq<int>, R: seq<int>, lo: seq<int>, hi: seq<int>, j: int, fuel: nat)
    requires |L| == |R| == |lo| == |hi| && Spans(L, R, lo, hi, |L|)
    requires 0 <= j < |L| && fuel >= hi[j] - lo[j]
    ensures lo[j] <= hi[j] && InOrder(L, R, j, fuel) == Range(lo[j], hi[j])
    decreases fuel
  {
    var l, r := L[j], R[j];
    assert lo[j] <= j < hi[j];
    var leftPart := InOrder(L, R, l, fuel - 1);
    var rightPart := InOrder(L, R, r, fuel - 1);
    if l == -1 {
      assert leftPart == [] == Range(lo[j], j);
    } else {
      InOrderSpan(L, R, lo, hi, l, fuel - 1);
    }
    if r == -1 {
      assert rightPart == [] == Range(j + 1, hi[j]);
    } else {
      InOrderSpan(L, R, lo, hi, r, fuel - 1);
    }
    assert InOrder(L, R, j, fuel) == leftPart + [j] + rightPart;
    RangeSplit(lo[j], j, hi[j]);
  }


  /** Once every node exists, the invariant gives the properties of the finished tree. */
  lemma Finish(v: seq<int>, L: seq<int>, R: seq<int>, P: seq<int>, lo: seq<int>, hi: seq<int>,
               root: int, spine: seq<int>)
    requires Tree(v, L, R, P, lo, hi, |v|, root, spine)
    ensures HeapOrdered(v, L, R) && FirstMinimum(v, root)
    ensures InOrder(L, R, root, |v|) == Range(0, |v|)
    ensures ParentLinks(v, L, R, P, root)
  {
    InOrderSpan(L, R, lo, hi, root, |v|);
  }

  /** The body of the loop for position i (cartesian_tree.py:24-55). Node i is the first
      node, or it climbs the right spine from node i-1 while its key is smaller and then becomes
      the new root, the right child of the last spine node, or the parent of the spine node it
      is smaller than. */
  method PlaceNode(values: seq<int>, left: array<int>, right: array<int>, parent: array<int>, i: int, curr: int,
                   ghost L: seq<int>, ghost R: seq<int>, ghost P: seq<int>,
                   ghost lo: seq<int>, ghost hi: seq<int>, ghost top: int, ghost spine: seq<int>)
    returns (ghost L': seq<int>, ghost R': seq<int>, ghost P': seq<int>,
             ghost lo': seq<int>, ghost hi': seq<int>, ghost top': int, ghost spine': seq<int>)
    requires left != right && left != parent && right != parent
    requires left[..] == L && right[..] == R && parent[..] == P
    requires 0 <= i < |values| && Sized(values, L, R, P, lo, hi)
    requires i == 0 ==> curr == -1 && Unused(L, R, P, 0)
    requires i > 0 ==> curr == i - 1 && Tree(values, L, R, P, lo, hi, i, top, spine)
    modifies left, right, parent
    ensures left[..] == L' && right[..] == R' && parent[..] == P'
    ensures Tree(values, L', R', P', lo', hi', i + 1, top', spine')
  {
    if curr == -1 {
      StepFirst(values, L, R, P, lo, hi);
      L', R', P', lo', hi', top', spine' := L, R, P, lo[0 := 0], hi[0 := 1], 0, [0];
      return;
    }
    var curr := curr;
    ghost var m := |spine| - 1;
    var newRoot := false;
    SpineParents(values, L, R, P, lo, hi, i, top, spine);
    while KeyLess(values, i, curr)
      invariant 0 <= m < |spine| && curr == spine[m]
      invariant forall k :: m < k < |spine| ==> KeyLess(values, i, spine[k])
      invariant left[..] == L && right[..] == R && parent[..] == P
      decreases m
    {
      if parent[curr] == -1 {
        newRoot := true;
        break;
      }
      curr := parent[curr];
      m := m - 1;
    }
    if newRoot {
      L', R', P', lo', hi', top', spine' := NewRoot(values, left, right, parent, i, curr, L, R, P, lo, hi, top, spine);
    } else {
      KeyTotal(values, i, curr);
      if right[curr] == -1 {
        L', R', P', lo', hi', top', spine' := AppendRight(values, left, right, parent, i, curr, m, L, R, P, lo, hi, top, spine);
      } else {
        L', R', P', lo', hi', top', spine' := SpliceIn(values, left, right, parent, i, curr, m, L, R, P, lo, hi, top, spine);
      }
    }
  }

  /** Node i, smaller than the root, becomes the new root with the old root as its left child;
      the old root's parent link is not updated (cartesian_tree.py:31-35). */
  method NewRoot(values: seq<int>, left: array<int>, right: array<int>, parent: array<int>, i: int, curr: int,
                 ghost L: seq<int>, ghost R: seq<int>, ghost P: seq<int>,
                 ghost lo: seq<int>, ghost hi: seq<int>, ghost top: int, ghost spine: seq<int>)
    returns (ghost L': seq<int>, ghost R': seq<int>, ghost P': seq<int>,
             ghost lo': seq<int>, ghost hi': seq<int>, ghost top': int, ghost spine': seq<int>)
    requires left != right && left != parent && right != parent
    requires left[..] == L && right[..] == R && parent[..] == P
    requires 0 < i < |values| && Tree(values, L, R, P, lo, hi, i, top, spine)
    requires curr == top && KeyLess(values, i, curr)
    modifies left
    ensures left[..] == L' && right[..] == R' && parent[..] == P'
    ensures L' == L[i := curr] && R' == R && P' == P
    ensures Tree(values, L', R', P', lo', hi', i + 1, top', spine') && top' == i
  {
    StepNewRoot(values, L, R, P, lo, hi, i, top, spine);
    left[i] := curr;
    L', R', P' := L[i := top], R, P;
    lo', hi', top', spine' := lo[i := 0], NextHi(hi, [i], i + 1), i, [i];
  }

  /** Node i becomes the right child of the last node (cartesian_tree.py:40-43). */
  method AppendRight(values: seq<int>, left: array<int>, right: array<int>, parent: array<int>, i: int, curr: int,
                     ghost m: int, ghost L: seq<int>, ghost R: seq<int>, ghost P: seq<int>,
                     ghost lo: seq<int>, ghost hi: seq<int>, ghost top: int, ghost spine: seq<int>)
    returns (ghost L': seq<int>, ghost R': seq<int>, ghost P': seq<int>,
             ghost lo': seq<int>, ghost hi': seq<int>, ghost top': int, ghost spine': seq<int>)
    requires left != right && left != parent && right != parent
    requires left[..] == L && right[..] == R && parent[..] == P
    requires 0 < i < |values| && Tree(values, L, R, P, lo, hi, i, top, spine)
    requires 0 <= m < |spine| && curr == spine[m] && R[curr] == -1 && KeyLess(values, curr, i)
    modifies right, parent
    ensures left[..] == L' && right[..] == R' && parent[..] == P'
    ensures L' == L && R' == R[curr := i] && P' == P[i := curr]
    ensures Tree(values, L', R', P', lo', hi', i + 1, top', spine')
  {
    StepAppend(values, L, R, P, lo, hi, i, top, spine, m);
    right[curr] := i;
    parent[i] := curr;
    L', R', P' := L, R[curr := i], P[i := curr];
    lo', hi', top', spine' := lo[i := i], NextHi(hi, spine + [i], i + 1), top, spine + [i];
  }

  /** Node i takes the place of curr's right child c, which becomes i's left child
      (cartesian_tree.py:47-55). */
  method SpliceIn(values: seq<int>, left: array<int>, right: array<int>, parent: array<int>, i: int, curr: int,
                  ghost m: int, ghost L: seq<int>, ghost R: seq<int>, ghost P: seq<int>,
                  ghost lo: seq<int>, ghost hi: seq<int>, ghost top: int, ghost spine: seq<int>)
    returns (ghost L': seq<int>, ghost R': seq<int>, ghost P': seq<int>,
             ghost lo': seq<int>, ghost hi': seq<int>, ghost top': int, ghost spine': seq<int>)
    requires left != right && left != parent && right != parent
    requires left[..] == L && right[..] == R && parent[..] == P
    requires 0 < i < |values| && Tree(values, L, R, P, lo, hi, i, top, spine)
    requires 0 <= m < |spine| && curr == spine[m] && R[curr] != -1 && KeyLess(values, curr, i)
    requires forall k :: m < k < |spine| ==> KeyLess(values, i, spine[k])
    modifies left, right, parent
    ensures left[..] == L' && right[..] == R' && parent[..] == P'
    ensures L' == L[i := R[curr]] && R' == R[curr := i] && P' == P[i := curr][R[curr] := i]
    ensures Tree(values, L', R', P', lo', hi', i + 1, top', spine')
  {
    StepSplice(values, L, R, P, lo, hi, i, top, spine, m);
    ghost var c := right[curr];
    var newNode := i;
    parent[newNode] := curr;
    left[newNode] := right[curr];
    parent[left[newNode]] := newNode;
    right[curr] := newNode;
    L', R', P' := L[i := c], R[curr := i], P[i := curr][c := i];
    lo', hi', top' := lo[i := curr + 1], NextHi(hi, spine[..m + 1] + [i], i + 1), top;
    spine' := spine[..m + 1] + [i];
  }

  /** The final climb from the last node along the parent links to the root
      (cartesian_tree.py:57-59). */
  method ClimbToRoot(parent: array<int>, last: int, ghost values: seq<int>, ghost L: seq<int>, ghost R: seq<int>,
                     ghost P: seq<int>, ghost lo: seq<int>, ghost hi: seq<int>, ghost top: int, ghost spine: seq<int>)
    returns (root: int)
    requires parent[..] == P && Tree(values, L, R, P, lo, hi, |values|, top, spine) && last == |values| - 1
    ensures root == top
  {
    SpineParents(values, L, R, P, lo, hi, |values|, top, spine);
    root := last;
    ghost var m := |spine| - 1;
    while parent[root] != -1
      invariant 0 <= m < |spine| && root == spine[m]
      decreases m
    {
      root := parent[root];
      m := m - 1;
    }
  }

  /** construct_cartesian_tree(values): the nodes as positions with their left, right and
      parent links (-1 for None), and the root, or None for an empty list. */
  method ConstructCartesianTree(values: seq<int>)
    returns (root: Option<int>, left: array<int>, right: array<int>, parent: array<int>)
    ensures root.None? <==> |values| == 0
    ensures left.Length == |values| && right.Length == |values| && parent.Length == |values|
    ensures HeapOrdered(values, left[..], right[..])
    ensures root.Some? ==> 0 <= root.value < |values| && FirstMinimum(values, root.value)
    ensures root.Some? ==> InOrder(left[..], right[..], root.value, |values|) == Range(0, |values|)
    ensures root.Some? ==> ParentLinks(values, left[..], right[..], parent[..], root.value)
  {
    var n := |values|;
    left := new int[n](_ => -1);
    right := new int[n](_ => -1);
    parent := new int[n](_ => -1);
    if n == 0 {
      return None, left, right, parent;
    }
    ghost var lo: seq<int> := seq(n, _ => 0);
    ghost var hi: seq<int> := seq(n, _ => 0);
    ghost var top: int := 0;
    ghost var spine: seq<int> := [];
    ghost var L, R, P := left[..], right[..], parent[..];
    var curr := -1;
    for i := 0 to n
      invariant left.Length == n && right.Length == n && parent.Length == n && |lo| == n && |hi| == n
      invariant left[..] == L && right[..] == R && parent[..] == P
      invariant i == 0 ==> curr == -1 && Unused(L, R, P, 0)
      invariant i > 0 ==> curr == i - 1 && Tree(values, L, R, P, lo, hi, i, top, spine)
    {
      L, R, P, lo, hi, top, spine := PlaceNode(values, left, right, parent, i, curr, L, R, P, lo, hi, top, spine);
      curr := i;
    }
    curr := ClimbToRoot(parent, curr, values, L, R, P, lo, hi, top, spine);
    Finish(values, L, R, P, lo, hi, top, spine);
    return Some(curr), left, right, parent;
  }
}

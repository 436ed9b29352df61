/** Kruskal's minimum spanning forest (kruskal_mst in minimum_spanning_tree.py): collect
    every adjacency entry as a (weight, source, target) edge, sort the edges, and keep an
    edge exactly when a DisjointSet says its endpoints are still in different sets. */
module Kruskal {
  import opened Wrappers
  import opened DisjointSets
  import opened NodeIds

  /** An adjacency-list entry: (target node, weight). Weights are only compared. */
  type Item = (int, int)

  /** An edge as the source sorts it: (weight, source node, target node). */
  type Edge = (int, int, int)

  /** The order of Python tuples: lexicographic on (weight, source, target). */
  predicate EdgeLe(a: Edge, b: Edge)
  {
    a.0 < b.0 || (a.0 == b.0 && (a.1 < b.1 || (a.1 == b.1 && a.2 <= b.2)))
  }

  predicate Sorted(es: seq<Edge>)
  {
    forall i, j :: 0 <= i < j < |es| ==> EdgeLe(es[i], es[j])
  }

  lemma SubsetSize(a: set<int>, b: set<int>)
    requires a <= b
    ensures |a| <= |b|
  {
    assert b == a + (b - a);
  }

  /** The edges contributed by the adjacency list l of node i. */
  function EdgesFrom(i: int, l: seq<Item>): (es: seq<Edge>)
    ensures |es| == |l|
    ensures forall k :: 0 <= k < |l| ==> es[k] == (l[k].1, i, l[k].0)
  {
    if |l| == 0 then [] else EdgesFrom(i, l[..|l| - 1]) + [(l[|l| - 1].1, i, l[|l| - 1].0)]
  }

  /** The edges list before sorting: node by node, entry by entry. */
  function EdgesOf(adj: seq<seq<Item>>): seq<Edge>
  {
    if |adj| == 0 then [] else EdgesOf(adj[..|adj| - 1]) + EdgesFrom(|adj| - 1, adj[|adj| - 1])
  }

  /** The targets an adjacency list names. */
  ghost function Targets(l: seq<Item>): set<int>
  {
    set item | item in l :: item.0
  }

  /** (i, j) is an edge of the input: node i lists target j with some weight. */
  ghost predicate IsInputEdge(adj: seq<seq<Item>>, i: int, j: int)
  {
    0 <= i < |adj| && j in Targets(adj[i])
  }

  /** The collected edges are exactly the adjacency entries, each as (weight, i, target). */
  lemma {:induction false} EdgesOfInput(adj: seq<seq<Item>>, e: Edge)
    ensures e in EdgesOf(adj) <==> 0 <= e.1 < |adj| && (e.2, e.0) in adj[e.1]
  {
    if |adj| > 0 {
      var n := |adj| - 1;
      EdgesOfInput(adj[..n], e);
      var tail := EdgesFrom(n, adj[n]);
      if e in tail {
        var k :| 0 <= k < |tail| && tail[k] == e;
        assert adj[n][k] == (e.2, e.0);
      }
      if e.1 == n && (e.2, e.0) in adj[n] {
        var k :| 0 <= k < |adj[n]| && adj[n][k] == (e.2, e.0);
        assert tail[k] == e;
      }
    }
  }

  /** The first loop of kruskal_mst: appends (weight, i, target) for every entry of every
      adjacency list, in order. */
  method CollectEdges(adj: seq<seq<Item>>) returns (edges: seq<Edge>)
    ensures edges == EdgesOf(adj)
  {
    edges := [];
    for i := 0 to |adj|
      invariant edges == EdgesOf(adj[..i])
    {
      ghost var before := edges;
      for k := 0 to |adj[i]|
        invariant edges == before + EdgesFrom(i, adj[i][..k])
      {
        assert adj[i][..k + 1][..k] == adj[i][..k];
        edges := edges + [(adj[i][k].1, i, adj[i][k].0)];
      }
      assert adj[i][..|adj[i]|] == adj[i];
      assert adj[..i + 1][..i] == adj[..i];
    }
    assert adj[..|adj|] == adj;
  }

  /** A sorted list stays sorted under a head no greater than its first element. */
  lemma SortedCons(x: Edge, r: seq<Edge>)
    requires Sorted(r) && (|r| > 0 ==> EdgeLe(x, r[0]))
    ensures Sorted([x] + r)
  {
    forall i, j | 0 <= i < j < |[x] + r|
      ensures EdgeLe(([x] + r)[i], ([x] + r)[j])
    {
      if i == 0 && j > 1 {
        assert EdgeLe(r[0], r[j - 1]);
      }
    }
  }

  /** Inserts e into a sorted list at its place. */
  function Insert(e: Edge, s: seq<Edge>): (r: seq<Edge>)
    requires Sorted(s)
    ensures Sorted(r) && multiset(r) == multiset(s) + multiset{e}
    ensures |r| > 0 && (r[0] == e || (|s| > 0 && r[0] == s[0]))
  {
    if |s| == 0 || EdgeLe(e, s[0]) then
      SortedCons(e, s);
      [e] + s
    else
      assert s == [s[0]] + s[1..];
      var r := Insert(e, s[1..]);
      SortedCons(s[0], r);
      [s[0]] + r
  }

  /** edges.sort(): the sorted permutation of the edges. */
  function SortEdges(es: seq<Edge>): (r: seq<Edge>)
    ensures Sorted(r) && multiset(r) == multiset(es)
  {
    if |es| == 0 then []
    else
      assert es == es[..|es| - 1] + [es[|es| - 1]];
      Insert(es[|es| - 1], SortEdges(es[..|es| - 1]))
  }

  /** mst lists, in order, the (source, target) pairs of the edges of es at the strictly
      increasing positions `taken`. */
  ghost predicate Taken(mst: seq<(int, int)>, es: seq<Edge>, taken: seq<int>)
  {
    |taken| == |mst| &&
    (forall a, b :: 0 <= a < b < |taken| ==> taken[a] < taken[b]) &&
    forall m :: 0 <= m < |taken| ==> 0 <= taken[m] < |es| && mst[m] == (es[taken[m]].1, es[taken[m]].2)
  }

  /** Kept edges appear in the sorted order, so in non-decreasing (weight, i, j) order. */
  lemma TakenInOrder(mst: seq<(int, int)>, sorted: seq<Edge>, taken: seq<int>)
    requires Sorted(sorted) && Taken(mst, sorted, taken)
    ensures forall a, b :: 0 <= a < b < |taken| ==> EdgeLe(sorted[taken[a]], sorted[taken[b]])
  {
  }

  /** The kept pairs, read as undirected edges, join x and y. */
  ghost predicate Linked(mst: seq<(int, int)>, x: int, y: int)
  {
    (x, y) in mst || (y, x) in mst
  }

  /** p walks along kept pairs. */
  ghost predicate IsPath(mst: seq<(int, int)>, p: seq<int>)
  {
    |p| > 0 && forall k :: 0 <= k < |p| - 1 ==> Linked(mst, p[k], p[k + 1])
  }

  /** u and v lie in one tree of the forest the kept pairs form. */
  ghost predicate Connected(mst: seq<(int, int)>, u: int, v: int)
  {
    exists p :: IsPath(mst, p) && p[0] == u && p[|p| - 1] == v
  }

  /** No kept pair closes a cycle: its endpoints were not yet connected by the pairs kept
      before it. */
  ghost predicate Acyclic(mst: seq<(int, int)>)
  {
    forall m :: 0 <= m < |mst| ==> !Connected(mst[..m], mst[m].0, mst[m].1)
  }

  lemma ConnectedRefl(mst: seq<(int, int)>, u: int)
    ensures Connected(mst, u, u)
  {
    assert IsPath(mst, [u]);
  }

  lemma ConnectedSym(mst: seq<(int, int)>, u: int, v: int)
    requires Connected(mst, u, v)
    ensures Connected(mst, v, u)
  {
    var p :| IsPath(mst, p) && p[0] == u && p[|p| - 1] == v;
    var q := seq(|p|, k requires 0 <= k < |p| => p[|p| - 1 - k]);
    forall k | 0 <= k < |q| - 1
      ensures Linked(mst, q[k], q[k + 1])
    {
      assert Linked(mst, p[|p| - 2 - k], p[|p| - 1 - k]);
    }
    assert IsPath(mst, q);
  }

  lemma ConnectedTrans(mst: seq<(int, int)>, u: int, v: int, w: int)
    requires Connected(mst, u, v) && Connected(mst, v, w)
    ensures Connected(mst, u, w)
  {
    var p :| IsPath(mst, p) && p[0] == u && p[|p| - 1] == v;
    var q :| IsPath(mst, q) && q[0] == v && q[|q| - 1] == w;
    var r := p + q[1..];
    forall k | 0 <= k < |r| - 1
      ensures Linked(mst, r[k], r[k + 1])
    {
      if k < |p| - 1 {
        assert r[k] == p[k] && r[k + 1] == p[k + 1];
      } else {
        assert r[k] == q[k - |p| + 1] && r[k + 1] == q[k - |p| + 2];
      }
    }
    assert IsPath(mst, r);
  }

  /** Keeping one more pair keeps every connection. */
  lemma ConnectedMono(mst: seq<(int, int)>, x: (int, int), u: int, v: int)
    requires Connected(mst, u, v)
    ensures Connected(mst + [x], u, v)
  {
    var p :| IsPath(mst, p) && p[0] == u && p[|p| - 1] == v;
    assert IsPath(mst + [x], p);
  }

  /** Without kept pairs every node is alone. */
  lemma ConnectedEmpty(u: int, v: int)
    requires Connected([], u, v)
    ensures u == v
  {
    var p :| IsPath([], p) && p[0] == u && p[|p| - 1] == v;
    assert |p| > 1 ==> Linked([], p[0], p[1]);
  }

  /** A connection that may use the new pair (a, b): either it did not need it, or it
      runs from u to one end of (a, b) and on from the other end to v. */
  ghost predicate ViaLink(mst: seq<(int, int)>, a: int, b: int, u: int, v: int)
  {
    Connected(mst, u, v) ||
    (Connected(mst, u, a) && Connected(mst, b, v)) ||
    (Connected(mst, u, b) && Connected(mst, a, v))
  }

  /** Every path along mst + [(a, b)] is a ViaLink connection. */
  lemma {:induction false} PathSplit(mst: seq<(int, int)>, a: int, b: int, p: seq<int>)
    requires IsPath(mst + [(a, b)], p)
    ensures ViaLink(mst, a, b, p[0], p[|p| - 1])
    decreases |p|
  {
    var u := p[0];
    if |p| == 1 {
      ConnectedRefl(mst, u);
      return;
    }
    var q := p[..|p| - 1];
    assert IsPath(mst + [(a, b)], q);
    PathSplit(mst, a, b, q);
    var x, y := p[|p| - 2], p[|p| - 1];
    assert q[|q| - 1] == x;
    assert Linked(mst + [(a, b)], x, y);
    ConnectedRefl(mst, a);
    ConnectedRefl(mst, b);
    if Linked(mst, x, y) {
      assert IsPath(mst, [x, y]);
      assert Connected(mst, x, y);
      if Connected(mst, u, x) {
        ConnectedTrans(mst, u, x, y);
      } else if Connected(mst, u, a) && Connected(mst, b, x) {
        ConnectedTrans(mst, b, x, y);
      } else {
        ConnectedTrans(mst, a, x, y);
      }
    } else if x == a && y == b {
      if Connected(mst, u, b) && Connected(mst, a, x) {
      }
    } else {
      assert x == b && y == a;
    }
  }

  /** The partition of 0..n-1 that rep describes is exactly connection along mst. */
  ghost predicate Partitions(rep: map<int, int>, mst: seq<(int, int)>, n: nat)
  {
    (forall u :: 0 <= u < n ==> u in rep) &&
    forall u, v :: 0 <= u < n && 0 <= v < n ==> (rep[u] == rep[v] <==> Connected(mst, u, v))
  }

  /** Singletons describe the empty forest. */
  lemma PartitionsStart(rep: map<int, int>, n: nat)
    requires forall u :: 0 <= u < n ==> u in rep && rep[u] == u
    ensures Partitions(rep, [], n)
  {
    forall u, v | 0 <= u < n && 0 <= v < n
      ensures rep[u] == rep[v] <==> Connected([], u, v)
    {
      ConnectedRefl([], u);
      if Connected([], u, v) {
        ConnectedEmpty(u, v);
      }
    }
  }

  /** Uniting the sets of a and b under the name w of one of them, as union does, and
      keeping (a, b) describe the same partition. */
  lemma KeepStep(rep: map<int, int>, rep': map<int, int>, mst: seq<(int, int)>, n: nat, a: int, b: int, w: int)
    requires Partitions(rep, mst, n) && 0 <= a < n && 0 <= b < n && rep[a] != rep[b]
    requires Relabelled(rep', rep, rep[a], rep[b], w) && (w == rep[a] || w == rep[b])
    ensures !Connected(mst, a, b)
    ensures Partitions(rep', mst + [(a, b)], n)
  {
    var m' := mst + [(a, b)];
    assert IsPath(m', [a, b]);
    forall u, v | 0 <= u < n && 0 <= v < n
      ensures rep'[u] == rep'[v] <==> Connected(m', u, v)
    {
      if Connected(m', u, v) {
        var p :| IsPath(m', p) && p[0] == u && p[|p| - 1] == v;
        PathSplit(mst, a, b, p);
      }
      if rep'[u] == rep'[v] {
        if rep[u] == rep[v] {
          ConnectedMono(mst, (a, b), u, v);
        } else if rep[u] == rep[a] {
          ConnectedMono(mst, (a, b), u, a);
          ConnectedMono(mst, (a, b), b, v);
          ConnectedTrans(m', u, a, b);
          ConnectedTrans(m', u, b, v);
        } else {
          ConnectedMono(mst, (a, b), u, b);
          ConnectedMono(mst, (a, b), a, v);
          ConnectedSym(m', a, b);
          ConnectedTrans(m', u, b, a);
          ConnectedTrans(m', u, a, v);
        }
      }
    }
  }

  /** Endpoints in one set are connected through the kept pairs. */
  lemma JoinedConnected(rep: map<int, int>, mst: seq<(int, int)>, n: nat, edges: seq<Edge>)
    requires Partitions(rep, mst, n) && AllJoined(rep, edges)
    requires forall e :: e in edges ==> 0 <= e.1 < n && 0 <= e.2 < n
    ensures forall e :: e in edges ==> Connected(mst, e.1, e.2)
  {
    forall e | e in edges
      ensures Connected(mst, e.1, e.2)
    {
      assert rep[e.1] == rep[e.2];
    }
  }

  /** Appending a pair that its predecessors did not connect keeps the forest acyclic. */
  lemma AcyclicStep(mst: seq<(int, int)>, a: int, b: int)
    requires Acyclic(mst) && !Connected(mst, a, b)
    ensures Acyclic(mst + [(a, b)])
  {
    var m' := mst + [(a, b)];
    forall m | 0 <= m < |m'|
      ensures !Connected(m'[..m], m'[m].0, m'[m].1)
    {
      if m < |mst| {
        assert m'[..m] == mst[..m];
      } else {
        assert m'[..m] == mst;
      }
    }
  }

  /** An edge whose target is not a node id: find raises KeyError on it. */
  predicate BadTarget(n: int, e: Edge)
  {
    !(0 <= e.2 < n)
  }

  /** The endpoints of every edge of es are members with one representative. */
  ghost predicate AllJoined(rep: map<int, int>, es: seq<Edge>)
  {
    forall f :: f in es ==> f.1 in rep && f.2 in rep && rep[f.1] == rep[f.2]
  }

  /** Merging sets keeps joined endpoints joined. */
  lemma JoinedKept(rep': map<int, int>, rep: map<int, int>, es: seq<Edge>)
    requires Coarsens(rep', rep) && AllJoined(rep, es)
    ensures AllJoined(rep', es)
  {
    forall f | f in es
      ensures f.1 in rep' && f.2 in rep' && rep'[f.1] == rep'[f.2]
    {
      assert rep[f.1] == rep[f.2];
    }
  }

  /** Extending the prefix of es by one edge whose endpoints are joined. */
  lemma JoinedStep(rep: map<int, int>, es: seq<Edge>, k: nat)
    requires k < |es| && AllJoined(rep, es[..k])
    requires es[k].1 in rep && es[k].2 in rep && rep[es[k].1] == rep[es[k].2]
    ensures AllJoined(rep, es[..k + 1])
  {
    assert es[..k + 1] == es[..k] + [es[k]];
  }

  /** Extending the prefix of es by one edge with a good target. */
  lemma TargetStep(n: int, es: seq<Edge>, k: nat)
    requires k < |es| && !BadTarget(n, es[k])
    requires forall m :: 0 <= m < k ==> !BadTarget(n, es[m])
    ensures forall m :: 0 <= m < k + 1 ==> !BadTarget(n, es[m])
  {
  }

  /** Passing over edge k of es, keeping it or not. */
  lemma TakenStep(mst: seq<(int, int)>, es: seq<Edge>, taken: seq<int>, k: nat)
    requires k < |es| && Taken(mst, es[..k], taken)
    ensures Taken(mst, es[..k + 1], taken)
    ensures Taken(mst + [(es[k].1, es[k].2)], es[..k + 1], taken + [k])
  {
  }

  /** What one iteration of the main loop keeps: the processed edges are joined, the sets
      are the trees of the kept pairs, those stay acyclic, and they are the processed edges
      at the kept positions. */
  lemma EdgeStep(rep: map<int, int>, rep': map<int, int>, mst: seq<(int, int)>, mst': seq<(int, int)>,
                 taken: seq<int>, taken': seq<int>, edges: seq<Edge>, k: nat, n: nat, kept: bool)
    requires k < |edges| && 0 <= edges[k].1 < n && 0 <= edges[k].2 < n
    requires AllJoined(rep, edges[..k]) && Partitions(rep, mst, n) && Acyclic(mst) && Taken(mst, edges[..k], taken)
    requires Coarsens(rep', rep) && edges[k].1 in rep' && edges[k].2 in rep'
    requires rep'[edges[k].1] == rep'[edges[k].2]
    requires kept == (rep[edges[k].1] != rep[edges[k].2])
    requires !kept ==> rep' == rep && mst' == mst && taken' == taken
    requires kept ==> Relabelled(rep', rep, rep[edges[k].1], rep[edges[k].2], rep'[edges[k].1]) &&
                      (rep'[edges[k].1] == rep[edges[k].1] || rep'[edges[k].1] == rep[edges[k].2])
    requires kept ==> mst' == mst + [(edges[k].1, edges[k].2)] && taken' == taken + [k]
    ensures AllJoined(rep', edges[..k + 1]) && Partitions(rep', mst', n) && Acyclic(mst')
    ensures Taken(mst', edges[..k + 1], taken')
  {
    var e := edges[k];
    JoinedKept(rep', rep, edges[..k]);
    JoinedStep(rep', edges, k);
    TakenStep(mst, edges, taken, k);
    if kept {
      KeepStep(rep, rep', mst, n, e.1, e.2, rep'[e.1]);
      AcyclicStep(mst, e.1, e.2);
    }
  }

  /** One iteration of the main loop of kruskal_mst: find both endpoints, and when the
      roots differ, unite them. The result says whether the edge is kept. A target that is
      not a node makes find raise KeyError. */
  method ConsiderEdge(djs: DisjointSet<int>, e: Edge, n: nat) returns (res: Result<bool, Error>)
    requires djs.Valid() && djs.parent.Keys == Below(n) && djs.rep.Keys == Below(n) && 0 <= e.1 < n
    modifies djs
    ensures djs.Valid() && djs.parent.Keys == Below(n) && djs.rep.Keys == Below(n)
    ensures res.Failure? <==> BadTarget(n, e)
    ensures res.Success? ==>
              res.value == (old(djs.rep[e.1]) != old(djs.rep[e.2])) &&
              Coarsens(djs.rep, old(djs.rep)) && djs.rep[e.1] == djs.rep[e.2] &&
              |Roots(djs.parent)| + (if res.value then 1 else 0) == old(|Roots(djs.parent)|)
    ensures res.Success? && !res.value ==> djs.rep == old(djs.rep)
    ensures res.Success? && res.value ==>
              Relabelled(djs.rep, old(djs.rep), old(djs.rep[e.1]), old(djs.rep[e.2]), djs.rep[e.1]) &&
              (djs.rep[e.1] == old(djs.rep[e.1]) || djs.rep[e.1] == old(djs.rep[e.2]))
  {
    var fi := djs.Find(e.1);
    var fj := djs.Find(e.2);
    if fj.Failure? {
      return Failure(KeyError);
    }
    if fi.value == fj.value {
      return Success(false);
    }
    var _ := djs.Union(e.1, e.2);
    res := Success(true);
  }

  /** The main loop of kruskal_mst over the sorted edges, on a DisjointSet holding the nodes
      0..n-1 as singletons: each edge whose endpoints are in different sets is kept and its
      sets united. The sets are then exactly the trees of the kept pairs. */
  method Connect(djs: DisjointSet<int>, edges: seq<Edge>, n: nat) returns (res: Result<seq<(int, int)>, Error>)
    requires djs.Valid() && djs.parent.Keys == Below(n) && djs.rep.Keys == Below(n)
    requires forall e :: e in edges ==> 0 <= e.1 < n
    requires forall u :: u in djs.rep ==> djs.rep[u] == u
    modifies djs
    ensures djs.Valid() && djs.parent.Keys == Below(n) && djs.rep.Keys == Below(n)
    ensures res.Failure? <==> exists e :: e in edges && BadTarget(n, e)
    ensures res.Success? ==> AllJoined(djs.rep, edges)
    ensures res.Success? ==> Partitions(djs.rep, res.value, n) && Acyclic(res.value)
    ensures res.Success? ==> forall e :: e in edges ==> Connected(res.value, e.1, e.2)
    ensures res.Success? ==> |res.value| + |Roots(djs.parent)| == old(|Roots(djs.parent)|)
    ensures res.Success? ==> exists taken :: Taken(res.value, edges, taken)
  {
    var mst: seq<(int, int)> := [];
    ghost var taken: seq<int> := [];
    ghost var roots0 := |Roots(djs.parent)|;
    PartitionsStart(djs.rep, n);
    for k := 0 to |edges|
      invariant djs.Valid() && djs.parent.Keys == Below(n) && djs.rep.Keys == Below(n)
      invariant forall m :: 0 <= m < k ==> !BadTarget(n, edges[m])
      invariant AllJoined(djs.rep, edges[..k])
      invariant |mst| + |Roots(djs.parent)| == roots0
      invariant Taken(mst, edges[..k], taken)
      invariant Partitions(djs.rep, mst, n) && Acyclic(mst)
    {
      var e := edges[k];
      ghost var before := djs.rep;
      var kept := ConsiderEdge(djs, e, n);
      if kept.Failure? {
        assert e in edges && BadTarget(n, e);
        return Failure(KeyError);
      }
      TargetStep(n, edges, k);
      var mst' := if kept.value then mst + [(e.1, e.2)] else mst;
      ghost var taken' := if kept.value then taken + [k] else taken;
      EdgeStep(before, djs.rep, mst, mst', taken, taken', edges, k, n, kept.value);
      mst, taken := mst', taken';
    }
    assert edges[..|edges|] == edges;
    JoinedConnected(djs.rep, mst, n, edges);
    res := Success(mst);
  }

  /** The first loop of kruskal_mst: make_set(i) for every node id i. */
  method MakeNodes(n: nat) returns (djs: DisjointSet<int>)
    ensures fresh(djs) && djs.Valid()
    ensures djs.parent.Keys == Below(n) && djs.rep.Keys == Below(n) && Roots(djs.parent) == Below(n)
    ensures forall u :: u in djs.rep ==> djs.rep[u] == u
  {
    djs := new DisjointSet<int>();
    for i := 0 to n
      invariant djs.Valid() && djs.parent.Keys == Below(i) && djs.rep.Keys == Below(i) && Roots(djs.parent) == Below(i)
      invariant forall u :: u in djs.rep ==> djs.rep[u] == u
    {
      var _ := djs.MakeSet(i);
      assert Below(i + 1) == Below(i) + {i};
    }
  }

  /** The sorted edges are the collected ones, so they come from the adjacency lists. */
  lemma SortedEdgesOf(adj: seq<seq<Item>>, sorted: seq<Edge>)
    requires multiset(sorted) == multiset(EdgesOf(adj))
    ensures forall e :: e in sorted <==> e in EdgesOf(adj)
    ensures forall e :: e in sorted ==> 0 <= e.1 < |adj| && (e.2, e.0) in adj[e.1]
  {
    forall e
      ensures e in sorted <==> e in EdgesOf(adj)
    {
      assert e in multiset(sorted) <==> e in multiset(EdgesOf(adj));
    }
    forall e | e in sorted
      ensures 0 <= e.1 < |adj| && (e.2, e.0) in adj[e.1]
    {
      EdgesOfInput(adj, e);
    }
  }

  /** Every kept pair is an input edge. */
  lemma TakenInput(adj: seq<seq<Item>>, mst: seq<(int, int)>, sorted: seq<Edge>, taken: seq<int>)
    requires Taken(mst, sorted, taken)
    requires forall e :: e in sorted ==> 0 <= e.1 < |adj| && (e.2, e.0) in adj[e.1]
    ensures forall k :: 0 <= k < |mst| ==> IsInputEdge(adj, mst[k].0, mst[k].1)
  {
    forall k | 0 <= k < |mst|
      ensures IsInputEdge(adj, mst[k].0, mst[k].1)
    {
      var e := sorted[taken[k]];
      assert e in sorted && mst[k] == (e.1, e.2);
      assert (mst[k].1, e.0) in adj[mst[k].0];
    }
  }

  /** With one root left per set and at least one set, at most n-1 edges were kept. */
  lemma KeptBound(kept: nat, roots: set<int>, n: nat)
    requires roots <= Below(n) && kept + |roots| == n && (n > 0 ==> roots != {})
    ensures kept <= if n == 0 then 0 else n - 1
  {
    SubsetSize(roots, Below(n));
    BelowSize(n);
  }

  /** kruskal_mst(adj_list): the edges kept, as (source, target) pairs. They form a
      spanning forest of the input: no kept pair closes a cycle, and every input edge has
      its endpoints connected through kept pairs. */
  method KruskalMst(adj: seq<seq<Item>>) returns (res: Result<seq<(int, int)>, Error>)
    ensures res.Failure? <==> exists e :: e in EdgesOf(adj) && BadTarget(|adj|, e)
    ensures res.Success? ==> |res.value| <= if |adj| == 0 then 0 else |adj| - 1
    ensures res.Success? ==> forall k :: 0 <= k < |res.value| ==> IsInputEdge(adj, res.value[k].0, res.value[k].1)
    ensures res.Success? ==>
              exists taken :: Taken(res.value, SortEdges(EdgesOf(adj)), taken)
    ensures res.Success? ==> Acyclic(res.value)
    ensures res.Success? ==> forall i, j :: IsInputEdge(adj, i, j) ==> Connected(res.value, i, j)
  {
    var n := |adj|;
    var djs := MakeNodes(n);
    BelowSize(n);
    var edges := CollectEdges(adj);
    var sorted := SortEdges(edges);
    SortedEdgesOf(adj, sorted);
    res := Connect(djs, sorted, n);
    if res.Success? {
      if n > 0 {
        djs.RepIsRoot(0);
      }
      KeptBound(|res.value|, Roots(djs.parent), n);
      ghost var taken :| Taken(res.value, sorted, taken);
      TakenInput(adj, res.value, sorted, taken);
      forall i, j | IsInputEdge(adj, i, j)
        ensures Connected(res.value, i, j)
      {
        var item :| item in adj[i] && item.0 == j;
        EdgesOfInput(adj, (item.1, i, j));
        assert (item.1, i, j) in sorted;
      }
    }
  }
}

/** Strongly connected components of a directed graph given as adjacency lists
    (strongly_connected_components.py): Kosaraju's two-pass algorithm and Tarjan's
    single-pass algorithm. Both work by recursive depth-first searches that update lists
    shared with the enclosing function; here that shared state is the fields of an object
    and the nested functions are its methods. */
module StronglyConnected {
  import opened NodeIds

  /** Nodes are 0..n-1 and every adjacency entry names one of them. */
  predicate IsGraph(adj: seq<seq<int>>)
  {
    forall u, j :: 0 <= u < |adj| && 0 <= j < |adj[u]| ==> 0 <= adj[u][j] < |adj|
  }

  /** p is a non-empty walk along the edges of adj. */
  ghost predicate IsWalk(adj: seq<seq<int>>, p: seq<int>)
  {
    |p| > 0 &&
    (forall i :: 0 <= i < |p| ==> 0 <= p[i] < |adj|) &&
    (forall i :: 0 <= i < |p| - 1 ==> p[i + 1] in adj[p[i]])
  }

  /** Node b can be reached from node a (in zero or more steps). */
  ghost predicate Reaches(adj: seq<seq<int>>, a: int, b: int)
  {
    exists p :: IsWalk(adj, p) && p[0] == a && p[|p| - 1] == b
  }

  lemma ReachesRefl(adj: seq<seq<int>>, a: int)
    requires 0 <= a < |adj|
    ensures Reaches(adj, a, a)
  {
    assert IsWalk(adj, [a]);
  }

  /** A node reached from a node of the graph is a node of the graph. */
  lemma ReachesRange(adj: seq<seq<int>>, a: int, b: int)
    requires Reaches(adj, a, b)
    ensures 0 <= a < |adj| && 0 <= b < |adj|
  {
    var p :| IsWalk(adj, p) && p[0] == a && p[|p| - 1] == b;
  }

  /** An edge a -> b followed by a walk from b is a walk from a. */
  lemma ReachesStep(adj: seq<seq<int>>, a: int, b: int, c: int)
    requires 0 <= a < |adj| && b in adj[a] && Reaches(adj, b, c)
    ensures Reaches(adj, a, c)
  {
    var p :| IsWalk(adj, p) && p[0] == b && p[|p| - 1] == c;
    var w := [a] + p;
    assert forall i :: 0 < i < |w| ==> w[i] == p[i - 1];
    assert IsWalk(adj, w) && w[0] == a && w[|w| - 1] == c;
  }

  lemma ReachesTrans(adj: seq<seq<int>>, a: int, b: int, c: int)
    requires Reaches(adj, a, b) && Reaches(adj, b, c)
    ensures Reaches(adj, a, c)
  {
    var p :| IsWalk(adj, p) && p[0] == a && p[|p| - 1] == b;
    var q :| IsWalk(adj, q) && q[0] == b && q[|q| - 1] == c;
    var w := p + q[1..];
    forall i | 0 <= i < |w| - 1
      ensures w[i + 1] in adj[w[i]]
    {
      if i >= |p| - 1 {
        assert w[i] == q[i - |p| + 1] && w[i + 1] == q[i - |p| + 2];
      }
    }
    assert IsWalk(adj, w) && w[0] == a && w[|w| - 1] == c;
  }

  predicate Distinct(s: seq<int>)
  {
    forall i, j :: 0 <= i < j < |s| ==> s[i] != s[j]
  }

  /** In a list without repeats, equal entries sit at the same position. */
  lemma DistinctSame(s: seq<int>, i: int, j: int)
    requires Distinct(s) && 0 <= i < |s| && 0 <= j < |s| && s[i] == s[j]
    ensures i == j
  {
  }

  lemma {:induction false} DistinctSize(s: seq<int>)
    requires Distinct(s)
    ensures |set x | x in s| == |s|
  {
    if s != [] {
      var t := s[..|s| - 1];
      DistinctSize(t);
      assert (set x | x in s) == (set x | x in t) + {s[|s| - 1]};
    }
  }

  /** A repetition-free sequence of nodes that contains every node is a permutation of them. */
  lemma Permutation(s: seq<int>, n: nat)
    requires Distinct(s)
    requires forall i :: 0 <= i < |s| ==> 0 <= s[i] < n
    requires forall k :: 0 <= k < n ==> k in s
    ensures |s| == n
  {
    DistinctSize(s);
    BelowSize(n);
    assert (set x | x in s) == Below(n);
  }

  // ---------------------------------------------------------------- Kosaraju

  /** T holds the reversed edges of the first H[u] entries of every list adj[u]: node u
      occurs in T[v] exactly as often as v occurs among those entries. */
  ghost predicate Reversed(adj: seq<seq<int>>, T: seq<seq<int>>, H: seq<nat>)
  {
    |T| == |adj| && |H| == |adj| &&
    (forall u :: 0 <= u < |adj| ==> H[u] <= |adj[u]|) &&
    (forall v, j :: 0 <= v < |T| && 0 <= j < |T[v]| ==> 0 <= T[v][j] < |adj|) &&
    (forall u, v :: 0 <= u < |adj| && 0 <= v < |adj| ==>
       multiset(T[v])[u] == multiset(adj[u][..H[u]])[v])
  }

  /** Reversing the next edge of u, u -> adj[u][j], keeps the relation. */
  lemma ReverseStep(adj: seq<seq<int>>, T: seq<seq<int>>, H: seq<nat>, u: int, j: nat)
    requires IsGraph(adj) && Reversed(adj, T, H)
    requires 0 <= u < |adj| && H[u] == j < |adj[u]|
    ensures Reversed(adj, T[adj[u][j] := T[adj[u][j]] + [u]], H[u := j + 1])
  {
    var m := adj[u][j];
    var T', H' := T[m := T[m] + [u]], H[u := j + 1];
    assert adj[u][..j + 1] == adj[u][..j] + [m];
    forall x, v | 0 <= x < |adj| && 0 <= v < |adj|
      ensures multiset(T'[v])[x] == multiset(adj[x][..H'[x]])[v]
    {
      if x == u && v == m {
        assert multiset(T'[v]) == multiset(T[v]) + multiset{u};
      } else if v == m {
        assert multiset(T'[v]) == multiset(T[v]) + multiset{u};
      }
    }
  }

  /** Once every list is fully reversed, each reversed entry is an edge of adj, and each
      edge of adj is reversed. */
  lemma ReversedEdges(adj: seq<seq<int>>, T: seq<seq<int>>, H: seq<nat>)
    requires IsGraph(adj) && Reversed(adj, T, H)
    requires forall u :: 0 <= u < |adj| ==> H[u] == |adj[u]|
    ensures forall v, j :: 0 <= v < |T| && 0 <= j < |T[v]| ==> v in adj[T[v][j]]
    ensures forall u, j :: 0 <= u < |adj| && 0 <= j < |adj[u]| ==> u in T[adj[u][j]]
  {
    forall u, j | 0 <= u < |adj| && 0 <= j < |adj[u]|
      ensures u in T[adj[u][j]]
    {
      assert adj[u][..H[u]] == adj[u];
      assert multiset(adj[u])[adj[u][j]] > 0;
    }
    forall v, j | 0 <= v < |T| && 0 <= j < |T[v]|
      ensures v in adj[T[v][j]]
    {
      var u := T[v][j];
      assert adj[u][..H[u]] == adj[u];
      assert multiset(T[v])[u] > 0;
    }
  }

  /** How the first pass may change its state between two moments, given the unvisited
      nodes U, the handled counts H and the finishing order I at each: no node becomes
      unvisited, a node visited at the start keeps its count, the order only grows and
      only by nodes unvisited at the start, and every node visited in between is finished. */
  ghost predicate Extends(U0: set<int>, H0: seq<nat>, I0: seq<int>, U1: set<int>, H1: seq<nat>, I1: seq<int>)
  {
    U1 <= U0 && |H1| == |H0| &&
    (forall k :: 0 <= k < |H0| && k !in U0 ==> H1[k] == H0[k]) &&
    I0 <= I1 &&
    (forall i :: |I0| <= i < |I1| ==> I1[i] in U0) &&
    (forall k :: k in U0 && k !in U1 ==> k in I1)
  }

  lemma ExtendsTrans(U0: set<int>, H0: seq<nat>, I0: seq<int>, U1: set<int>, H1: seq<nat>, I1: seq<int>,
                     U2: set<int>, H2: seq<nat>, I2: seq<int>)
    requires Extends(U0, H0, I0, U1, H1, I1) && Extends(U1, H1, I1, U2, H2, I2)
    ensures Extends(U0, H0, I0, U2, H2, I2)
  {
    forall i | |I1| <= i < |I2|
      ensures I2[i] in U0
    {
    }
  }

  /** A node u visited meanwhile may be added to both ends, and its own count may differ
      at the start. */
  lemma ExtendsPlus(U0: set<int>, H0: seq<nat>, I0: seq<int>, U1: set<int>, H1: seq<nat>, I1: seq<int>,
                    u: int, H: seq<nat>)
    requires Extends(U0, H0, I0, U1, H1, I1) && u !in U0
    requires |H| == |H0| && forall k :: 0 <= k < |H| && k != u ==> H[k] == H0[k]
    ensures Extends(U0 + {u}, H, I0, U1 + {u}, H1, I1)
    ensures forall i :: |I0| <= i < |I1| ==> I1[i] != u
  {
  }

  /** Appending u to the order, once it finishes, completes traverse(u). */
  lemma ExtendsFinish(U0: set<int>, H0: seq<nat>, I0: seq<int>, U1: set<int>, H1: seq<nat>, I1: seq<int>, u: int)
    requires Extends(U0, H0, I0, U1 + {u}, H1, I1) && u in U0 && u !in U1
    ensures Extends(U0, H0, I0, U1, H1, I1 + [u])
  {
  }

  /** The position of x in s, found from the end. */
  function Pos(s: seq<int>, x: int): (i: nat)
    requires x in s
    ensures i < |s| && s[i] == x
    decreases |s|
  {
    if s[|s| - 1] == x then |s| - 1
    else
      assert x in s[..|s| - 1] by { assert s == s[..|s| - 1] + [s[|s| - 1]]; }
      Pos(s[..|s| - 1], x)
  }

  lemma PosAppend(s: seq<int>, v: int, x: int)
    requires x in s && x != v
    ensures Pos(s + [v], x) == Pos(s, x)
  {
    assert (s + [v])[..|s|] == s;
  }

  lemma PosDistinct(s: seq<int>, i: int)
    requires Distinct(s) && 0 <= i < |s|
    ensures Pos(s, s[i]) == i
  {
  }

  /** Given the finished nodes I in finishing order and the stack S of searches under
      way, w is sure to finish after r: after a finished r when w is unfinished or
      finished later, and before an unfinished r when w is on the stack below it. */
  ghost predicate Beyond(I: seq<int>, S: seq<int>, w: int, r: int)
  {
    if r in I then w in I ==> Pos(I, r) < Pos(I, w)
    else w in S && (r in S ==> Pos(S, w) < Pos(S, r))
  }

  /** The ordering property of depth-first finishing times: when a finished x reaches r
      but r does not reach x, x reaches a node that finishes after r. */
  ghost predicate Order(adj: seq<seq<int>>, I: seq<int>, S: seq<int>)
  {
    forall x, r {:trigger Reaches(adj, x, r), Reaches(adj, r, x)} ::
      x in I && Reaches(adj, x, r) && !Reaches(adj, r, x) ==>
      exists w :: Reaches(adj, x, w) && Beyond(I, S, w, r)
  }

  /** Every edge out of a finished node leads to a finished node or one on the stack. */
  ghost predicate Settled(adj: seq<seq<int>>, I: seq<int>, S: seq<int>)
    requires forall i :: 0 <= i < |I| ==> 0 <= I[i] < |adj|
  {
    forall i, j :: 0 <= i < |I| && 0 <= j < |adj[I[i]]| ==> adj[I[i]][j] in I || adj[I[i]][j] in S
  }

  /** The state of the first pass seen as a depth-first search: the finished nodes I, and
      the stack S of nodes whose traverse is under way, each an edge away from the one
      below it. */
  ghost predicate Search(adj: seq<seq<int>>, I: seq<int>, S: seq<int>)
  {
    (forall i :: 0 <= i < |I| ==> 0 <= I[i] < |adj|) &&
    (forall i :: 0 <= i < |S| ==> 0 <= S[i] < |adj| && S[i] !in I) && Distinct(S) &&
    (forall i :: 0 <= i < |S| - 1 ==> S[i + 1] in adj[S[i]]) &&
    Settled(adj, I, S) && Order(adj, I, S)
  }

  /** Each node on the stack reaches the top of the stack. */
  lemma StackReaches(adj: seq<seq<int>>, S: seq<int>, i: int)
    requires forall k :: 0 <= k < |S| ==> 0 <= S[k] < |adj|
    requires forall k :: 0 <= k < |S| - 1 ==> S[k + 1] in adj[S[k]]
    requires 0 <= i < |S|
    ensures Reaches(adj, S[i], S[|S| - 1])
  {
    var w := S[i..];
    assert forall k :: 0 <= k < |w| ==> w[k] == S[i + k];
    assert IsWalk(adj, w) && w[0] == S[i] && w[|w| - 1] == S[|S| - 1];
  }

  /** A walk from a finished node to a node neither finished nor on the stack passes
      through the stack. */
  lemma {:induction false} LeavesThroughStack(adj: seq<seq<int>>, I: seq<int>, S: seq<int>, p: seq<int>)
    requires forall i :: 0 <= i < |I| ==> 0 <= I[i] < |adj|
    requires Settled(adj, I, S)
    requires IsWalk(adj, p) && p[0] in I && p[|p| - 1] !in I && p[|p| - 1] !in S
    ensures exists g :: g in S && Reaches(adj, p[0], g)
    decreases |p|
  {
    var i :| 0 <= i < |I| && I[i] == p[0];
    assert p[1] in adj[p[0]];
    var j :| 0 <= j < |adj[I[i]]| && adj[I[i]][j] == p[1];
    if p[1] in S {
      assert IsWalk(adj, p[..2]);
      assert Reaches(adj, p[0], p[1]);
    } else {
      var q := p[1..];
      assert forall k :: 0 <= k < |q| ==> q[k] == p[k + 1];
      LeavesThroughStack(adj, I, S, q);
      var g :| g in S && Reaches(adj, q[0], g);
      ReachesStep(adj, p[0], p[1], g);
    }
  }

  /** traverse(v) on a node neither finished nor on the stack pushes it. */
  lemma SearchPush(adj: seq<seq<int>>, I: seq<int>, S: seq<int>, v: int)
    requires Search(adj, I, S) && 0 <= v < |adj| && v !in I && v !in S
    requires S == [] || v in adj[S[|S| - 1]]
    ensures Search(adj, I, S + [v])
  {
    var S' := S + [v];
    forall x, r | x in I && Reaches(adj, x, r) && !Reaches(adj, r, x)
      ensures exists w :: Reaches(adj, x, w) && Beyond(I, S', w, r)
    {
      var w :| Reaches(adj, x, w) && Beyond(I, S, w, r);
      if r !in I {
        PosAppend(S, v, w);
        if r in S {
          PosAppend(S, v, r);
        }
      }
      assert Beyond(I, S', w, r);
    }
  }

  /** Finishing the top v of the stack, once every edge out of it has been followed,
      moves it to the end of the finishing order. */
  lemma SearchPop(adj: seq<seq<int>>, I: seq<int>, S: seq<int>, v: int)
    requires Search(adj, I, S + [v]) && 0 <= v < |adj|
    requires forall j :: 0 <= j < |adj[v]| ==> adj[v][j] in I || adj[v][j] in S + [v]
    ensures Search(adj, I + [v], S)
  {
    var I' := I + [v];
    assert v == (S + [v])[|S|] && v !in I;
    assert forall k :: 0 <= k < |S| ==> S[k] == (S + [v])[k];
    assert v !in S;
    forall i, j | 0 <= i < |I'| && 0 <= j < |adj[I'[i]]|
      ensures adj[I'[i]][j] in I' || adj[I'[i]][j] in S
    {
      if i < |I| {
        assert I'[i] == I[i];
      }
    }
    assert Settled(adj, I', S);
    OrderPop(adj, I, S, v);
  }

  /** The ordering property survives finishing the top v of the stack. */
  lemma OrderPop(adj: seq<seq<int>>, I: seq<int>, S: seq<int>, v: int)
    requires forall i :: 0 <= i < |I| ==> 0 <= I[i] < |adj|
    requires forall i :: 0 <= i < |S| ==> 0 <= S[i] < |adj| && S[i] !in I
    requires 0 <= v < |adj| && v !in I && v !in S && Distinct(S + [v])
    requires forall i :: 0 <= i < |S + [v]| - 1 ==> (S + [v])[i + 1] in adj[(S + [v])[i]]
    requires Settled(adj, I + [v], S) && Order(adj, I, S + [v])
    ensures Order(adj, I + [v], S)
  {
    var I' := I + [v];
    forall x, r | x in I' && Reaches(adj, x, r) && !Reaches(adj, r, x)
      ensures exists w :: Reaches(adj, x, w) && Beyond(I', S, w, r)
    {
      ReachesRange(adj, x, r);
      if r !in I' && r !in S {
        var p :| IsWalk(adj, p) && p[0] == x && p[|p| - 1] == r;
        LeavesThroughStack(adj, I', S, p);
        var g :| g in S && Reaches(adj, x, g);
        assert Beyond(I', S, g, r);
      } else if x == v {
        if r in S {
          var k :| 0 <= k < |S| && S[k] == r;
          StackReaches(adj, S + [v], k);
          assert false;
        } else if r == v {
          ReachesRefl(adj, v);
          assert false;
        }
        PosAppend(I, v, r);
        ReachesRefl(adj, v);
        assert Beyond(I', S, v, r);
      } else {
        var w :| Reaches(adj, x, w) && Beyond(I, S + [v], w, r);
        if r in I {
          if w in I {
            PosAppend(I, v, w);
          }
          PosAppend(I, v, r);
        } else if r == v {
          assert Pos(S + [v], v) == |S|;
          assert w != v;
        } else {
          PosAppend(S, v, r);
          assert Pos(S + [v], r) < |S|;
          assert w != v;
          PosAppend(S, v, w);
        }
        assert Beyond(I', S, w, r);
      }
    }
  }

  /** The finishing order F of a completed first pass: when x reaches F[i] but F[i] does
      not reach x, x reaches a node finished after F[i]. */
  ghost predicate FinishOrder(adj: seq<seq<int>>, F: seq<int>)
  {
    forall i, x {:trigger Reaches(adj, x, F[i]), Reaches(adj, F[i], x)} ::
      0 <= i < |F| && Reaches(adj, x, F[i]) && !Reaches(adj, F[i], x) ==>
      exists j :: i < j < |F| && Reaches(adj, x, F[j])
  }

  /** Once every node is finished and the stack is empty, the search order is the
      finishing order. */
  lemma SearchDone(adj: seq<seq<int>>, I: seq<int>)
    requires Search(adj, I, []) && Distinct(I)
    requires forall x :: 0 <= x < |adj| ==> x in I
    ensures FinishOrder(adj, I)
  {
    forall i, x | 0 <= i < |I| && Reaches(adj, x, I[i]) && !Reaches(adj, I[i], x)
      ensures exists j :: i < j < |I| && Reaches(adj, x, I[j])
    {
      ReachesRange(adj, x, I[i]);
      var w :| Reaches(adj, x, w) && Beyond(I, [], w, I[i]);
      ReachesRange(adj, x, w);
      PosDistinct(I, i);
      var j := Pos(I, w);
      assert i < j && Reaches(adj, x, I[j]);
    }
  }

  /** The state shared by traverse and assign_root in kosaraju_scc. */
  class Kosaraju {
    const adj: seq<seq<int>>
    const n: nat
    const visited: array<bool>
    const transpose: array<seq<int>>
    const assignments: array<int>
    var inorder: seq<int>
    /** How many entries of adj[u] traverse(u) has handled so far. */
    ghost var handled: seq<nat>
    /** The nodes whose traverse is under way, outermost first. */
    ghost var stack: seq<int>
    /** For each labelled node, a walk from it to its label. */
    ghost var paths: map<int, seq<int>>

    /** The invariant of the first pass. Nodes in inorder are visited and finished, and
        unvisited nodes have not had any edge reversed. The visited nodes are those
        finished and those on the stack. */
    ghost predicate TraverseInv()
      reads this, visited, transpose
    {
      n == |adj| && IsGraph(adj) &&
      visited.Length == n && transpose.Length == n && assignments.Length == n &&
      Reversed(adj, transpose[..], handled) &&
      (forall k :: 0 <= k < n && !visited[k] ==> handled[k] == 0) &&
      Distinct(inorder) &&
      (forall i :: 0 <= i < |inorder| ==>
         0 <= inorder[i] < n && visited[inorder[i]] && handled[inorder[i]] == |adj[inorder[i]]|) &&
      (forall k :: 0 <= k < n ==> (visited[k] <==> k in inorder || k in stack)) &&
      Search(adj, inorder, stack)
    }

    ghost function Unvisited(): set<int>
      reads this, visited
    {
      set k | 0 <= k < visited.Length && !visited[k]
    }

    constructor (adj: seq<seq<int>>)
      requires IsGraph(adj)
      ensures this.adj == adj && TraverseInv()
      ensures inorder == [] && stack == [] && forall k :: 0 <= k < n ==> !visited[k] && assignments[k] == -1
      ensures fresh(visited) && fresh(transpose) && fresh(assignments)
    {
      this.adj := adj;
      n := |adj|;
      visited := new bool[|adj|](_ => false);
      transpose := new seq<int>[|adj|](_ => []);
      assignments := new int[|adj|](_ => -1);
      inorder := [];
      handled := seq(|adj|, _ => 0);
      stack := [];
      paths := map[];
    }

    /** traverse(u): the depth-first search of the first pass. It reverses each edge out
        of every node it visits, and appends each node to inorder when it finishes. */
    method Traverse(u: int)
      requires TraverseInv() && 0 <= u < n
      requires stack == [] || u in adj[stack[|stack| - 1]]
      modifies this, visited, transpose
      decreases Unvisited(), 2
      ensures TraverseInv() && visited[u] && stack == old(stack)
      ensures forall k :: 0 <= k < n && old(visited[k]) ==> visited[k]
      ensures Extends(old(Unvisited()), old(handled), old(inorder), Unvisited(), handled, inorder)
    {
      if visited[u] {
        return;
      }
      Start(u);
      Explore(u);
      ExtendsFinish(old(Unvisited()), old(handled), old(inorder), Unvisited(), handled, inorder, u);
      Finish(u);
    }

    /** The start of traverse(u) on an unvisited u: u is marked visited and its search
        goes on the stack. */
    method Start(u: int)
      requires TraverseInv() && 0 <= u < n && !visited[u]
      requires stack == [] || u in adj[stack[|stack| - 1]]
      modifies this, visited
      ensures TraverseInv() && visited[u] && handled[u] == 0 && u !in inorder
      ensures stack == old(stack) + [u] && inorder == old(inorder) && handled == old(handled)
      ensures Unvisited() + {u} == old(Unvisited()) && u in old(Unvisited())
      ensures forall k :: 0 <= k < n && old(visited[k]) ==> visited[k]
    {
      SearchPush(adj, inorder, stack, u);
      visited[u] := true;
      stack := stack + [u];
    }

    /** The loop of traverse(u) over the edges out of u. */
    method Explore(u: int)
      requires TraverseInv() && 0 <= u < n && visited[u] && handled[u] == 0 && u !in inorder
      requires stack != [] && stack[|stack| - 1] == u
      modifies this, visited, transpose
      decreases Unvisited() + {u}, 1
      ensures TraverseInv() && visited[u] && handled[u] == |adj[u]| && u !in inorder && stack == old(stack)
      ensures forall i :: 0 <= i < |adj[u]| ==> visited[adj[u][i]]
      ensures forall k :: 0 <= k < n && old(visited[k]) ==> visited[k]
      ensures Extends(old(Unvisited()) + {u}, old(handled), old(inorder), Unvisited() + {u}, handled, inorder)
    {
      for j := 0 to |adj[u]|
        invariant TraverseInv() && visited[u] && handled[u] == j && u !in inorder
        invariant stack == old(stack)
        invariant forall k :: 0 <= k < n && old(visited[k]) ==> visited[k]
        invariant forall i :: 0 <= i < j ==> visited[adj[u][i]]
        invariant Extends(old(Unvisited()) + {u}, old(handled), old(inorder), Unvisited() + {u}, handled, inorder)
      {
        ghost var (U, H, I) := (Unvisited(), handled, inorder);
        ghost var V := visited[..];
        TraverseEdge(u, j);
        forall i | 0 <= i < j + 1
          ensures visited[adj[u][i]]
        {
          if i < j {
            assert V[adj[u][i]];
          }
        }
        ExtendsTrans(old(Unvisited()) + {u}, old(handled), old(inorder), U + {u}, H, I,
                     Unvisited() + {u}, handled, inorder);
      }
    }

    /** The end of traverse(u): every edge out of u has been followed, so u is appended
        to inorder and leaves the stack. */
    method Finish(u: int)
      requires TraverseInv() && 0 <= u < n && stack != [] && stack[|stack| - 1] == u
      requires handled[u] == |adj[u]| && forall i :: 0 <= i < |adj[u]| ==> visited[adj[u][i]]
      modifies this
      ensures TraverseInv() && inorder == old(inorder) + [u] && stack == old(stack)[..|old(stack)| - 1]
      ensures handled == old(handled)
    {
      ghost var S := stack[..|stack| - 1];
      assert stack == S + [u];
      assert forall i :: 0 <= i < |adj[u]| ==> adj[u][i] in inorder || adj[u][i] in stack;
      SearchPop(adj, inorder, S, u);
      inorder := inorder + [u];
      stack := S;
    }

    /** One turn of the loop in traverse(u): reverse the edge u -> adj[u][j], then
        traverse its target. */
    method TraverseEdge(u: int, j: nat)
      requires TraverseInv() && 0 <= u < n && visited[u] && handled[u] == j < |adj[u]| && u !in inorder
      requires stack != [] && stack[|stack| - 1] == u
      modifies this, visited, transpose
      decreases Unvisited() + {u}, 0
      ensures TraverseInv() && visited[u] && handled[u] == j + 1 && u !in inorder && stack == old(stack)
      ensures visited[adj[u][j]] && forall k :: 0 <= k < n && old(visited[k]) ==> visited[k]
      ensures Extends(old(Unvisited()) + {u}, old(handled), old(inorder), Unvisited() + {u}, handled, inorder)
    {
      var m := adj[u][j];
      ReverseStep(adj, transpose[..], handled, u, j);
      transpose[m] := transpose[m] + [u];
      handled := handled[u := j + 1];
      ghost var H := handled;
      Traverse(m);
      ExtendsPlus(old(Unvisited()), H, inorder, Unvisited(), handled, inorder, u, old(handled));
    }

    /** The reversed lists hold exactly the edges of adj backwards, so the second pass
        walks edges backwards, all of them. */
    ghost predicate Back()
      reads transpose
    {
      n == |adj| && IsGraph(adj) && transpose.Length == n &&
      (forall v, j :: 0 <= v < n && 0 <= j < |transpose[v]| ==>
         0 <= transpose[v][j] < n && v in adj[transpose[v][j]]) &&
      (forall u, j :: 0 <= u < n && 0 <= j < |adj[u]| ==> u in transpose[adj[u][j]])
    }

    /** assign_root(u, root): labels u with root unless u is labelled already, then does
        the same for every node with an edge into u. Ghost `via` is the node whose reversed
        list led here, so that u -> via -> ... -> root is a walk. */
    method AssignRoot(u: int, root: int, ghost via: int, ghost open: set<int>)
      requires Back() && assignments.Length == n && Labelled(adj, assignments[..], paths)
      requires 0 <= u < n && 0 <= root < n && Enters(adj, assignments[..], u, root, via)
      requires Closed(adj, assignments[..], open)
      modifies this, assignments
      decreases Free(assignments[..]), 2
      ensures Labelled(adj, assignments[..], paths) && assignments[u] != -1
      ensures Gives(old(assignments[..]), assignments[..], root)
      ensures Closed(adj, assignments[..], open)
    {
      if assignments[u] != -1 {
        return;
      }
      Label(u, root, via, open);
      ghost var A := assignments[..];
      AssignAll(u, root, open);
      GivesTrans(old(assignments[..]), A, assignments[..], root);
      ClosedNode(adj, transpose[u], assignments[..], open, u);
    }

    /** The start of assign_root(u, root) on an unlabelled u: u is labelled root. */
    method Label(u: int, root: int, ghost via: int, ghost open: set<int>)
      requires Back() && assignments.Length == n && Labelled(adj, assignments[..], paths)
      requires 0 <= u < n && 0 <= root < n && Enters(adj, assignments[..], u, root, via)
      requires Closed(adj, assignments[..], open) && assignments[u] == -1
      modifies this, assignments
      ensures assignments[..] == old(assignments[..])[u := root]
      ensures Labelled(adj, assignments[..], paths) && Gives(old(assignments[..]), assignments[..], root)
      ensures Closed(adj, assignments[..], open + {u})
    {
      LabelStep(adj, assignments[..], paths, u, root, via);
      ClosedLabel(adj, assignments[..], open, u, root);
      assignments[u] := root;
      paths := paths[u := WalkTo(paths, u, root, via)];
    }

    /** The loop of assign_root(u, root) over the nodes with an edge into u. */
    method AssignAll(u: int, root: int, ghost open: set<int>)
      requires Back() && assignments.Length == n && Labelled(adj, assignments[..], paths)
      requires 0 <= u < n && 0 <= root < n && assignments[u] == root
      requires Closed(adj, assignments[..], open + {u})
      modifies this, assignments
      decreases Free(assignments[..]) + {u}, 1
      ensures Labelled(adj, assignments[..], paths) && Gives(old(assignments[..]), assignments[..], root)
      ensures Closed(adj, assignments[..], open + {u})
      ensures forall i :: 0 <= i < |transpose[u]| ==> assignments[transpose[u][i]] != -1
    {
      for j := 0 to |transpose[u]|
        invariant Labelled(adj, assignments[..], paths) && assignments[u] == root
        invariant Gives(old(assignments[..]), assignments[..], root)
        invariant Closed(adj, assignments[..], open + {u})
        invariant forall i :: 0 <= i < j ==> assignments[transpose[u][i]] != -1
        invariant Free(assignments[..]) + {u} <= old(Free(assignments[..])) + {u}
      {
        ghost var A := assignments[..];
        AssignEdge(u, j, root, open + {u});
        GivesTrans(old(assignments[..]), A, assignments[..], root);
        KeepsFree(A, assignments[..]);
      }
    }

    /** One turn of the loop in assign_root(u, root): the node transpose[u][j], which
        has an edge into u, gets the same treatment. */
    method AssignEdge(u: int, j: nat, root: int, ghost open: set<int>)
      requires Back() && assignments.Length == n && Labelled(adj, assignments[..], paths)
      requires 0 <= u < n && 0 <= root < n && j < |transpose[u]| && assignments[u] == root
      requires Closed(adj, assignments[..], open)
      modifies this, assignments
      decreases Free(assignments[..]) + {u}, 0
      ensures Labelled(adj, assignments[..], paths) && assignments[transpose[u][j]] != -1
      ensures Gives(old(assignments[..]), assignments[..], root)
      ensures Closed(adj, assignments[..], open)
    {
      AssignRoot(transpose[u][j], root, u, open);
    }
  }

  /** Labels, once given, never change; the arrays keep their length. */
  ghost predicate Keeps(A0: seq<int>, A1: seq<int>)
  {
    |A1| == |A0| && forall k :: 0 <= k < |A0| && A0[k] != -1 ==> A1[k] == A0[k]
  }

  /** Labels, once given, never change, and every node labelled meanwhile gets root. */
  ghost predicate Gives(A0: seq<int>, A1: seq<int>, root: int)
  {
    Keeps(A0, A1) && forall k :: 0 <= k < |A0| && A0[k] == -1 && A1[k] != -1 ==> A1[k] == root
  }

  lemma GivesTrans(A0: seq<int>, A1: seq<int>, A2: seq<int>, root: int)
    requires Gives(A0, A1, root) && Gives(A1, A2, root)
    ensures Gives(A0, A2, root)
  {
  }

  /** Every node with an edge into a labelled node outside `open` is labelled: the
      calls of assign_root still looping over their reversed lists are the nodes in
      `open`. */
  ghost predicate Closed(adj: seq<seq<int>>, A: seq<int>, open: set<int>)
  {
    |A| == |adj| &&
    forall x, j ::
      (0 <= x < |adj| && 0 <= j < |adj[x]| && 0 <= adj[x][j] < |A| &&
       A[adj[x][j]] != -1 && adj[x][j] !in open) ==> A[x] != -1
  }

  /** Labelling u opens it. */
  lemma ClosedLabel(adj: seq<seq<int>>, A: seq<int>, open: set<int>, u: int, root: int)
    requires Closed(adj, A, open) && 0 <= u < |A| && root != -1
    ensures Closed(adj, A[u := root], open + {u})
  {
  }

  /** Once every node with an edge into u is labelled, u may be closed again. */
  lemma ClosedNode(adj: seq<seq<int>>, T: seq<int>, A: seq<int>, open: set<int>, u: int)
    requires Closed(adj, A, open + {u})
    requires forall x, j :: 0 <= x < |adj| && 0 <= j < |adj[x]| && adj[x][j] == u ==> x in T
    requires forall i :: 0 <= i < |T| ==> 0 <= T[i] < |A| && A[T[i]] != -1
    ensures Closed(adj, A, open)
  {
    forall x, j | 0 <= x < |adj| && 0 <= j < |adj[x]| && 0 <= adj[x][j] < |A| &&
                  A[adj[x][j]] != -1 && adj[x][j] !in open
      ensures A[x] != -1
    {
      if adj[x][j] == u {
        var i :| 0 <= i < |T| && T[i] == x;
      }
    }
  }

  /** With nothing open, every node that reaches a labelled node is labelled. */
  lemma {:induction false} ClosedReach(adj: seq<seq<int>>, A: seq<int>, p: seq<int>)
    requires Closed(adj, A, {}) && IsWalk(adj, p) && A[p[|p| - 1]] != -1
    ensures A[p[0]] != -1
    decreases |p|
  {
    if |p| > 1 {
      var q := p[1..];
      assert forall k :: 0 <= k < |q| ==> q[k] == p[k + 1];
      ClosedReach(adj, A, q);
      var j :| 0 <= j < |adj[p[0]]| && adj[p[0]][j] == p[1];
    }
  }

  lemma ClosedReaches(adj: seq<seq<int>>, A: seq<int>, x: int, w: int)
    requires Closed(adj, A, {}) && Reaches(adj, x, w) && A[w] != -1
    ensures A[x] != -1
  {
    var p :| IsWalk(adj, p) && p[0] == x && p[|p| - 1] == w;
    ClosedReach(adj, A, p);
  }

  /** Every label reaches each node carrying it. */
  ghost predicate Sound(adj: seq<seq<int>>, A: seq<int>)
  {
    forall k :: 0 <= k < |A| && A[k] != -1 ==> Reaches(adj, A[k], k)
  }

  /** Nodes that reach each other carry the same label once either is labelled. */
  ghost predicate Same(adj: seq<seq<int>>, A: seq<int>)
  {
    forall u, v ::
      (0 <= u < |A| && 0 <= v < |A| && A[u] != -1 &&
       Reaches(adj, u, v) && Reaches(adj, v, u)) ==> A[v] == A[u]
  }

  /** One turn of the second pass, assign_root(r, r) with r = F[i] after every later
      finisher is labelled, gives r only to nodes that r reaches. */
  lemma RoundSound(adj: seq<seq<int>>, F: seq<int>, i: int, A0: seq<int>, A1: seq<int>, r: int)
    requires FinishOrder(adj, F) && 0 <= i < |F| && F[i] == r
    requires |A0| == |adj| && forall j :: i < j < |F| ==> 0 <= F[j] < |A0| && A0[F[j]] != -1
    requires Closed(adj, A0, {}) && Gives(A0, A1, r)
    requires forall k :: 0 <= k < |A1| && A1[k] != -1 ==> Reaches(adj, k, A1[k])
    requires Sound(adj, A0)
    ensures Sound(adj, A1)
  {
    forall k | 0 <= k < |A1| && A1[k] != -1
      ensures Reaches(adj, A1[k], k)
    {
      if A0[k] == -1 && !Reaches(adj, r, k) {
        var j :| i < j < |F| && Reaches(adj, k, F[j]);
        ClosedReaches(adj, A0, k, F[j]);
      }
    }
  }

  /** One turn of the second pass labels whole components: a node newly labelled shares
      its label with every node it reaches and is reached by. */
  lemma RoundSame(adj: seq<seq<int>>, A0: seq<int>, A1: seq<int>, r: int)
    requires Closed(adj, A1, {}) && Gives(A0, A1, r) && Same(adj, A0)
    ensures Same(adj, A1)
  {
    forall u, v | 0 <= u < |A1| && 0 <= v < |A1| && A1[u] != -1 &&
                  Reaches(adj, u, v) && Reaches(adj, v, u)
      ensures A1[v] == A1[u]
    {
      if A0[u] == -1 {
        ClosedReaches(adj, A1, v, u);
      }
    }
  }

  /** Sound and shared labels on every node mean: two nodes share a label exactly when
      they reach each other. */
  lemma Components(adj: seq<seq<int>>, A: seq<int>)
    requires |A| == |adj| && forall u :: 0 <= u < |A| ==> A[u] != -1 && Reaches(adj, u, A[u])
    requires Sound(adj, A) && Same(adj, A)
    ensures forall u, v :: 0 <= u < |A| && 0 <= v < |A| ==>
              (A[u] == A[v] <==> Reaches(adj, u, v) && Reaches(adj, v, u))
  {
    forall u, v | 0 <= u < |A| && 0 <= v < |A| && A[u] == A[v]
      ensures Reaches(adj, u, v)
    {
      ReachesTrans(adj, u, A[u], v);
    }
  }

  /** The walks kept for labelled nodes show that each reaches its label. */
  lemma LabelledReaches(adj: seq<seq<int>>, A: seq<int>, P: map<int, seq<int>>)
    requires Labelled(adj, A, P)
    ensures forall k :: 0 <= k < |A| && A[k] != -1 ==> Reaches(adj, k, A[k])
  {
    forall k | 0 <= k < |A| && A[k] != -1
      ensures Reaches(adj, k, A[k])
    {
      assert IsWalk(adj, P[k]) && P[k][0] == k && P[k][|P[k]| - 1] == A[k];
    }
  }

  /** The nodes still unlabelled. */
  ghost function Free(A: seq<int>): set<int>
  {
    set k | 0 <= k < |A| && A[k] == -1
  }

  /** Keeping labels never adds unlabelled nodes. */
  lemma KeepsFree(A0: seq<int>, A1: seq<int>)
    requires Keeps(A0, A1)
    ensures Free(A1) <= Free(A0)
  {
  }

  /** Every labelled node carries a label that labels itself, and a walk from the node to
      its label. */
  ghost predicate Labelled(adj: seq<seq<int>>, A: seq<int>, P: map<int, seq<int>>)
  {
    |A| == |adj| &&
    forall k :: 0 <= k < |A| && A[k] != -1 ==>
      0 <= A[k] < |A| && A[A[k]] == A[k] &&
      k in P && IsWalk(adj, P[k]) && P[k][0] == k && P[k][|P[k]| - 1] == A[k]
  }

  /** The ways assign_root(u, root) is entered: from the outer loop with u == root, or from
      a node via labelled root that u has an edge into. */
  ghost predicate Enters(adj: seq<seq<int>>, A: seq<int>, u: int, root: int, via: int)
    requires 0 <= u < |adj| && |A| == |adj|
  {
    u == root || (0 <= via < |A| && A[via] == root && via in adj[u])
  }

  ghost function WalkTo(P: map<int, seq<int>>, u: int, root: int, via: int): seq<int>
  {
    if u == root || via !in P then [u] else [u] + P[via]
  }

  /** Labelling an unlabelled u with root, through the walk u -> via -> ... -> root, keeps
      the labelling invariant. */
  lemma LabelStep(adj: seq<seq<int>>, A: seq<int>, P: map<int, seq<int>>, u: int, root: int, via: int)
    requires Labelled(adj, A, P) && 0 <= u < |adj| && 0 <= root < |adj| && A[u] == -1
    requires Enters(adj, A, u, root, via)
    ensures Labelled(adj, A[u := root], P[u := WalkTo(P, u, root, via)])
  {
    var w := WalkTo(P, u, root, via);
    if u != root {
      var p := P[via];
      forall i | 0 <= i < |w| - 1
        ensures w[i + 1] in adj[w[i]]
      {
        if i > 0 {
          assert w[i] == p[i - 1] && w[i + 1] == p[i];
        }
      }
    }
    assert IsWalk(adj, w) && w[0] == u && w[|w| - 1] == root;
  }

  /** The first pass: traverse(i) for every node. Afterwards inorder lists every node once
      and transpose holds every edge reversed, as many times as the edge occurs. */
  method FirstPass(k: Kosaraju)
    requires k.TraverseInv() && k.inorder == [] && k.stack == []
    requires forall x :: 0 <= x < k.n ==> !k.visited[x]
    modifies k, k.visited, k.transpose
    ensures k.TraverseInv()
    ensures Distinct(k.inorder) && |k.inorder| == k.n
    ensures forall x :: 0 <= x < k.n ==> x in k.inorder
    ensures forall u :: 0 <= u < k.n ==> k.handled[u] == |k.adj[u]|
    ensures FinishOrder(k.adj, k.inorder)
  {
    for i := 0 to k.n
      invariant k.TraverseInv() && k.stack == []
      invariant forall x :: 0 <= x < i ==> k.visited[x]
      invariant forall x :: 0 <= x < k.n && k.visited[x] ==> x in k.inorder
    {
      ghost var U, I := k.Unvisited(), k.inorder;
      k.Traverse(i);
      forall x | 0 <= x < i + 1
        ensures k.visited[x]
      {
        if x < i {
          assert x !in U;
          assert x !in k.Unvisited();
        }
      }
      forall x | 0 <= x < k.n && k.visited[x]
        ensures x in k.inorder
      {
        if x in U {
          assert x !in k.Unvisited();
        } else {
          assert x in I;
        }
      }
    }
    Permutation(k.inorder, k.n);
    SearchDone(k.adj, k.inorder);
    forall u | 0 <= u < k.n
      ensures k.handled[u] == |k.adj[u]|
    {
      assert u in k.inorder;
      var i :| 0 <= i < |k.inorder| && k.inorder[i] == u;
    }
  }

  /** The second pass: assign_root(node, node) for every node, latest finisher first. */
  method SecondPass(k: Kosaraju, finished: seq<int>)
    requires k.Back() && k.assignments.Length == k.n
    requires forall x :: 0 <= x < k.n ==> k.assignments[x] == -1
    requires forall i :: 0 <= i < |finished| ==> 0 <= finished[i] < k.n
    requires FinishOrder(k.adj, finished)
    modifies k, k.assignments
    ensures Labelled(k.adj, k.assignments[..], k.paths)
    ensures forall i :: 0 <= i < |finished| ==> k.assignments[finished[i]] != -1
    ensures Sound(k.adj, k.assignments[..]) && Same(k.adj, k.assignments[..])
  {
    var i := |finished|;
    while i > 0
      invariant 0 <= i <= |finished| && Labelled(k.adj, k.assignments[..], k.paths)
      invariant forall j :: i <= j < |finished| ==> k.assignments[finished[j]] != -1
      invariant Closed(k.adj, k.assignments[..], {})
      invariant Sound(k.adj, k.assignments[..]) && Same(k.adj, k.assignments[..])
    {
      i := i - 1;
      ghost var A := k.assignments[..];
      k.AssignRoot(finished[i], finished[i], -1, {});
      assert forall j :: i < j < |finished| ==> A[finished[j]] != -1;
      LabelledReaches(k.adj, k.assignments[..], k.paths);
      RoundSound(k.adj, finished, i, A, k.assignments[..], finished[i]);
      RoundSame(k.adj, A, k.assignments[..], finished[i]);
    }
  }

  /** Labelling every node of an order that lists every node labels every node. */
  lemma AllLabelled(A: seq<int>, F: seq<int>)
    requires forall i :: 0 <= i < |F| ==> 0 <= F[i] < |A| && A[F[i]] != -1
    requires forall x :: 0 <= x < |A| ==> x in F
    ensures forall x :: 0 <= x < |A| ==> A[x] != -1
  {
    forall x | 0 <= x < |A|
      ensures A[x] != -1
    {
      assert x in F;
      var i :| 0 <= i < |F| && F[i] == x;
    }
  }

  /** kosaraju_scc: labels each node with the first node, in reverse finishing order,
      from which the reversed graph reaches it. Ghost results expose the finishing order
      and the reversed graph the two passes build. */
  method KosarajuScc(adj: seq<seq<int>>) returns (labels: seq<int>, ghost order: seq<int>, ghost rev: seq<seq<int>>)
    requires IsGraph(adj)
    ensures |labels| == |adj|
    ensures forall u :: 0 <= u < |adj| ==> 0 <= labels[u] < |adj| && labels[labels[u]] == labels[u]
    ensures forall u :: 0 <= u < |adj| ==> Reaches(adj, u, labels[u]) && Reaches(adj, labels[u], u)
    ensures forall u, v :: 0 <= u < |adj| && 0 <= v < |adj| ==>
              (labels[u] == labels[v] <==> Reaches(adj, u, v) && Reaches(adj, v, u))
    ensures Distinct(order) && |order| == |adj| && forall u :: 0 <= u < |adj| ==> u in order
    ensures |rev| == |adj|
    ensures forall u, v :: 0 <= u < |adj| && 0 <= v < |adj| ==> multiset(rev[v])[u] == multiset(adj[u])[v]
  {
    var k := new Kosaraju(adj);
    FirstPass(k);
    var finished := k.inorder;
    order, rev := finished, k.transpose[..];
    forall u | 0 <= u < |adj|
      ensures k.adj[u][..k.handled[u]] == adj[u]
    {
    }
    ReversedEdges(adj, rev, k.handled);
    assert forall u :: 0 <= u < |adj| ==> u in finished;
    SecondPass(k, finished);
    labels := k.assignments[..];
    AllLabelled(labels, finished);
    LabelledReaches(adj, labels, k.paths);
    Components(adj, labels);
  }

  // ------------------------------------------------------------------ Tarjan

  /** One entry of the state list of tarjan_scc: (index, lowest ancestor, on stack), with
      index -1 for a node not yet visited. */
  datatype NodeState = NodeState(index: int, low: int, onStack: bool)

  function Last(s: seq<int>): int
    requires |s| > 0
  {
    s[|s| - 1]
  }

  /** The components one after the other. */
  function Flatten(ss: seq<seq<int>>): seq<int>
  {
    if ss == [] then [] else Flatten(ss[..|ss| - 1]) + ss[|ss| - 1]
  }

  lemma FlattenAppend(ss: seq<seq<int>>, c: seq<int>)
    ensures Flatten(ss + [c]) == Flatten(ss) + c
  {
    assert (ss + [c])[..|ss|] == ss;
  }

  /** Visited nodes keep their index and low-link between two states S0 and S1, except
      perhaps node x. */
  ghost predicate FrozenBut(S0: seq<NodeState>, S1: seq<NodeState>, x: int)
  {
    |S1| == |S0| &&
    forall k :: 0 <= k < |S0| && k != x && S0[k].index != -1 ==>
      S1[k].index == S0[k].index && S1[k].low == S0[k].low
  }

  lemma FrozenTrans(S0: seq<NodeState>, S1: seq<NodeState>, S2: seq<NodeState>, x: int, y: int)
    requires FrozenBut(S0, S1, x) && FrozenBut(S1, S2, y)
    requires x == y || x == -1 || y == -1
    ensures FrozenBut(S0, S2, if x == -1 then y else x)
  {
  }

  /** The nodes not yet visited. */
  ghost function Fresh(S: seq<NodeState>): set<int>
  {
    set k | 0 <= k < |S| && S[k].index == -1
  }

  /** Numbering the unvisited node v takes exactly v out of the unvisited nodes. */
  lemma FreshPush(S: seq<NodeState>, v: int, e: NodeState)
    requires 0 <= v < |S| && S[v].index == -1 && e.index != -1
    ensures Fresh(S[v := e]) + {v} == Fresh(S) && v !in Fresh(S[v := e])
  {
  }

  lemma FrozenFresh(S0: seq<NodeState>, S1: seq<NodeState>, x: int)
    requires FrozenBut(S0, S1, x)
    ensures Fresh(S1) <= Fresh(S0) + {x}
  {
  }

  /** Unvisited nodes keep the initial entry; visited ones have 0 <= low <= index < next. */
  ghost predicate Numbered(S: seq<NodeState>, next: int)
  {
    (forall k {:trigger S[k].index} :: 0 <= k < |S| && S[k].index == -1 ==> S[k] == NodeState(-1, -1, false)) &&
    (forall k {:trigger S[k].index} :: 0 <= k < |S| && S[k].index != -1 ==> 0 <= S[k].low <= S[k].index < next)
  }

  /** The on-stack flags say exactly which nodes are on the stack, which holds each at
      most once. */
  ghost predicate Stacked(S: seq<NodeState>, st: seq<int>)
  {
    (forall i :: 0 <= i < |st| ==> 0 <= st[i] < |S|) &&
    (forall k {:trigger S[k].onStack} :: 0 <= k < |S| ==> (S[k].onStack <==> k in st)) &&
    Distinct(st)
  }

  /** No low-link on the stack is below the index of the bottom of the stack. */
  ghost predicate LowBound(S: seq<NodeState>, st: seq<int>)
    requires forall i :: 0 <= i < |st| ==> 0 <= st[i] < |S|
  {
    forall i :: 0 <= i < |st| ==> S[st[0]].index <= S[st[i]].low
  }

  /** Each emitted component ends with a visited node off the stack whose low-link equals
      its index. */
  ghost predicate Roots(S: seq<NodeState>, scc: seq<seq<int>>)
  {
    forall i :: 0 <= i < |scc| ==>
      |scc[i]| > 0 && 0 <= Last(scc[i]) < |S| && S[Last(scc[i])].index != -1 &&
      !S[Last(scc[i])].onStack && S[Last(scc[i])].low == S[Last(scc[i])].index
  }

  /** The emitted components F, the stack and the pending nodes together hold every
      visited node exactly once, and nothing else. */
  ghost predicate Partition(S: seq<NodeState>, F: multiset<int>, st: seq<int>, pending: seq<int>)
  {
    forall x :: Count(F, st, pending, x) == Mark(S, x)
  }

  /** How often x occurs among the components, the stack and the pending nodes. */
  ghost function Count(F: multiset<int>, st: seq<int>, pending: seq<int>, x: int): nat
  {
    F[x] + multiset(st)[x] + multiset(pending)[x]
  }

  /** 1 for a visited node, 0 for anything else. */
  ghost function Mark(S: seq<NodeState>, x: int): nat
  {
    if 0 <= x < |S| && S[x].index != -1 then 1 else 0
  }

  /** The invariant of tarjan_scc, with `pending` the nodes popped for a component not yet
      emitted. */
  ghost predicate Good(adj: seq<seq<int>>, S: seq<NodeState>, next: int, st: seq<int>,
                       scc: seq<seq<int>>, pending: seq<int>)
  {
    |S| == |adj| && IsGraph(adj) && 0 <= next &&
    Numbered(S, next) && Stacked(S, st) && LowBound(S, st) && Roots(S, scc) &&
    Partition(S, multiset(Flatten(scc)), st, pending)
  }

  /** dfs(v) numbering and pushing an unvisited v keeps the invariant. */
  lemma PushGood(adj: seq<seq<int>>, S: seq<NodeState>, next: int, st: seq<int>, scc: seq<seq<int>>, v: int)
    requires Good(adj, S, next, st, scc, []) && 0 <= v < |S| && S[v].index == -1
    ensures Good(adj, S[v := NodeState(next, next, true)], next + 1, st + [v], scc, [])
  {
    var S' := S[v := NodeState(next, next, true)];
    var st' := st + [v];
    assert v !in st;
    PushStacked(S, st, v, next);
    PushPartition(S, multiset(Flatten(scc)), st, v, next);
    assert LowBound(S', st') by {
      if st != [] {
        assert st'[0] == st[0] != v;
      }
    }
  }

  lemma PushStacked(S: seq<NodeState>, st: seq<int>, v: int, next: int)
    requires Stacked(S, st) && 0 <= v < |S| && !S[v].onStack
    ensures Stacked(S[v := NodeState(next, next, true)], st + [v])
  {
    var S' := S[v := NodeState(next, next, true)];
    var st' := st + [v];
    assert v !in st;
    forall k | 0 <= k < |S'|
      ensures S'[k].onStack <==> k in st'
    {
      assert k in st' <==> k in st || k == v;
    }
  }

  lemma PushPartition(S: seq<NodeState>, F: multiset<int>, st: seq<int>, v: int, next: int)
    requires Partition(S, F, st, []) && 0 <= v < |S| && S[v].index == -1 && next != -1
    ensures Partition(S[v := NodeState(next, next, true)], F, st + [v], [])
  {
    var S' := S[v := NodeState(next, next, true)];
    var st' := st + [v];
    assert multiset(st') == multiset(st) + multiset{v};
    forall x
      ensures Count(F, st', [], x) == Mark(S', x)
    {
      assert Count(F, st, [], x) == Mark(S, x);
    }
  }

  /** dfs(v) lowering v's low-link to that of a target s which is still on the stack, or
      which was explored from v and is off the stack again, keeps the invariant. */
  lemma LowerGood(adj: seq<seq<int>>, S: seq<NodeState>, next: int, st: seq<int>, scc: seq<seq<int>>,
                  v: int, s: int)
    requires Good(adj, S, next, st, scc, []) && 0 <= v < |S| && S[v].onStack
    requires 0 <= s < |S| && S[s].index != -1
    requires S[s].onStack || S[st[0]].index <= S[s].low
    ensures Good(adj, S[v := S[v].(low := Min(S[v].low, S[s].low))], next, st, scc, [])
  {
    var S' := S[v := S[v].(low := Min(S[v].low, S[s].low))];
    assert v in st;
    assert LowBound(S', st) by {
      var i :| 0 <= i < |st| && st[i] == v;
      assert S[st[0]].index <= S[st[i]].low;
      if S[s].onStack {
        var i' :| 0 <= i' < |st| && st[i'] == s;
        assert S[st[0]].index <= S[st[i']].low;
      }
    }
    assert Roots(S', scc) by {
      forall i | 0 <= i < |scc|
        ensures Last(scc[i]) != v
      {
        assert !S[Last(scc[i])].onStack;
      }
    }
  }

  /** Popping the top x of the stack and clearing its flag moves it to the pending nodes. */
  lemma PopGood(adj: seq<seq<int>>, S: seq<NodeState>, next: int, st: seq<int>, scc: seq<seq<int>>,
                pending: seq<int>)
    requires Good(adj, S, next, st, scc, pending) && |st| > 0
    ensures var x := Last(st);
            Good(adj, S[x := S[x].(onStack := false)], next, st[..|st| - 1], scc, pending + [x])
  {
    var x := Last(st);
    var S' := S[x := S[x].(onStack := false)];
    var st' := st[..|st| - 1];
    PopStacked(S, st);
    PopPartition(S, multiset(Flatten(scc)), st, pending);
    assert LowBound(S', st') by {
      if st' != [] {
        assert st'[0] == st[0];
      }
    }
    assert Roots(S', scc) by {
      forall i | 0 <= i < |scc|
        ensures S'[Last(scc[i])].low == S[Last(scc[i])].low
      {
      }
    }
  }

  lemma PopStacked(S: seq<NodeState>, st: seq<int>)
    requires Stacked(S, st) && |st| > 0
    ensures var x := Last(st);
            x !in st[..|st| - 1] && Stacked(S[x := S[x].(onStack := false)], st[..|st| - 1])
  {
    var x := Last(st);
    var S' := S[x := S[x].(onStack := false)];
    var st' := st[..|st| - 1];
    assert st == st' + [x];
    assert x !in st';
    forall k | 0 <= k < |S'|
      ensures S'[k].onStack <==> k in st'
    {
      assert k in st <==> k in st' || k == x;
    }
  }

  lemma PopPartition(S: seq<NodeState>, F: multiset<int>, st: seq<int>, pending: seq<int>)
    requires Partition(S, F, st, pending) && |st| > 0 && 0 <= Last(st) < |S|
    ensures var x := Last(st);
            Partition(S[x := S[x].(onStack := false)], F, st[..|st| - 1], pending + [x])
  {
    var x := Last(st);
    var S' := S[x := S[x].(onStack := false)];
    var st' := st[..|st| - 1];
    assert st == st' + [x];
    assert multiset(st) == multiset(st') + multiset{x};
    assert multiset(pending + [x]) == multiset(pending) + multiset{x};
    forall y
      ensures Count(F, st', pending + [x], y) == Mark(S', y)
    {
      assert Count(F, st, pending, y) == Mark(S, y);
    }
  }

  /** Emitting the pending nodes, ending with a root whose low-link equals its index, as a
      component restores the invariant. */
  lemma EmitGood(adj: seq<seq<int>>, S: seq<NodeState>, next: int, st: seq<int>, scc: seq<seq<int>>,
                 c: seq<int>)
    requires Good(adj, S, next, st, scc, c) && |c| > 0 && 0 <= Last(c) < |S|
    requires S[Last(c)].index != -1 && !S[Last(c)].onStack && S[Last(c)].low == S[Last(c)].index
    ensures Good(adj, S, next, st, scc + [c], [])
  {
    FlattenAppend(scc, c);
    var F := multiset(Flatten(scc));
    assert multiset(Flatten(scc + [c])) == F + multiset(c);
    forall y
      ensures Count(multiset(Flatten(scc + [c])), st, [], y) == Mark(S, y)
    {
      assert Count(F, st, c, y) == Mark(S, y);
    }
  }

  /** Each emitted component is strongly connected: its last node reaches every node of
      it and is reached by each. */
  ghost predicate Strong(adj: seq<seq<int>>, scc: seq<seq<int>>)
  {
    forall i, k :: 0 <= i < |scc| && 0 <= k < |scc[i]| ==>
      Reaches(adj, Last(scc[i]), scc[i][k]) && Reaches(adj, scc[i][k], Last(scc[i]))
  }

  /** What the low-links mean. `at[i]` is the node numbered i. Every visited node reaches
      the node numbered by its low-link, which for a node on the stack is on the stack too;
      the stack is ordered by index; and the emitted components are strongly connected. */
  ghost predicate Links(adj: seq<seq<int>>, S: seq<NodeState>, next: int, st: seq<int>,
                        scc: seq<seq<int>>, at: seq<int>)
  {
    |at| == next && Named(S, at) && LowReach(adj, S, at) && StackLow(S, st, at) &&
    Sorted(S, st) && Strong(adj, scc)
  }

  /** at[i] is the node numbered i, and every visited node's low-link numbers a node. */
  ghost predicate Named(S: seq<NodeState>, at: seq<int>)
  {
    (forall i :: 0 <= i < |at| ==> 0 <= at[i] < |S| && S[at[i]].index == i) &&
    (forall x :: 0 <= x < |S| && S[x].index != -1 ==> 0 <= S[x].low < |at|)
  }

  /** Every visited node reaches the node numbered by its low-link. */
  ghost predicate LowReach(adj: seq<seq<int>>, S: seq<NodeState>, at: seq<int>)
  {
    forall x {:trigger at[S[x].low]} :: 0 <= x < |S| && S[x].index != -1 && 0 <= S[x].low < |at| ==>
      Reaches(adj, x, at[S[x].low])
  }

  /** The node numbered by the low-link of a node on the stack is on the stack. */
  ghost predicate StackLow(S: seq<NodeState>, st: seq<int>, at: seq<int>)
  {
    (forall i :: 0 <= i < |st| ==> 0 <= st[i] < |S|) &&
    (forall i {:trigger at[S[st[i]].low]} :: 0 <= i < |st| && 0 <= S[st[i]].low < |at| ==> at[S[st[i]].low] in st)
  }

  /** The stack is ordered by index. */
  ghost predicate Sorted(S: seq<NodeState>, st: seq<int>)
    requires forall i :: 0 <= i < |st| ==> 0 <= st[i] < |S|
  {
    forall i, j :: 0 <= i < j < |st| ==> S[st[i]].index < S[st[j]].index
  }

  /** dfs(v) numbering and pushing an unvisited v keeps the meaning of low-links. */
  lemma PushLinks(adj: seq<seq<int>>, S: seq<NodeState>, next: int, st: seq<int>, scc: seq<seq<int>>,
                  at: seq<int>, v: int)
    requires Good(adj, S, next, st, scc, []) && Links(adj, S, next, st, scc, at)
    requires 0 <= v < |S| && S[v].index == -1
    ensures Links(adj, S[v := NodeState(next, next, true)], next + 1, st + [v], scc, at + [v])
  {
    assert v !in st;
    StackVisited(S, next, st);
    PushNamed(S, next, at, v);
    PushReach(adj, S, next, at, v);
    PushStackLow(S, next, st, at, v);
    PushSorted(S, next, st, v);
  }

  lemma PushNamed(S: seq<NodeState>, next: int, at: seq<int>, v: int)
    requires Named(S, at) && |at| == next && Numbered(S, next) && 0 <= v < |S| && S[v].index == -1
    ensures Named(S[v := NodeState(next, next, true)], at + [v])
    ensures v !in at
  {
    forall i | 0 <= i < |at|
      ensures at[i] != v
    {
      assert S[at[i]].index == i;
    }
  }

  lemma PushReach(adj: seq<seq<int>>, S: seq<NodeState>, next: int, at: seq<int>, v: int)
    requires LowReach(adj, S, at) && Named(S, at) && |at| == next && Numbered(S, next)
    requires 0 <= v < |S| == |adj| && S[v].index == -1
    ensures LowReach(adj, S[v := NodeState(next, next, true)], at + [v])
  {
    var S', at' := S[v := NodeState(next, next, true)], at + [v];
    ReachesRefl(adj, v);
    forall x | 0 <= x < |S'| && S'[x].index != -1 && 0 <= S'[x].low < |at'|
      ensures Reaches(adj, x, at'[S'[x].low])
    {
      if x != v {
        assert at'[S[x].low] == at[S[x].low];
      }
    }
  }

  lemma PushStackLow(S: seq<NodeState>, next: int, st: seq<int>, at: seq<int>, v: int)
    requires StackLow(S, st, at) && Named(S, at) && |at| == next && 0 <= v < |S| && v !in st
    requires Numbered(S, next) && forall i :: 0 <= i < |st| ==> S[st[i]].index != -1
    ensures StackLow(S[v := NodeState(next, next, true)], st + [v], at + [v])
  {
    var S', st', at' := S[v := NodeState(next, next, true)], st + [v], at + [v];
    forall i | 0 <= i < |st'| && 0 <= S'[st'[i]].low < |at'|
      ensures at'[S'[st'[i]].low] in st'
    {
      if i < |st| {
        assert st'[i] == st[i] != v;
        var y := at[S[st[i]].low];
        assert at'[S[st[i]].low] == y;
        var k :| 0 <= k < |st| && st[k] == y;
        assert st'[k] == y;
      } else {
        assert at'[next] == v == st'[i];
      }
    }
  }

  lemma PushSorted(S: seq<NodeState>, next: int, st: seq<int>, v: int)
    requires Stacked(S, st) && Sorted(S, st) && Numbered(S, next) && 0 <= v < |S| && v !in st
    requires forall i :: 0 <= i < |st| ==> S[st[i]].onStack
    ensures Sorted(S[v := NodeState(next, next, true)], st + [v])
  {
    var S', st' := S[v := NodeState(next, next, true)], st + [v];
    forall i, j | 0 <= i < j < |st'|
      ensures S'[st'[i]].index < S'[st'[j]].index
    {
      assert st'[i] == st[i] != v;
      if j < |st| {
        assert st'[j] == st[j] != v;
      } else {
        assert S[st[i]].onStack;
        assert S[st[i]].index != -1;
      }
    }
  }

  /** Lowering the low-link of v on the stack to that of a target s of an edge out of v
      keeps the meaning of low-links, when s is on the stack or the low-link does not drop. */
  lemma LowerLinks(adj: seq<seq<int>>, S: seq<NodeState>, next: int, st: seq<int>, scc: seq<seq<int>>,
                   at: seq<int>, v: int, s: int)
    requires Good(adj, S, next, st, scc, []) && Links(adj, S, next, st, scc, at)
    requires 0 <= v < |S| && S[v].onStack && s in adj[v] && 0 <= s < |S| && S[s].index != -1
    requires S[s].onStack || S[v].low <= S[s].low
    ensures Links(adj, S[v := S[v].(low := Min(S[v].low, S[s].low))], next, st, scc, at)
  {
    var S' := S[v := S[v].(low := Min(S[v].low, S[s].low))];
    if S[s].low < S[v].low {
      ReachesStep(adj, v, s, at[S[s].low]);
      var k :| 0 <= k < |st| && st[k] == s;
    }
    assert forall i :: 0 <= i < |at| ==> S'[at[i]].index == S[at[i]].index;
  }

  /** Popping the top of the stack keeps the meaning of low-links: nothing left on the
      stack has the popped node as its low-link node, since that node has a larger index. */
  lemma PopLinks(adj: seq<seq<int>>, S: seq<NodeState>, next: int, st: seq<int>, scc: seq<seq<int>>,
                 at: seq<int>, pending: seq<int>)
    requires Good(adj, S, next, st, scc, pending) && Links(adj, S, next, st, scc, at) && |st| > 0
    ensures var x := Last(st);
            Links(adj, S[x := S[x].(onStack := false)], next, st[..|st| - 1], scc, at)
  {
    var x := Last(st);
    var S', st' := S[x := S[x].(onStack := false)], st[..|st| - 1];
    forall i | 0 <= i < |st'|
      ensures at[S'[st'[i]].low] in st'
    {
      var y := at[S[st[i]].low];
      var k :| 0 <= k < |st| && st[k] == y;
      assert S[y].index == S[st[i]].low <= S[st[i]].index;
      assert k != |st| - 1;
      assert st'[k] == y;
    }
  }

  /** Emitting a strongly connected list keeps the emitted components strongly connected. */
  lemma EmitLinks(adj: seq<seq<int>>, S: seq<NodeState>, next: int, st: seq<int>, scc: seq<seq<int>>,
                  at: seq<int>, c: seq<int>)
    requires Links(adj, S, next, st, scc, at) && |c| > 0
    requires forall k :: 0 <= k < |c| ==> Reaches(adj, Last(c), c[k]) && Reaches(adj, c[k], Last(c))
    ensures Links(adj, S, next, st, scc + [c], at)
  {
    assert forall i :: 0 <= i < |scc| ==> (scc + [c])[i] == scc[i];
  }

  /** The part of the stack from position p up, pushed by dfs(st[p]): the node st[p]
      reaches each of it, and each node above st[p] is no root and has a low-link no
      smaller than that of st[p]. */
  ghost predicate Above(adj: seq<seq<int>>, S: seq<NodeState>, st: seq<int>, p: int)
  {
    0 <= p < |st| && (forall i :: 0 <= i < |st| ==> 0 <= st[i] < |S|) &&
    (forall i :: p <= i < |st| ==> Reaches(adj, st[p], st[i])) &&
    (forall i :: p < i < |st| ==> S[st[i]].low < S[st[i]].index && S[st[p]].low <= S[st[i]].low)
  }

  /** Lowering the low-link of st[p] keeps the part above it. */
  lemma AboveLower(adj: seq<seq<int>>, S: seq<NodeState>, st: seq<int>, p: int, low: int)
    requires Above(adj, S, st, p) && Distinct(st) && low <= S[st[p]].low
    ensures Above(adj, S[st[p] := S[st[p]].(low := low)], st, p)
  {
    var v := st[p];
    assert forall i :: p < i < |st| ==> st[i] != v;
  }

  /** After dfs(s) for the target s of an edge out of v = st[p], whatever dfs(s) left on the
      stack joins the part above v once v's low-link takes s's into account. */
  lemma AboveChild(adj: seq<seq<int>>, S0: seq<NodeState>, S1: seq<NodeState>, st0: seq<int>, st1: seq<int>,
                   p: int, s: int)
    requires Above(adj, S0, st0, p) && Distinct(st1) && FrozenBut(S0, S1, -1)
    requires forall i :: 0 <= i < |st0| ==> S0[st0[i]].index != -1
    requires |st1| >= |st0| && st1[..|st0|] == st0 && (forall i :: 0 <= i < |st1| ==> 0 <= st1[i] < |S1|)
    requires 0 <= st0[p] < |adj| && s in adj[st0[p]] && 0 <= st0[p] < |S1| && 0 <= s < |S1|
    requires |st1| > |st0| ==> st1[|st0|] == s && Above(adj, S1, st1, |st0|) && S1[s].low < S1[s].index
    ensures var v := st0[p];
            Above(adj, S1[v := S1[v].(low := Min(S1[v].low, S1[s].low))], st1, p)
  {
    var v, q := st0[p], |st0|;
    var S2 := S1[v := S1[v].(low := Min(S1[v].low, S1[s].low))];
    assert forall i :: 0 <= i < q ==> st1[i] == st0[i];
    forall i | p <= i < |st1|
      ensures Reaches(adj, v, st1[i])
    {
      if i >= q {
        ReachesStep(adj, v, s, st1[i]);
      }
    }
    forall i | p < i < |st1|
      ensures S2[st1[i]].low < S2[st1[i]].index && S2[v].low <= S2[st1[i]].low
    {
      assert st1[i] != v;
      if i < q {
        assert S1[st0[i]].low == S0[st0[i]].low && S1[st0[i]].index == S0[st0[i]].index;
      }
    }
  }

  /** When v = st[p] is a root (its low-link equals its index), every node above it on the
      stack reaches v: each reaches the node of its low-link, which lies lower on the stack
      but not below v. */
  lemma {:induction false} ReachRoot(adj: seq<seq<int>>, S: seq<NodeState>, next: int, st: seq<int>,
                                     scc: seq<seq<int>>, at: seq<int>, p: int, i: int)
    requires Good(adj, S, next, st, scc, []) && Links(adj, S, next, st, scc, at)
    requires Above(adj, S, st, p) && S[st[p]].low == S[st[p]].index && p <= i < |st|
    ensures Reaches(adj, st[i], st[p])
    decreases i
  {
    if i == p {
      ReachesRefl(adj, st[p]);
    } else {
      var x := st[i];
      var y := at[S[x].low];
      var k :| 0 <= k < |st| && st[k] == y;
      assert S[y].index == S[x].low;
      assert p <= k < i;
      ReachRoot(adj, S, next, st, scc, at, p, k);
      ReachesTrans(adj, x, y, st[p]);
    }
  }

  /** Every node of xs reaches v and is reached by it. */
  ghost predicate Mutual(adj: seq<seq<int>>, v: int, xs: seq<int>)
  {
    forall k :: 0 <= k < |xs| ==> Reaches(adj, v, xs[k]) && Reaches(adj, xs[k], v)
  }

  /** Dropping the last node keeps a list mutually reachable with v, and that node is
      mutually reachable with v. */
  lemma MutualPop(adj: seq<seq<int>>, v: int, xs: seq<int>)
    requires Mutual(adj, v, xs) && |xs| > 0
    ensures Mutual(adj, v, xs[..|xs| - 1]) && Reaches(adj, v, Last(xs)) && Reaches(adj, Last(xs), v)
  {
  }

  /** Adding a node mutually reachable with v keeps the list mutually reachable with v. */
  lemma MutualAppend(adj: seq<seq<int>>, v: int, xs: seq<int>, x: int)
    requires Mutual(adj, v, xs) && Reaches(adj, v, x) && Reaches(adj, x, v)
    ensures Mutual(adj, v, xs + [x])
  {
    assert forall k :: 0 <= k < |xs| ==> (xs + [x])[k] == xs[k];
  }

  /** A prefix of a prefix is a prefix. */
  lemma TakeTake(s: seq<int>, n: int, m: int)
    requires 0 <= m <= n <= |s|
    ensures s[..n][..m] == s[..m]
  {
  }

  /** A root v at position p of the stack and every node above it reach each other. */
  lemma RootMutual(adj: seq<seq<int>>, S: seq<NodeState>, next: int, st: seq<int>,
                   scc: seq<seq<int>>, at: seq<int>, p: int)
    requires Good(adj, S, next, st, scc, []) && Links(adj, S, next, st, scc, at)
    requires Above(adj, S, st, p) && S[st[p]].low == S[st[p]].index
    ensures Mutual(adj, st[p], st[p..])
  {
    forall k | 0 <= k < |st[p..]|
      ensures Reaches(adj, st[p], st[p..][k]) && Reaches(adj, st[p..][k], st[p])
    {
      ReachRoot(adj, S, next, st, scc, at, p, p + k);
    }
  }

  /** Every node on the stack is visited. */
  lemma StackVisited(S: seq<NodeState>, next: int, st: seq<int>)
    requires Numbered(S, next) && Stacked(S, st)
    ensures forall i :: 0 <= i < |st| ==> S[st[i]].index != -1
  {
    forall i | 0 <= i < |st|
      ensures S[st[i]].index != -1
    {
      assert S[st[i]].onStack;
    }
  }

  /** The state shared by dfs in tarjan_scc; `state` is the list of (index, low, on stack)
      entries, reassigned entry by entry. */
  class Tarjan {
    const adj: seq<seq<int>>
    var state: seq<NodeState>
    var index: int
    var st: seq<int>
    var scc: seq<seq<int>>
    /** The nodes in the order they were numbered. */
    ghost var numbered: seq<int>

    ghost predicate Inv()
      reads this
    {
      Good(adj, state, index, st, scc, []) && Links(adj, state, index, st, scc, numbered)
    }

    constructor (adj: seq<seq<int>>)
      requires IsGraph(adj)
      ensures this.adj == adj && Inv() && st == [] && scc == []
      ensures |state| == |adj| && forall k :: 0 <= k < |adj| ==> state[k].index == -1
    {
      this.adj := adj;
      state := seq(|adj|, _ => NodeState(-1, -1, false));
      index := 0;
      st := [];
      scc := [];
      numbered := [];
    }

    /** The outer loop of tarjan_scc: dfs from every node not yet visited. */
    method Run()
      requires Inv() && st == [] && |state| == |adj|
      modifies this
      ensures Inv() && st == [] && forall k :: 0 <= k < |adj| ==> state[k].index != -1
    {
      for i := 0 to |adj|
        invariant Inv() && st == [] && |state| == |adj|
        invariant forall k :: 0 <= k < i ==> state[k].index != -1
      {
        if state[i].index == -1 {
          Dfs(i);
        }
      }
    }

    /** dfs(v): numbers v, pushes it, explores its edges, and if v's low-link equals its
        index, pops the component that v roots. Afterwards the stack below v is as it was,
        and v is still on it, just above that part, exactly when v roots no component. */
    method Dfs(v: int)
      requires Inv() && 0 <= v < |state| && state[v].index == -1
      modifies this
      decreases Fresh(state), 4
      ensures Inv() && |state| == old(|state|)
      ensures state[v].index == old(index) < index
      ensures FrozenBut(old(state), state, -1)
      ensures |st| >= |old(st)| && st[..|old(st)|] == old(st)
      ensures if state[v].low == state[v].index then st == old(st)
              else |st| > |old(st)| && st[|old(st)|] == v && Above(adj, state, st, |old(st)|)
      ensures old(st) == [] ==> st == []
    {
      ghost var p := |st|;
      FreshPush(state, v, NodeState(index, index, true));
      Push(v);
      ghost var S1 := state;
      assert old(st) == st[..p];
      Visit(v, p);
      FrozenTrans(old(state), S1, state, -1, v);
    }

    /** dfs(v) after v is pushed: explores the edges out of v, then pops the component
        v roots, if it roots one. */
    method Visit(v: int, ghost p: nat)
      requires Inv() && 0 <= v < |state| && |st| == p + 1 && st[p] == v && state[v].index != -1
      requires Above(adj, state, st, p)
      modifies this
      decreases Fresh(state) + {v}, 3
      ensures Inv() && |state| == old(|state|) && old(index) <= index
      ensures state[v].index == old(state[v].index)
      ensures FrozenBut(old(state), state, v)
      ensures |st| >= p && st[..p] == old(st[..p])
      ensures if state[v].low == state[v].index then st == old(st[..p])
              else |st| > p && st[p] == v && Above(adj, state, st, p)
      ensures p == 0 ==> st == []
    {
      Explore(v, p);
      assert st[..p] == old(st[..p]) by {
        TakeTake(st, p + 1, p);
      }
      ghost var S2 := state;
      Finish(v, p);
      FrozenTrans(old(state), S2, state, v, -1);
    }

    /** The end of dfs(v): a v whose low-link equals its index roots a component, which
        is popped; otherwise nothing changes. */
    method Finish(v: int, ghost p: nat)
      requires Inv() && 0 <= v < |state| && p < |st| && st[p] == v && state[v].index != -1
      requires Above(adj, state, st, p)
      modifies this
      ensures Inv() && |state| == old(|state|) && index == old(index)
      ensures FrozenBut(old(state), state, -1)
      ensures state[v].index == old(state[v].index) && state[v].low == old(state[v].low)
      ensures if state[v].low == state[v].index then st == old(st[..p])
              else st == old(st) && state == old(state)
      ensures p == 0 ==> st == []
    {
      if p == 0 {
        assert LowBound(state, st);
        assert state[st[0]].index <= state[st[0]].low;
      }
      if state[v].low == state[v].index {
        PopComponent(v, p);
      }
    }

    /** The start of dfs(v): v gets the next index as both index and low-link, the index
        counter moves on, and v is pushed. */
    method Push(v: int)
      requires Inv() && 0 <= v < |state| && state[v].index == -1
      modifies this
      ensures Inv() && scc == old(scc)
      ensures state == old(state)[v := NodeState(old(index), old(index), true)]
      ensures index == old(index) + 1 && st == old(st) + [v]
      ensures Above(adj, state, st, |old(st)|)
    {
      ReachesRefl(adj, v);
      PushGood(adj, state, index, st, scc, v);
      PushLinks(adj, state, index, st, scc, numbered, v);
      state := state[v := NodeState(index, index, true)];
      index := index + 1;
      st := st + [v];
      numbered := numbered + [v];
    }

    /** The loop of dfs(v) over the edges out of v. */
    method Explore(v: int, ghost p: nat)
      requires Inv() && 0 <= v < |state| && p < |st| && st[p] == v && state[v].index != -1
      requires Above(adj, state, st, p)
      modifies this
      decreases Fresh(state) + {v}, 2
      ensures Inv() && |st| > p && st[..p + 1] == old(st[..p + 1]) && st[p] == v
      ensures Above(adj, state, st, p)
      ensures state[v].index == old(state[v].index) && old(index) <= index
      ensures FrozenBut(old(state), state, v)
    {
      for j := 0 to |adj[v]|
        invariant Inv() && |st| > p && st[..p + 1] == old(st[..p + 1]) && st[p] == v
        invariant Above(adj, state, st, p)
        invariant state[v].index == old(state[v].index) && old(index) <= index
        invariant FrozenBut(old(state), state, v)
        invariant Fresh(state) + {v} <= old(Fresh(state)) + {v}
      {
        ghost var S := state;
        DfsEdge(v, j, p);
        FrozenTrans(old(state), S, state, v, v);
        FrozenFresh(S, state, v);
      }
    }

    /** One turn of the loop in dfs(v): the edge v -> adj[v][j]. An unvisited target is
        explored first; a visited target lowers v's low-link only while it is on the stack. */
    method DfsEdge(v: int, j: nat, ghost p: nat)
      requires Inv() && 0 <= v < |state| && j < |adj[v]| && p < |st| && st[p] == v && state[v].index != -1
      requires Above(adj, state, st, p)
      modifies this
      decreases Fresh(state) + {v}, 1
      ensures Inv() && p < |st| && st[..p + 1] == old(st[..p + 1]) && st[p] == v
      ensures Above(adj, state, st, p)
      ensures state[v].index == old(state[v].index) && old(index) <= index
      ensures FrozenBut(old(state), state, v)
    {
      var s := adj[v][j];
      if state[s].index == -1 {
        Descend(v, s, p);
      } else if state[s].onStack {
        assert state[v].onStack;
        AboveLower(adj, state, st, p, Min(state[v].low, state[s].low));
        Lower(v, s);
      }
    }

    /** The tree edge v -> s to an unvisited s: dfs(s), then v's low-link drops to s's. */
    method Descend(v: int, s: int, ghost p: nat)
      requires Inv() && 0 <= v < |state| && s in adj[v] && p < |st| && st[p] == v && state[v].index != -1
      requires 0 <= s < |state| && state[s].index == -1
      requires Above(adj, state, st, p)
      modifies this
      decreases Fresh(state) + {v}, 0
      ensures Inv() && p < |st| && st[..p + 1] == old(st[..p + 1]) && st[p] == v
      ensures Above(adj, state, st, p)
      ensures state[v].index == old(state[v].index) && old(index) <= index
      ensures FrozenBut(old(state), state, v)
    {
      ghost var bottom := st[0];
      assert state[bottom].index < index;
      StackVisited(state, index, st);
      ghost var (S0, st0) := (state, st);
      Dfs(s);
      TakeTake(st, |st0|, p + 1);
      assert st[0] == bottom && state[v].onStack;
      ghost var S := state;
      AboveChild(adj, S0, state, st0, st, p, s);
      Lower(v, s);
      FrozenTrans(old(state), S, state, -1, v);
    }

    /** The lowering of v's low-link to s's along the edge v -> s, done after dfs(s) for
        a tree edge and directly for an edge to a node on the stack. */
    method Lower(v: int, s: int)
      requires Inv() && 0 <= v < |state| && state[v].onStack && s in adj[v]
      requires 0 <= s < |state| && state[s].index != -1 && |st| > 0
      requires state[s].onStack || (state[st[0]].index <= state[s].low && state[v].low <= state[s].low)
      modifies this
      ensures Inv() && st == old(st) && index == old(index) && scc == old(scc)
      ensures state == old(state[v := state[v].(low := Min(state[v].low, state[s].low))])
    {
      LowerGood(adj, state, index, st, scc, v, s);
      LowerLinks(adj, state, index, st, scc, numbered, v, s);
      state := state[v := state[v].(low := Min(state[v].low, state[s].low))];
    }

    /** The pop at the end of dfs(v) for a root v: pops the stack down to and including
        v and emits the popped nodes as one component. */
    method PopComponent(v: int, ghost p: nat)
      requires Inv() && 0 <= v < |state| && p < |st| && st[p] == v
      requires state[v].low == state[v].index && Above(adj, state, st, p)
      modifies this
      ensures Inv() && st == old(st[..p]) && index == old(index)
      ensures FrozenBut(old(state), state, -1)
    {
      RootMutual(adj, state, index, st, scc, numbered, p);
      var newScc := PopUntil(v, p);
      assert !state[v].onStack by {
        assert v in newScc;
      }
      EmitGood(adj, state, index, st, scc, newScc);
      EmitLinks(adj, state, index, st, scc, numbered, newScc);
      scc := scc + [newScc];
    }

    /** The loop that pops the stack down to and including v, clearing each node's
        on-stack flag; the popped nodes, collected in popping order, are all mutually
        reachable with v. */
    method PopUntil(v: int, ghost p: nat) returns (newScc: seq<int>)
      requires Inv() && 0 <= v < |state| && p < |st| && st[p] == v
      requires Mutual(adj, v, st[p..])
      modifies this
      ensures Good(adj, state, index, st, scc, newScc) && Links(adj, state, index, st, scc, numbered)
      ensures st == old(st[..p]) && index == old(index) && scc == old(scc)
      ensures Mutual(adj, v, newScc) && |newScc| > 0 && Last(newScc) == v
      ensures FrozenBut(old(state), state, -1)
    {
      newScc := [];
      var curr := -1;
      while curr != v
        invariant Good(adj, state, index, st, scc, newScc) && Links(adj, state, index, st, scc, numbered)
        invariant p <= |st| && st[..p] == old(st[..p])
        invariant Mutual(adj, v, st[p..]) && Mutual(adj, v, newScc)
        invariant if curr == v then |st| == p && |newScc| > 0 && Last(newScc) == v
                  else p < |st| && st[p] == v
        invariant FrozenBut(old(state), state, -1) && index == old(index) && scc == old(scc)
        decreases |st|
      {
        ghost var S := state;
        curr, newScc := Collect(v, p, newScc);
        FrozenTrans(old(state), S, state, -1, -1);
      }
      assert st == st[..p];
    }

    /** One turn of the pop loop: pops the top node into the component being collected,
        which stays mutually reachable with v, the node at position p of the stack. */
    method Collect(v: int, ghost p: nat, newScc: seq<int>) returns (curr: int, more: seq<int>)
      requires Good(adj, state, index, st, scc, newScc) && Links(adj, state, index, st, scc, numbered)
      requires p < |st| && st[p] == v && Mutual(adj, v, st[p..]) && Mutual(adj, v, newScc)
      modifies this
      ensures curr == old(st[|st| - 1]) && st == old(st[..|st| - 1]) && more == newScc + [curr]
      ensures st[..p] == old(st[..p])
      ensures if curr == v then |st| == p else p < |st| && st[p] == v
      ensures index == old(index) && scc == old(scc) && numbered == old(numbered)
      ensures Good(adj, state, index, st, scc, more) && Links(adj, state, index, st, scc, numbered)
      ensures Mutual(adj, v, st[p..]) && Mutual(adj, v, more)
      ensures FrozenBut(old(state), state, -1)
    {
      ghost var above := st[p..];
      assert Last(st) == above[|above| - 1];
      assert above[..|above| - 1] == st[..|st| - 1][p..];
      MutualPop(adj, v, above);
      ghost var st0 := st;
      assert Distinct(st0);
      curr := Pop(newScc);
      TakeTake(st0, |st0| - 1, p);
      if curr == v {
        DistinctSame(st0, p, |st0| - 1);
      }
      MutualAppend(adj, v, newScc, curr);
      more := newScc + [curr];
    }

    /** One pop of the loop: the top node leaves the stack and loses its on-stack flag;
        it joins the component being collected, here the ghost list pending. */
    method Pop(ghost pending: seq<int>) returns (w: int)
      requires Good(adj, state, index, st, scc, pending) && Links(adj, state, index, st, scc, numbered)
      requires |st| > 0
      modifies this
      ensures w == old(st[|st| - 1]) && st == old(st[..|st| - 1])
      ensures state == old(state[w := state[w].(onStack := false)])
      ensures index == old(index) && scc == old(scc) && numbered == old(numbered)
      ensures Good(adj, state, index, st, scc, pending + [w]) && Links(adj, state, index, st, scc, numbered)
      ensures FrozenBut(old(state), state, -1)
    {
      PopGood(adj, state, index, st, scc, pending);
      PopLinks(adj, state, index, st, scc, numbered, pending);
      ghost var x := Last(st);
      ghost var (S', st', pending') := (state[x := state[x].(onStack := false)], st[..|st| - 1], pending + [x]);
      w := st[|st| - 1];
      st := st[..|st| - 1];
      state := state[w := state[w].(onStack := false)];
      assert state == S' && st == st';
      assert Partition(state, multiset(Flatten(scc)), st, pending') by {
        assert Partition(S', multiset(Flatten(scc)), st', pending');
      }
    }
  }

  function Min(a: int, b: int): int
  {
    if a <= b then a else b
  }

  /** tarjan_scc: emits the strongly connected components in the order their roots finish.
      Ghost results expose each node's final index and low-link. */
  method TarjanScc(adj: seq<seq<int>>) returns (scc: seq<seq<int>>, ghost index: seq<int>, ghost low: seq<int>)
    requires IsGraph(adj)
    ensures forall u :: multiset(Flatten(scc))[u] == if 0 <= u < |adj| then 1 else 0
    ensures |index| == |adj| && |low| == |adj|
    ensures forall u :: 0 <= u < |adj| ==> 0 <= low[u] <= index[u]
    ensures forall i :: 0 <= i < |scc| ==>
              |scc[i]| > 0 && 0 <= Last(scc[i]) < |adj| && low[Last(scc[i])] == index[Last(scc[i])]
    ensures forall i, k :: 0 <= i < |scc| && 0 <= k < |scc[i]| ==>
              Reaches(adj, Last(scc[i]), scc[i][k]) && Reaches(adj, scc[i][k], Last(scc[i]))
  {
    var t := new Tarjan(adj);
    t.Run();
    scc := t.scc;
    ghost var S := t.state;
    Done(adj, S, t.index, scc, t.numbered);
    index := seq(|adj|, k requires 0 <= k < |adj| => S[k].index);
    low := seq(|adj|, k requires 0 <= k < |adj| => S[k].low);
  }

  /** Once every node is visited and the stack is empty, the components partition the
      nodes, each ends with a root, and each is strongly connected. */
  lemma Done(adj: seq<seq<int>>, S: seq<NodeState>, next: int, scc: seq<seq<int>>, at: seq<int>)
    requires Good(adj, S, next, [], scc, []) && Links(adj, S, next, [], scc, at)
    requires forall k :: 0 <= k < |adj| ==> S[k].index != -1
    ensures |S| == |adj|
    ensures forall u :: multiset(Flatten(scc))[u] == if 0 <= u < |adj| then 1 else 0
    ensures forall u :: 0 <= u < |adj| ==> 0 <= S[u].low <= S[u].index
    ensures forall i :: 0 <= i < |scc| ==>
              |scc[i]| > 0 && 0 <= Last(scc[i]) < |adj| && S[Last(scc[i])].low == S[Last(scc[i])].index
    ensures Strong(adj, scc)
  {
    forall u
      ensures multiset(Flatten(scc))[u] == if 0 <= u < |adj| then 1 else 0
    {
      assert Count(multiset(Flatten(scc)), [], [], u) == Mark(S, u);
    }
  }
}

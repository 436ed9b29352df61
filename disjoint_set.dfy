/** Disjoint-set forest with union by rank and two-pass path compression (disjoint_set.py).
    Each member object stands for exactly one value, so the forest is kept as two maps
    from values: `parent` (the member's parent pointer) and `rank`. */
module DisjointSets {
  import opened Wrappers

  datatype Error = KeyError

  /** A forest: parents are members, and a child's rank is below its parent's. The
      ghost bound on all ranks gives the walk to the root its termination measure. */
  ghost predicate Forest<T>(p: map<T, T>, r: map<T, nat>, bound: nat)
  {
    p.Keys == r.Keys && p.Values <= p.Keys &&
    (forall v {:trigger p[v]} :: v in p && p[v] != v ==> r[v] < r[p[v]]) &&
    (forall v :: v in r ==> r[v] <= bound)
  }

  /** The root reached from x by following parent pointers. */
  ghost function RootIn<T>(p: map<T, T>, r: map<T, nat>, bound: nat, x: T): T
    requires Forest(p, r, bound) && x in p
    decreases bound - r[x]
  {
    if p[x] == x then x else RootIn(p, r, bound, p[x])
  }

  /** The nodes strictly below the root on the walk from x. */
  ghost function PathIn<T>(p: map<T, T>, r: map<T, nat>, bound: nat, x: T): set<T>
    requires Forest(p, r, bound) && x in p
    decreases bound - r[x]
  {
    if p[x] == x then {} else {x} + PathIn(p, r, bound, p[x])
  }

  /** The root is a member that is its own parent, of rank above every node under it. */
  lemma {:induction false} RootFacts<T>(p: map<T, T>, r: map<T, nat>, bound: nat, x: T)
    requires Forest(p, r, bound) && x in p
    ensures var root := RootIn(p, r, bound, x);
            root in p && p[root] == root && r[x] <= r[root] && (p[x] != x ==> r[x] < r[root])
    decreases bound - r[x]
  {
    if p[x] != x {
      RootFacts(p, r, bound, p[x]);
    }
  }

  /** The path from x holds exactly the non-roots on the walk, all of rank at least x's
      and all with the same root as x. */
  lemma {:induction false} PathFacts<T>(p: map<T, T>, r: map<T, nat>, bound: nat, x: T)
    requires Forest(p, r, bound) && x in p
    ensures forall v :: v in PathIn(p, r, bound, x) ==>
              v in p && p[v] != v && r[v] >= r[x] && RootIn(p, r, bound, v) == RootIn(p, r, bound, x)
    ensures p[x] != x ==> PathIn(p, r, bound, x) == {x} + PathIn(p, r, bound, p[x])
    ensures p[x] != x ==> x !in PathIn(p, r, bound, p[x])
    decreases bound - r[x]
  {
    if p[x] != x {
      PathFacts(p, r, bound, p[x]);
    }
  }

  /** The members that are their own parent: one per set of the partition. */
  ghost function Roots<T>(p: map<T, T>): set<T>
  {
    set v | v in p && p[v] == v
  }

  /** Compressing nodes that are not roots onto a root leaves the set of roots alone. */
  lemma CompressedRoots<T>(q: map<T, T>, p: map<T, T>, s: set<T>, root: T)
    requires root in p && p[root] == root && Compressed(q, p, s, root)
    requires forall v :: v in s ==> v in p && p[v] != v
    ensures Roots(q) == Roots(p)
  {
    forall v | v in q
      ensures q[v] == v <==> p[v] == v
    {
      if v in s {
        assert v != root;
      }
    }
  }

  /** Pointing root y at another member removes exactly y from the roots. */
  lemma LinkRootSet<T>(p: map<T, T>, y: T, x: T)
    requires y in p && p[y] == y && x in p && x != y
    ensures Roots(p[y := x]) == Roots(p) - {y}
    ensures |Roots(p[y := x])| + 1 == |Roots(p)|
  {
    assert Roots(p[y := x]) == Roots(p) - {y};
    assert Roots(p) == Roots(p[y := x]) + {y};
  }

  /** q is the parent map p with every node of s pointed straight at `root`. */
  ghost predicate Compressed<T>(q: map<T, T>, p: map<T, T>, s: set<T>, root: T)
  {
    q.Keys == p.Keys && forall v {:trigger q[v]} :: v in q ==> q[v] == if v in s then root else p[v]
  }

  /** Pointing nodes of one tree straight at its root keeps a forest with the same roots. */
  lemma CompressForest<T>(q: map<T, T>, p: map<T, T>, r: map<T, nat>, bound: nat, s: set<T>, root: T)
    requires Forest(p, r, bound) && root in p && p[root] == root && Compressed(q, p, s, root)
    requires forall v :: v in s ==> v in p && p[v] != v && RootIn(p, r, bound, v) == root
    ensures Forest(q, r, bound)
  {
    forall v {:trigger q[v]} | v in q && q[v] != v ensures r[v] < r[q[v]] {
      if v in s {
        RootFacts(p, r, bound, v);
      }
    }
  }

  lemma {:induction false} CompressRoots<T>(q: map<T, T>, p: map<T, T>, r: map<T, nat>, bound: nat, s: set<T>, root: T, x: T)
    requires Forest(p, r, bound) && root in p && p[root] == root && Compressed(q, p, s, root)
    requires forall v :: v in s ==> v in p && p[v] != v && RootIn(p, r, bound, v) == root
    requires Forest(q, r, bound) && x in p
    ensures RootIn(q, r, bound, x) == RootIn(p, r, bound, x)
    decreases bound - r[x]
  {
    if x !in s && p[x] != x {
      CompressRoots(q, p, r, bound, s, root, p[x]);
    }
  }

  /** Linking root y under root x keeps a forest when x's rank ends above y's. */
  lemma LinkForest<T>(p: map<T, T>, r: map<T, nat>, bound: nat, y: T, x: T, r2: map<T, nat>, b2: nat)
    requires Forest(p, r, bound) && x in p && y in p && p[x] == x && p[y] == y && x != y
    requires r2.Keys == r.Keys && r2[y] < r2[x] && r2[x] <= b2 && bound <= b2
    requires forall v :: v in r && v != x ==> r2[v] == r[v]
    requires r[x] <= r2[x]
    ensures Forest(p[y := x], r2, b2)
  {
  }

  /** After linking root y under root x, the members of y's tree have root x. */
  lemma {:induction false} LinkRoots<T>(p: map<T, T>, r: map<T, nat>, bound: nat, y: T, x: T, r2: map<T, nat>, b2: nat, v: T)
    requires Forest(p, r, bound) && x in p && y in p && p[x] == x && p[y] == y && x != y
    requires Forest(p[y := x], r2, b2) && v in p
    ensures RootIn(p[y := x], r2, b2, v) == if RootIn(p, r, bound, v) == y then x else RootIn(p, r, bound, v)
    decreases bound - r[v]
  {
    if p[v] != v {
      LinkRoots(p, r, bound, y, x, r2, b2, p[v]);
    }
  }

  /** Adding a fresh singleton keeps a forest and changes no other member's root. */
  lemma {:induction false} AddRoots<T>(p: map<T, T>, r: map<T, nat>, bound: nat, v: T, x: T)
    requires Forest(p, r, bound) && v !in p && x in p
    ensures Forest(p[v := v], r[v := 0], bound)
    ensures RootIn(p[v := v], r[v := 0], bound, x) == RootIn(p, r, bound, x)
    decreases bound - r[x]
  {
    if p[x] != x {
      AddRoots(p, r, bound, v, p[x]);
    }
  }

  /** rep records, for every member, the root of its tree. */
  ghost predicate Represents<T>(rep: map<T, T>, p: map<T, T>, r: map<T, nat>, bound: nat)
    requires Forest(p, r, bound)
  {
    rep.Keys == p.Keys && forall v {:trigger RootIn(p, r, bound, v)} :: v in rep ==> rep[v] == RootIn(p, r, bound, v)
  }

  /** Adding a fresh singleton keeps a forest with its representatives, and adds one root. */
  lemma AddMember<T>(p: map<T, T>, r: map<T, nat>, bound: nat, rep: map<T, T>, v: T)
    requires Forest(p, r, bound) && Represents(rep, p, r, bound) && v !in p
    ensures Forest(p[v := v], r[v := 0], bound)
    ensures Represents(rep[v := v], p[v := v], r[v := 0], bound)
    ensures Roots(p[v := v]) == Roots(p) + {v}
  {
    forall x | x in p
      ensures RootIn(p[v := v], r[v := 0], bound, x) == RootIn(p, r, bound, x)
    {
      AddRoots(p, r, bound, v, x);
    }
    if p != map[] {
      var x :| x in p;
      AddRoots(p, r, bound, v, x);
    }
  }

  /** rep' is rep with the sets of a and b both relabelled w. */
  ghost predicate Relabelled<T>(rep': map<T, T>, rep: map<T, T>, a: T, b: T, w: T)
  {
    rep'.Keys == rep.Keys &&
    forall v {:trigger rep'[v]} :: v in rep' ==> rep'[v] == if rep[v] == a || rep[v] == b then w else rep[v]
  }

  /** rep' only merges sets of rep: members that shared a representative still do. */
  ghost predicate Coarsens<T>(rep': map<T, T>, rep: map<T, T>)
  {
    rep'.Keys == rep.Keys &&
    forall u, v {:trigger rep'[u], rep'[v]} :: u in rep && v in rep && rep[u] == rep[v] ==> rep'[u] == rep'[v]
  }

  /** Relabelling two sets with one name merges them and nothing else. */
  lemma RelabelCoarsens<T>(rep': map<T, T>, rep: map<T, T>, a: T, b: T, w: T)
    requires Relabelled(rep', rep, a, b, w)
    ensures Coarsens(rep', rep)
  {
  }

  class DisjointSet<T(==)> {
    var parent: map<T, T>
    var rank: map<T, nat>
    ghost var rankBound: nat
    /** The value find returns for each member: the root of its tree. */
    ghost var rep: map<T, T>

    ghost predicate Valid()
      reads this
    {
      Forest(parent, rank, rankBound) && Represents(rep, parent, rank, rankBound)
    }

    /** The representative of a member is a root. */
    lemma RepIsRoot(v: T)
      requires Valid() && v in rep
      ensures rep[v] in Roots(parent) && rep[v] in rank
    {
      RootFacts(parent, rank, rankBound, v);
    }

    constructor()
      ensures Valid() && parent == map[] && rank == map[] && rep == map[]
    {
      parent := map[];
      rank := map[];
      rankBound := 0;
      rep := map[];
    }

    /** make_set(value): adds value as a singleton of rank 0 unless it is already a member;
        returns value either way. */
    method MakeSet(v: T) returns (res: T)
      requires Valid()
      modifies this
      ensures Valid() && res == v
      ensures parent.Keys == old(parent.Keys) + {v}
      ensures v in old(parent) ==> parent == old(parent) && rank == old(rank) && rep == old(rep)
      ensures v !in old(parent) ==>
                parent == old(parent)[v := v] && rank == old(rank)[v := 0] && rep == old(rep)[v := v] &&
                Roots(parent) == Roots(old(parent)) + {v}
    {
      if v !in parent {
        AddMember(parent, rank, rankBound, rep, v);
        parent := parent[v := v];
        rank := rank[v := 0];
        rep := rep[v := v];
      }
      res := v;
    }

    /** find(value): KeyError for a non-member; otherwise walks to the root, then walks the
        same path again pointing every node on it straight at the root. */
    method Find(x: T) returns (res: Result<T, Error>)
      requires Valid()
      modifies this
      ensures Valid() && rank == old(rank) && rankBound == old(rankBound) && rep == old(rep)
      ensures x !in old(parent) ==> res == Failure(KeyError) && parent == old(parent)
      ensures x in old(parent) ==>
                res == Success(rep[x]) &&
                Compressed(parent, old(parent), PathIn(old(parent), rank, rankBound, x), rep[x])
      ensures Roots(parent) == Roots(old(parent))
    {
      if x !in parent {
        return Failure(KeyError);
      }
      ghost var p0 := parent;
      var root := x;
      while parent[root] != root
        invariant root in parent && RootIn(p0, rank, rankBound, root) == RootIn(p0, rank, rankBound, x)
        decreases rankBound - rank[root]
      {
        root := parent[root];
      }
      assert RootIn(p0, rank, rankBound, root) == root;
      ghost var r0, b0 := rank, rankBound;
      ghost var path := PathIn(p0, rank, rankBound, x);
      PathFacts(p0, rank, rankBound, x);
      var current := x;
      while current != root
        invariant parent.Keys == p0.Keys && current in p0 && rank == r0 && rankBound == b0 && rep == old(rep)
        invariant RootIn(p0, rank, rankBound, current) == root
        invariant PathIn(p0, rank, rankBound, current) <= path
        invariant Compressed(parent, p0, path - PathIn(p0, rank, rankBound, current), root)
        decreases rankBound - rank[current]
      {
        PathFacts(p0, rank, rankBound, current);
        var next := parent[current];
        parent := parent[current := root];
        current := next;
      }
      assert path - PathIn(p0, rank, rankBound, current) == path;
      CompressForest(parent, p0, rank, rankBound, path, root);
      CompressedRoots(parent, p0, path, root);
      forall v | v in p0 ensures RootIn(parent, rank, rankBound, v) == RootIn(p0, rank, rankBound, v) {
        CompressRoots(parent, p0, rank, rankBound, path, root, v);
      }
      assert Represents(rep, parent, rank, rankBound);
      res := Success(root);
    }

    /** union(x, y): KeyError unless both are members; None when they are already in one
        set; otherwise links the root of lower rank under the other (x's root on a tie),
        raises the winner's rank on a tie, and returns the winner. */
    method Union(x: T, y: T) returns (res: Result<Option<T>, Error>)
      requires Valid()
      modifies this
      ensures Valid() && parent.Keys == old(parent.Keys)
      ensures x !in old(parent) || y !in old(parent) ==>
                res == Failure(KeyError) && parent == old(parent) && rank == old(rank) && rep == old(rep)
      ensures x in old(parent) && y in old(parent) ==> old(rep[x]) in old(rank) && old(rep[y]) in old(rank)
      ensures x in old(parent) && y in old(parent) ==>
                var rx, ry := old(rep[x]), old(rep[y]);
                var winner := if old(rank[rx]) < old(rank[ry]) then ry else rx;
                rep[x] == rep[y] &&
                res == Success(if rx == ry then None else Some(winner)) &&
                Relabelled(rep, old(rep), rx, ry, winner) && Coarsens(rep, old(rep)) &&
                |Roots(parent)| + (if rx == ry then 0 else 1) == |Roots(old(parent))|
      ensures x in old(parent) && y in old(parent) ==>
                var rx, ry := old(rep[x]), old(rep[y]);
                var winner := if old(rank[rx]) < old(rank[ry]) then ry else rx;
                rank == if rx != ry && old(rank[rx]) == old(rank[ry])
                        then old(rank)[winner := old(rank[winner]) + 1] else old(rank)
    {
      if x !in parent || y !in parent {
        return Failure(KeyError);
      }
      RepIsRoot(x);
      RepIsRoot(y);
      var fx := Find(x);
      var fy := Find(y);
      var xRoot, yRoot := fx.value, fy.value;
      RepIsRoot(x);
      RepIsRoot(y);
      if xRoot == yRoot {
        RelabelCoarsens(rep, rep, xRoot, xRoot, xRoot);
        return Success(None);
      }
      ghost var mid := rep;
      var winner := Link(xRoot, yRoot);
      RelabelCoarsens(rep, mid, xRoot, yRoot, winner);
      res := Success(Some(winner));
    }

    /** The linking step of union on two distinct roots: the root of lower rank goes under
        the other (under xRoot on a tie), and the winner's rank rises on a tie. */
    method Link(xRoot: T, yRoot: T) returns (winner: T)
      requires Valid()
      requires xRoot in parent && yRoot in parent && parent[xRoot] == xRoot && parent[yRoot] == yRoot
      requires xRoot != yRoot
      modifies this
      ensures Valid() && parent.Keys == old(parent.Keys)
      ensures winner == if old(rank[xRoot]) < old(rank[yRoot]) then yRoot else xRoot
      ensures parent == old(parent)[(if winner == xRoot then yRoot else xRoot) := winner]
      ensures rank == if old(rank[xRoot]) == old(rank[yRoot])
                      then old(rank)[winner := old(rank[winner]) + 1] else old(rank)
      ensures Relabelled(rep, old(rep), xRoot, yRoot, winner)
      ensures Roots(parent) == Roots(old(parent)) - {if winner == xRoot then yRoot else xRoot}
      ensures |Roots(parent)| + 1 == |Roots(old(parent))|
    {
      var loser := yRoot;
      winner := xRoot;
      if rank[winner] < rank[loser] {
        winner, loser := loser, winner;
      }
      var newParent, newRank := parent[loser := winner], rank;
      ghost var newBound := rankBound;
      if rank[winner] == rank[loser] {
        newRank := rank[winner := rank[winner] + 1];
        newBound := rankBound + 1;
      }
      LinkForest(parent, rank, rankBound, loser, winner, newRank, newBound);
      ghost var newRep := map v | v in rep :: if rep[v] == xRoot || rep[v] == yRoot then winner else rep[v];
      forall v | v in parent
        ensures RootIn(newParent, newRank, newBound, v) == newRep[v]
      {
        LinkRoots(parent, rank, rankBound, loser, winner, newRank, newBound, v);
      }
      LinkRootSet(parent, loser, winner);
      parent, rank, rankBound, rep := newParent, newRank, newBound, newRep;
    }

    /** contains_member(value). */
    function ContainsMember(v: T): (b: bool)
      reads this
      ensures b <==> v in parent
    {
      v in parent
    }
  }
}

/** The node ids 0..n-1 that the graph algorithms and their disjoint sets range over. */
module NodeIds {

  /** The set {0, ..., n-1}. */
  ghost function Below(n: nat): (s: set<int>)
    ensures forall x :: x in s <==> 0 <= x < n
  {
    if n == 0 then {} else Below(n - 1) + {n - 1}
  }

  lemma {:induction false} BelowSize(n: nat)
    ensures |Below(n)| == n
  {
    if n > 0 {
      BelowSize(n - 1);
      var b := Below(n - 1);
      assert n - 1 !in b && Below(n) == b + {n - 1};
    }
  }
}

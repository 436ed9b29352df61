/** Levenshtein distance with two rolling rows (edit_distance.py). */
module EditDistance {

  function Min3(x: nat, y: nat, z: nat): nat
  {
    if x <= y && x <= z then x else if y <= z then y else z
  }

  /** The Levenshtein distance with unit costs, defined on prefixes:
      the independent reference definition the rolling-row method is proved against. */
  function Lev<T(==)>(a: seq<T>, b: seq<T>): nat
    decreases |a| + |b|
  {
    if |a| == 0 then |b|
    else if |b| == 0 then |a|
    else
      Min3(Lev(a[..|a| - 1], b) + 1,
           Lev(a, b[..|b| - 1]) + 1,
           Lev(a[..|a| - 1], b[..|b| - 1]) + (if a[|a| - 1] == b[|b| - 1] then 0 else 1))
  }

  /** The distance does not depend on argument order. */
  lemma {:induction false} LevSymmetric<T>(a: seq<T>, b: seq<T>)
    ensures Lev(a, b) == Lev(b, a)
    decreases |a| + |b|
  {
    if |a| != 0 && |b| != 0 {
      LevSymmetric(a[..|a| - 1], b);
      LevSymmetric(a, b[..|b| - 1]);
      LevSymmetric(a[..|a| - 1], b[..|b| - 1]);
    }
  }

  /** |len a - len b| <= distance <= max(len a, len b). */
  lemma {:induction false} LevBounds<T>(a: seq<T>, b: seq<T>)
    ensures |a| - |b| <= Lev(a, b) && |b| - |a| <= Lev(a, b)
    ensures Lev(a, b) <= if |a| <= |b| then |b| else |a|
    decreases |a| + |b|
  {
    if |a| != 0 && |b| != 0 {
      LevBounds(a[..|a| - 1], b);
      LevBounds(a, b[..|b| - 1]);
      LevBounds(a[..|a| - 1], b[..|b| - 1]);
    }
  }

  /** A sequence is at distance 0 from itself. */
  lemma {:induction false} LevSelf<T>(a: seq<T>)
    ensures Lev(a, a) == 0
  {
    if |a| != 0 {
      LevSelf(a[..|a| - 1]);
    }
  }

  /** One cell of the table, unfolded on prefixes of a and b. */
  lemma LevPrefixStep<T>(a: seq<T>, b: seq<T>, i: nat, j: nat)
    requires 1 <= i <= |a| && 1 <= j <= |b|
    ensures Lev(a[..i], b[..j])
         == Min3(Lev(a[..i - 1], b[..j]) + 1,
                 Lev(a[..i], b[..j - 1]) + 1,
                 Lev(a[..i - 1], b[..j - 1]) + (if a[i - 1] == b[j - 1] then 0 else 1))
  {
    assert a[..i][..i - 1] == a[..i - 1];
    assert b[..j][..j - 1] == b[..j - 1];
  }

  /** One cell of the inner loop: m1[j] from its left, upper and upper-left neighbours. */
  method FillCell<T(==)>(a: seq<T>, b: seq<T>, i: nat, j: nat, prev: array<nat>, row: array<nat>)
    requires 1 <= i <= |a| && 1 <= j <= |b| && prev.Length == row.Length == |b| + 1 && prev != row
    requires prev[j] == Lev(a[..i - 1], b[..j]) && prev[j - 1] == Lev(a[..i - 1], b[..j - 1])
    requires row[j - 1] == Lev(a[..i], b[..j - 1])
    modifies row
    ensures row[j] == Lev(a[..i], b[..j])
    ensures forall k :: 0 <= k < row.Length && k != j ==> row[k] == old(row[k])
  {
    var subCost := if a[i - 1] == b[j - 1] then 0 else 1;
    LevPrefixStep(a, b, i, j);
    row[j] := Min3(row[j - 1] + 1, prev[j] + 1, prev[j - 1] + subCost);
  }

  /** One outer iteration of edit_distance: given in `prev` the distances from
      a[..i-1] to every prefix of b, fills `row` with those from a[..i]. */
  method FillRow<T(==)>(a: seq<T>, b: seq<T>, i: nat, prev: array<nat>, row: array<nat>)
    requires 1 <= i <= |a| && prev.Length == row.Length == |b| + 1 && prev != row
    requires forall k :: 0 <= k <= |b| ==> prev[k] == Lev(a[..i - 1], b[..k])
    modifies row
    ensures forall k :: 0 <= k <= |b| ==> row[k] == Lev(a[..i], b[..k])
  {
    row[0] := i;
    for j := 1 to |b| + 1
      invariant forall k :: 0 <= k < j ==> row[k] == Lev(a[..i], b[..k])
    {
      FillCell(a, b, i, j, prev, row);
    }
  }

  /** edit_distance(a, b): two rolling rows; `m0` holds the distances from
      a[..i-1] and `m1` those from a[..i] to every prefix of b. */
  method Distance<T(==)>(a: seq<T>, b: seq<T>) returns (d: nat)
    ensures d == Lev(a, b)
    ensures |a| == 0 ==> d == |b|
    ensures |b| == 0 ==> d == |a|
    decreases if |a| < |b| then 1 else 0
  {
    if |a| == 0 || |b| == 0 {
      return if |a| <= |b| then |b| else |a|;
    }
    if |a| < |b| {
      d := Distance(b, a);
      LevSymmetric(a, b);
      return;
    }
    var m0 := new nat[|b| + 1](j => j);
    var m1 := new nat[|b| + 1];
    for i := 1 to |a| + 1
      invariant forall k :: 0 <= k <= |b| ==> m0[k] == Lev(a[..i - 1], b[..k])
      invariant i > 1 ==> forall k :: 0 <= k <= |b| ==> m1[k] == m0[k]
    {
      FillRow(a, b, i, m0, m1);
      forall k | 0 <= k < m1.Length {
        m0[k] := m1[k];
      }
    }
    d := m1[|b|];
    assert a[..|a|] == a && b[..|b|] == b;
  }
}

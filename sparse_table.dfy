/** Sparse table for range queries with an associative combining function (sparse_table.py).
    Row i of the table holds, at column j, the combination of the 2^i values from j on. */
module SparseTables {
  import opened Wrappers

  /** The exceptions query raises outside its documented ranges. */
  datatype QueryError = IndexError | ValueError

  function Pow2(i: nat): (p: nat)
    ensures p >= 1
  {
    if i == 0 then 1 else 2 * Pow2(i - 1)
  }

  /** Python's int.bit_length for non-negative integers. */
  function BitLength(x: nat): nat
  {
    if x == 0 then 0 else 1 + BitLength(x / 2)
  }

  /** The highest power of two not above x is 2^(bit_length(x) - 1). */
  lemma {:induction false} BitLengthBounds(x: nat)
    requires x > 0
    ensures BitLength(x) >= 1 && Pow2(BitLength(x) - 1) <= x < 2 * Pow2(BitLength(x) - 1)
  {
    if x > 1 {
      BitLengthBounds(x / 2);
    }
  }

  /** bit_length is monotone. */
  lemma {:induction false} BitLengthMonotone(x: nat, y: nat)
    requires x <= y
    ensures BitLength(x) <= BitLength(y)
  {
    if x > 0 {
      BitLengthMonotone(x / 2, y / 2);
    }
  }

  ghost predicate Associative<T(!new)>(f: (T, T) -> T)
  {
    forall a, b, c {:trigger f(f(a, b), c)} :: f(f(a, b), c) == f(a, f(b, c))
  }

  ghost predicate Idempotent<T(!new)>(f: (T, T) -> T)
  {
    forall a :: f(a, a) == a
  }

  /** f folded from the left over values[l..r), r excluded: the reference meaning of a query. */
  function FoldRange<T>(f: (T, T) -> T, values: seq<T>, l: nat, r: nat): T
    requires l < r <= |values|
    decreases r
  {
    if r == l + 1 then values[l] else f(FoldRange(f, values, l, r - 1), values[r - 1])
  }

  /** For an associative f, a fold splits at any inner point. */
  lemma {:induction false} FoldSplit<T(!new)>(f: (T, T) -> T, values: seq<T>, l: nat, m: nat, r: nat)
    requires Associative(f) && l < m < r <= |values|
    ensures FoldRange(f, values, l, r) == f(FoldRange(f, values, l, m), FoldRange(f, values, m, r))
    decreases r
  {
    if r > m + 1 {
      FoldSplit(f, values, l, m, r - 1);
    }
  }

  /** For an associative and idempotent f, two overlapping ranges combine to their union. */
  lemma FoldOverlap<T(!new)>(f: (T, T) -> T, values: seq<T>, l: nat, m1: nat, m2: nat, r: nat)
    requires Associative(f) && Idempotent(f) && l <= m1 < m2 <= r <= |values| && l < m1 && m2 < r
    ensures f(FoldRange(f, values, l, m2), FoldRange(f, values, m1, r)) == FoldRange(f, values, l, r)
  {
    var a, b, c := FoldRange(f, values, l, m1), FoldRange(f, values, m1, m2), FoldRange(f, values, m2, r);
    FoldSplit(f, values, l, m1, m2);
    FoldSplit(f, values, m1, m2, r);
    FoldSplit(f, values, l, m2, r);
    calc {
      f(f(a, b), f(b, c));
    ==  // associativity
      f(a, f(b, f(b, c)));
    ==  // associativity
      f(a, f(f(b, b), c));
    ==  // idempotence
      f(a, f(b, c));
    ==  // associativity
      f(f(a, b), c);
    }
  }

  /** The value the table builds at row i, column j: two blocks of row i - 1 combined. */
  function Block<T>(f: (T, T) -> T, values: seq<T>, i: nat, j: nat): T
    requires j + Pow2(i) <= |values|
  {
    if i == 0 then values[j] else f(Block(f, values, i - 1, j), Block(f, values, i - 1, j + Pow2(i - 1)))
  }

  /** For an associative f, a block is f folded over its 2^i values. */
  lemma {:induction false} BlockFold<T(!new)>(f: (T, T) -> T, values: seq<T>, i: nat, j: nat)
    requires Associative(f) && j + Pow2(i) <= |values|
    ensures Block(f, values, i, j) == FoldRange(f, values, j, j + Pow2(i))
  {
    if i > 0 {
      BlockFold(f, values, i - 1, j);
      BlockFold(f, values, i - 1, j + Pow2(i - 1));
      FoldSplit(f, values, j, j + Pow2(i - 1), j + Pow2(i));
    }
  }

  class SparseTable<T(!new)> {
    const n: nat
    const k: int
    const st: array2<T>
    const func: (T, T) -> T
    const idempotent: bool
    ghost const values: seq<T>

    /** The entry the table holds at row i, column j once built: the block of 2^i
        values from j when it fits, and values[j] (the initial copy) otherwise. */
    ghost function Entry(i: nat, j: nat): T
      requires j < |values|
    {
      if j + Pow2(i) <= |values| then Block(func, values, i, j) else values[j]
    }

    ghost predicate Shape()
    {
      |values| == n && k == BitLength(n) - 1 && st.Length0 == k + 1 && st.Length1 == n
    }

    ghost predicate Valid()
      reads st
    {
      Shape() &&
      forall i, j :: 0 <= i < st.Length0 && 0 <= j < st.Length1 ==> st[i, j] == Entry(i, j)
    }

    /** __init__: k = bit_length(n) - 1 and k + 1 copies of `values`, then the build. */
    constructor(values: seq<T>, func: (T, T) -> T, isIdempotent: bool)
      ensures this.values == values && this.func == func && idempotent == isIdempotent
      ensures n == |values| && k == BitLength(|values|) - 1
      ensures Valid() && fresh(st)
    {
      n := |values|;
      k := BitLength(|values|) - 1;
      st := new T[BitLength(|values|), |values|]((i: nat, j: nat) requires j < |values| => values[j]);
      this.func := func;
      idempotent := isIdempotent;
      this.values := values;
      new;
      InitializeTable();
    }

    /** One row of _initialize_st: row i from row i - 1, at every column where a block fits. */
    method FillRow(below: nat, i: nat, prevPower: nat, currPower: nat)
      requires Shape() && i == below + 1 && i < st.Length0
      requires prevPower == Pow2(below) && currPower == Pow2(i) && currPower <= n
      requires forall j :: 0 <= j < n ==> st[below, j] == Entry(below, j)
      requires forall j :: 0 <= j < n ==> st[i, j] == values[j]
      modifies st
      ensures forall i', j :: 0 <= i' < st.Length0 && i' != i && 0 <= j < n ==> st[i', j] == old(st[i', j])
      ensures forall j :: 0 <= j < n ==> st[i, j] == Entry(i, j)
    {
      for j := 0 to n - currPower + 1
        invariant forall i', j' :: 0 <= i' < st.Length0 && i' != i && 0 <= j' < n ==> st[i', j'] == old(st[i', j'])
        invariant forall j' :: 0 <= j' < j ==> st[i, j'] == Entry(i, j')
        invariant forall j' :: j <= j' < n ==> st[i, j'] == values[j']
      {
        st[i, j] := func(st[below, j], st[below, j + prevPower]);
      }
    }

    /** _initialize_st: fills rows 1..k, doubling the block size at each row. */
    method InitializeTable()
      requires Shape()
      requires forall i, j :: 0 <= i < st.Length0 && 0 <= j < n ==> st[i, j] == values[j]
      modifies st
      ensures Valid()
    {
      if n > 0 {
        BitLengthBounds(n);
      }
      var prevPower := 1;
      var currPower := 2;
      var i := 1;
      while i <= k
        invariant 1 <= i && (n > 0 ==> i <= k + 1)
        invariant prevPower == Pow2(i - 1) && currPower == Pow2(i)
        invariant forall i', j :: 0 <= i' < i && 0 <= j < n ==> st[i', j] == Entry(i', j)
        invariant forall i', j :: i <= i' < st.Length0 && 0 <= j < n ==> st[i', j] == values[j]
        decreases k - i
      {
        Pow2Monotone(i, k);
        FillRow(i - 1, i, prevPower, currPower);
        prevPower := currPower;
        currPower := currPower * 2;
        i := i + 1;
      }
    }

    /** query(l, r), both ends included: f folded over values[l..r]. The idempotent path
        combines two overlapping blocks of the largest power of two that fits; the other
        path takes that block from l and recurses on the rest. */
    function Query(l: nat, r: nat): (res: T)
      reads st
      requires Valid() && l <= r < n
      ensures l == r ==> res == values[l]
      ensures Associative(func) && (idempotent ==> Idempotent(func)) ==>
                res == FoldRange(func, values, l, r + 1)
      decreases r - l
    {
      if l == r then
        st[0, l]
      else
        var querySize := QuerySize(l, r);
        var power := Pow2(querySize - 1);
        if idempotent then
          IdempotentPath(this, l, r, querySize, power);
          func(st[querySize - 1, l], st[querySize - 1, r - power + 1])
        else if l + power - 1 == r then
          ExactPath(this, l, r);
          st[querySize - 1, l]
        else
          var rest := Query(l + power, r);
          SplitPath(this, l, r, rest);
          func(st[querySize - 1, l], rest)
    }

    /** self._st[i][j] in Python: a row past k, or a column outside -n..n-1, raises
        IndexError; a negative column counts from the end of the row. */
    function Cell(i: nat, j: int): (res: Result<T, QueryError>)
      reads st
      requires Valid()
      ensures res.Success? <==> i < st.Length0 && -(n as int) <= j < n
      ensures res.Failure? ==> res.error == IndexError
      ensures res.Success? ==> res.value == Entry(i, if j < 0 then j + n else j)
    {
      if i < st.Length0 && 0 <= j < n then Success(st[i, j])
      else if i < st.Length0 && -(n as int) <= j < 0 then Success(st[i, j + n])
      else Failure(IndexError)
    }

    /** query(l, r) for any integers, as Python runs it: l == r + 1 makes `1 << -1` raise
        ValueError, table reads outside the table raise IndexError, and a negative index
        reads from the end of its row. Inside 0 <= l <= r < n it is Query, and a single negative
        index -n <= l == r < 0 gives values[l + n]; with l < r, a
        start outside -n..n-1 or a range longer than 2^(k+1) - 1 fails on the first read. */
    function QueryAnyRange(l: int, r: int): (res: Result<T, QueryError>)
      reads st
      requires Valid()
      ensures 0 <= l <= r < n ==> res == Success(Query(l, r))
      ensures l == r + 1 ==> res == Failure(ValueError)
      ensures l == r && -(n as int) <= l < 0 ==> res == Success(values[l + n])
      ensures l == r && (r < -(n as int) || n <= r) ==> res == Failure(IndexError)
      ensures !idempotent && r + 1 < l ==> res == Failure(IndexError)
      ensures l < r && (l < -(n as int) || n <= l) ==> res == Failure(IndexError)
      ensures l < r && st.Length0 < BitLength(r - l + 1) ==> res == Failure(IndexError)
      decreases if l <= r then r - l else if l < n then n - l else 0
    {
      if l == r then
        Cell(0, l)
      else if l == r + 1 then
        Failure(ValueError)
      else
        var size := r - l + 1;
        var q := if size < 0 then BitLength(-size) else BitLength(size);
        BitLengthBounds(if size < 0 then -size else size);
        var power := Pow2(q - 1);
        assert l < r ==> q == BitLength(r - l + 1);
        QueryStep(l, r, q, power);
        var first := Cell(q - 1, l);
        if idempotent then
          var second := Cell(q - 1, r - power + 1);
          if first.Failure? then first
          else if second.Failure? then second
          else Success(func(first.value, second.value))
        else if l + power - 1 == r then
          first
        else if first.Failure? then
          first
        else
          var rest := QueryAnyRange(l + power, r);
          if rest.Failure? then rest else Success(func(first.value, rest.value))
    }

    /** One step of Query on a range of two or more values, in terms of the table row
        q - 1 = bit_length(r - l + 1) - 1 and its block size power. */
    lemma QueryStep(l: int, r: int, q: int, power: int)
      requires Valid()
      ensures 0 <= l < r < n && q == BitLength(r - l + 1) && power == Pow2(q - 1) ==>
                1 <= q <= st.Length0 && l + power - 1 <= r
      ensures 0 <= l < r < n && q == BitLength(r - l + 1) && power == Pow2(q - 1) && idempotent ==>
                Query(l, r) == func(st[q - 1, l], st[q - 1, r - power + 1])
      ensures 0 <= l < r < n && q == BitLength(r - l + 1) && power == Pow2(q - 1) && !idempotent &&
              l + power - 1 == r
              ==> Query(l, r) == st[q - 1, l]
      ensures 0 <= l < r < n && q == BitLength(r - l + 1) && power == Pow2(q - 1) && !idempotent &&
              l + power - 1 != r
              ==> Query(l, r) == func(st[q - 1, l], Query(l + power, r))
    {
      if 0 <= l < r < n {
        var q' := QuerySize(l, r);
      }
    }

    /** bit_length(r - l + 1): a row of the table whose blocks fit inside [l, r]. */
    function QuerySize(l: nat, r: nat): (q: nat)
      requires Shape() && l <= r < n
      ensures 1 <= q <= st.Length0
      ensures Pow2(q - 1) <= r - l + 1 < 2 * Pow2(q - 1)
    {
      var size := r - l + 1;
      BitLengthBounds(size);
      BitLengthMonotone(size, n);
      assert st.Length0 == BitLength(n);
      BitLength(size)
    }
  }

  /** With n = 5, query(0, 5) reaches past the end without an IndexError: without
      idempotence it combines the block of values[0..3] with the initial copy of values[4]. */
  lemma QueryPastEnd<T(!new)>(t: SparseTable<T>)
    requires t.Valid() && t.n == 5 && !t.idempotent
    ensures t.QueryAnyRange(0, 5) == Success(t.func(t.st[2, 0], t.values[4]))
  {
    assert BitLength(6) == 3 && BitLength(2) == 2 && BitLength(5) == 3;
    assert Pow2(2) == 4 && Pow2(1) == 2;
    assert t.st[1, 4] == t.Entry(1, 4) == t.values[4];
  }

  /** With idempotence the same call combines values[0..3] with values[2], so values[4]
      is ignored. */
  lemma QueryPastEndIdempotent<T(!new)>(t: SparseTable<T>)
    requires t.Valid() && t.n == 5 && t.idempotent
    ensures t.QueryAnyRange(0, 5) == Success(t.func(t.st[2, 0], t.values[2]))
  {
    assert BitLength(6) == 3 && BitLength(5) == 3;
    assert Pow2(2) == 4;
    assert t.st[2, 2] == t.Entry(2, 2) == t.values[2];
  }

  lemma {:induction false} Pow2Monotone(i: nat, j: nat)
    requires i <= j
    ensures Pow2(i) <= Pow2(j)
    decreases j
  {
    if i < j {
      Pow2Monotone(i, j - 1);
    }
  }

  /** Two blocks of 2^i values, one from l and one ending at r, that together cover
      [l, r] combine to the fold over [l, r] when f is associative and idempotent. */
  lemma BlocksCover<T(!new)>(f: (T, T) -> T, values: seq<T>, i: nat, l: nat, r: nat)
    requires l <= r + 1 - Pow2(i) < l + Pow2(i) && r < |values|
    ensures Associative(f) && Idempotent(f) ==>
              f(Block(f, values, i, l), Block(f, values, i, r + 1 - Pow2(i))) == FoldRange(f, values, l, r + 1)
  {
    var m := r + 1 - Pow2(i);
    if Associative(f) && Idempotent(f) {
      BlockFold(f, values, i, l);
      BlockFold(f, values, i, m);
      if m != l {
        FoldOverlap(f, values, l, m, l + Pow2(i), r + 1);
      }
    }
  }

  /** The idempotent path of query: two blocks of the largest power of two p that
      fits, one from l and one ending at r, both inside [l, r] and overlapping. */
  lemma IdempotentPath<T(!new)>(t: SparseTable<T>, l: nat, r: nat, q: nat, p: nat)
    requires t.Valid() && l < r < t.n
    requires q == t.QuerySize(l, r) && p == Pow2(q - 1)
    ensures l + p <= r + 1 && l <= r - p + 1 < l + p
    ensures Associative(t.func) && Idempotent(t.func) ==>
              t.func(t.st[q - 1, l], t.st[q - 1, r - p + 1]) == FoldRange(t.func, t.values, l, r + 1)
  {
    var m := r - p + 1;
    assert t.st[q - 1, l] == Block(t.func, t.values, q - 1, l) by {
      assert t.st[q - 1, l] == t.Entry(q - 1, l);
    }
    assert t.st[q - 1, m] == Block(t.func, t.values, q - 1, m) by {
      assert t.st[q - 1, m] == t.Entry(q - 1, m);
    }
    BlocksCover(t.func, t.values, q - 1, l, r);
  }

  /** The non-idempotent path when one block covers [l, r] exactly. */
  lemma ExactPath<T(!new)>(t: SparseTable<T>, l: nat, r: nat)
    requires t.Valid() && l < r < t.n
    requires l + Pow2(t.QuerySize(l, r) - 1) - 1 == r
    ensures Associative(t.func) ==>
              t.st[t.QuerySize(l, r) - 1, l] == FoldRange(t.func, t.values, l, r + 1)
  {
    if Associative(t.func) {
      BlockFold(t.func, t.values, t.QuerySize(l, r) - 1, l);
    }
  }

  /** The non-idempotent path otherwise: the block from l, then the rest of the range. */
  lemma SplitPath<T(!new)>(t: SparseTable<T>, l: nat, r: nat, rest: T)
    requires t.Valid() && l < r < t.n
    ensures var q := t.QuerySize(l, r); var p := Pow2(q - 1);
            l + p <= r + 1 &&
            (l + p - 1 != r && Associative(t.func) && rest == FoldRange(t.func, t.values, l + p, r + 1) ==>
               t.func(t.st[q - 1, l], rest) == FoldRange(t.func, t.values, l, r + 1))
  {
    var q := t.QuerySize(l, r);
    var p := Pow2(q - 1);
    if l + p - 1 != r && Associative(t.func) {
      BlockFold(t.func, t.values, q - 1, l);
      FoldSplit(t.func, t.values, l, l + p, r + 1);
    }
  }
}

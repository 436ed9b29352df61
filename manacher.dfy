/** Longest palindromic substring by Manacher's algorithm (manacher_palindrome.py).
    The algorithm works on the string padded with a separator between every two
    characters: position 2k holds s[k] and every odd position a separator. */
module Manacher {

  datatype Cell<T> = Sep | Ch(c: T)

  /** The padded string at position q. */
  function Pad<T>(s: seq<T>, q: nat): Cell<T>
    requires q < 2 * |s| - 1
  {
    if q % 2 == 1 then Sep else Ch(s[q / 2])
  }

  /** Positions c - d and c + d of the padded string hold the same cell. */
  ghost predicate MirrorEq<T>(s: seq<T>, c: int, d: int)
    requires 0 <= d <= c && c + d < 2 * |s| - 1
  {
    Pad(s, c - d) == Pad(s, c + d)
  }

  /** The window [c - r + 1, c + r - 1] lies in the padded string and is symmetric about c. */
  ghost predicate Sym<T>(s: seq<T>, c: int, r: int)
  {
    1 <= r && 0 <= c - r + 1 && c + r - 1 < 2 * |s| - 1 &&
    forall d :: 0 < d < r ==> MirrorEq(s, c, d)
  }

  /** r is the radius of the longest palindrome of the padded string centred at c. */
  ghost predicate IsMaxRadius<T>(s: seq<T>, c: int, r: int)
  {
    Sym(s, c, r) && !Sym(s, c, r + 1)
  }

  /** s[a..b], both ends included, reads the same backwards. */
  ghost predicate IsPalindrome<T>(s: seq<T>, a: int, b: int)
  {
    0 <= a <= b < |s| && forall k :: a <= k <= b ==> s[k] == s[a + b - k]
  }

  /** A symmetric window grows by one exactly when both cells beyond it exist and agree. */
  lemma SymExtend<T>(s: seq<T>, c: int, r: int)
    requires Sym(s, c, r)
    ensures Sym(s, c, r + 1) <==> 0 <= c - r && c + r < 2 * |s| - 1 && MirrorEq(s, c, r)
  {
  }

  /** A symmetric window stays symmetric when shrunk. */
  lemma SymShrink<T>(s: seq<T>, c: int, r: int, r': int)
    requires Sym(s, c, r) && 1 <= r' <= r
    ensures Sym(s, c, r')
  {
  }

  /** The maximal radius is an upper bound on every symmetric radius. */
  lemma {:induction false} MaxRadiusBound<T>(s: seq<T>, c: int, m: int, r: int)
    requires IsMaxRadius(s, c, m) && Sym(s, c, r)
    ensures r <= m
  {
    if r > m {
      SymShrink(s, c, r, m + 1);
    }
  }

  /** The comparison the source makes on the padded string: both positions are
      separators, or both are characters and equal. */
  lemma PadCompare<T>(s: seq<T>, c: int, r: int)
    requires 0 <= c - r && c + r < 2 * |s| - 1 && r >= 0
    ensures MirrorEq(s, c, r) <==> ((c - r) % 2 == 1 || s[(c - r) / 2] == s[(c + r) / 2])
  {
    assert c + r == (c - r) + 2 * r;
    assert (c + r) % 2 == (c - r) % 2;
  }

  /** Inside a symmetric window about c, the windows about c + i and c - i of the
      same radius are symmetric together. */
  lemma MirrorSym<T>(s: seq<T>, c: int, big: int, i: int, r: int)
    requires Sym(s, c, big) && 0 < i < big && 1 <= r <= big - i
    ensures Sym(s, c + i, r) <==> Sym(s, c - i, r)
  {
    var right, left := c + i, c - i;
    forall d | 0 < d < r ensures MirrorEq(s, right, d) == MirrorEq(s, left, d) {
      assert MirrorEq(s, c, i + d);
      if d < i {
        assert MirrorEq(s, c, i - d);
      } else if d > i {
        assert MirrorEq(s, c, d - i);
      }
    }
  }

  /** The three cases of the mirror step: the radius at c + i is read off the
      radius m at c - i, given the maximal radius `big` at c. */
  lemma MirrorCase<T>(s: seq<T>, c: int, big: int, i: int, m: int)
    requires IsMaxRadius(s, c, big) && 0 < i < big && IsMaxRadius(s, c - i, m)
    ensures i + m < big ==> IsMaxRadius(s, c + i, m)
    ensures i + m == big ==> Sym(s, c + i, m)
    ensures i + m > big ==> IsMaxRadius(s, c + i, big - i)
  {
    if i + m < big {
      MirrorSym(s, c, big, i, m);
      MirrorSym(s, c, big, i, m + 1);
    } else if i + m == big {
      MirrorSym(s, c, big, i, m);
    } else {
      var r := big - i;
      SymShrink(s, c - i, m, r);
      MirrorSym(s, c, big, i, r);
      SymShrink(s, c - i, m, r + 1);
      OverhangBlocked(s, c, big, i);
    }
  }

  /** When the palindrome about c - i overhangs the left end of the window about c,
      the one about c + i can only reach past the right end if the window about c
      can grow. */
  lemma OverhangBlocked<T>(s: seq<T>, c: int, big: int, i: int)
    requires Sym(s, c, big) && 0 < i < big && Sym(s, c - i, big - i + 1)
    ensures Sym(s, c + i, big - i + 1) ==> Sym(s, c, big + 1)
  {
    var r := big - i;
    if Sym(s, c + i, r + 1) {
      var right, left := c + i, c - i;
      assert MirrorEq(s, right, r);
      assert MirrorEq(s, left, r);
      if 2 * i < big {
        assert MirrorEq(s, c, big - 2 * i);
      } else if 2 * i > big {
        assert MirrorEq(s, c, 2 * i - big);
      }
      assert MirrorEq(s, c, big);
      SymExtend(s, c, big);
    }
  }

  /** Every entry of a below k is the maximal radius at its position. */
  ghost predicate CorrectUpTo<T>(s: seq<T>, a: seq<int>, k: int)
  {
    0 <= k <= |a| && forall q :: 0 <= q < k ==> IsMaxRadius(s, q, a[q])
  }

  lemma CorrectExtend<T>(s: seq<T>, a: seq<int>, k: int, v: int)
    requires CorrectUpTo(s, a, k) && k < |a| && IsMaxRadius(s, k, v)
    ensures CorrectUpTo(s, a[k := v], k + 1)
  {
  }

  /** The number of cells of the padded string, 2 * len(s) - 1, or none for the empty string. */
  function PaddedLength(n: nat): (t: nat)
    ensures n > 0 ==> t == 2 * n - 1
    ensures n == 0 ==> t == 0
  {
    if n == 0 then 0 else 2 * n - 1
  }

  /** The expansion loop of _manacher: grows a symmetric window about c to the maximal one. */
  method Expand<T(==)>(s: seq<T>, c: int, r0: int) returns (r: int)
    requires Sym(s, c, r0)
    ensures IsMaxRadius(s, c, r)
  {
    var total := 2 * |s| - 1;
    r := r0;
    while c - r >= 0 && c + r < total
      invariant Sym(s, c, r)
      decreases total - r
    {
      PadCompare(s, c, r);
      SymExtend(s, c, r);
      if (c - r) % 2 == 1 || s[(c - r) / 2] == s[(c + r) / 2] {
        r := r + 1;
      } else {
        break;
      }
    }
    SymExtend(s, c, r);
  }

  /** The mirror loop of _manacher (`for i in range(1, curr_radius)` with its `else`):
      copies radii from the left half of the maximal window about c into its right
      half, and stops early at the first radius that reaches exactly the window's right
      end, which the next outer iteration extends. */
  method MirrorPass<T(==)>(s: seq<T>, a: array<int>, c: int, big: int)
    returns (i: int, m: int, jumped: bool)
    requires a.Length == PaddedLength(|s|) && IsMaxRadius(s, c, big)
    requires CorrectUpTo(s, a[..], c + 1)
    modifies a
    ensures 1 <= i <= big && CorrectUpTo(s, a[..], c + i)
    ensures jumped ==> i < big && Sym(s, c + i, m)
    ensures !jumped ==> i == big
  {
    i, m, jumped := 1, 1, false;
    while i < big
      invariant 1 <= i <= big && CorrectUpTo(s, a[..], c + i)
    {
      var mirrored := a[c - i];
      MirrorCase(s, c, big, i, mirrored);
      ghost var before := a[..];
      if i + mirrored < big {
        CorrectExtend(s, before, c + i, mirrored);
        a[c + i] := mirrored;
        assert a[..] == before[c + i := mirrored];
      } else if i + mirrored == big {
        m, jumped := mirrored, true;
        return;
      } else {
        CorrectExtend(s, before, c + i, big - i);
        a[c + i] := big - i;
        assert a[..] == before[c + i := big - i];
      }
      i := i + 1;
    }
  }

  /** _manacher(s): for every position of the padded string, the radius of the
      longest palindrome centred there, counting the centre. */
  method Radii<T(==)>(s: seq<T>) returns (res: seq<int>)
    ensures |res| == PaddedLength(|s|)
    ensures forall q :: 0 <= q < |res| ==> IsMaxRadius(s, q, res[q])
  {
    var total := PaddedLength(|s|);
    var a := new int[total](_ => 1);
    var cursor := 0;
    var currRadius := 1;
    while cursor < total
      invariant 0 <= cursor <= total && a.Length == total
      invariant CorrectUpTo(s, a[..], cursor)
      invariant cursor < total ==> Sym(s, cursor, currRadius)
      decreases total - cursor
    {
      currRadius := Expand(s, cursor, currRadius);
      CorrectExtend(s, a[..], cursor, currRadius);
      a[cursor] := currRadius;
      var i, mirrored, jumped := MirrorPass(s, a, cursor, currRadius);
      if jumped {
        cursor := cursor + i;
        currRadius := mirrored;
      } else {
        cursor := cursor + currRadius;
        currRadius := 1;
      }
    }
    res := a[..];
  }

  /** _convert_to_indices(pos, radius): the first and last character of the original
      string inside the padded window; -(left // -2) rounds left / 2 up and
      right // 2 rounds right / 2 down. */
  function ConvertToIndices(pos: int, radius: int): (r: (int, int))
    ensures var left, right := pos - radius + 1, pos + radius - 1;
            2 * r.0 - 1 <= left <= 2 * r.0 && 2 * r.1 <= right <= 2 * r.1 + 1
    ensures r.0 + r.1 == pos
  {
    var left := pos - radius + 1;
    var right := pos + radius - 1;
    (-PyFloorDiv(left, -2), PyFloorDiv(right, 2))
  }

  /** Python's floor division. */
  function PyFloorDiv(a: int, b: int): (q: int)
    requires b != 0
    ensures b > 0 ==> b * q <= a < b * q + b
    ensures b < 0 ==> b * q + b < a <= b * q
  {
    if b > 0 then a / b else (-a) / (-b)
  }

  /** A symmetric window of the padded string is a palindrome of the original string. */
  lemma SymPalindrome<T>(s: seq<T>, c: int, r: int)
    requires Sym(s, c, r) && r > 1
    ensures var (x0, x1) := ConvertToIndices(c, r); IsPalindrome(s, x0, x1)
  {
    var (x0, x1) := ConvertToIndices(c, r);
    forall k | x0 <= k <= x1 ensures s[k] == s[x0 + x1 - k] {
      if 2 * k < c {
        assert MirrorEq(s, c, c - 2 * k);
      } else if 2 * k > c {
        assert MirrorEq(s, c, 2 * k - c);
      }
    }
  }

  /** A palindrome s[a..b] is a symmetric window of the padded string about a + b. */
  lemma PalindromeSym<T>(s: seq<T>, a: int, b: int)
    requires IsPalindrome(s, a, b)
    ensures Sym(s, a + b, b - a + 1)
  {
    var c := a + b;
    forall d | 0 < d < b - a + 1 ensures MirrorEq(s, c, d) {
      if (c - d) % 2 == 0 {
        var k := (c - d) / 2;
        assert c + d == 2 * (a + b - k);
        assert s[k] == s[a + b - k];
      } else {
        assert c + d == (c - d) + 2 * d;
      }
    }
  }

  /** The longest palindrome centred at a + b reaches at least as far as s[a..b]. */
  lemma CoversPalindrome<T>(s: seq<T>, a: int, b: int, m: int)
    requires IsPalindrome(s, a, b) && IsMaxRadius(s, a + b, m)
    ensures m >= b - a + 1
    ensures var (x0, x1) := ConvertToIndices(a + b, m); x0 <= a && b <= x1
  {
    PalindromeSym(s, a, b);
    MaxRadiusBound(s, a + b, m, b - a + 1);
  }

  /** The best candidate so far: (0, 0), or a palindrome of length at least 2. */
  ghost predicate Candidate<T>(s: seq<T>, x0: int, x1: int)
  {
    (x0 == 0 && x1 == 0) || (x0 < x1 && IsPalindrome(s, x0, x1))
  }

  /** find_longest_palindrome(s): the first and last index of a longest palindromic
      substring, the one at the leftmost centre among the longest; (0, 0) when s has
      fewer than two characters or no palindrome of length two or more. */
  method FindLongestPalindrome<T(==)>(s: seq<T>) returns (x0: int, x1: int)
    ensures |s| < 2 ==> x0 == 0 && x1 == 0
    ensures Candidate(s, x0, x1)
    ensures forall a, b :: IsPalindrome(s, a, b) ==> b - a <= x1 - x0
    ensures forall a, b :: IsPalindrome(s, a, b) && b - a == x1 - x0 > 0 ==> x0 + x1 <= a + b
  {
    if |s| < 2 {
      return 0, 0;
    }
    var res := Radii(s);
    var longestLen := 0;
    x0, x1 := 0, 0;
    for p := 0 to |res|
      invariant longestLen == x1 - x0 && Candidate(s, x0, x1)
      invariant forall q :: 0 <= q < p && res[q] > 1 ==>
                  ConvertToIndices(q, res[q]).1 - ConvertToIndices(q, res[q]).0 <= longestLen
      invariant forall q :: 0 <= q < x0 + x1 && q < p && res[q] > 1 ==>
                  ConvertToIndices(q, res[q]).1 - ConvertToIndices(q, res[q]).0 < longestLen
      invariant x0 + x1 <= p
    {
      if res[p] > 1 {
        var (y0, y1) := ConvertToIndices(p, res[p]);
        SymPalindrome(s, p, res[p]);
        if y1 - y0 > longestLen {
          longestLen := y1 - y0;
          x0, x1 := y0, y1;
        }
      }
    }
    forall a, b | IsPalindrome(s, a, b)
      ensures b - a <= x1 - x0
      ensures b - a == x1 - x0 > 0 ==> x0 + x1 <= a + b
    {
      if a < b {
        CoversPalindrome(s, a, b, res[a + b]);
      }
    }
  }
}

/**
 * Levenshtein distance (Graph._levenshtein in src/graph.ts): the recursive
 * definition over prefixes, the two-row dynamic programme that computes it,
 * and the facts search relies on.
 */
module StringDistance {
  import opened Types

  function Min3(a: int, b: int, c: int): (m: int)
    ensures m <= a && m <= b && m <= c
    ensures m == a || m == b || m == c
  {
    if a <= b && a <= c then a else if b <= c then b else c
  }

  function Cost(x: char, y: char): nat { if x == y then 0 else 1 }

  /**
   * The edit distance between the prefixes a[..i] and b[..j]: deletions,
   * insertions and substitutions each cost one.
   */
  function Dist(a: string, b: string, i: nat, j: nat): nat
    requires i <= |a| && j <= |b|
    decreases i + j
  {
    if i == 0 then j
    else if j == 0 then i
    else Min3(Dist(a, b, i - 1, j) + 1, Dist(a, b, i, j - 1) + 1, Dist(a, b, i - 1, j - 1) + Cost(a[i - 1], b[j - 1]))
  }

  function EditDistance(a: string, b: string): nat
  {
    Dist(a, b, |a|, |b|)
  }

  /** One cell of the table is symmetric once the three cells it is built from are. */
  lemma DistSymStep(a: string, b: string, i: nat, j: nat)
    requires 0 < i <= |a| && 0 < j <= |b|
    requires Dist(a, b, i - 1, j) == Dist(b, a, j, i - 1)
    requires Dist(a, b, i, j - 1) == Dist(b, a, j - 1, i)
    requires Dist(a, b, i - 1, j - 1) == Dist(b, a, j - 1, i - 1)
    ensures Dist(a, b, i, j) == Dist(b, a, j, i)
  {
  }

  /** Every cell on or above the anti-diagonal i + j == n is symmetric. */
  lemma {:induction false} DistSymUpTo(a: string, b: string, n: nat)
    ensures forall i: nat, j: nat :: i <= |a| && j <= |b| && i + j <= n ==> Dist(a, b, i, j) == Dist(b, a, j, i)
  {
    if n > 0 {
      DistSymUpTo(a, b, n - 1);
    }
    forall i: nat, j: nat | i <= |a| && j <= |b| && i + j == n
      ensures Dist(a, b, i, j) == Dist(b, a, j, i)
    {
      if i > 0 && j > 0 {
        DistSymStep(a, b, i, j);
      }
    }
  }

  /** The distance does not depend on the order of its arguments. */
  lemma EditDistanceSymmetric(a: string, b: string)
    ensures EditDistance(a, b) == EditDistance(b, a)
  {
    DistSymUpTo(a, b, |a| + |b|);
  }

  lemma {:induction false} DistSelf(a: string, b: string, i: nat)
    requires i <= |a| && i <= |b| && a[..i] == b[..i]
    ensures Dist(a, b, i, i) == 0
  {
    if i > 0 {
      assert a[..i - 1] == a[..i][..i - 1] && b[..i - 1] == b[..i][..i - 1];
      assert a[i - 1] == a[..i][i - 1] && b[i - 1] == b[..i][i - 1];
      DistSelf(a, b, i - 1);
    }
  }

  lemma {:induction false} DistZero(a: string, b: string, i: nat, j: nat)
    requires i <= |a| && j <= |b| && Dist(a, b, i, j) == 0
    ensures i == j && a[..i] == b[..j]
    decreases i + j
  {
    if i > 0 && j > 0 {
      DistZero(a, b, i - 1, j - 1);
      assert a[..i] == a[..i - 1] + [a[i - 1]] && b[..j] == b[..j - 1] + [b[j - 1]];
    }
  }

  /** The distance is zero exactly for equal strings. */
  lemma EditDistanceZeroIff(a: string, b: string)
    ensures EditDistance(a, b) == 0 <==> a == b
  {
    if a == b {
      DistSelf(a, b, |a|);
    }
    if EditDistance(a, b) == 0 {
      DistZero(a, b, |a|, |b|);
      assert a == a[..|a|] && b == b[..|b|];
    }
  }


  /** One cell is at least the length gap once the three cells it is built from are. */
  lemma DistLowerStep(a: string, b: string, i: nat, j: nat)
    requires 0 < i <= |a| && 0 < j <= |b|
    requires Abs(i - 1 - j) <= Dist(a, b, i - 1, j)
    requires Abs(i - (j - 1)) <= Dist(a, b, i, j - 1)
    requires Abs((i - 1) - (j - 1)) <= Dist(a, b, i - 1, j - 1)
    ensures Abs(i - j) <= Dist(a, b, i, j)
  {
  }

  /** Every cell on or above the anti-diagonal i + j == n is at least the gap between i and j. */
  lemma {:induction false} DistLowerUpTo(a: string, b: string, n: nat)
    ensures forall i: nat, j: nat :: i <= |a| && j <= |b| && i + j <= n ==> Abs(i - j) <= Dist(a, b, i, j)
  {
    if n > 0 {
      DistLowerUpTo(a, b, n - 1);
    }
    forall i: nat, j: nat | i <= |a| && j <= |b| && i + j == n
      ensures Abs(i - j) <= Dist(a, b, i, j)
    {
      if i > 0 && j > 0 {
        DistLowerStep(a, b, i, j);
      }
    }
  }

  /** One cell is at most the larger index once the diagonal cell before it is. */
  lemma DistUpperStep(a: string, b: string, i: nat, j: nat)
    requires 0 < i <= |a| && 0 < j <= |b|
    requires Dist(a, b, i - 1, j - 1) <= Max(i - 1, j - 1)
    ensures Dist(a, b, i, j) <= Max(i, j)
  {
  }

  /** Every cell on or above the anti-diagonal i + j == n is at most the larger of i and j. */
  lemma {:induction false} DistUpperUpTo(a: string, b: string, n: nat)
    ensures forall i: nat, j: nat :: i <= |a| && j <= |b| && i + j <= n ==> Dist(a, b, i, j) <= Max(i, j)
  {
    if n > 0 {
      DistUpperUpTo(a, b, n - 1);
    }
    forall i: nat, j: nat | i <= |a| && j <= |b| && i + j == n
      ensures Dist(a, b, i, j) <= Max(i, j)
    {
      if i > 0 && j > 0 {
        DistUpperStep(a, b, i, j);
      }
    }
  }

  /** One cell of two disjoint strings is the larger index once the three cells it is built from are. */
  lemma DistDisjointStep(a: string, b: string, i: nat, j: nat)
    requires 0 < i <= |a| && 0 < j <= |b| && a[i - 1] != b[j - 1]
    requires Dist(a, b, i - 1, j) == Max(i - 1, j)
    requires Dist(a, b, i, j - 1) == Max(i, j - 1)
    requires Dist(a, b, i - 1, j - 1) == Max(i - 1, j - 1)
    ensures Dist(a, b, i, j) == Max(i, j)
  {
  }

  /** For disjoint strings, every cell on or above the anti-diagonal i + j == n is the larger index. */
  lemma {:induction false} DistDisjointUpTo(a: string, b: string, n: nat)
    requires forall x :: 0 <= x < |a| ==> a[x] !in b
    ensures forall i: nat, j: nat :: i <= |a| && j <= |b| && i + j <= n ==> Dist(a, b, i, j) == Max(i, j)
  {
    if n > 0 {
      DistDisjointUpTo(a, b, n - 1);
    }
    forall i: nat, j: nat | i <= |a| && j <= |b| && i + j == n
      ensures Dist(a, b, i, j) == Max(i, j)
    {
      if i > 0 && j > 0 {
        assert a[i - 1] != b[j - 1];
        DistDisjointStep(a, b, i, j);
      }
    }
  }

  /** Strings with no character in common are as far apart as the longer one is long. */
  lemma EditDistanceDisjoint(a: string, b: string)
    requires forall x :: 0 <= x < |a| ==> a[x] !in b
    ensures EditDistance(a, b) == Max(|a|, |b|)
  {
    DistDisjointUpTo(a, b, |a| + |b|);
  }

  /** At least the difference of the lengths, at most the longer length. */
  lemma EditDistanceBounds(a: string, b: string)
    ensures Abs(|a| - |b|) <= EditDistance(a, b)
    ensures EditDistance(a, b) <= Max(|a|, |b|)
  {
    DistLowerUpTo(a, b, |a| + |b|);
    DistUpperUpTo(a, b, |a| + |b|);
  }

  /**
   * Graph._levenshtein: the early returns for equal or empty strings, the
   * swap that makes `a` the longer string, then the two-row table.
   */
  method Levenshtein(a0: string, b0: string) returns (d: nat)
    ensures d == EditDistance(a0, b0)
  {
    if a0 == b0 {
      EditDistanceZeroIff(a0, b0);
      return 0;
    }
    if |a0| == 0 {
      return |b0|;
    }
    if |b0| == 0 {
      return |a0|;
    }
    var a, b := a0, b0;
    if |a| < |b| {
      a, b := b, a;
      EditDistanceSymmetric(a0, b0);
    }
    d := TwoRows(a, b);
  }

  /**
   * The table of Graph._levenshtein, kept as two rows of |b| + 1 cells:
   * `prev` holds the row for a[..i - 1], `curr` receives the row for a[..i],
   * and the two are exchanged after each row.
   */
  method TwoRows(a: string, b: string) returns (d: nat)
    requires 0 < |b| <= |a|
    ensures d == Dist(a, b, |a|, |b|)
  {
    var prev := new nat[|b| + 1];
    var curr := new nat[|b| + 1];
    var j := 0;
    while j <= |b|
      invariant 0 <= j <= |b| + 1
      invariant forall k :: 0 <= k < j ==> prev[k] == Dist(a, b, 0, k)
    {
      prev[j] := j;
      j := j + 1;
    }
    var i := 1;
    while i <= |a|
      invariant 1 <= i <= |a| + 1
      invariant fresh(prev) && fresh(curr)
      invariant prev != curr && prev.Length == |b| + 1 && curr.Length == |b| + 1
      invariant forall k :: 0 <= k <= |b| ==> prev[k] == Dist(a, b, i - 1, k)
    {
      FillRow(a, b, i, prev, curr);
      prev, curr := curr, prev;
      i := i + 1;
    }
    d := prev[|b|];
  }

  /** One row of the table: curr[j] from prev[j], curr[j - 1] and prev[j - 1]. */
  method FillRow(a: string, b: string, i: nat, prev: array<nat>, curr: array<nat>)
    requires 1 <= i <= |a|
    requires prev != curr && prev.Length == |b| + 1 && curr.Length == |b| + 1
    requires forall k {:trigger prev[k]} :: 0 <= k <= |b| ==> prev[k] == Dist(a, b, i - 1, k)
    modifies curr
    ensures forall k :: 0 <= k <= |b| ==> curr[k] == Dist(a, b, i, k)
  {
    curr[0] := i;
    var ca := a[i - 1];
    var j := 1;
    while j <= |b|
      invariant 1 <= j <= |b| + 1
      invariant forall k {:trigger curr[k]} :: 0 <= k < j ==> curr[k] == Dist(a, b, i, k)
    {
      var cost := if ca == b[j - 1] then 0 else 1;
      curr[j] := Min3(prev[j] + 1, curr[j - 1] + 1, prev[j - 1] + cost);
      j := j + 1;
    }
  }
}

/**
 * The cache-friendly transposes of lab8/trans.c. A has N rows of M columns, B has M rows of N columns.
 * Each branch of the submission is a method of its own, for every size its loops can handle,
 * and leaves the same matrix as the plain loop.
 */
module Transpose {
  import opened Prelude

  /** A and B are distinct and of transposed shapes: what the C parameter types and the caller give. */
  ghost predicate Shapes(A: array2<int>, B: array2<int>) {
    A != B && B.Length0 == A.Length1 && B.Length1 == A.Length0
  }

  /** B is the transpose of A on rows lo <= m < hi and columns left <= n < right of A. */
  ghost predicate Done(A: array2<int>, B: array2<int>, lo: int, hi: int, left: int, right: int)
    requires Shapes(A, B) && 0 <= lo <= hi <= A.Length0 && 0 <= left <= right <= A.Length1
    reads A, B
  {
    forall n, m :: left <= n < right && lo <= m < hi ==> B[n, m] == A[m, n]
  }

  ghost predicate IsTransposed(A: array2<int>, B: array2<int>)
    requires Shapes(A, B)
    reads A, B
  {
    Done(A, B, 0, A.Length0, 0, A.Length1)
  }

  /** The transpose is unique: any two ways of computing it leave the same matrix. */
  lemma OneTranspose(A: array2<int>, B: array2<int>, C: array2<int>)
    requires Shapes(A, B) && Shapes(A, C) && IsTransposed(A, B)
    ensures IsTransposed(A, C) <==> forall n, m :: 0 <= n < B.Length0 && 0 <= m < B.Length1 ==> B[n, m] == C[n, m]
  {
  }

  method CheckTranspose(A: array2<int>, B: array2<int>) returns (yes: bool)
    requires Shapes(A, B)
    ensures yes <==> IsTransposed(A, B)
  {
    for i := 0 to A.Length0
      invariant Done(A, B, 0, i, 0, A.Length1)
    {
      for j := 0 to A.Length1
        invariant Done(A, B, i, i + 1, 0, j)
      {
        if A[i, j] != B[j, i] { return false; }
      }
    }
    return true;
  }

  method Trans(A: array2<int>, B: array2<int>)
    requires Shapes(A, B)
    modifies B
    ensures IsTransposed(A, B)
  {
    for i := 0 to A.Length0
      invariant Done(A, B, 0, i, 0, A.Length1)
    {
      for j := 0 to A.Length1
        invariant Done(A, B, 0, i, 0, A.Length1) && Done(A, B, i, i + 1, 0, j)
      {
        B[j, i] := A[i, j];
      }
    }
  }

  // ---------- tiles of 24 rows and 8 columns ----------

  /** Eight values of row m go through temporaries. */
  method MoveEight(A: array2<int>, B: array2<int>, m: nat, j: nat)
    requires Shapes(A, B) && m < A.Length0 && j + 8 <= A.Length1
    modifies B
    ensures Done(A, B, m, m + 1, j, j + 8)
    ensures forall n, k :: 0 <= n < B.Length0 && 0 <= k < B.Length1 && !(j <= n < j + 8 && k == m) ==> B[n, k] == old(B[n, k])
  {
    var tmp1, tmp2, tmp3, tmp4 := A[m, j], A[m, j + 1], A[m, j + 2], A[m, j + 3];
    var tmp5, tmp6, tmp7, tmp8 := A[m, j + 4], A[m, j + 5], A[m, j + 6], A[m, j + 7];
    B[j, m] := tmp1;
    B[j + 1, m] := tmp2;
    B[j + 2, m] := tmp3;
    B[j + 3, m] := tmp4;
    B[j + 4, m] := tmp5;
    B[j + 5, m] := tmp6;
    B[j + 6, m] := tmp7;
    B[j + 7, m] := tmp8;
  }

  /** The branch for 32 by 32; any matrix whose rows are a multiple of 8 long will do. */
  method Tiles24By8(A: array2<int>, B: array2<int>)
    requires Shapes(A, B) && A.Length1 % 8 == 0
    modifies B
    ensures IsTransposed(A, B)
  {
    var N, M := A.Length0, A.Length1;
    var i := 0;
    while i < N
      invariant 0 <= i && Done(A, B, 0, Min(i, N), 0, M)
    {
      var j := 0;
      while j < M
        invariant 0 <= j <= M && j % 8 == 0
        invariant Done(A, B, 0, i, 0, M) && Done(A, B, i, Min(i + 24, N), 0, j)
      {
        var m := i;
        while m < i + 24 && m < N
          invariant i <= m <= Min(i + 24, N)
          invariant Done(A, B, 0, i, 0, M) && Done(A, B, i, Min(i + 24, N), 0, j) && Done(A, B, i, m, j, j + 8)
        {
          MoveEight(A, B, m, j);
          m := m + 1;
        }
        j := j + 8;
      }
      i := i + 24;
    }
  }

  // ---------- tiles of 18 by 18 ----------

  /** The branch for 61 by 67; any sizes will do. */
  method Tiles18By18(A: array2<int>, B: array2<int>)
    requires Shapes(A, B)
    modifies B
    ensures IsTransposed(A, B)
  {
    var N, M := A.Length0, A.Length1;
    var i := 0;
    while i < N
      invariant 0 <= i && Done(A, B, 0, Min(i, N), 0, M)
    {
      var j := 0;
      while j < M
        invariant 0 <= j
        invariant Done(A, B, 0, i, 0, M) && Done(A, B, i, Min(i + 18, N), 0, Min(j, M))
      {
        Tile18(A, B, i, j);
        j := j + 18;
      }
      i := i + 18;
    }
  }

  method Tile18(A: array2<int>, B: array2<int>, i: nat, j: nat)
    requires Shapes(A, B) && i < A.Length0 && j < A.Length1
    modifies B
    ensures Done(A, B, i, Min(i + 18, A.Length0), j, Min(j + 18, A.Length1))
    ensures forall n, k :: 0 <= n < B.Length0 && 0 <= k < B.Length1 && !(j <= n < j + 18 && i <= k < i + 18) ==> B[n, k] == old(B[n, k])
  {
    var N, M := A.Length0, A.Length1;
    var m := i;
    while m < i + 18 && m < N
      invariant i <= m <= Min(i + 18, N) && Done(A, B, i, m, j, Min(j + 18, M))
      invariant forall n, k :: 0 <= n < M && 0 <= k < N && !(j <= n < j + 18 && i <= k < m) ==> B[n, k] == old(B[n, k])
    {
      var n := j;
      while n < j + 18 && n < M
        invariant j <= n <= Min(j + 18, M) && Done(A, B, i, m, j, Min(j + 18, M)) && Done(A, B, m, m + 1, j, n)
        invariant forall l, k :: 0 <= l < M && 0 <= k < N && !(j <= l < j + 18 && i <= k <= m) ==> B[l, k] == old(B[l, k])
      {
        B[n, m] := A[m, n];
        n := n + 1;
      }
      m := m + 1;
    }
  }

  // ---------- tiles of 8 by 8, staged in B ----------

  /** The first four rows of B's tile hold, to the right, what belongs to its last four rows, to the left. */
  ghost predicate Parked(A: array2<int>, B: array2<int>, i: nat, j: nat, lo: int, hi: int, left: int)
    requires Shapes(A, B) && i + 8 <= A.Length0 && j + 8 <= A.Length1 && i <= lo <= hi <= i + 4 && j <= left <= j + 4
    reads A, B
  {
    forall n, k :: left <= n < j + 4 && lo + 4 <= k < hi + 4 ==> B[n, k] == A[k - 4, n + 4]
  }

  /** Row m of the upper half: its left quarter goes home, its right quarter is parked. */
  method ParkRow(A: array2<int>, B: array2<int>, i: nat, j: nat, m: nat)
    requires Shapes(A, B) && i + 8 <= A.Length0 && j + 8 <= A.Length1 && i <= m < i + 4
    modifies B
    ensures Done(A, B, m, m + 1, j, j + 4) && Parked(A, B, i, j, m, m + 1, j)
    ensures forall n, k :: 0 <= n < B.Length0 && 0 <= k < B.Length1 && !(j <= n < j + 4 && (k == m || k == m + 4)) ==> B[n, k] == old(B[n, k])
  {
    var tmp1, tmp2, tmp3, tmp4 := A[m, j], A[m, j + 1], A[m, j + 2], A[m, j + 3];
    var tmp5, tmp6, tmp7, tmp8 := A[m, j + 4], A[m, j + 5], A[m, j + 6], A[m, j + 7];
    B[j, m] := tmp1;
    B[j + 1, m] := tmp2;
    B[j + 2, m] := tmp3;
    B[j + 3, m] := tmp4;
    B[j, m + 4] := tmp5;
    B[j + 1, m + 4] := tmp6;
    B[j + 2, m + 4] := tmp7;
    B[j + 3, m + 4] := tmp8;
  }

  method ParkUpper(A: array2<int>, B: array2<int>, i: nat, j: nat)
    requires Shapes(A, B) && i + 8 <= A.Length0 && j + 8 <= A.Length1
    modifies B
    ensures Done(A, B, i, i + 4, j, j + 4) && Parked(A, B, i, j, i, i + 4, j)
    ensures forall n, m :: 0 <= n < B.Length0 && 0 <= m < B.Length1 && !(j <= n < j + 8 && i <= m < i + 8) ==> B[n, m] == old(B[n, m])
  {
    for m' := i to i + 4
      invariant Done(A, B, i, m', j, j + 4) && Parked(A, B, i, j, i, m', j)
      invariant forall n, m :: 0 <= n < B.Length0 && 0 <= m < B.Length1 && !(j <= n < j + 8 && i <= m < i + 8) ==> B[n, m] == old(B[n, m])
    {
      ParkRow(A, B, i, j, m');
    }
  }

  /** Column n of A's lower half takes the place of what is parked in row n of B, which moves to row n + 4. */
  method SwapRow(A: array2<int>, B: array2<int>, i: nat, j: nat, n: nat)
    requires Shapes(A, B) && i + 8 <= A.Length0 && j + 8 <= A.Length1 && j <= n < j + 4
    requires Parked(A, B, i, j, i, i + 4, n)
    modifies B
    ensures Done(A, B, i + 4, i + 8, n, n + 1) && Done(A, B, i, i + 4, n + 4, n + 5)
    ensures forall l, k :: 0 <= l < B.Length0 && 0 <= k < B.Length1 && !(l == n && i + 4 <= k < i + 8) && !(l == n + 4 && i <= k < i + 4) ==>
              B[l, k] == old(B[l, k])
  {
    var m := i + 4;
    var tmp1, tmp2, tmp3, tmp4 := A[m, n], A[m + 1, n], A[m + 2, n], A[m + 3, n];
    var tmp5, tmp6, tmp7, tmp8 := B[n, m], B[n, m + 1], B[n, m + 2], B[n, m + 3];
    B[n, m] := tmp1;
    B[n, m + 1] := tmp2;
    B[n, m + 2] := tmp3;
    B[n, m + 3] := tmp4;
    B[n + 4, m - 4] := tmp5;
    B[n + 4, m - 3] := tmp6;
    B[n + 4, m - 2] := tmp7;
    B[n + 4, m - 1] := tmp8;
  }

  method SwapParked(A: array2<int>, B: array2<int>, i: nat, j: nat)
    requires Shapes(A, B) && i + 8 <= A.Length0 && j + 8 <= A.Length1
    requires Done(A, B, i, i + 4, j, j + 4) && Parked(A, B, i, j, i, i + 4, j)
    modifies B
    ensures Done(A, B, i, i + 4, j, j + 8) && Done(A, B, i + 4, i + 8, j, j + 4)
    ensures forall n, m :: 0 <= n < B.Length0 && 0 <= m < B.Length1 && !(j <= n < j + 8 && i <= m < i + 8) ==> B[n, m] == old(B[n, m])
  {
    for n' := j to j + 4
      invariant Done(A, B, i, i + 4, j, j + 4) && Parked(A, B, i, j, i, i + 4, n')
      invariant Done(A, B, i + 4, i + 8, j, n') && Done(A, B, i, i + 4, j + 4, n' + 4)
      invariant forall n, m :: 0 <= n < B.Length0 && 0 <= m < B.Length1 && !(j <= n < j + 8 && i <= m < i + 8) ==> B[n, m] == old(B[n, m])
    {
      SwapRow(A, B, i, j, n');
    }
  }

  method LastQuarter(A: array2<int>, B: array2<int>, i: nat, j: nat)
    requires Shapes(A, B) && i + 8 <= A.Length0 && j + 8 <= A.Length1
    modifies B
    ensures Done(A, B, i + 4, i + 8, j + 4, j + 8)
    ensures forall n, m :: 0 <= n < B.Length0 && 0 <= m < B.Length1 && !(j + 4 <= n < j + 8 && i + 4 <= m < i + 8) ==> B[n, m] == old(B[n, m])
  {
    for m' := i + 4 to i + 8
      invariant Done(A, B, i + 4, m', j + 4, j + 8)
      invariant forall n, m :: 0 <= n < B.Length0 && 0 <= m < B.Length1 && !(j + 4 <= n < j + 8 && i + 4 <= m < i + 8) ==> B[n, m] == old(B[n, m])
    {
      var n := j + 4;
      var tmp1, tmp2, tmp3, tmp4 := A[m', n], A[m', n + 1], A[m', n + 2], A[m', n + 3];
      B[n, m'] := tmp1;
      B[n + 1, m'] := tmp2;
      B[n + 2, m'] := tmp3;
      B[n + 3, m'] := tmp4;
    }
  }

  method StagedTile(A: array2<int>, B: array2<int>, i: nat, j: nat)
    requires Shapes(A, B) && i + 8 <= A.Length0 && j + 8 <= A.Length1
    modifies B
    ensures Done(A, B, i, i + 8, j, j + 8)
    ensures forall n, m :: 0 <= n < B.Length0 && 0 <= m < B.Length1 && !(j <= n < j + 8 && i <= m < i + 8) ==> B[n, m] == old(B[n, m])
  {
    ParkUpper(A, B, i, j);
    SwapParked(A, B, i, j);
    LastQuarter(A, B, i, j);
  }

  /** The branch for 64 by 64; any sizes that are multiples of 8 will do. */
  method StagedTiles(A: array2<int>, B: array2<int>)
    requires Shapes(A, B) && A.Length0 % 8 == 0 && A.Length1 % 8 == 0
    modifies B
    ensures IsTransposed(A, B)
  {
    var N, M := A.Length0, A.Length1;
    var i := 0;
    while i < N
      invariant 0 <= i <= N && i % 8 == 0 && Done(A, B, 0, i, 0, M)
    {
      var j := 0;
      while j < M
        invariant 0 <= j <= M && j % 8 == 0 && Done(A, B, 0, i, 0, M) && Done(A, B, i, i + 8, 0, j)
      {
        StagedTile(A, B, i, j);
        j := j + 8;
      }
      i := i + 8;
    }
  }

  // ---------- the submission ----------

  /** Whatever the shape and whatever was in B. */
  method TransposeSubmit(A: array2<int>, B: array2<int>)
    requires Shapes(A, B)
    modifies B
    ensures IsTransposed(A, B)
  {
    var M, N := A.Length1, A.Length0;
    if M == 32 && N == 32 {
      Tiles24By8(A, B);
    } else if M == 64 && N == 64 {
      StagedTiles(A, B);
    } else if M == 61 && N == 67 {
      Tiles18By18(A, B);
    } else {
      Trans(A, B);
    }
  }
}

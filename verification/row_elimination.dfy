/** Forward Gaussian elimination over GF(2) by row operations, the rank built
    on it, and the choice of Hadamard qubits from the pivots of [c | d]
    (Lemma 6 of Aaronson and Gottesman, "Improved simulation of stabilizer
    circuits"). */
module RowElimination {
  import opened Options
  import opened Gf2

  /** A pivot position (row, column) in discovery order. */
  datatype Pivot = Pivot(row: nat, col: nat)

  /** What the elimination leaves behind: the reduced copy of the matrix
      and the pivot list it reports. */
  datatype Reduction = Reduction(reduced: Matrix, pivots: seq<Pivot>)

  /** Rows k..n-1 of column c are all zero. */
  predicate ZeroFrom(M: Matrix, n: nat, m: nat, k: nat, c: nat)
    requires IsMatrix(M, n, m) && c < m
  {
    forall t :: k <= t < n ==> !M[t][c]
  }

  /** The pivot rows count up from `k` one by one, and the pivot columns
      strictly increase inside [j, m). */
  predicate PivotShape(ps: seq<Pivot>, k: nat, j: nat, m: nat) {
    && (forall t :: 0 <= t < |ps| ==> ps[t].row == k + t && j <= ps[t].col < m)
    && (forall s, t :: 0 <= s < t < |ps| ==> ps[s].col < ps[t].col)
  }

  /** The first row at or after `i` with a 1 in column `j`. */
  function FindPivotRow(M: Matrix, n: nat, m: nat, j: nat, i: nat): (r: Option<nat>)
    requires IsMatrix(M, n, m) && j < m && i <= n
    ensures r.Some? ==> i <= r.value < n && M[r.value][j]
    ensures r.Some? ==> forall t :: i <= t < r.value ==> !M[t][j]
    ensures r.None? <==> forall t :: i <= t < n ==> !M[t][j]
    decreases n - i
  {
    if i == n then None
    else if M[i][j] then Some(i)
    else FindPivotRow(M, n, m, j, i + 1)
  }

  /** Adds pivot row `k` into every row from `i` on that has a 1 in column `j`. */
  function ClearBelow(M: Matrix, n: nat, m: nat, k: nat, j: nat, i: nat): (r: Matrix)
    requires IsMatrix(M, n, m) && k < i <= n && j < m
    ensures IsMatrix(r, n, m)
    ensures forall t :: 0 <= t < i ==> r[t] == M[t]
    decreases n - i
  {
    if i == n then M
    else ClearBelow(if M[i][j] then AddRow(M, n, m, k, i) else M, n, m, k, j, i + 1)
  }

  /** Every row from i on with a 1 in column j has had row k added; the
      other rows are unchanged. */
  lemma {:induction false} ClearBelowRows(M: Matrix, n: nat, m: nat, k: nat, j: nat, i: nat)
    requires IsMatrix(M, n, m) && k < i <= n && j < m
    ensures forall t :: i <= t < n ==>
      ClearBelow(M, n, m, k, j, i)[t] == if M[t][j] then XorRow(M[t], M[k]) else M[t]
    decreases n - i
  {
    if i < n {
      var M' := if M[i][j] then AddRow(M, n, m, k, i) else M;
      ClearBelowRows(M', n, m, k, j, i + 1);
      assert ClearBelow(M, n, m, k, j, i)[i] == M'[i];
    }
  }

  /** With a 1 at (k, j), clearing below makes (k, j) the only 1 of column j
      from row k on, and keeps every column that was zero from row k on. */
  lemma {:induction false} ClearBelowPivot(M: Matrix, n: nat, m: nat, k: nat, j: nat)
    requires IsMatrix(M, n, m) && k < n && j < m && M[k][j]
    ensures var C := ClearBelow(M, n, m, k, j, k + 1);
      C[k][j] && ZeroFrom(C, n, m, k + 1, j)
      && forall c :: 0 <= c < m && ZeroFrom(M, n, m, k, c) ==> ZeroFrom(C, n, m, k, c)
  {
    var C := ClearBelow(M, n, m, k, j, k + 1);
    ClearBelowRows(M, n, m, k, j, k + 1);
    assert C[k] == M[k];
    forall t | k + 1 <= t < n
      ensures !C[t][j]
    {
      assert C[t] == if M[t][j] then XorRow(M[t], M[k]) else M[t];
    }
    forall c | 0 <= c < m && ZeroFrom(M, n, m, k, c)
      ensures ZeroFrom(C, n, m, k, c)
    {
      forall t | k <= t < n
        ensures !C[t][c]
      {
        if t > k {
          assert C[t] == if M[t][j] then XorRow(M[t], M[k]) else M[t];
        }
      }
    }
  }

  /** The work on column `j` with current row `k`: take row k as the pivot if
      it has a 1 there, else add the first lower row with a 1 into row k;
      then clear the column below the pivot. The flag says whether a pivot
      was found. */
  function PivotStep(M: Matrix, n: nat, m: nat, k: nat, j: nat): (r: (Matrix, bool))
    requires IsMatrix(M, n, m) && k < n && j < m
    ensures IsMatrix(r.0, n, m)
    ensures forall t :: 0 <= t < k ==> r.0[t] == M[t]
    ensures r.1 <==> !ZeroFrom(M, n, m, k, j)
    ensures r.1 ==> r.0[k][j] && ZeroFrom(r.0, n, m, k + 1, j)
    ensures !r.1 ==> r.0 == M
    ensures forall c :: 0 <= c < m && ZeroFrom(M, n, m, k, c) ==> ZeroFrom(r.0, n, m, k, c)
  {
    if M[k][j] then
      ClearBelowPivot(M, n, m, k, j);
      (ClearBelow(M, n, m, k, j, k + 1), true)
    else
      match FindPivotRow(M, n, m, j, k + 1)
      case None => (M, false)
      case Some(i) =>
        var M1 := AddRow(M, n, m, i, k);
        assert M1[k][j];
        ClearBelowPivot(M1, n, m, k, j);
        assert forall c :: 0 <= c < m && ZeroFrom(M, n, m, k, c) ==> ZeroFrom(M1, n, m, k, c);
        (ClearBelow(M1, n, m, k, j, k + 1), true)
  }

  /** Scans columns j..m-1 with current row k, stopping once every row has
      been used as a pivot row. */
  function Eliminate(M: Matrix, n: nat, m: nat, k: nat, j: nat): (r: Reduction)
    requires IsMatrix(M, n, m) && k <= n && j <= m
    ensures IsMatrix(r.reduced, n, m)
    ensures forall t :: 0 <= t < k ==> r.reduced[t] == M[t]
    ensures PivotShape(r.pivots, k, j, m)
    ensures |r.pivots| <= n - k && |r.pivots| <= m - j
    decreases m - j
  {
    if j == m || k == n then Reduction(M, [])
    else
      var step := PivotStep(M, n, m, k, j);
      if step.1 then
        var rest := Eliminate(step.0, n, m, k + 1, j + 1);
        PivotShapeCons(rest.pivots, k, j, m);
        Reduction(rest.reduced, [Pivot(k, j)] + rest.pivots)
      else
        Eliminate(step.0, n, m, k, j + 1)
  }

  /** A pivot at (k, j) in front of pivots from (k + 1, j + 1) on keeps the
      staircase shape. */
  lemma {:induction false} PivotShapeCons(ps: seq<Pivot>, k: nat, j: nat, m: nat)
    requires j < m && PivotShape(ps, k + 1, j + 1, m)
    ensures PivotShape([Pivot(k, j)] + ps, k, j, m)
  {
    var qs := [Pivot(k, j)] + ps;
    assert forall t :: 0 < t < |qs| ==> qs[t] == ps[t - 1];
  }

  /** The elimination of a whole n x m matrix, starting at row 0, column 0.
      Row additions are invertible, so the reduced copy has independent rows
      exactly when A does. */
  function RowReduce(A: Matrix, n: nat, m: nat): (r: Reduction)
    requires IsMatrix(A, n, m)
    ensures IsMatrix(r.reduced, n, m)
    ensures RowsIndependent(r.reduced, n, m) <==> RowsIndependent(A, n, m)
  {
    EliminateKeepsIndependence(A, n, m);
    Eliminate(A, n, m, 0, 0)
  }

  lemma {:induction false} EliminateKeepsIndependence(A: Matrix, n: nat, m: nat)
    requires IsMatrix(A, n, m)
    ensures RowsIndependent(Eliminate(A, n, m, 0, 0).reduced, n, m) <==> RowsIndependent(A, n, m)
  {
    if RowsIndependent(A, n, m) {
      EliminateIndependent(A, n, m, 0, 0, Eliminate(A, n, m, 0, 0).reduced);
    } else {
      EliminateDependent(A, n, m, 0, 0, Eliminate(A, n, m, 0, 0).reduced);
    }
  }

  /** The pivot list: rows 0, 1, ..., p-1 in order, columns strictly
      increasing and below m, and no more pivots than rows or columns. */
  function Pivots(A: Matrix, n: nat, m: nat): (ps: seq<Pivot>)
    requires IsMatrix(A, n, m)
    ensures forall t :: 0 <= t < |ps| ==> ps[t].row == t && ps[t].col < m
    ensures forall s, t :: 0 <= s < t < |ps| ==> ps[s].col < ps[t].col
    ensures |ps| <= n && |ps| <= m
  {
    RowReduce(A, n, m).pivots
  }

  /** The rank is the number of pivots, so it is at most the row count and
      at most the column count. */
  function Rank(A: Matrix, n: nat, m: nat): (r: nat)
    requires IsMatrix(A, n, m)
    ensures r <= n && r <= m
  {
    |Pivots(A, n, m)|
  }

  /** A row is zero before column `c`. */
  predicate ZeroBefore(row: Row, c: nat)
    requires c <= |row|
  {
    forall x :: 0 <= x < c ==> !row[x]
  }

  /** Row-echelon form with the given pivots: pivot row t has its leading 1
      at the pivot column, and every row after the last pivot row is zero. */
  predicate EchelonFrom(R: Matrix, n: nat, m: nat, k: nat, ps: seq<Pivot>)
    requires IsMatrix(R, n, m)
    requires PivotShape(ps, k, 0, m) && k + |ps| <= n
  {
    && (forall t :: 0 <= t < |ps| ==> R[k + t][ps[t].col] && ZeroBefore(R[k + t], ps[t].col))
    && (forall i :: k + |ps| <= i < n ==> ZeroBefore(R[i], m))
  }

  /** Column j holds a pivot: it is recorded and the elimination moves
      on to the next row and column. */
  lemma {:induction false} EliminatePivot(M: Matrix, n: nat, m: nat, k: nat, j: nat)
    requires IsMatrix(M, n, m) && k < n && j < m && PivotStep(M, n, m, k, j).1
    ensures var rest := Eliminate(PivotStep(M, n, m, k, j).0, n, m, k + 1, j + 1);
      Eliminate(M, n, m, k, j) == Reduction(rest.reduced, [Pivot(k, j)] + rest.pivots)
  {
  }

  /** Column j is zero from row k on: the elimination moves on to the next
      column with the matrix unchanged. */
  lemma {:induction false} EliminateSkip(M: Matrix, n: nat, m: nat, k: nat, j: nat)
    requires IsMatrix(M, n, m) && k < n && j < m && !PivotStep(M, n, m, k, j).1
    ensures ZeroFrom(M, n, m, k, j)
    ensures Eliminate(M, n, m, k, j) == Eliminate(M, n, m, k, j + 1)
  {
  }

  /** A pivot (k, j) whose row is zero before column j, placed on top of an
      echelon form from row k + 1 whose pivots lie right of j, gives an
      echelon form from row k. */
  lemma {:induction false} EchelonCons(R: Matrix, n: nat, m: nat, k: nat, j: nat, ps: seq<Pivot>)
    requires IsMatrix(R, n, m) && k < n && j < m
    requires PivotShape(ps, k + 1, j + 1, m) && k + 1 + |ps| <= n
    requires R[k][j] && ZeroBefore(R[k], j)
    requires EchelonFrom(R, n, m, k + 1, ps)
    ensures PivotShape([Pivot(k, j)] + ps, k, 0, m)
    ensures EchelonFrom(R, n, m, k, [Pivot(k, j)] + ps)
  {
    var qs := [Pivot(k, j)] + ps;
    assert forall t :: 1 <= t < |qs| ==> qs[t] == ps[t - 1];
    forall t | 0 <= t < |qs|
      ensures R[k + t][qs[t].col] && ZeroBefore(R[k + t], qs[t].col)
    {
      if t > 0 {
        assert k + 1 + (t - 1) == k + t;
      }
    }
  }

  /** Rows k.. are zero in every column before j. */
  predicate ZeroLeft(M: Matrix, n: nat, m: nat, k: nat, j: nat)
    requires IsMatrix(M, n, m) && j <= m
  {
    forall c :: 0 <= c < j ==> ZeroFrom(M, n, m, k, c)
  }

  lemma {:induction false} ZeroLeftExtend(M: Matrix, n: nat, m: nat, k: nat, j: nat)
    requires IsMatrix(M, n, m) && j < m && ZeroLeft(M, n, m, k, j) && ZeroFrom(M, n, m, k, j)
    ensures ZeroLeft(M, n, m, k, j + 1)
  {
  }

  /** After a pivot step at (k, j) on rows that are zero in the columns
      before j, row k has its leading 1 at column j and the rows below are
      zero in the columns up to j. */
  lemma {:induction false} PivotStepZero(M: Matrix, n: nat, m: nat, k: nat, j: nat, M': Matrix)
    requires IsMatrix(M, n, m) && k < n && j < m && PivotStep(M, n, m, k, j).1
    requires ZeroLeft(M, n, m, k, j)
    requires M' == PivotStep(M, n, m, k, j).0
    ensures IsMatrix(M', n, m) && M'[k][j] && ZeroBefore(M'[k], j) && ZeroLeft(M', n, m, k + 1, j + 1)
  {
    forall c | 0 <= c < j
      ensures ZeroFrom(M', n, m, k, c)
    {
      assert ZeroFrom(M, n, m, k, c);
    }
    forall x | 0 <= x < j
      ensures !M'[k][x]
    {
      assert ZeroFrom(M', n, m, k, x);
    }
    var below := k + 1;
    forall c | 0 <= c < j + 1
      ensures ZeroFrom(M', n, m, below, c)
    {
      if c < j {
        assert ZeroFrom(M', n, m, k, c);
      }
    }
  }

  /** The pivot case of the echelon proof, given the echelon form of the
      rest of the elimination. */
  lemma {:induction false} EchelonPivotCase(M: Matrix, n: nat, m: nat, k: nat, j: nat, M': Matrix)
    requires IsMatrix(M, n, m) && k < n && j < m && PivotStep(M, n, m, k, j).1
    requires M' == PivotStep(M, n, m, k, j).0
    requires M'[k][j] && ZeroBefore(M'[k], j)
    requires EchelonFrom(Eliminate(M', n, m, k + 1, j + 1).reduced, n, m, k + 1, Eliminate(M', n, m, k + 1, j + 1).pivots)
    ensures EchelonFrom(Eliminate(M, n, m, k, j).reduced, n, m, k, Eliminate(M, n, m, k, j).pivots)
  {
    var rest := Eliminate(M', n, m, k + 1, j + 1);
    EliminatePivot(M, n, m, k, j);
    assert rest.reduced[k] == M'[k];
    EchelonCons(rest.reduced, n, m, k, j, rest.pivots);
  }

  /** With every column or every row used up, the rows from k on are
      zero: an echelon form with no further pivots. */
  lemma {:induction false} EchelonEnd(M: Matrix, n: nat, m: nat, k: nat, j: nat)
    requires IsMatrix(M, n, m) && k <= n && j <= m && (j == m || k == n)
    requires ZeroLeft(M, n, m, k, j)
    ensures EchelonFrom(M, n, m, k, [])
  {
    forall i | k <= i < n
      ensures ZeroBefore(M[i], m)
    {
      forall x | 0 <= x < m
        ensures !M[i][x]
      {
        assert ZeroFrom(M, n, m, k, x);
      }
    }
  }

  /** A turn that finds a pivot: the rest of the elimination starts from
      the pivot step's matrix, zero before column j + 1 from row k + 1 on,
      and its echelon form gives that of the whole. */
  lemma {:induction false} EchelonPivotTurn(M: Matrix, n: nat, m: nat, k: nat, j: nat) returns (next: Matrix)
    requires IsMatrix(M, n, m) && k < n && j < m && PivotStep(M, n, m, k, j).1
    requires ZeroLeft(M, n, m, k, j)
    ensures IsMatrix(next, n, m) && ZeroLeft(next, n, m, k + 1, j + 1)
    ensures EchelonFrom(Eliminate(next, n, m, k + 1, j + 1).reduced, n, m, k + 1, Eliminate(next, n, m, k + 1, j + 1).pivots)
      ==> EchelonFrom(Eliminate(M, n, m, k, j).reduced, n, m, k, Eliminate(M, n, m, k, j).pivots)
  {
    next := PivotStep(M, n, m, k, j).0;
    PivotStepZero(M, n, m, k, j, next);
    if EchelonFrom(Eliminate(next, n, m, k + 1, j + 1).reduced, n, m, k + 1, Eliminate(next, n, m, k + 1, j + 1).pivots) {
      EchelonPivotCase(M, n, m, k, j, next);
    }
  }

  /** A turn that finds no pivot: the rest of the elimination starts from
      the same matrix, now zero before column j + 1, and gives the same
      result. */
  lemma {:induction false} EchelonSkipTurn(M: Matrix, n: nat, m: nat, k: nat, j: nat)
    requires IsMatrix(M, n, m) && k < n && j < m && !PivotStep(M, n, m, k, j).1
    requires ZeroLeft(M, n, m, k, j)
    ensures ZeroLeft(M, n, m, k, j + 1)
    ensures EchelonFrom(Eliminate(M, n, m, k, j + 1).reduced, n, m, k, Eliminate(M, n, m, k, j + 1).pivots)
      ==> EchelonFrom(Eliminate(M, n, m, k, j).reduced, n, m, k, Eliminate(M, n, m, k, j).pivots)
  {
    EliminateSkip(M, n, m, k, j);
    ZeroLeftExtend(M, n, m, k, j);
  }

  /** One turn of the elimination, either kind. */
  lemma {:induction false} EchelonTurn(M: Matrix, n: nat, m: nat, k: nat, j: nat) returns (next: Matrix, k': nat)
    requires IsMatrix(M, n, m) && k < n && j < m
    requires ZeroLeft(M, n, m, k, j)
    ensures IsMatrix(next, n, m) && k' <= n && ZeroLeft(next, n, m, k', j + 1)
    ensures EchelonFrom(Eliminate(next, n, m, k', j + 1).reduced, n, m, k', Eliminate(next, n, m, k', j + 1).pivots)
      ==> EchelonFrom(Eliminate(M, n, m, k, j).reduced, n, m, k, Eliminate(M, n, m, k, j).pivots)
  {
    if PivotStep(M, n, m, k, j).1 {
      next := EchelonPivotTurn(M, n, m, k, j);
      k' := k + 1;
    } else {
      EchelonSkipTurn(M, n, m, k, j);
      next, k' := M, k;
    }
  }

  /** If rows k.. are zero in the columns before j, the elimination from
      (k, j) leaves rows k.. in row-echelon form at the reported pivots. */
  lemma {:induction false} EliminateEchelon(M: Matrix, n: nat, m: nat, k: nat, j: nat)
    requires IsMatrix(M, n, m) && k <= n && j <= m
    requires ZeroLeft(M, n, m, k, j)
    ensures EchelonFrom(Eliminate(M, n, m, k, j).reduced, n, m, k, Eliminate(M, n, m, k, j).pivots)
    decreases m - j
  {
    if j == m || k == n {
      EchelonEnd(M, n, m, k, j);
    } else {
      var next, k' := EchelonTurn(M, n, m, k, j);
      EliminateEchelon(next, n, m, k', j + 1);
    }
  }

  /** The reduced matrix is in row-echelon form: each pivot is the leading 1
      of its row, everything below a pivot is 0, rows after the last pivot
      are zero, and so the rank counts exactly the nonzero rows. */
  lemma {:induction false} ReducedIsEchelon(A: Matrix, n: nat, m: nat)
    requires IsMatrix(A, n, m)
    ensures var r := RowReduce(A, n, m);
      && (forall t :: 0 <= t < |r.pivots| ==>
            r.reduced[t][r.pivots[t].col] && ZeroBefore(r.reduced[t], r.pivots[t].col))
      && (forall t, i :: 0 <= t < |r.pivots| && t < i < n ==> !r.reduced[i][r.pivots[t].col])
      && (forall i :: 0 <= i < n ==> (i < Rank(A, n, m) <==> !ZeroBefore(r.reduced[i], m)))
  {
    var r := RowReduce(A, n, m);
    EliminateEchelon(A, n, m, 0, 0);
    assert EchelonFrom(r.reduced, n, m, 0, r.pivots);
    forall t, i | 0 <= t < |r.pivots| && t < i < n
      ensures !r.reduced[i][r.pivots[t].col]
    {
      if i < |r.pivots| {
        assert r.pivots[t].col < r.pivots[i].col;
        assert ZeroBefore(r.reduced[0 + i], r.pivots[i].col);
      } else {
        assert ZeroBefore(r.reduced[i], m);
      }
    }
    forall i | 0 <= i < n
      ensures i < Rank(A, n, m) <==> !ZeroBefore(r.reduced[i], m)
    {
      if i < |r.pivots| {
        assert r.reduced[0 + i][r.pivots[i].col];
      }
    }
  }

  /** Strictly increasing columns below n: the t-th is at least t. */
  lemma {:induction false} ColumnsAtLeast(ps: seq<Pivot>, t: nat)
    requires t < |ps|
    requires forall s, u :: 0 <= s < u < |ps| ==> ps[s].col < ps[u].col
    ensures t <= ps[t].col
  {
    if t > 0 {
      ColumnsAtLeast(ps, t - 1);
      assert ps[t - 1].col < ps[t].col;
    }
  }

  /** Strictly increasing columns below n: the t-th leaves room for the
      |ps| - t - 1 pivots after it. */
  lemma {:induction false} ColumnsAtMost(ps: seq<Pivot>, n: nat, t: nat)
    requires t < |ps|
    requires forall u :: 0 <= u < |ps| ==> ps[u].col < n
    requires forall s, u :: 0 <= s < u < |ps| ==> ps[s].col < ps[u].col
    ensures ps[t].col + (|ps| - t) <= n
    decreases |ps| - t
  {
    if t + 1 < |ps| {
      ColumnsAtMost(ps, n, t + 1);
      assert ps[t].col < ps[t + 1].col;
    }
  }

  /** The n x n identity has full rank, so its n pivots fill every column:
      the pivot of row t is in column t. */
  lemma {:induction false} RankIdentity(n: nat)
    ensures Rank(Identity(n), n, n) == n
    ensures forall t :: 0 <= t < n ==> Pivots(Identity(n), n, n)[t] == Pivot(t, t)
  {
    IdentityNonSingular(n);
    RankIndependent(Identity(n), n, n);
    var ps := Pivots(Identity(n), n, n);
    forall t | 0 <= t < n
      ensures ps[t] == Pivot(t, t)
    {
      ColumnsAtLeast(ps, t);
      ColumnsAtMost(ps, n, t);
    }
  }

  lemma {:induction false} EliminateZero(n: nat, m: nat, k: nat, j: nat)
    requires k <= n && j <= m
    ensures Eliminate(Zero(n, m), n, m, k, j).pivots == []
    decreases m - j
  {
    if j < m && k < n {
      EliminateZero(n, m, k, j + 1);
    }
  }

  /** The zero matrix has no pivots. */
  lemma {:induction false} RankZero(n: nat, m: nat)
    ensures Rank(Zero(n, m), n, m) == 0
  {
    EliminateZero(n, m, 0, 0);
  }

  /** The pivot columns that lie in the right half (column >= n), shifted
      back by n, in pivot order. */
  function RightHalf(ps: seq<Pivot>, n: nat): (r: seq<nat>)
    ensures |r| <= |ps|
  {
    if ps == [] then []
    else if ps[0].col >= n then [ps[0].col - n] + RightHalf(ps[1..], n)
    else RightHalf(ps[1..], n)
  }

  /** A shifted column is selected exactly when it is a pivot column. */
  lemma {:induction false} RightHalfMembers(ps: seq<Pivot>, n: nat)
    ensures forall x: nat :: x in RightHalf(ps, n) <==> exists t :: 0 <= t < |ps| && ps[t].col == n + x
  {
    if ps != [] {
      var tail := ps[1..];
      RightHalfMembers(tail, n);
      var rest := RightHalf(tail, n);
      assert RightHalf(ps, n) == if ps[0].col >= n then [ps[0].col - n] + rest else rest;
      forall x: nat
        ensures x in RightHalf(ps, n) <==> exists t :: 0 <= t < |ps| && ps[t].col == n + x
      {
        if ps[0].col == n + x {
          assert x in [ps[0].col - n] + rest;
        }
        if exists t :: 0 < t < |ps| && ps[t].col == n + x {
          var t :| 0 < t < |ps| && ps[t].col == n + x;
          assert tail[t - 1].col == n + x;
          assert x in rest;
        }
        if x in rest {
          var t :| 0 <= t < |tail| && tail[t].col == n + x;
          assert ps[t + 1].col == n + x;
        }
      }
    }
  }

  /** A lower bound on the pivot columns bounds the selected columns. */
  lemma {:induction false} RightHalfAbove(ps: seq<Pivot>, n: nat, lo: int)
    requires forall t :: 0 <= t < |ps| ==> lo < ps[t].col
    ensures forall t :: 0 <= t < |RightHalf(ps, n)| ==> lo < n + RightHalf(ps, n)[t]
  {
    if ps != [] {
      var tail := ps[1..];
      assert forall t :: 0 <= t < |tail| ==> tail[t] == ps[t + 1];
      RightHalfAbove(tail, n, lo);
      var rest := RightHalf(tail, n);
      assert RightHalf(ps, n) == if ps[0].col >= n then [ps[0].col - n] + rest else rest;
      if ps[0].col >= n {
        var r := [ps[0].col - n] + rest;
        forall t | 0 < t < |r|
          ensures lo < n + r[t]
        {
          assert r[t] == rest[t - 1];
        }
      }
    }
  }

  /** Increasing pivot columns give increasing qubit indices. */
  lemma {:induction false} RightHalfIncreasing(ps: seq<Pivot>, n: nat)
    requires forall s, t :: 0 <= s < t < |ps| ==> ps[s].col < ps[t].col
    ensures forall s, t :: 0 <= s < t < |RightHalf(ps, n)| ==> RightHalf(ps, n)[s] < RightHalf(ps, n)[t]
  {
    if ps != [] {
      var tail := ps[1..];
      assert forall t :: 0 <= t < |tail| ==> tail[t] == ps[t + 1];
      RightHalfIncreasing(tail, n);
      var rest := RightHalf(tail, n);
      assert RightHalf(ps, n) == if ps[0].col >= n then [ps[0].col - n] + rest else rest;
      if ps[0].col >= n {
        RightHalfAbove(tail, n, ps[0].col);
        var r := [ps[0].col - n] + rest;
        forall s, t | 0 <= s < t < |r|
          ensures r[s] < r[t]
        {
          assert r[t] == rest[t - 1];
          if s > 0 {
            assert r[s] == rest[s - 1];
          }
        }
      }
    }
  }

  /** The qubits to receive a Hadamard: the right-half pivot columns of the
      n x 2n matrix [c | d], shifted by -n. They are strictly increasing,
      each lies in [0, n), and a qubit is chosen exactly when its d-column
      is a pivot column. */
  function HadamardQubits(c: Matrix, d: Matrix, n: nat): (qs: seq<nat>)
    requires IsMatrix(c, n, n) && IsMatrix(d, n, n)
    ensures forall s, t :: 0 <= s < t < |qs| ==> qs[s] < qs[t]
    ensures forall t :: 0 <= t < |qs| ==> qs[t] < n
    ensures |qs| <= n
    ensures var ps := Pivots(HStack(c, d, n, n, n), n, n + n);
      forall x: nat :: x in qs <==> exists t :: 0 <= t < |ps| && ps[t].col == n + x
  {
    var ps := Pivots(HStack(c, d, n, n, n), n, n + n);
    RightHalfMembers(ps, n);
    RightHalfIncreasing(ps, n);
    var qs := RightHalf(ps, n);
    assert forall t :: 0 <= t < |qs| ==> qs[t] in qs;
    qs
  }

  // ---------------------------------------------------------------------
  // Rank and linear independence

  /** The change of left-kernel vector matching "row dst += row src":
      y^T (E M) = (E^T y)^T M, and E^T only touches entry src. */
  function Flip(y: Row, src: nat, dst: nat): (r: Row)
    requires src < |y| && dst < |y|
    ensures |r| == |y|
  {
    y[src := y[src] != y[dst]]
  }

  /** Flip undoes itself and keeps a vector nonzero exactly when it was. */
  lemma {:induction false} FlipInvolution(y: Row, src: nat, dst: nat)
    requires src < |y| && dst < |y| && src != dst
    ensures Flip(Flip(y, src, dst), src, dst) == y
    ensures NonZero(Flip(y, src, dst)) <==> NonZero(y)
  {
    var z := Flip(y, src, dst);
    if NonZero(y) {
      var t :| 0 <= t < |y| && y[t];
      if t != src {
        assert z[t];
      } else if y[dst] {
        assert z[dst];
      } else {
        assert z[src];
      }
    }
    if NonZero(z) {
      var t :| 0 <= t < |z| && z[t];
      if t != src {
        assert y[t];
      } else if !y[dst] {
        assert y[src];
      }
    }
  }

  /** A row addition moves the left kernel by Flip. */
  lemma {:induction false} AddRowKernel(M: Matrix, n: nat, m: nat, src: nat, dst: nat, y: Row)
    requires IsMatrix(M, n, m) && src < n && dst < n && src != dst && |y| == n
    ensures InLeftKernel(y, AddRow(M, n, m, src, dst), n, m) <==> InLeftKernel(Flip(y, src, dst), M, n, m)
  {
    var M' := AddRow(M, n, m, src, dst);
    forall c | 0 <= c < m
      ensures Dot(y, Column(M', n, m, c)) == Dot(Flip(y, src, dst), Column(M, n, m, c))
    {
      var col := Column(M, n, m, c);
      assert Column(M', n, m, c) == col[dst := M[dst][c] != M[src][c]];
      PrefixDotUpdate(y, col, dst, M[dst][c] != M[src][c], n);
      PrefixDotSymmetric(Flip(y, src, dst), col, n);
      PrefixDotUpdate(col, y, src, y[src] != y[dst], n);
      PrefixDotSymmetric(y, col, n);
    }
  }

  /** Row additions between different rows keep the rows independent, and
      dependent. */
  lemma {:induction false} AddRowIndependent(M: Matrix, n: nat, m: nat, src: nat, dst: nat)
    requires IsMatrix(M, n, m) && src < n && dst < n && src != dst
    ensures RowsIndependent(AddRow(M, n, m, src, dst), n, m) <==> RowsIndependent(M, n, m)
  {
    var M' := AddRow(M, n, m, src, dst);
    if RowsIndependent(M', n, m) {
      forall y: Row | |y| == n && NonZero(y)
        ensures !InLeftKernel(y, M, n, m)
      {
        var z := Flip(y, src, dst);
        FlipInvolution(y, src, dst);
        FlipInvolution(z, src, dst);
        AddRowKernel(M, n, m, src, dst, z);
        assert !InLeftKernel(z, M', n, m);
      }
    }
    if RowsIndependent(M, n, m) {
      forall y: Row | |y| == n && NonZero(y)
        ensures !InLeftKernel(y, M', n, m)
      {
        FlipInvolution(y, src, dst);
        AddRowKernel(M, n, m, src, dst, y);
        assert !InLeftKernel(Flip(y, src, dst), M, n, m);
      }
    }
  }

  lemma {:induction false} ClearBelowIndependent(M: Matrix, n: nat, m: nat, k: nat, j: nat, i: nat)
    requires IsMatrix(M, n, m) && k < i <= n && j < m
    ensures RowsIndependent(ClearBelow(M, n, m, k, j, i), n, m) <==> RowsIndependent(M, n, m)
    decreases n - i
  {
    if i < n {
      var M' := if M[i][j] then AddRow(M, n, m, k, i) else M;
      if M[i][j] {
        AddRowIndependent(M, n, m, k, i);
      }
      ClearBelowIndependent(M', n, m, k, j, i + 1);
    }
  }

  lemma {:induction false} PivotStepIndependent(M: Matrix, n: nat, m: nat, k: nat, j: nat)
    requires IsMatrix(M, n, m) && k < n && j < m
    ensures RowsIndependent(PivotStep(M, n, m, k, j).0, n, m) <==> RowsIndependent(M, n, m)
  {
    if M[k][j] {
      ClearBelowIndependent(M, n, m, k, j, k + 1);
    } else {
      match FindPivotRow(M, n, m, j, k + 1)
      case None =>
      case Some(i) =>
        var M1 := AddRow(M, n, m, i, k);
        AddRowIndependent(M, n, m, i, k);
        ClearBelowIndependent(M1, n, m, k, j, k + 1);
    }
  }

  /** One turn of the column scan, as its own proof obligation. */
  lemma {:induction false} EliminateTurn(cur: Matrix, n: nat, m: nat, k: nat, j: nat, R: Matrix)
    returns (next: Matrix, k': nat, j': nat)
    requires IsMatrix(cur, n, m) && k < n && j < m
    requires R == Eliminate(cur, n, m, k, j).reduced
    ensures IsMatrix(next, n, m) && k' <= n && j' == j + 1
    ensures R == Eliminate(next, n, m, k', j').reduced
    ensures RowsIndependent(next, n, m) == RowsIndependent(cur, n, m)
  {
    var step := PivotStep(cur, n, m, k, j);
    PivotStepIndependent(cur, n, m, k, j);
    next, j' := step.0, j + 1;
    k' := if step.1 then k + 1 else k;
  }

  /** The elimination keeps independent rows independent ... */
  lemma {:induction false} EliminateIndependent(M: Matrix, n: nat, m: nat, k: nat, j: nat, R: Matrix)
    requires IsMatrix(M, n, m) && k <= n && j <= m
    requires R == Eliminate(M, n, m, k, j).reduced
    requires RowsIndependent(M, n, m)
    ensures RowsIndependent(R, n, m)
    decreases m - j
  {
    if j < m && k < n {
      var next, k', j' := EliminateTurn(M, n, m, k, j, R);
      EliminateIndependent(next, n, m, k', j', R);
    }
  }

  /** ... and dependent rows dependent. */
  lemma {:induction false} EliminateDependent(M: Matrix, n: nat, m: nat, k: nat, j: nat, R: Matrix)
    requires IsMatrix(M, n, m) && k <= n && j <= m
    requires R == Eliminate(M, n, m, k, j).reduced
    requires !RowsIndependent(M, n, m)
    ensures !RowsIndependent(R, n, m)
    decreases m - j
  {
    if j < m && k < n {
      var next, k', j' := EliminateTurn(M, n, m, k, j, R);
      EliminateDependent(next, n, m, k', j', R);
    }
  }

  /** The first 1 of a nonzero vector. */
  lemma {:induction false} FirstOne(y: Row) returns (t: nat)
    requires NonZero(y)
    ensures t < |y| && y[t] && forall s :: 0 <= s < t ==> !y[s]
  {
    t := 0;
    while !y[t]
      invariant t < |y| && forall s :: 0 <= s < t ==> !y[s]
      invariant exists u :: t <= u < |y| && y[u]
      decreases |y| - t
    {
      t := t + 1;
    }
  }

  /** The unit vector e_p of length n. */
  function UnitRow(n: nat, p: nat): (r: Row)
    ensures |r| == n && forall k :: 0 <= k < n ==> r[k] == (k == p)
  {
    seq(n, k requires 0 <= k < n => k == p)
  }

  /** A row-echelon matrix has independent rows exactly when every row
      holds a pivot. */
  lemma {:induction false} EchelonIndependent(A: Matrix, n: nat, m: nat)
    requires IsMatrix(A, n, m)
    ensures RowsIndependent(RowReduce(A, n, m).reduced, n, m) <==> Rank(A, n, m) == n
  {
    var r := RowReduce(A, n, m);
    var R, ps := r.reduced, r.pivots;
    ReducedIsEchelon(A, n, m);
    if |ps| == n {
      forall y: Row | |y| == n && NonZero(y)
        ensures !InLeftKernel(y, R, n, m)
      {
        var t := FirstOne(y);
        var c := ps[t].col;
        var col := Column(R, n, m, c);
        PrefixDotUnitTail(y, col, t, n);
        PrefixDotSymmetric(y, col, t);
        PrefixDotZero(col, y, t);
        assert Dot(y, col);
      }
    } else {
      var p := |ps|;
      var e := UnitRow(n, p);
      forall c | 0 <= c < m
        ensures !Dot(e, Column(R, n, m, c))
      {
        var col := Column(R, n, m, c);
        assert ZeroBefore(R[p], m);
        PrefixDotUnitTail(col, e, p, n);
        PrefixDotZero(col, e, p);
        PrefixDotSymmetric(e, col, n);
      }
      assert e[p];
      assert NonZero(e) && InLeftKernel(e, R, n, m);
    }
  }

  /** get_rank reports full row rank exactly when the rows of A are
      linearly independent over GF(2). */
  lemma {:induction false} RankIndependent(A: Matrix, n: nat, m: nat)
    requires IsMatrix(A, n, m)
    ensures Rank(A, n, m) == n <==> RowsIndependent(A, n, m)
  {
    if RowsIndependent(A, n, m) {
      EliminateIndependent(A, n, m, 0, 0, RowReduce(A, n, m).reduced);
    } else {
      EliminateDependent(A, n, m, 0, 0, RowReduce(A, n, m).reduced);
    }
    EchelonIndependent(A, n, m);
  }
}

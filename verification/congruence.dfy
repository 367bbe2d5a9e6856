/** The factorisation behind `find_M`: for a symmetric A over GF(2), a unit
    lower-triangular M with M * M^T = A + L for some diagonal L. M is filled
    column by column, each entry below the diagonal chosen so that the inner
    product of its row with the row of the column's own index matches A. */
module Congruence {
  import opened Gf2

  /** The entry written at (i, j): A[i][j] minus the inner product of the
      first j entries of rows i and j (minus is plus mod 2). */
  function NextEntry(A: Matrix, M: Matrix, n: nat, i: nat, j: nat): bool
    requires IsMatrix(A, n, n) && IsMatrix(M, n, n) && i < n && j < n
  {
    A[i][j] != PrefixDot(M[i], M[j], j)
  }

  /** The inner loop: rows i, i+1, ..., n-1 of column j, each computed from
      the matrix as it stands when that row is reached. */
  function FillColumn(A: Matrix, M: Matrix, n: nat, j: nat, i: nat): (r: Matrix)
    requires IsMatrix(A, n, n) && IsMatrix(M, n, n) && j < i <= n
    ensures IsMatrix(r, n, n)
    ensures forall x, c :: 0 <= x < n && 0 <= c < n && c != j ==> r[x][c] == M[x][c]
    ensures forall x :: 0 <= x < i ==> r[x][j] == M[x][j]
    ensures forall x :: i <= x < n ==> r[x][j] == NextEntry(A, M, n, x, j)
    decreases n - i
  {
    if i == n then M
    else
      var M' := M[i := M[i][j := NextEntry(A, M, n, i, j)]];
      FillColumn(A, M', n, j, i + 1)
  }

  /** The outer loop: columns j, j+1, ..., n-1. */
  function FillFrom(A: Matrix, M: Matrix, n: nat, j: nat): (r: Matrix)
    requires IsMatrix(A, n, n) && IsMatrix(M, n, n) && j <= n
    ensures IsMatrix(r, n, n)
    ensures forall x, c :: 0 <= x < n && 0 <= c < j ==> r[x][c] == M[x][c]
    decreases n - j
  {
    if j == n then M else FillFrom(A, FillColumn(A, M, n, j, j + 1), n, j + 1)
  }

  /** Entries on and above the diagonal are those of the identity. */
  predicate UnitLower(M: Matrix, n: nat)
    requires IsMatrix(M, n, n)
  {
    forall x, c :: 0 <= x < n && 0 <= c < n && x <= c ==> M[x][c] == (x == c)
  }

  /** Below the diagonal, in the columns before j, every entry obeys the
      recurrence of the inner loop with respect to M itself. */
  predicate RecurrenceBefore(A: Matrix, M: Matrix, n: nat, j: nat)
    requires IsMatrix(A, n, n) && IsMatrix(M, n, n)
  {
    forall x, c :: 0 <= c < j && c < x < n && c < n ==> M[x][c] == NextEntry(A, M, n, x, c)
  }

  /** The state of the outer loop before column j: columns from j on are
      still those of the identity. */
  predicate Partial(A: Matrix, M: Matrix, n: nat, j: nat)
    requires IsMatrix(A, n, n) && IsMatrix(M, n, n)
  {
    UnitLower(M, n)
    && (forall x, c :: 0 <= x < n && j <= c < n ==> M[x][c] == (x == c))
    && RecurrenceBefore(A, M, n, j)
  }

  /** Filling column j keeps the earlier columns' recurrence: those entries
      only read columns before their own, which column j does not touch. */
  lemma {:induction false} FillColumnStep(A: Matrix, M: Matrix, n: nat, j: nat, R: Matrix)
    requires IsMatrix(A, n, n) && IsMatrix(M, n, n) && j < n
    requires Partial(A, M, n, j)
    requires R == FillColumn(A, M, n, j, j + 1)
    ensures IsMatrix(R, n, n) && Partial(A, R, n, j + 1)
  {
    forall x, c | 0 <= c < j + 1 && c < x < n
      ensures R[x][c] == NextEntry(A, R, n, x, c)
    {
      PrefixDotFrame(M[x], R[x], M[c], R[c], c);
      if c == j {
        assert R[x][c] == NextEntry(A, M, n, x, c);
      }
    }
  }

  /** Running the outer loop from a partial state completes it. */
  lemma {:induction false} FillFromComplete(A: Matrix, M: Matrix, n: nat, j: nat)
    requires IsMatrix(A, n, n) && IsMatrix(M, n, n) && j <= n
    requires Partial(A, M, n, j)
    ensures Partial(A, FillFrom(A, M, n, j), n, n)
    decreases n - j
  {
    if j < n {
      var next := FillColumn(A, M, n, j, j + 1);
      FillColumnStep(A, M, n, j, next);
      FillFromComplete(A, next, n, j + 1);
    }
  }

  /** find_M: start from the identity and fill every column. The result is
      unit lower-triangular and each entry below the diagonal obeys the
      recurrence of find_M's inner loop. */
  function FindM(A: Matrix, n: nat): (r: Matrix)
    requires IsMatrix(A, n, n)
    ensures IsMatrix(r, n, n)
    ensures UnitLower(r, n)
    ensures forall x, c :: 0 <= c < x < n ==> r[x][c] == (A[x][c] != PrefixDot(r[x], r[c], c))
  {
    FillFromComplete(A, Identity(n), n, 0);
    FillFrom(A, Identity(n), n, 0)
  }

  /** In a unit lower-triangular matrix, row c ends with its diagonal one,
      so the inner product of rows x and c is the prefix before c plus
      M[x][c]. */
  lemma {:induction false} DotWithLowerRow(M: Matrix, n: nat, x: nat, c: nat)
    requires IsMatrix(M, n, n) && UnitLower(M, n) && c < n && x < n
    ensures Dot(M[x], M[c]) == (PrefixDot(M[x], M[c], c) != M[x][c])
  {
    PrefixDotUnitTail(M[x], M[c], c, n);
  }

  /** Below the diagonal, M * M^T agrees with A. */
  lemma {:induction false} FindMProducts(A: Matrix, n: nat, x: nat, c: nat)
    requires IsMatrix(A, n, n) && c < x < n
    ensures Dot(FindM(A, n)[x], FindM(A, n)[c]) == A[x][c]
  {
    DotWithLowerRow(FindM(A, n), n, x, c);
  }

  /** For a symmetric A, M * M^T - A is diagonal: A + L = M * M^T with L
      diagonal, which is what the factorisation promises. */
  lemma {:induction false} FindMCongruence(A: Matrix, n: nat)
    requires IsMatrix(A, n, n) && IsSymmetric(A, n)
    ensures IsDiagonal(Sub(Mul(FindM(A, n), Transpose(FindM(A, n), n, n), n, n, n), A, n, n), n)
  {
    var M := FindM(A, n);
    var G := Mul(M, Transpose(M, n, n), n, n, n);
    forall x, c | 0 <= x < n && 0 <= c < n && x != c
      ensures G[x][c] == A[x][c]
    {
      GramEntry(M, n, x, c);
      if c < x {
        FindMProducts(A, n, x, c);
      } else {
        FindMProducts(A, n, c, x);
        PrefixDotSymmetric(M[x], M[c], n);
      }
    }
  }

  /** The factor is unique: any unit lower-triangular M whose rows have the
      inner products of A below the diagonal is the one find_M builds. */
  lemma {:induction false} FindMUnique(A: Matrix, M: Matrix, n: nat)
    requires IsMatrix(A, n, n) && IsMatrix(M, n, n) && UnitLower(M, n)
    requires forall x, c :: 0 <= c < x < n ==> Dot(M[x], M[c]) == A[x][c]
    ensures M == FindM(A, n)
  {
    var F := FindM(A, n);
    forall x, c | 0 <= c < x < n
      ensures M[x][c] == NextEntry(A, M, n, x, c)
    {
      DotWithLowerRow(M, n, x, c);
    }
    SameRecurrence(A, M, F, n, 0);
    assert forall x :: 0 <= x < n ==> M[x] == F[x];
  }

  /** Two unit lower-triangular matrices that obey the recurrence and agree
      on the columns before j agree everywhere. */
  lemma {:induction false} SameRecurrence(A: Matrix, M: Matrix, F: Matrix, n: nat, j: nat)
    requires IsMatrix(A, n, n) && IsMatrix(M, n, n) && IsMatrix(F, n, n) && j <= n
    requires UnitLower(M, n) && UnitLower(F, n)
    requires RecurrenceBefore(A, M, n, n) && RecurrenceBefore(A, F, n, n)
    requires forall x, c :: 0 <= x < n && 0 <= c < j ==> M[x][c] == F[x][c]
    ensures forall x, c :: 0 <= x < n && 0 <= c < n ==> M[x][c] == F[x][c]
    decreases n - j
  {
    if j < n {
      forall x | 0 <= x < n
        ensures M[x][j] == F[x][j]
      {
        if j < x {
          PrefixDotFrame(M[x], F[x], M[j], F[j], j);
        }
      }
      SameRecurrence(A, M, F, n, j + 1);
    }
  }
}

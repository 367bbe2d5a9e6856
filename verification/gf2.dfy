/** Optional values, used for searches that may find nothing and for the
    optional second qubit of a gate record. */
module Options {
  datatype Option<+T> = None | Some(value: T)
}

/** Matrices over GF(2): a bit is a `bool`, addition is XOR (`!=`) and
    multiplication is AND. A matrix is a sequence of rows. */
module Gf2 {

  type Row = seq<bool>
  type Matrix = seq<Row>

  /** `A` has `n` rows of `m` entries each. */
  predicate IsMatrix(A: Matrix, n: nat, m: nat) {
    |A| == n && forall i :: 0 <= i < n ==> |A[i]| == m
  }

  /** The n x n identity. */
  function Identity(n: nat): (r: Matrix)
    ensures IsMatrix(r, n, n)
    ensures forall i, j :: 0 <= i < n && 0 <= j < n ==> r[i][j] == (i == j)
  {
    seq(n, i requires 0 <= i < n => seq(n, j requires 0 <= j < n => i == j))
  }

  /** The n x m zero matrix. */
  function Zero(n: nat, m: nat): (r: Matrix)
    ensures IsMatrix(r, n, m)
    ensures forall i, j :: 0 <= i < n && 0 <= j < m ==> !r[i][j]
  {
    seq(n, i requires 0 <= i < n => seq(m, j requires 0 <= j < m => false))
  }

  /** Entrywise sum of two rows over GF(2). */
  function XorRow(u: Row, v: Row): (r: Row)
    requires |u| == |v|
    ensures |r| == |u|
    ensures forall k :: 0 <= k < |u| ==> r[k] == (u[k] != v[k])
  {
    seq(|u|, k requires 0 <= k < |u| => u[k] != v[k])
  }

  /** Row operation: row `dst` += row `src` (mod 2). */
  function AddRow(M: Matrix, n: nat, m: nat, src: nat, dst: nat): (r: Matrix)
    requires IsMatrix(M, n, m) && src < n && dst < n
    ensures IsMatrix(r, n, m)
    ensures r[dst] == XorRow(M[dst], M[src])
    ensures forall i :: 0 <= i < n && i != dst ==> r[i] == M[i]
  {
    M[dst := XorRow(M[dst], M[src])]
  }

  /** Column operation: column `dst` += column `src` (mod 2). */
  function AddCol(M: Matrix, n: nat, src: nat, dst: nat): (r: Matrix)
    requires IsMatrix(M, n, n) && src < n && dst < n
    ensures IsMatrix(r, n, n)
    ensures forall i, j :: 0 <= i < n && 0 <= j < n ==>
      r[i][j] == if j == dst then M[i][dst] != M[i][src] else M[i][j]
  {
    seq(n, i requires 0 <= i < n =>
      seq(n, j requires 0 <= j < n => if j == dst then M[i][dst] != M[i][src] else M[i][j]))
  }

  /** Sum over k < len of u[k]*v[k] (mod 2). */
  function PrefixDot(u: Row, v: Row, len: nat): bool
    requires len <= |u| && len <= |v|
  {
    if len == 0 then false else PrefixDot(u, v, len - 1) != (u[len - 1] && v[len - 1])
  }

  /** The inner product of two rows of equal length. */
  function Dot(u: Row, v: Row): bool
    requires |u| == |v|
  {
    PrefixDot(u, v, |u|)
  }

  /** A prefix dot product only reads the first `len` entries. */
  lemma {:induction false} PrefixDotFrame(u: Row, u': Row, v: Row, v': Row, len: nat)
    requires len <= |u| && len <= |v| && len <= |u'| && len <= |v'|
    requires forall k :: 0 <= k < len ==> u[k] == u'[k] && v[k] == v'[k]
    ensures PrefixDot(u, v, len) == PrefixDot(u', v', len)
  {
    if len > 0 {
      PrefixDotFrame(u, u', v, v', len - 1);
    }
  }

  lemma {:induction false} PrefixDotSymmetric(u: Row, v: Row, len: nat)
    requires len <= |u| && len <= |v|
    ensures PrefixDot(u, v, len) == PrefixDot(v, u, len)
  {
    if len > 0 {
      PrefixDotSymmetric(u, v, len - 1);
    }
  }

  /** When `v` is zero strictly after position `p` and one at `p`, a dot
      product with `v` is the prefix product before `p` plus `u[p]`. */
  lemma {:induction false} PrefixDotUnitTail(u: Row, v: Row, p: nat, len: nat)
    requires p < len <= |u| && len <= |v|
    requires v[p]
    requires forall k :: p < k < len ==> !v[k]
    ensures PrefixDot(u, v, len) == (PrefixDot(u, v, p) != u[p])
  {
    if len > p + 1 {
      PrefixDotUnitTail(u, v, p, len - 1);
    }
  }

  /** Column `j` of `M`, as a row. */
  function Column(M: Matrix, n: nat, m: nat, j: nat): (r: Row)
    requires IsMatrix(M, n, m) && j < m
    ensures |r| == n && forall i :: 0 <= i < n ==> r[i] == M[i][j]
  {
    seq(n, i requires 0 <= i < n => M[i][j])
  }

  /** The m x n transpose of an n x m matrix. */
  function Transpose(M: Matrix, n: nat, m: nat): (r: Matrix)
    requires IsMatrix(M, n, m)
    ensures IsMatrix(r, m, n)
    ensures forall i, j :: 0 <= i < m && 0 <= j < n ==> r[i][j] == M[j][i]
  {
    seq(m, i requires 0 <= i < m => Column(M, n, m, i))
  }

  /** The product of an n x p and a p x m matrix over GF(2). */
  function Mul(A: Matrix, B: Matrix, n: nat, p: nat, m: nat): (r: Matrix)
    requires IsMatrix(A, n, p) && IsMatrix(B, p, m)
    ensures IsMatrix(r, n, m)
  {
    seq(n, i requires 0 <= i < n =>
      seq(m, j requires 0 <= j < m => Dot(A[i], Column(B, p, m, j))))
  }

  /** Entry (i, j) of M * M^T is the inner product of rows i and j. */
  lemma {:induction false} GramEntry(M: Matrix, n: nat, i: nat, j: nat)
    requires IsMatrix(M, n, n) && i < n && j < n
    ensures Mul(M, Transpose(M, n, n), n, n, n)[i][j] == Dot(M[i], M[j])
  {
    assert Column(Transpose(M, n, n), n, n, j) == M[j];
  }

  /** Entrywise difference (= sum) of two matrices over GF(2). */
  function Sub(A: Matrix, B: Matrix, n: nat, m: nat): (r: Matrix)
    requires IsMatrix(A, n, m) && IsMatrix(B, n, m)
    ensures IsMatrix(r, n, m)
    ensures forall i, j :: 0 <= i < n && 0 <= j < m ==> r[i][j] == (A[i][j] != B[i][j])
  {
    seq(n, i requires 0 <= i < n => XorRow(A[i], B[i]))
  }

  predicate IsSymmetric(A: Matrix, n: nat)
    requires IsMatrix(A, n, n)
  {
    forall i, j :: 0 <= i < n && 0 <= j < n ==> A[i][j] == A[j][i]
  }

  predicate IsDiagonal(A: Matrix, n: nat)
    requires IsMatrix(A, n, n)
  {
    forall i, j :: 0 <= i < n && 0 <= j < n && i != j ==> !A[i][j]
  }

  /** [A | B]: the rows of A followed by the rows of B, side by side. */
  function HStack(A: Matrix, B: Matrix, n: nat, m1: nat, m2: nat): (r: Matrix)
    requires IsMatrix(A, n, m1) && IsMatrix(B, n, m2)
    ensures IsMatrix(r, n, m1 + m2)
    ensures forall i, j :: 0 <= i < n && 0 <= j < m1 ==> r[i][j] == A[i][j]
    ensures forall i, j :: 0 <= i < n && 0 <= j < m2 ==> r[i][m1 + j] == B[i][j]
  {
    seq(n, i requires 0 <= i < n => A[i] + B[i])
  }

  /** A stacked on top of B. */
  function VStack(A: Matrix, B: Matrix, n1: nat, n2: nat, m: nat): (r: Matrix)
    requires IsMatrix(A, n1, m) && IsMatrix(B, n2, m)
    ensures IsMatrix(r, n1 + n2, m)
    ensures forall i, j :: 0 <= i < n1 && 0 <= j < m ==> r[i][j] == A[i][j]
    ensures forall i, j :: 0 <= i < n2 && 0 <= j < m ==> r[n1 + i][j] == B[i][j]
  {
    A + B
  }

  /** Sum over k in [r, |u|) of u[k]*v[k] (mod 2). */
  function SuffixDot(u: Row, v: Row, r: nat): bool
    requires |u| == |v| && r <= |u|
    decreases |u| - r
  {
    if r == |u| then false else (u[r] && v[r]) != SuffixDot(u, v, r + 1)
  }

  /** Prefix and suffix sums split the inner product at any point. */
  lemma {:induction false} PrefixSuffixSplit(u: Row, v: Row, r: nat)
    requires |u| == |v| && r <= |u|
    ensures (PrefixDot(u, v, r) != SuffixDot(u, v, r)) == Dot(u, v)
    decreases |u| - r
  {
    if r < |u| {
      PrefixSuffixSplit(u, v, r + 1);
    }
  }

  /** Positions where the product vanishes do not change a suffix sum. */
  lemma {:induction false} SuffixDotSkip(u: Row, v: Row, a: nat, b: nat)
    requires |u| == |v| && a <= b <= |u|
    requires forall k :: a <= k < b ==> !(u[k] && v[k])
    ensures SuffixDot(u, v, a) == SuffixDot(u, v, b)
    decreases b - a
  {
    if a < b {
      SuffixDotSkip(u, v, a + 1, b);
    }
  }

  /** The inner product is linear in its second argument. */
  lemma {:induction false} PrefixDotXor(y: Row, u: Row, v: Row, len: nat)
    requires |u| == |v| && len <= |u| && len <= |y|
    ensures PrefixDot(y, XorRow(u, v), len) == (PrefixDot(y, u, len) != PrefixDot(y, v, len))
  {
    if len > 0 {
      PrefixDotXor(y, u, v, len - 1);
    }
  }

  /** A vector that is zero on a prefix has zero prefix products. */
  lemma {:induction false} PrefixDotZero(u: Row, v: Row, len: nat)
    requires len <= |u| && len <= |v|
    requires forall k :: 0 <= k < len ==> !v[k]
    ensures !PrefixDot(u, v, len)
  {
    if len > 0 {
      PrefixDotZero(u, v, len - 1);
    }
  }

  /** Some entry is 1. */
  predicate NonZero(y: Row) {
    exists t :: 0 <= t < |y| && y[t]
  }

  /** y^T M = 0: y lies in the left kernel of the n x m matrix M. */
  predicate InLeftKernel(y: Row, M: Matrix, n: nat, m: nat)
    requires IsMatrix(M, n, m) && |y| == n
  {
    forall c :: 0 <= c < m ==> !Dot(y, Column(M, n, m, c))
  }

  /** The rows of M are linearly independent over GF(2): the only vector
      in the left kernel is zero. */
  ghost predicate RowsIndependent(M: Matrix, n: nat, m: nat)
    requires IsMatrix(M, n, m)
  {
    forall y: Row {:trigger InLeftKernel(y, M, n, m)} :: |y| == n && NonZero(y) ==> !InLeftKernel(y, M, n, m)
  }

  /** Full rank for a square matrix. */
  ghost predicate NonSingular(M: Matrix, n: nat)
    requires IsMatrix(M, n, n)
  {
    RowsIndependent(M, n, n)
  }

  /** The identity is nonsingular: y^T I = y. */
  lemma {:induction false} IdentityNonSingular(n: nat)
    ensures NonSingular(Identity(n), n)
  {
    var I := Identity(n);
    forall y: Row | |y| == n && NonZero(y)
      ensures !InLeftKernel(y, I, n, n)
    {
      var t :| 0 <= t < n && y[t];
      var col := Column(I, n, n, t);
      PrefixDotUnitTail(y, col, t, n);
      PrefixDotZero(y, col, t);
      assert Dot(y, col);
    }
  }

  /** Changing one entry of v changes the inner product by u[p] times the
      change, when p lies in the prefix. */
  lemma {:induction false} PrefixDotUpdate(u: Row, v: Row, p: nat, b: bool, len: nat)
    requires len <= |u| && len <= |v| && p < |v|
    ensures PrefixDot(u, v[p := b], len) == (PrefixDot(u, v, len) != (p < len && u[p] && v[p] != b))
  {
    if len > 0 {
      PrefixDotUpdate(u, v, p, b, len - 1);
    }
  }
}

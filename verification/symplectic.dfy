/** Re-indexing of symplectic matrices: `transform_symplectic`, which moves a
    2n x 2n matrix from the interleaved ordering (x1, z1, x2, z2, ...) of the
    form L1 = X (+) X (+) ... (+) X to the block ordering (x1..xn, z1..zn) of
    L2 = [[0, I], [I, 0]], and `symplectic_to_matrix`, which embeds a
    2m x 2m block-ordered matrix acting on m chosen qubits into the
    2n x 2n identity. */
module Symplectic {
  import opened Options
  import opened Gf2

  // ---------------------------------------------------------------------
  // transform_symplectic

  /** The interleaved index of block index b: x-part b < n goes to 2b,
      z-part n + k goes to 2k + 1. */
  function Interleave(b: nat, n: nat): (r: nat)
    requires b < n + n
    ensures r < n + n
  {
    if b < n then 2 * b else 2 * (b - n) + 1
  }

  /** The block index of interleaved index u: the inverse of Interleave. */
  function Deinterleave(u: nat, n: nat): (r: nat)
    requires u < n + n
    ensures r < n + n
  {
    if u % 2 == 0 then u / 2 else n + u / 2
  }

  lemma {:induction false} DeinterleaveInterleave(b: nat, n: nat)
    requires b < n + n
    ensures Deinterleave(Interleave(b, n), n) == b
  {
  }

  lemma {:induction false} InterleaveDeinterleave(u: nat, n: nat)
    requires u < n + n
    ensures Interleave(Deinterleave(u, n), n) == u
  {
  }

  /** S has at least 2n rows and 2n columns. */
  predicate CoversBlock(S: Matrix, n: nat) {
    n + n <= |S| && forall i :: 0 <= i < |S| ==> n + n <= |S[i]|
  }

  /** One of the four n x n quadrants, read off S as in transform_symplectic's
      double loop: quadrant (p, q) at (j, k) is S[2k + q][2j + p]. */
  function Quadrant(S: Matrix, n: nat, p: nat, q: nat): (r: Matrix)
    requires CoversBlock(S, n) && p <= 1 && q <= 1
    ensures IsMatrix(r, n, n)
    ensures forall j, k :: 0 <= j < n && 0 <= k < n ==> r[j][k] == S[2 * k + q][2 * j + p]
  {
    seq(n, j requires 0 <= j < n => seq(n, k requires 0 <= k < n => S[2 * k + q][2 * j + p]))
  }

  /** The quadrants stacked as [[a, b], [c, d]]. */
  function Stacked(S: Matrix, n: nat): (r: Matrix)
    requires CoversBlock(S, n)
    ensures IsMatrix(r, n + n, n + n)
  {
    var top := HStack(Quadrant(S, n, 0, 0), Quadrant(S, n, 0, 1), n, n, n);
    var bottom := HStack(Quadrant(S, n, 1, 0), Quadrant(S, n, 1, 1), n, n, n);
    VStack(top, bottom, n, n, n + n)
  }

  /** Entry (x, y) of [[A, B], [C, D]] for n x n blocks. */
  lemma {:induction false} FourBlocksEntry(A: Matrix, B: Matrix, C: Matrix, D: Matrix, n: nat, x: nat, y: nat)
    requires IsMatrix(A, n, n) && IsMatrix(B, n, n) && IsMatrix(C, n, n) && IsMatrix(D, n, n)
    requires x < n + n && y < n + n
    ensures VStack(HStack(A, B, n, n, n), HStack(C, D, n, n, n), n, n, n + n)[x][y]
      == if x < n then (if y < n then A[x][y] else B[x][y - n])
         else (if y < n then C[x - n][y] else D[x - n][y - n])
  {
    var top := HStack(A, B, n, n, n);
    var bottom := HStack(C, D, n, n, n);
    if x < n {
      if y >= n {
        assert top[x][n + (y - n)] == B[x][y - n];
      }
    } else {
      assert VStack(top, bottom, n, n, n + n)[n + (x - n)][y] == bottom[x - n][y];
      if y >= n {
        assert bottom[x - n][n + (y - n)] == D[x - n][y - n];
      }
    }
  }

  /** Entry (x, y) of the stacked quadrants is S's entry at the interleaved
      indices of y and x. */
  lemma {:induction false} StackedEntry(S: Matrix, n: nat, x: nat, y: nat)
    requires CoversBlock(S, n) && x < n + n && y < n + n
    ensures Stacked(S, n)[x][y] == S[Interleave(y, n)][Interleave(x, n)]
  {
    FourBlocksEntry(Quadrant(S, n, 0, 0), Quadrant(S, n, 0, 1), Quadrant(S, n, 1, 0), Quadrant(S, n, 1, 1), n, x, y);
  }

  lemma {:induction false} StackedEntries(S: Matrix, n: nat)
    requires CoversBlock(S, n)
    ensures forall x, y :: 0 <= x < n + n && 0 <= y < n + n ==>
      Stacked(S, n)[x][y] == S[Interleave(y, n)][Interleave(x, n)]
  {
    forall x, y | 0 <= x < n + n && 0 <= y < n + n {
      StackedEntry(S, n, x, y);
    }
  }

  /** The block matrix [[a, b], [c, d]] of the quadrants: the transpose of
      S with rows and columns renamed by the same permutation. */
  function BlockOf(S: Matrix, n: nat): (r: Matrix)
    requires CoversBlock(S, n)
    ensures IsMatrix(r, n + n, n + n)
    ensures forall x, y :: 0 <= x < n + n && 0 <= y < n + n ==>
      r[x][y] == S[Interleave(y, n)][Interleave(x, n)]
  {
    StackedEntries(S, n);
    Stacked(S, n)
  }

  /** transform_symplectic, with n = |S| / 2 (an odd last row and column
      are ignored, as `S.shape[0] // 2` does). */
  function ToBlock(S: Matrix): (r: Matrix)
    requires IsMatrix(S, |S|, |S|)
    ensures var n := |S| / 2; IsMatrix(r, n + n, n + n)
    ensures var n := |S| / 2; forall x, y :: 0 <= x < n + n && 0 <= y < n + n ==>
      r[x][y] == S[Interleave(y, n)][Interleave(x, n)]
  {
    BlockOf(S, |S| / 2)
  }

  lemma {:induction false} ToBlockIsBlockOf(S: Matrix, n: nat)
    requires IsMatrix(S, n + n, n + n)
    ensures ToBlock(S) == BlockOf(S, n)
  {
    assert |S| / 2 == n;
  }

  /** The inverse re-indexing, from block order back to interleaved order. */
  function FromBlock(T: Matrix, n: nat): (r: Matrix)
    requires IsMatrix(T, n + n, n + n)
    ensures IsMatrix(r, n + n, n + n)
    ensures forall u, v :: 0 <= u < n + n && 0 <= v < n + n ==>
      r[u][v] == T[Deinterleave(v, n)][Deinterleave(u, n)]
  {
    seq(n + n, u requires 0 <= u < n + n =>
      seq(n + n, v requires 0 <= v < n + n => T[Deinterleave(v, n)][Deinterleave(u, n)]))
  }

  /** ToBlock loses nothing on an even-sized matrix. */
  lemma {:induction false} FromToBlock(S: Matrix, n: nat)
    requires IsMatrix(S, n + n, n + n)
    ensures FromBlock(ToBlock(S), n) == S
  {
    ToBlockIsBlockOf(S, n);
    var R := FromBlock(BlockOf(S, n), n);
    forall u | 0 <= u < n + n
      ensures R[u] == S[u]
    {
      forall v | 0 <= v < n + n
        ensures R[u][v] == S[u][v]
      {
        InterleaveDeinterleave(u, n);
        InterleaveDeinterleave(v, n);
      }
    }
  }

  /** Every block-ordered matrix is the image of an interleaved one. */
  lemma {:induction false} ToFromBlock(T: Matrix, n: nat)
    requires IsMatrix(T, n + n, n + n)
    ensures ToBlock(FromBlock(T, n)) == T
  {
    var S := FromBlock(T, n);
    var R := BlockOf(S, n);
    ToBlockIsBlockOf(S, n);
    forall x | 0 <= x < n + n
      ensures R[x] == T[x]
    {
      forall y | 0 <= y < n + n
        ensures R[x][y] == T[x][y]
      {
        var u, v := Interleave(y, n), Interleave(x, n);
        assert S[u][v] == T[Deinterleave(v, n)][Deinterleave(u, n)];
        DeinterleaveInterleave(x, n);
        DeinterleaveInterleave(y, n);
      }
    }
  }

  /** The form of L1 = X (+) ... (+) X on two vectors of length 2n:
      sum over k of u[2k] v[2k+1] + u[2k+1] v[2k], for k < len. */
  function InterleavedForm(u: Row, v: Row, len: nat): bool
    requires 2 * len <= |u| && 2 * len <= |v|
  {
    if len == 0 then false
    else
      var term := (u[2 * len - 2] && v[2 * len - 1]) != (u[2 * len - 1] && v[2 * len - 2]);
      InterleavedForm(u, v, len - 1) != term
  }

  /** The form of L2 = [[0, I], [I, 0]] on two vectors of length 2n:
      sum over k of u[k] v[n+k] + u[n+k] v[k], for k < len. */
  function BlockForm(u: Row, v: Row, n: nat, len: nat): bool
    requires len <= n && |u| == n + n && |v| == n + n
  {
    if len == 0 then false
    else
      var term := (u[len - 1] && v[n + len - 1]) != (u[n + len - 1] && v[len - 1]);
      BlockForm(u, v, n, len - 1) != term
  }

  /** Entry (a, b) of L1: 1 exactly on the two off-diagonal cells of each
      2 x 2 block. */
  predicate L1(a: nat, b: nat) {
    a != b && a / 2 == b / 2
  }

  /** Entry (x, y) of L2 for 2n x 2n: 1 where the indices differ by n. */
  predicate L2(x: nat, y: nat, n: nat) {
    x == y + n || y == x + n
  }

  /** S^T L1 S = L1: the columns of S are a symplectic basis for L1.
      The two conditions are stated on different sides because
      transform_symplectic transposes as it re-indexes (a[j, k] is read from
      S[2k, 2j]): a column of S becomes a row of the block matrix. So the
      condition on the columns of S is carried to the condition on the rows
      of the result, T L2 T^T = L2, which is RowsSymplectic below. */
  ghost predicate ColumnsSymplectic(S: Matrix, n: nat)
    requires IsMatrix(S, n + n, n + n)
  {
    forall a, b :: 0 <= a < n + n && 0 <= b < n + n ==>
      InterleavedForm(Column(S, n + n, n + n, a), Column(S, n + n, n + n, b), n) == L1(a, b)
  }

  /** T L2 T^T = L2: the rows of T are a symplectic basis for L2. */
  ghost predicate RowsSymplectic(T: Matrix, n: nat)
    requires IsMatrix(T, n + n, n + n)
  {
    forall x, y :: 0 <= x < n + n && 0 <= y < n + n ==> BlockForm(T[x], T[y], n, n) == L2(x, y, n)
  }

  /** The two forms agree term by term once the vectors are re-indexed. */
  lemma {:induction false} FormsAgree(u: Row, v: Row, u': Row, v': Row, n: nat, len: nat)
    requires len <= n && |u| == n + n && |v| == n + n && |u'| == n + n && |v'| == n + n
    requires forall b :: 0 <= b < n + n ==> u[b] == u'[Interleave(b, n)] && v[b] == v'[Interleave(b, n)]
    ensures BlockForm(u, v, n, len) == InterleavedForm(u', v', len)
  {
    if len > 0 {
      FormsAgree(u, v, u', v', n, len - 1);
      assert Interleave(len - 1, n) == 2 * len - 2;
      assert Interleave(n + len - 1, n) == 2 * len - 1;
    }
  }

  /** The permutation carries L1 onto L2. */
  lemma {:induction false} InterleaveForm(x: nat, y: nat, n: nat)
    requires x < n + n && y < n + n
    ensures L1(Interleave(x, n), Interleave(y, n)) == L2(x, y, n)
  {
  }

  /** Rows x, y of the block matrix have the L2 form of columns
      Interleave(x), Interleave(y) of S under L1. */
  lemma {:induction false} FormOfRows(S: Matrix, n: nat, x: nat, y: nat)
    requires IsMatrix(S, n + n, n + n) && x < n + n && y < n + n
    ensures BlockForm(ToBlock(S)[x], ToBlock(S)[y], n, n)
      == InterleavedForm(Column(S, n + n, n + n, Interleave(x, n)), Column(S, n + n, n + n, Interleave(y, n)), n)
  {
    var T := BlockOf(S, n);
    ToBlockIsBlockOf(S, n);
    forall b | 0 <= b < n + n
      ensures T[x][b] == S[Interleave(b, n)][Interleave(x, n)]
      ensures T[y][b] == S[Interleave(b, n)][Interleave(y, n)]
    {
    }
    FormsAgree(T[x], T[y], Column(S, n + n, n + n, Interleave(x, n)), Column(S, n + n, n + n, Interleave(y, n)), n, n);
  }

  /** S symplectic for L1 makes its block matrix symplectic for L2. */
  lemma {:induction false} ColumnsToRows(S: Matrix, n: nat)
    requires IsMatrix(S, n + n, n + n) && ColumnsSymplectic(S, n)
    ensures IsMatrix(ToBlock(S), n + n, n + n) && RowsSymplectic(ToBlock(S), n)
  {
    var T := ToBlock(S);
    forall x, y | 0 <= x < n + n && 0 <= y < n + n
      ensures BlockForm(T[x], T[y], n, n) == L2(x, y, n)
    {
      FormOfRows(S, n, x, y);
      InterleaveForm(x, y, n);
    }
  }

  /** The block matrix symplectic for L2 makes S symplectic for L1. */
  lemma {:induction false} RowsToColumns(S: Matrix, n: nat)
    requires IsMatrix(S, n + n, n + n) && IsMatrix(ToBlock(S), n + n, n + n)
    requires RowsSymplectic(ToBlock(S), n)
    ensures ColumnsSymplectic(S, n)
  {
    var T := ToBlock(S);
    forall a, b | 0 <= a < n + n && 0 <= b < n + n
      ensures InterleavedForm(Column(S, n + n, n + n, a), Column(S, n + n, n + n, b), n) == L1(a, b)
    {
      var x, y := Deinterleave(a, n), Deinterleave(b, n);
      InterleaveDeinterleave(a, n);
      InterleaveDeinterleave(b, n);
      FormOfRows(S, n, x, y);
      InterleaveForm(x, y, n);
    }
  }

  /** transform_symplectic does what its documentation promises: the block
      matrix is symplectic for L2 exactly when S is symplectic for L1. */
  lemma {:induction false} ToBlockSymplectic(S: Matrix, n: nat)
    requires IsMatrix(S, n + n, n + n)
    ensures ColumnsSymplectic(S, n) <==> RowsSymplectic(ToBlock(S), n)
  {
    if ColumnsSymplectic(S, n) {
      ColumnsToRows(S, n);
    }
    if RowsSymplectic(ToBlock(S), n) {
      RowsToColumns(S, n);
    }
  }

  // ---------------------------------------------------------------------
  // symplectic_to_matrix

  /** The qubit a row or column index of the 2n x 2n matrix belongs to. */
  function QubitOf(x: nat, n: nat): nat
    requires x < n + n
  {
    if x < n then x else x - n
  }

  /** The index in S (2m x 2m) of position i in the qubit list, in the same
      half (x or z) as the index x of the big matrix. */
  function Lift(i: nat, x: nat, n: nat, m: nat): nat {
    if x < n then i else i + m
  }

  /** The last position in qs[lo..hi] holding qubit q, if any. */
  function LastIn(qs: seq<nat>, q: nat, lo: nat, hi: nat): (r: Option<nat>)
    requires hi <= |qs|
    ensures r.Some? ==> lo <= r.value < hi && qs[r.value] == q
    ensures r.Some? ==> forall k :: r.value < k < hi ==> qs[k] != q
    ensures r.None? ==> forall k :: lo <= k < hi ==> qs[k] != q
    decreases hi
  {
    if hi <= lo then None
    else if qs[hi - 1] == q then Some(hi - 1)
    else LastIn(qs, q, lo, hi - 1)
  }

  /** Searching from one position earlier: the later hit wins, else the
      new position if it matches. */
  lemma {:induction false} LastInExtend(qs: seq<nat>, q: nat, lo: nat, hi: nat)
    requires lo < hi <= |qs|
    ensures LastIn(qs, q, lo, hi) ==
      if LastIn(qs, q, lo + 1, hi).Some? then LastIn(qs, q, lo + 1, hi)
      else if qs[lo] == q then Some(lo) else None
  {
    var r := LastIn(qs, q, lo, hi);
    var r' := LastIn(qs, q, lo + 1, hi);
    if r'.Some? {
      assert r.Some? && r.value == r'.value;
    } else if r.Some? {
      assert r.value == lo;
    }
  }

  /** Valid arguments: every listed qubit is below n, and S is at least
      2m x 2m for m listed qubits. */
  predicate EmbedArgs(S: Matrix, n: nat, qs: seq<nat>) {
    (forall k :: 0 <= k < |qs| ==> qs[k] < n)
    && 2 * |qs| <= |S| && forall k :: 0 <= k < |S| ==> 2 * |qs| <= |S[k]|
  }

  /** M with the single entry (r, c) overwritten by v. */
  function Set(M: Matrix, r: nat, c: nat, v: bool): (R: Matrix)
    requires r < |M| && c < |M[r]|
    ensures |R| == |M| && forall x :: 0 <= x < |M| ==> |R[x]| == |M[x]|
    ensures forall x, y :: 0 <= x < |M| && 0 <= y < |M[x]| ==> R[x][y] == if x == r && y == c then v else M[x][y]
  {
    M[r := M[r][c := v]]
  }

  /** The body of the inner loop for the pair (i, j): the four writes. */
  function WritePair(S: Matrix, n: nat, qs: seq<nat>, M: Matrix, i: nat, j: nat): (r: Matrix)
    requires EmbedArgs(S, n, qs) && IsMatrix(M, n + n, n + n) && i < |qs| && j < |qs|
    ensures IsMatrix(r, n + n, n + n)
    ensures forall x, y :: 0 <= x < n + n && 0 <= y < n + n && QubitOf(x, n) != qs[i] ==> r[x][y] == M[x][y]
  {
    var m := |qs|;
    var qi, qj := qs[i], qs[j];
    var M1 := Set(M, qi, qj, S[i][j]);
    var M2 := Set(M1, qi + n, qj, S[i + m][j]);
    var M3 := Set(M2, qi, qj + n, S[i][j + m]);
    Set(M3, qi + n, qj + n, S[i + m][j + m])
  }

  /** The four writes set the four quadrant cells of qubits qs[i], qs[j]
      to S's matching entries and change nothing else. */
  lemma {:induction false} WritePairEntries(S: Matrix, n: nat, qs: seq<nat>, M: Matrix, i: nat, j: nat)
    requires EmbedArgs(S, n, qs) && IsMatrix(M, n + n, n + n) && i < |qs| && j < |qs|
    ensures forall x, y :: 0 <= x < n + n && 0 <= y < n + n ==>
      WritePair(S, n, qs, M, i, j)[x][y] == if QubitOf(x, n) == qs[i] && QubitOf(y, n) == qs[j]
                 then S[Lift(i, x, n, |qs|)][Lift(j, y, n, |qs|)] else M[x][y]
  {
    var m := |qs|;
    var qi, qj := qs[i], qs[j];
    var M1 := Set(M, qi, qj, S[i][j]);
    var M2 := Set(M1, qi + n, qj, S[i + m][j]);
    var M3 := Set(M2, qi, qj + n, S[i][j + m]);
    var r := Set(M3, qi + n, qj + n, S[i + m][j + m]);
    assert WritePair(S, n, qs, M, i, j) == r;
  }

  /** The inner loop over j for a fixed i. */
  function EmbedRow(S: Matrix, n: nat, qs: seq<nat>, M: Matrix, i: nat, j: nat): (r: Matrix)
    requires EmbedArgs(S, n, qs) && IsMatrix(M, n + n, n + n) && i < |qs| && j <= |qs|
    ensures IsMatrix(r, n + n, n + n)
    ensures forall x, y :: 0 <= x < n + n && 0 <= y < n + n && QubitOf(x, n) != qs[i] ==> r[x][y] == M[x][y]
    decreases |qs| - j
  {
    if j == |qs| then M else EmbedRow(S, n, qs, WritePair(S, n, qs, M, i, j), i, j + 1)
  }

  /** The outer loop over i. */
  function EmbedRows(S: Matrix, n: nat, qs: seq<nat>, M: Matrix, i: nat): (r: Matrix)
    requires EmbedArgs(S, n, qs) && IsMatrix(M, n + n, n + n) && i <= |qs|
    ensures IsMatrix(r, n + n, n + n)
    decreases |qs| - i
  {
    if i == |qs| then M else EmbedRows(S, n, qs, EmbedRow(S, n, qs, M, i, 0), i + 1)
  }

  /** What cell (x, y) holds after the inner loop for position i has run
      from j: in a row of qubit qs[i], S's entry at the last position from j
      listing the column's qubit, if any; otherwise the cell of M. */
  function RowTarget(S: Matrix, n: nat, qs: seq<nat>, M: Matrix, i: nat, j: nat, x: nat, y: nat): bool
    requires EmbedArgs(S, n, qs) && IsMatrix(M, n + n, n + n) && i < |qs| && j <= |qs|
    requires x < n + n && y < n + n
  {
    var last := LastIn(qs, QubitOf(y, n), j, |qs|);
    if QubitOf(x, n) == qs[i] && last.Some?
    then S[Lift(i, x, n, |qs|)][Lift(last.value, y, n, |qs|)] else M[x][y]
  }

  /** After the inner loop for i, a cell of qubit row qs[i] holds the S entry
      of the last listed position of its column qubit; other cells keep
      their value. */
  lemma {:induction false} EmbedRowEntries(S: Matrix, n: nat, qs: seq<nat>, M: Matrix, i: nat, j: nat)
    requires EmbedArgs(S, n, qs) && IsMatrix(M, n + n, n + n) && i < |qs| && j <= |qs|
    ensures forall x, y :: 0 <= x < n + n && 0 <= y < n + n ==>
      EmbedRow(S, n, qs, M, i, j)[x][y] == RowTarget(S, n, qs, M, i, j, x, y)
    decreases |qs| - j
  {
    if j < |qs| {
      var W := WritePair(S, n, qs, M, i, j);
      WritePairEntries(S, n, qs, M, i, j);
      EmbedRowEntries(S, n, qs, W, i, j + 1);
      forall x, y | 0 <= x < n + n && 0 <= y < n + n
        ensures EmbedRow(S, n, qs, M, i, j)[x][y] == RowTarget(S, n, qs, M, i, j, x, y)
      {
        LastInExtend(qs, QubitOf(y, n), j, |qs|);
      }
    }
  }

  /** What cell (x, y) holds after the outer loop has run from position i:
      S's entry at the last listed positions of its row qubit (from i on)
      and of its column qubit, if both exist; otherwise the cell of M. */
  function RowsTarget(S: Matrix, n: nat, qs: seq<nat>, M: Matrix, i: nat, x: nat, y: nat): bool
    requires EmbedArgs(S, n, qs) && IsMatrix(M, n + n, n + n) && i <= |qs|
    requires x < n + n && y < n + n
  {
    var row := LastIn(qs, QubitOf(x, n), i, |qs|);
    var col := LastIn(qs, QubitOf(y, n), 0, |qs|);
    if row.Some? && col.Some?
    then S[Lift(row.value, x, n, |qs|)][Lift(col.value, y, n, |qs|)] else M[x][y]
  }

  /** After the outer loop from i, a cell holds the S entry at the last
      listed positions of its row qubit (among positions from i) and of its
      column qubit; other cells keep their value. */
  lemma {:induction false} EmbedRowsEntries(S: Matrix, n: nat, qs: seq<nat>, M: Matrix, i: nat)
    requires EmbedArgs(S, n, qs) && IsMatrix(M, n + n, n + n) && i <= |qs|
    ensures forall x, y :: 0 <= x < n + n && 0 <= y < n + n ==>
      EmbedRows(S, n, qs, M, i)[x][y] == RowsTarget(S, n, qs, M, i, x, y)
    decreases |qs| - i
  {
    if i < |qs| {
      var E := EmbedRow(S, n, qs, M, i, 0);
      EmbedRowsEntries(S, n, qs, E, i + 1);
      EmbedRowEntries(S, n, qs, M, i, 0);
      forall x, y | 0 <= x < n + n && 0 <= y < n + n
        ensures EmbedRows(S, n, qs, M, i)[x][y] == RowsTarget(S, n, qs, M, i, x, y)
      {
        LastInExtend(qs, QubitOf(x, n), i, |qs|);
      }
    }
  }

  /** symplectic_to_matrix: S written over the 2n x 2n identity at the
      rows and columns of the listed qubits. Cell (x, y) takes the S entry
      of the last listed positions of the qubits of x and y, in the same
      x/z halves; a cell whose row or column qubit is not listed is the
      identity's. */
  function SymplecticToMatrix(S: Matrix, n: nat, qs: seq<nat>): (r: Matrix)
    requires EmbedArgs(S, n, qs)
    ensures IsMatrix(r, n + n, n + n)
    ensures forall x, y :: 0 <= x < n + n && 0 <= y < n + n ==>
      var row := LastIn(qs, QubitOf(x, n), 0, |qs|);
      var col := LastIn(qs, QubitOf(y, n), 0, |qs|);
      r[x][y] == if row.Some? && col.Some?
                 then S[Lift(row.value, x, n, |qs|)][Lift(col.value, y, n, |qs|)] else x == y
  {
    EmbedRowsEntries(S, n, qs, Identity(n + n), 0);
    EmbedRows(S, n, qs, Identity(n + n), 0)
  }

  predicate Distinct(qs: seq<nat>) {
    forall a, b :: 0 <= a < b < |qs| ==> qs[a] != qs[b]
  }

  lemma {:induction false} LastInDistinct(qs: seq<nat>, i: nat)
    requires Distinct(qs) && i < |qs|
    ensures LastIn(qs, qs[i], 0, |qs|) == Some(i)
  {
  }

  /** The cell (x, y) whose row and column qubits are last listed at
      positions a and b. */
  lemma {:induction false} EmbedAt(S: Matrix, n: nat, qs: seq<nat>, x: nat, y: nat, a: nat, b: nat)
    requires EmbedArgs(S, n, qs) && x < n + n && y < n + n
    requires LastIn(qs, QubitOf(x, n), 0, |qs|) == Some(a) && LastIn(qs, QubitOf(y, n), 0, |qs|) == Some(b)
    ensures a < |qs| && b < |qs|
    ensures SymplecticToMatrix(S, n, qs)[x][y] == S[Lift(a, x, n, |qs|)][Lift(b, y, n, |qs|)]
  {
  }

  /** For distinct qubits, entry (i, j) of each quadrant of S lands at the
      qubits qs[i], qs[j] of the same quadrant of the big matrix. */
  lemma {:induction false} EmbedDistinct(S: Matrix, n: nat, qs: seq<nat>, i: nat, j: nat, hi: bool, hj: bool)
    requires EmbedArgs(S, n, qs) && Distinct(qs) && i < |qs| && j < |qs|
    ensures SymplecticToMatrix(S, n, qs)[qs[i] + (if hi then n else 0)][qs[j] + (if hj then n else 0)]
      == S[i + (if hi then |qs| else 0)][j + (if hj then |qs| else 0)]
  {
    LastInDistinct(qs, i);
    LastInDistinct(qs, j);
    var m := |qs|;
    var x := qs[i] + (if hi then n else 0);
    var y := qs[j] + (if hj then n else 0);
    var a := i + (if hi then m else 0);
    var b := j + (if hj then m else 0);
    assert QubitOf(x, n) == qs[i] && QubitOf(y, n) == qs[j];
    assert Lift(i, x, n, m) == a && Lift(j, y, n, m) == b;
    EmbedAt(S, n, qs, x, y, i, j);
  }

  /** Rows and columns of unlisted qubits are those of the identity, so the
      embedded matrix leaves the other qubits alone. */
  lemma {:induction false} EmbedUntouched(S: Matrix, n: nat, qs: seq<nat>, x: nat, y: nat)
    requires EmbedArgs(S, n, qs) && x < n + n && y < n + n
    requires QubitOf(x, n) !in qs || QubitOf(y, n) !in qs
    ensures SymplecticToMatrix(S, n, qs)[x][y] == (x == y)
  {
    var q, q' := QubitOf(x, n), QubitOf(y, n);
    if LastIn(qs, q, 0, |qs|).Some? {
      assert q in qs;
    }
    if LastIn(qs, q', 0, |qs|).Some? {
      assert q' in qs;
    }
  }
}

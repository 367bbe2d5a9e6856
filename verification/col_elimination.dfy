/** Gaussian elimination over GF(2) by column operations, recording each
    column addition as a (source, destination) step; replayed against a
    tableau quadrant, each step is one CNOT with control = source and
    target = destination. */
module ColElimination {
  import opened Options
  import opened Gf2
  import RowElimination

  /** "Add column `src` into column `dst` (mod 2)". */
  datatype Step = Step(src: nat, dst: nat)

  /** A partial run: the current matrix and the steps recorded so far. */
  datatype Progress = Progress(m: Matrix, steps: seq<Step>)

  predicate InRange(steps: seq<Step>, n: nat) {
    forall t :: 0 <= t < |steps| ==> steps[t].src < n && steps[t].dst < n
  }

  /** Folds the steps over M as column additions, first step first. */
  function ApplySteps(M: Matrix, n: nat, steps: seq<Step>): (r: Matrix)
    requires IsMatrix(M, n, n) && InRange(steps, n)
    ensures IsMatrix(r, n, n)
    decreases |steps|
  {
    if steps == [] then M
    else ApplySteps(AddCol(M, n, steps[0].src, steps[0].dst), n, steps[1..])
  }

  lemma {:induction false} ApplyStepsAppend(M: Matrix, n: nat, s1: seq<Step>, s2: seq<Step>)
    requires IsMatrix(M, n, n) && InRange(s1, n) && InRange(s2, n)
    ensures InRange(s1 + s2, n)
    ensures ApplySteps(M, n, s1 + s2) == ApplySteps(ApplySteps(M, n, s1), n, s2)
    decreases |s1|
  {
    if s1 != [] {
      assert s1 + s2 != [] && (s1 + s2)[0] == s1[0];
      assert (s1 + s2)[1..] == s1[1..] + s2;
      assert ApplySteps(M, n, s1) == ApplySteps(AddCol(M, n, s1[0].src, s1[0].dst), n, s1[1..]);
      ApplyStepsAppend(AddCol(M, n, s1[0].src, s1[0].dst), n, s1[1..], s2);
    } else {
      assert s1 + s2 == s2;
    }
  }

  /** Records `s` after applying it to M. */
  lemma {:induction false} ApplyOne(M: Matrix, n: nat, s: Step, rest: seq<Step>)
    requires IsMatrix(M, n, n) && s.src < n && s.dst < n && InRange(rest, n)
    ensures InRange([s] + rest, n)
    ensures ApplySteps(M, n, [s] + rest) == ApplySteps(AddCol(M, n, s.src, s.dst), n, rest)
  {
    assert ([s] + rest)[1..] == rest;
  }

  /** The first column at or after `j` with a 1 in row `i`. */
  function FindRight(M: Matrix, n: nat, i: nat, j: nat): (r: Option<nat>)
    requires IsMatrix(M, n, n) && i < n && j <= n
    ensures r.Some? ==> j <= r.value < n && M[i][r.value]
    ensures r.Some? ==> forall c :: j <= c < r.value ==> !M[i][c]
    ensures r.None? <==> forall c :: j <= c < n ==> !M[i][c]
    decreases n - j
  {
    if j == n then None
    else if M[i][j] then Some(j)
    else FindRight(M, n, i, j + 1)
  }

  /** Clears row i to the right: for each column c from j on with a 1 in
      row i, adds column i into column c and records (i, c). */
  function ClearRight(M: Matrix, n: nat, i: nat, j: nat): (r: Progress)
    requires IsMatrix(M, n, n) && i < j <= n
    ensures IsMatrix(r.m, n, n) && InRange(r.steps, n)
    ensures r.m == ApplySteps(M, n, r.steps)
    ensures forall t :: 0 <= t < |r.steps| ==> r.steps[t].src == i && j <= r.steps[t].dst
    decreases n - j
  {
    if j == n then Progress(M, [])
    else
      var M' := if M[i][j] then AddCol(M, n, i, j) else M;
      var rest := ClearRight(M', n, i, j + 1);
      if M[i][j] then
        ApplyOne(M, n, Step(i, j), rest.steps);
        Progress(rest.m, [Step(i, j)] + rest.steps)
      else
        Progress(rest.m, rest.steps)
  }

  /** Makes the diagonal entry of row i a 1 if it is not: adds in the first
      column to its right with a 1 in row i, recording (j, i); when there is
      no such column nothing happens. */
  function FixDiagonal(M: Matrix, n: nat, i: nat): (r: Progress)
    requires IsMatrix(M, n, n) && i < n
    ensures IsMatrix(r.m, n, n) && InRange(r.steps, n)
    ensures r.m == ApplySteps(M, n, r.steps)
    ensures forall t :: 0 <= t < |r.steps| ==> r.steps[t].dst == i && r.steps[t].src > i
    ensures r.m[i][i] <==> !forall c :: i <= c < n ==> !M[i][c]
    ensures r.steps == [] ==> r.m == M
    ensures r.steps != [] ==> |r.steps| == 1 && r.m == AddCol(M, n, r.steps[0].src, i)
  {
    if M[i][i] then Progress(M, [])
    else match FindRight(M, n, i, i + 1)
      case None => Progress(M, [])
      case Some(j) =>
        ApplyOne(M, n, Step(j, i), []);
        Progress(AddCol(M, n, j, i), [Step(j, i)])
  }

  /** Phase 1 on row i: make the diagonal entry 1 by adding in the first
      column to its right with a 1 in row i (step (j, i)), if there is one,
      then clear the rest of row i to the right (steps (i, j)). */
  function Phase1Row(M: Matrix, n: nat, i: nat): (r: Progress)
    requires IsMatrix(M, n, n) && i < n
    ensures IsMatrix(r.m, n, n) && InRange(r.steps, n)
    ensures r.m == ApplySteps(M, n, r.steps)
    ensures forall t :: 0 <= t < |r.steps| ==>
      (r.steps[t].dst == i && r.steps[t].src > i) || (r.steps[t].src == i && r.steps[t].dst > i)
  {
    var fix := FixDiagonal(M, n, i);
    var clear := ClearRight(fix.m, n, i, i + 1);
    ApplyStepsAppend(M, n, fix.steps, clear.steps);
    Progress(clear.m, fix.steps + clear.steps)
  }

  /** Every step joins two different columns, both at or after column i. */
  predicate StepsFrom(steps: seq<Step>, i: nat) {
    forall t :: 0 <= t < |steps| ==> steps[t].src != steps[t].dst && i <= steps[t].src && i <= steps[t].dst
  }

  lemma {:induction false} StepsFromAppend(s1: seq<Step>, s2: seq<Step>, i: nat, j: nat)
    requires StepsFrom(s1, i) && StepsFrom(s2, j) && i <= j
    ensures StepsFrom(s1 + s2, i)
  {
    var s := s1 + s2;
    forall t | 0 <= t < |s|
      ensures s[t].src != s[t].dst && i <= s[t].src && i <= s[t].dst
    {
      if t >= |s1| {
        assert s[t] == s2[t - |s1|];
      }
    }
  }

  /** Phase 1 from row i on: the matrix becomes lower-triangular when the
      input has full rank. Rows are processed in increasing order. */
  function Phase1(M: Matrix, n: nat, i: nat): (r: Progress)
    requires IsMatrix(M, n, n) && i <= n
    ensures IsMatrix(r.m, n, n) && InRange(r.steps, n)
    ensures r.m == ApplySteps(M, n, r.steps)
    ensures StepsFrom(r.steps, i)
    decreases n - i
  {
    if i == n then Progress(M, [])
    else
      var row := Phase1Row(M, n, i);
      var rest := Phase1(row.m, n, i + 1);
      ApplyStepsAppend(M, n, row.steps, rest.steps);
      assert StepsFrom(row.steps, i);
      StepsFromAppend(row.steps, rest.steps, i, i + 1);
      Progress(rest.m, row.steps + rest.steps)
  }

  /** Clears row i to the left, columns j-1 down to 0: for each such column
      c with a 1 in row i, adds column i into column c and records (i, c). */
  function ClearLeft(M: Matrix, n: nat, i: nat, j: nat): (r: Progress)
    requires IsMatrix(M, n, n) && j <= i < n
    ensures IsMatrix(r.m, n, n) && InRange(r.steps, n)
    ensures r.m == ApplySteps(M, n, r.steps)
    ensures forall t :: 0 <= t < |r.steps| ==> r.steps[t].src == i && r.steps[t].dst < j
    ensures forall s, t :: 0 <= s < t < |r.steps| ==> r.steps[s].dst > r.steps[t].dst
    decreases j
  {
    if j == 0 then Progress(M, [])
    else
      var c := j - 1;
      var M' := if M[i][c] then AddCol(M, n, i, c) else M;
      var rest := ClearLeft(M', n, i, c);
      if M[i][c] then
        ApplyOne(M, n, Step(i, c), rest.steps);
        var steps := [Step(i, c)] + rest.steps;
        assert forall t :: 1 <= t < |steps| ==> steps[t] == rest.steps[t - 1];
        Progress(rest.m, steps)
      else
        Progress(rest.m, rest.steps)
  }

  /** Phase 2 for rows i-1 down to 0: clears everything left of the
      diagonal. Every step adds a later column into an earlier one. */
  function Phase2(M: Matrix, n: nat, i: nat): (r: Progress)
    requires IsMatrix(M, n, n) && i <= n
    ensures IsMatrix(r.m, n, n) && InRange(r.steps, n)
    ensures r.m == ApplySteps(M, n, r.steps)
    ensures Backward(r.steps, i)
    decreases i
  {
    if i == 0 then Progress(M, [])
    else
      var row := ClearLeft(M, n, i - 1, i - 1);
      var rest := Phase2(row.m, n, i - 1);
      ApplyStepsAppend(M, n, row.steps, rest.steps);
      BackwardAppend(row.steps, rest.steps, i);
      Progress(rest.m, row.steps + rest.steps)
  }

  /** Every step adds a later column into an earlier one, both before
      column i, and the source columns never increase along the list. */
  predicate Backward(steps: seq<Step>, i: nat) {
    (forall t :: 0 <= t < |steps| ==> steps[t].dst < steps[t].src < i)
    && (forall s, t :: 0 <= s < t < |steps| ==> steps[s].src >= steps[t].src)
  }

  /** The steps of row i - 1 followed by those of the rows before it. */
  lemma {:induction false} BackwardAppend(s1: seq<Step>, s2: seq<Step>, i: nat)
    requires 0 < i
    requires forall t :: 0 <= t < |s1| ==> s1[t].src == i - 1 && s1[t].dst < i - 1
    requires Backward(s2, i - 1)
    ensures Backward(s1 + s2, i)
  {
    var s := s1 + s2;
    assert forall t :: |s1| <= t < |s| ==> s[t] == s2[t - |s1|];
  }

  /** The recorded column steps of the whole elimination: phase 1, then
      phase 2. Every step joins two different columns of the n x n matrix. */
  function ColumnEliminationSteps(A: Matrix, n: nat): (steps: seq<Step>)
    requires IsMatrix(A, n, n)
    ensures InRange(steps, n)
    ensures forall t :: 0 <= t < |steps| ==> steps[t].src != steps[t].dst
  {
    var p1 := Phase1(A, n, 0);
    var p2 := Phase2(p1.m, n, n);
    ApplyStepsAppend(A, n, p1.steps, p2.steps);
    p1.steps + p2.steps
  }

  // ---------------------------------------------------------------------
  // Reaching the identity

  /** Column additions between different columns keep the left kernel. */
  lemma {:induction false} AddColKernel(M: Matrix, n: nat, src: nat, dst: nat, y: Row)
    requires IsMatrix(M, n, n) && src < n && dst < n && src != dst && |y| == n
    ensures InLeftKernel(y, AddCol(M, n, src, dst), n, n) <==> InLeftKernel(y, M, n, n)
  {
    var M' := AddCol(M, n, src, dst);
    assert Column(M', n, n, dst) == XorRow(Column(M, n, n, dst), Column(M, n, n, src));
    PrefixDotXor(y, Column(M, n, n, dst), Column(M, n, n, src), n);
    forall c | 0 <= c < n && c != dst
      ensures Column(M', n, n, c) == Column(M, n, n, c)
    {
    }
  }

  /** Steps that join different columns keep nonsingularity, both ways. */
  lemma {:induction false} ApplyStepsNonSingular(M: Matrix, n: nat, steps: seq<Step>)
    requires IsMatrix(M, n, n) && InRange(steps, n)
    requires forall t :: 0 <= t < |steps| ==> steps[t].src != steps[t].dst
    ensures NonSingular(ApplySteps(M, n, steps), n) <==> NonSingular(M, n)
    decreases |steps|
  {
    if steps != [] {
      var M' := AddCol(M, n, steps[0].src, steps[0].dst);
      forall y: Row | |y| == n
        ensures InLeftKernel(y, M', n, n) <==> InLeftKernel(y, M, n, n)
      {
        AddColKernel(M, n, steps[0].src, steps[0].dst, y);
      }
      ApplyStepsNonSingular(M', n, steps[1..]);
    }
  }

  /** Rows before i are done by phase 1: 1 on the diagonal, 0 to the right. */
  predicate LowerPrefix(M: Matrix, n: nat, i: nat)
    requires IsMatrix(M, n, n) && i <= n
  {
    forall r :: 0 <= r < i ==> M[r][r] && forall c :: r < c < n ==> !M[r][c]
  }

  /** The back-substituted left-kernel vector used when phase 1 is stuck at
      row i: y_i = 1, y_r = 0 for r > i, and for r < i, y_r is the sum of
      y_x * M[x][r] over x > r. */
  ghost function KernelBit(M: Matrix, n: nat, i: nat, c: nat): bool
    requires IsMatrix(M, n, n) && c < n
    decreases n - c, 1
  {
    if c > i then false
    else if c == i then true
    else KernelSum(M, n, i, c, c + 1)
  }

  /** Sum of KernelBit(x) * M[x][c] over x in [r, n). */
  ghost function KernelSum(M: Matrix, n: nat, i: nat, c: nat, r: nat): bool
    requires IsMatrix(M, n, n) && c < n && r <= n
    decreases n - r + 1, 0
  {
    if r == n then false
    else (KernelBit(M, n, i, r) && M[r][c]) != KernelSum(M, n, i, c, r + 1)
  }

  ghost function KernelVector(M: Matrix, n: nat, i: nat): (y: Row)
    requires IsMatrix(M, n, n)
    ensures |y| == n
  {
    seq(n, c requires 0 <= c < n => KernelBit(M, n, i, c))
  }

  lemma {:induction false} KernelSumIsSuffixDot(M: Matrix, n: nat, i: nat, c: nat, r: nat)
    requires IsMatrix(M, n, n) && c < n && r <= n
    ensures KernelSum(M, n, i, c, r) == SuffixDot(KernelVector(M, n, i), Column(M, n, n, c), r)
    decreases n - r
  {
    if r < n {
      KernelSumIsSuffixDot(M, n, i, c, r + 1);
    }
  }

  /** If phase 1 finds row i (i < n) empty from the diagonal on, with the
      rows before it done, M has a nonzero vector in its left kernel. */
  lemma {:induction false} StuckIsSingular(M: Matrix, n: nat, i: nat)
    requires IsMatrix(M, n, n) && i < n && LowerPrefix(M, n, i)
    requires forall c :: i <= c < n ==> !M[i][c]
    ensures !NonSingular(M, n)
  {
    var y := KernelVector(M, n, i);
    assert y[i];
    forall c | 0 <= c < n
      ensures !Dot(y, Column(M, n, n, c))
    {
      var col := Column(M, n, n, c);
      PrefixSuffixSplit(y, col, 0);
      if c < i {
        SuffixDotSkip(y, col, 0, c);
        KernelSumIsSuffixDot(M, n, i, c, c + 1);
        assert col[c];
      } else {
        forall x | 0 <= x < n
          ensures !(y[x] && col[x])
        {
          if x < i {
            assert !M[x][c];
          }
        }
        SuffixDotSkip(y, col, 0, n);
      }
    }
    assert NonZero(y) && InLeftKernel(y, M, n, n);
  }

  /** Entry (x, c) after clearing row i from column j on: column i is
      added into every column c from j on with a 1 in row i. */
  function ClearedEntry(M: Matrix, n: nat, i: nat, j: nat, x: nat, c: nat): bool
    requires IsMatrix(M, n, n) && i < n && x < n && c < n
  {
    if j <= c && M[i][c] then M[x][c] != M[x][i] else M[x][c]
  }

  /** What ClearRight does to each entry. */
  lemma {:induction false} ClearRightEntries(M: Matrix, n: nat, i: nat, j: nat)
    requires IsMatrix(M, n, n) && i < j <= n
    ensures forall x, c :: 0 <= x < n && 0 <= c < n ==>
      ClearRight(M, n, i, j).m[x][c] == ClearedEntry(M, n, i, j, x, c)
    decreases n - j
  {
    if j < n {
      var M' := if M[i][j] then AddCol(M, n, i, j) else M;
      ClearRightEntries(M', n, i, j + 1);
      assert ClearRight(M, n, i, j).m == ClearRight(M', n, i, j + 1).m;
      forall x, c | 0 <= x < n && 0 <= c < n
        ensures ClearRight(M, n, i, j).m[x][c] == ClearedEntry(M, n, i, j, x, c)
      {
        assert M'[x][i] == M[x][i];
        if c != j {
          assert M'[i][c] == M[i][c] && M'[x][c] == M[x][c];
        }
      }
    }
  }

  /** Fixing the diagonal of row i keeps the rows before it done, and on a
      nonsingular matrix it does put a 1 on the diagonal. */
  lemma {:induction false} FixDiagonalLower(M: Matrix, n: nat, i: nat)
    requires IsMatrix(M, n, n) && i < n && LowerPrefix(M, n, i) && NonSingular(M, n)
    ensures var F := FixDiagonal(M, n, i).m; F[i][i] && LowerPrefix(F, n, i)
  {
    var fix := FixDiagonal(M, n, i);
    if !fix.m[i][i] {
      StuckIsSingular(M, n, i);
    }
    if fix.steps != [] {
      var j := fix.steps[0].src;
      forall r | 0 <= r < i
        ensures fix.m[r][r] && forall c :: r < c < n ==> !fix.m[r][c]
      {
        assert !M[r][i] && !M[r][j];
      }
    }
  }

  /** Clearing row i to the right after a 1 was put on its diagonal
      finishes row i and leaves the rows before it done. */
  lemma {:induction false} ClearRightLower(F: Matrix, n: nat, i: nat, C: Matrix)
    requires IsMatrix(F, n, n) && i < n && LowerPrefix(F, n, i) && F[i][i]
    requires C == ClearRight(F, n, i, i + 1).m
    ensures IsMatrix(C, n, n) && LowerPrefix(C, n, i + 1)
  {
    ClearRightEntries(F, n, i, i + 1);
    forall r | 0 <= r < i + 1
      ensures C[r][r] && forall c :: r < c < n ==> !C[r][c]
    {
      assert C[r][r] == ClearedEntry(F, n, i, i + 1, r, r) == F[r][r];
      forall c | r < c < n
        ensures !C[r][c]
      {
        assert C[r][c] == ClearedEntry(F, n, i, i + 1, r, c);
        if r < i {
          assert !F[r][i] && !F[r][c];
        }
      }
    }
  }

  /** On a nonsingular matrix whose rows before i are done, phase 1 on
      row i finishes row i too, and the matrix stays nonsingular. */
  lemma {:induction false} Phase1RowStep(M: Matrix, n: nat, i: nat, R: Matrix)
    requires IsMatrix(M, n, n) && i < n && LowerPrefix(M, n, i) && NonSingular(M, n)
    requires R == Phase1Row(M, n, i).m
    ensures IsMatrix(R, n, n) && LowerPrefix(R, n, i + 1) && NonSingular(R, n)
  {
    var fix := FixDiagonal(M, n, i);
    FixDiagonalLower(M, n, i);
    ClearRightLower(fix.m, n, i, R);
    var row := Phase1Row(M, n, i);
    assert forall t :: 0 <= t < |row.steps| ==> row.steps[t].src != row.steps[t].dst;
    ApplyStepsNonSingular(M, n, row.steps);
  }

  lemma {:induction false} Phase1Unfold(M: Matrix, n: nat, i: nat)
    requires IsMatrix(M, n, n) && i < n
    ensures Phase1(M, n, i).m == Phase1(Phase1Row(M, n, i).m, n, i + 1).m
  {
  }

  /** On a nonsingular matrix, phase 1 ends lower-unitriangular. */
  lemma {:induction false} Phase1Lower(M: Matrix, n: nat, R: Matrix)
    requires IsMatrix(M, n, n) && NonSingular(M, n)
    requires R == Phase1(M, n, 0).m
    ensures IsMatrix(R, n, n) && LowerPrefix(R, n, n)
  {
    var cur := M;
    var i := 0;
    while i < n
      invariant i <= n && IsMatrix(cur, n, n)
      invariant LowerPrefix(cur, n, i) && NonSingular(cur, n)
      invariant R == Phase1(cur, n, i).m
    {
      var next := Phase1Row(cur, n, i).m;
      Phase1RowStep(cur, n, i, next);
      Phase1Unfold(cur, n, i);
      cur, i := next, i + 1;
    }
    assert R == cur;
  }

  /** With column i equal to the unit vector e_i, clearing row i to the
      left of column j zeroes exactly those entries of row i. */
  lemma {:induction false} ClearLeftUnit(M: Matrix, n: nat, i: nat, j: nat)
    requires IsMatrix(M, n, n) && j <= i < n
    requires forall x :: 0 <= x < n ==> M[x][i] == (x == i)
    ensures forall x, c :: 0 <= x < n && 0 <= c < n ==>
      ClearLeft(M, n, i, j).m[x][c] == if x == i && c < j then false else M[x][c]
    decreases j
  {
    if j > 0 {
      var c := j - 1;
      var M' := if M[i][c] then AddCol(M, n, i, c) else M;
      ClearLeftUnit(M', n, i, c);
    }
  }

  lemma {:induction false} Phase2Unfold(M: Matrix, n: nat, i: nat)
    requires IsMatrix(M, n, n) && 0 < i <= n
    ensures Phase2(M, n, i).m == Phase2(ClearLeft(M, n, i - 1, i - 1).m, n, i - 1).m
  {
  }

  /** Rows from i on are rows of the identity. */
  predicate IdentityFrom(M: Matrix, n: nat, i: nat)
    requires IsMatrix(M, n, n)
  {
    forall x, c :: i <= x < n && 0 <= c < n ==> M[x][c] == (x == c)
  }

  /** Clearing row p to the left, once the rows after p are those of the
      identity, makes row p one of them too. */
  lemma {:induction false} Phase2Step(M: Matrix, n: nat, i: nat, R: Matrix)
    requires IsMatrix(M, n, n) && 0 < i <= n && LowerPrefix(M, n, n) && IdentityFrom(M, n, i)
    requires R == ClearLeft(M, n, i - 1, i - 1).m
    ensures IsMatrix(R, n, n) && LowerPrefix(R, n, n) && IdentityFrom(R, n, i - 1)
  {
    var p := i - 1;
    forall x | 0 <= x < n
      ensures M[x][p] == (x == p)
    {
      if x < p {
        assert LowerPrefix(M, n, n);
      }
    }
    ClearLeftUnit(M, n, p, p);
    assert LowerPrefix(R, n, n) by {
      forall x | 0 <= x < n
        ensures R[x][x] && forall c :: x < c < n ==> !R[x][c]
      {
        assert M[x][x] && forall c :: x < c < n ==> !M[x][c];
      }
    }
    forall x, c | p <= x < n && 0 <= c < n
      ensures R[x][c] == (x == c)
    {
      if x == p && p < c {
        assert !M[x][c];
      }
    }
  }

  /** A matrix whose every row is a row of the identity is the identity. */
  lemma {:induction false} IdentityFromZero(M: Matrix, n: nat)
    requires IsMatrix(M, n, n) && IdentityFrom(M, n, 0)
    ensures M == Identity(n)
  {
    assert forall x :: 0 <= x < n ==> M[x] == Identity(n)[x];
  }

  /** One turn of phase 2 as a loop: row i - 1 is cleared and the rest of
      phase 2 still leads to R. */
  lemma {:induction false} Phase2Turn(M: Matrix, n: nat, i: nat, R: Matrix) returns (next: Matrix)
    requires IsMatrix(M, n, n) && 0 < i <= n && LowerPrefix(M, n, n) && IdentityFrom(M, n, i)
    requires R == Phase2(M, n, i).m
    ensures IsMatrix(next, n, n) && LowerPrefix(next, n, n) && IdentityFrom(next, n, i - 1)
    ensures R == Phase2(next, n, i - 1).m
  {
    next := ClearLeft(M, n, i - 1, i - 1).m;
    Phase2Step(M, n, i, next);
    Phase2Unfold(M, n, i);
  }

  /** Phase 2 takes a lower-unitriangular matrix whose rows from i on are
      done to the identity. */
  lemma {:induction false} Phase2Identity(M: Matrix, n: nat, i: nat, R: Matrix)
    requires IsMatrix(M, n, n) && i <= n && LowerPrefix(M, n, n) && IdentityFrom(M, n, i)
    requires R == Phase2(M, n, i).m
    ensures R == Identity(n)
    decreases i
  {
    if i == 0 {
      IdentityFromZero(M, n);
    } else {
      var next := Phase2Turn(M, n, i, R);
      Phase2Identity(next, n, i - 1, R);
    }
  }

  /** Folding the recorded steps over A as column additions gives the
      identity exactly when A has full rank (trivial left kernel). */
  lemma {:induction false} ReachesIdentity(A: Matrix, n: nat)
    requires IsMatrix(A, n, n)
    ensures ApplySteps(A, n, ColumnEliminationSteps(A, n)) == Identity(n) <==> NonSingular(A, n)
  {
    var p1 := Phase1(A, n, 0);
    var p2 := Phase2(p1.m, n, n);
    var steps := ColumnEliminationSteps(A, n);
    ApplyStepsAppend(A, n, p1.steps, p2.steps);
    ApplyStepsNonSingular(A, n, steps);
    IdentityNonSingular(n);
    if NonSingular(A, n) {
      Phase1Lower(A, n, p1.m);
      Phase2Identity(p1.m, n, n, p2.m);
    }
  }

  /** The two eliminations agree on what full rank means: the column steps
      reach the identity exactly when get_rank reports n. */
  lemma {:induction false} ReachesIdentityIffFullRank(A: Matrix, n: nat)
    requires IsMatrix(A, n, n)
    ensures ApplySteps(A, n, ColumnEliminationSteps(A, n)) == Identity(n) <==> RowElimination.Rank(A, n, n) == n
  {
    ReachesIdentity(A, n);
    RowElimination.RankIndependent(A, n, n);
  }
}

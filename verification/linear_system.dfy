/** Dense Gaussian elimination with partial pivoting, over exact reals: the
    solver's `solveLinearSystem`. The threshold below which a pivot counts
    as zero is a plain constant. */
module LinearSystem {
  import opened Circuit

  type Matrix = seq<seq<real>>

  /** Pivots of smaller magnitude than this make the system singular. */
  const Threshold: real := 0.000000001

  predicate IsSquare(m: Matrix, n: nat)
  {
    |m| == n && forall i :: 0 <= i < n ==> |m[i]| == n
  }

  /** Sum of `r[k] * x[k]` for `lo <= k < hi`. */
  function DotRange(r: seq<real>, x: seq<real>, lo: nat, hi: nat): real
    requires lo <= hi <= |r| && hi <= |x|
    decreases hi - lo
  {
    if lo == hi then 0.0 else r[lo] * x[lo] + DotRange(r, x, lo + 1, hi)
  }

  /** `x` satisfies every equation `m[i] . x == b[i]` of the n-by-n system. */
  ghost predicate Solves(m: Matrix, n: nat, x: seq<real>, b: seq<real>)
    requires IsSquare(m, n) && |x| == n && |b| == n
  {
    forall i {:trigger DotRange(m[i], x, 0, n)} :: 0 <= i < n ==> DotRange(m[i], x, 0, n) == b[i]
  }

  /** Two systems with exactly the same solutions. */
  ghost predicate SameSolutions(m: Matrix, b: seq<real>, m': Matrix, b': seq<real>, n: nat)
    requires IsSquare(m, n) && |b| == n && IsSquare(m', n) && |b'| == n
  {
    forall x :: |x| == n ==> (Solves(m, n, x, b) <==> Solves(m', n, x, b'))
  }

  /** Every entry strictly below the diagonal in the first `i` columns is zero. */
  ghost predicate LowerZero(m: Matrix, n: nat, i: nat)
    requires IsSquare(m, n)
  {
    forall r, c :: 0 <= c < r < n && c < i ==> m[r][c] == 0.0
  }

  /** The first `i` diagonal entries are at least the threshold in magnitude. */
  ghost predicate DiagOk(m: Matrix, n: nat, i: nat)
    requires IsSquare(m, n) && i <= n
  {
    forall r :: 0 <= r < i ==> Abs(m[r][r]) >= Threshold
  }

  /** The pivot scan of column `i`: starting from candidate `p`, rows `j`
      and below replace the candidate only when strictly larger in
      magnitude, so the result is the first row of maximal magnitude. */
  function PivotScan(m: Matrix, n: nat, i: nat, j: nat, p: nat): (r: nat)
    requires IsSquare(m, n) && i <= p < j <= n
    requires forall k :: i <= k < j ==> Abs(m[k][i]) <= Abs(m[p][i])
    requires forall k :: i <= k < p ==> Abs(m[k][i]) < Abs(m[p][i])
    ensures i <= r < n
    ensures forall k :: i <= k < n ==> Abs(m[k][i]) <= Abs(m[r][i])
    ensures forall k :: i <= k < r ==> Abs(m[k][i]) < Abs(m[r][i])
    decreases n - j
  {
    if j == n then p
    else PivotScan(m, n, i, j + 1, if Abs(m[j][i]) > Abs(m[p][i]) then j else p)
  }

  function PivotRow(m: Matrix, n: nat, i: nat): (r: nat)
    requires IsSquare(m, n) && i < n
    ensures i <= r < n
    ensures forall k :: i <= k < n ==> Abs(m[k][i]) <= Abs(m[r][i])
    ensures forall k :: i <= k < r ==> Abs(m[k][i]) < Abs(m[r][i])
  {
    PivotScan(m, n, i, i + 1, i)
  }

  function SwapRows<T>(s: seq<T>, i: nat, p: nat): (r: seq<T>)
    requires i < |s| && p < |s|
    ensures |r| == |s| && r[i] == s[p] && r[p] == s[i]
    ensures forall k {:trigger r[k]} :: 0 <= k < |s| && k != i && k != p ==> r[k] == s[k]
  {
    s[i := s[p]][p := s[i]]
  }

  /** Row `j` minus `f` times row `i`, updating only columns `i` and after
      (the columns before are already zero in both rows). */
  function SubRow(m: Matrix, n: nat, i: nat, j: nat, f: real): (r: Matrix)
    requires IsSquare(m, n) && i < n && j < n
    ensures IsSquare(r, n)
    ensures forall k {:trigger r[k]} :: 0 <= k < n && k != j ==> r[k] == m[k]
    ensures forall k {:trigger r[j][k]} :: 0 <= k < n ==> r[j][k] == (if k < i then m[j][k] else m[j][k] - f * m[i][k])
  {
    m[j := seq(n, k requires 0 <= k < n => if k < i then m[j][k] else m[j][k] - f * m[i][k])]
  }

  /** The inner loop of one elimination step: rows `j` and below lose their
      column-`i` entry against pivot row `i`. */
  function EliminateBelow(m: Matrix, b: seq<real>, n: nat, i: nat, j: nat): (r: (Matrix, seq<real>))
    requires IsSquare(m, n) && |b| == n && i < j <= n && m[i][i] != 0.0
    ensures IsSquare(r.0, n) && |r.1| == n
    ensures forall k {:trigger r.0[k]} :: 0 <= k <= i ==> r.0[k] == m[k]
    ensures forall k {:trigger r.1[k]} :: 0 <= k <= i ==> r.1[k] == b[k]
    decreases n - j
  {
    if j == n then (m, b)
    else
      var s := ElimStep(m, b, n, i, j);
      EliminateBelow(s.0, s.1, n, i, j + 1)
  }

  /** One pass of the inner loop: the factor is taken from row `j` before
      the row is updated. */
  function ElimStep(m: Matrix, b: seq<real>, n: nat, i: nat, j: nat): (r: (Matrix, seq<real>))
    requires IsSquare(m, n) && |b| == n && i < j < n && m[i][i] != 0.0
    ensures IsSquare(r.0, n) && |r.1| == n
    ensures forall k {:trigger r.0[k]} :: 0 <= k < n && k != j ==> r.0[k] == m[k]
    ensures forall k {:trigger r.1[k]} :: 0 <= k < n && k != j ==> r.1[k] == b[k]
  {
    var f := Factor(m, n, i, j);
    (SubRow(m, n, i, j, f), SubEntry(b, i, j, f))
  }

  /** Entry `j` minus `f` times entry `i`: the right-hand side's share of a row operation. */
  function SubEntry(v: seq<real>, i: nat, j: nat, f: real): (r: seq<real>)
    requires i < |v| && j < |v|
    ensures |r| == |v| && forall k :: 0 <= k < |v| && k != j ==> r[k] == v[k]
  {
    v[j := v[j] - f * v[i]]
  }

  function Factor(m: Matrix, n: nat, i: nat, j: nat): real
    requires IsSquare(m, n) && i < n && j < n && m[i][i] != 0.0
  {
    m[j][i] / m[i][i]
  }

  /** Forward elimination from column `i`: `None` when a selected pivot is
      below the threshold, else the reduced system. */
  function Eliminate(m: Matrix, b: seq<real>, n: nat, i: nat): (r: Option<(Matrix, seq<real>)>)
    requires IsSquare(m, n) && |b| == n && i <= n
    ensures r.Some? ==> IsSquare(r.value.0, n) && |r.value.1| == n
    decreases n - i
  {
    if i == n then Some((m, b))
    else if Abs(m[PivotRow(m, n, i)][i]) < Threshold then None
    else
      var e := PivotStep(m, b, n, i);
      Eliminate(e.0, e.1, n, i + 1)
  }

  /** One step of the outer loop once the pivot has passed the threshold:
      swap the pivot row up, then clear the column below it. */
  function PivotStep(m: Matrix, b: seq<real>, n: nat, i: nat): (r: (Matrix, seq<real>))
    requires IsSquare(m, n) && |b| == n && i < n
    requires Abs(m[PivotRow(m, n, i)][i]) >= Threshold
    ensures IsSquare(r.0, n) && |r.1| == n
  {
    var p := PivotRow(m, n, i);
    var m1 := SwapRows(m, i, p);
    var b1 := SwapRows(b, i, p);
    EliminateBelow(m1, b1, n, i, i + 1)
  }

  /** Back substitution, filling the result from the last row up: rows `i`
      and below are solved, the rest are still 0. */
  function BackFrom(u: Matrix, c: seq<real>, n: nat, i: nat): (x: seq<real>)
    requires IsSquare(u, n) && |c| == n && i <= n
    requires forall r :: i <= r < n ==> u[r][r] != 0.0
    ensures |x| == n
    decreases n - i
  {
    if i == n then seq(n, k => 0.0)
    else
      var x := BackFrom(u, c, n, i + 1);
      x[i := (c[i] - DotRange(u[i], x, i + 1, n)) / u[i][i]]
  }

  /** `solveLinearSystem`: `Some` solution of `m . x == b`, or `None` when the
      system is found singular. A returned vector is the one and only
      solution. */
  function Solve(m: Matrix, b: seq<real>, n: nat): (r: Option<seq<real>>)
    requires IsSquare(m, n) && |b| == n
    ensures n == 0 ==> r == Some([])
    ensures r.Some? ==> |r.value| == n && Solves(m, n, r.value, b)
    ensures r.Some? ==> forall y {:trigger Solves(m, n, y, b)} :: |y| == n && Solves(m, n, y, b) ==> y == r.value
  {
    if n == 0 then Some([])
    else
      EliminateShape(m, b, n, 0);
      EliminateSolutions(m, b, n, 0);
      match Eliminate(m, b, n, 0)
      case None => None
      case Some(e) =>
        var x := BackFrom(e.0, e.1, n, 0);
        BackSolves(e.0, e.1, n);
        BackUnique(e.0, e.1, n);
        Some(x)
  }

  // ---------------------------------------------------------------------
  // Linear algebra facts

  lemma {:induction false} DotRangeLinear(u: seq<real>, v: seq<real>, w: seq<real>, f: real, x: seq<real>, lo: nat, hi: nat)
    requires lo <= hi <= |u| && hi <= |v| && hi <= |w| && hi <= |x|
    requires forall k :: lo <= k < hi ==> w[k] == u[k] - f * v[k]
    ensures DotRange(w, x, lo, hi) == DotRange(u, x, lo, hi) - f * DotRange(v, x, lo, hi)
    decreases hi - lo
  {
    if lo < hi {
      DotRangeLinear(u, v, w, f, x, lo + 1, hi);
    }
  }

  lemma {:induction false} DotRangeSplit(r: seq<real>, x: seq<real>, lo: nat, mid: nat, hi: nat)
    requires lo <= mid <= hi <= |r| && hi <= |x|
    ensures DotRange(r, x, lo, hi) == DotRange(r, x, lo, mid) + DotRange(r, x, mid, hi)
    decreases mid - lo
  {
    if lo < mid {
      DotRangeSplit(r, x, lo + 1, mid, hi);
    }
  }

  lemma {:induction false} DotRangeZeroRow(r: seq<real>, x: seq<real>, lo: nat, hi: nat)
    requires lo <= hi <= |r| && hi <= |x|
    requires forall k :: lo <= k < hi ==> r[k] == 0.0
    ensures DotRange(r, x, lo, hi) == 0.0
    decreases hi - lo
  {
    if lo < hi {
      DotRangeZeroRow(r, x, lo + 1, hi);
    }
  }

  lemma {:induction false} DotRangeSameX(r: seq<real>, x: seq<real>, y: seq<real>, lo: nat, hi: nat)
    requires lo <= hi <= |r| && hi <= |x| && hi <= |y|
    requires forall k :: lo <= k < hi ==> x[k] == y[k]
    ensures DotRange(r, x, lo, hi) == DotRange(r, y, lo, hi)
    decreases hi - lo
  {
    if lo < hi {
      DotRangeSameX(r, x, y, lo + 1, hi);
    }
  }

  /** A row whose first `i` entries are zero contributes only from column `i`. */
  lemma {:induction false} UpperRow(r: seq<real>, x: seq<real>, i: nat, n: nat)
    requires i < n == |r| && n <= |x|
    requires forall k :: 0 <= k < i ==> r[k] == 0.0
    ensures DotRange(r, x, 0, n) == r[i] * x[i] + DotRange(r, x, i + 1, n)
  {
    DotRangeSplit(r, x, 0, i, n);
    DotRangeZeroRow(r, x, 0, i);
  }

  // ---------------------------------------------------------------------
  // Row operations keep the solution set

  lemma {:induction false} SwapKeepsSolutions(m: Matrix, b: seq<real>, n: nat, i: nat, p: nat)
    requires IsSquare(m, n) && |b| == n && i < n && p < n
    ensures IsSquare(SwapRows(m, i, p), n)
    ensures SameSolutions(m, b, SwapRows(m, i, p), SwapRows(b, i, p), n)
  {
    var m' := SwapRows(m, i, p);
    var b' := SwapRows(b, i, p);
    forall x | |x| == n
      ensures Solves(m, n, x, b) <==> Solves(m', n, x, b')
    {
      if Solves(m, n, x, b) {
        forall k | 0 <= k < n ensures DotRange(m'[k], x, 0, n) == b'[k] {
          if k == i { assert m'[k] == m[p] && b'[k] == b[p]; }
          else if k == p { assert m'[k] == m[i] && b'[k] == b[i]; }
          else { assert m'[k] == m[k] && b'[k] == b[k]; }
        }
      }
      if Solves(m', n, x, b') {
        forall k | 0 <= k < n ensures DotRange(m[k], x, 0, n) == b[k] {
          if k == i { assert m'[p] == m[k] && b'[p] == b[k]; }
          else if k == p { assert m'[i] == m[k] && b'[i] == b[k]; }
          else { assert m'[k] == m[k] && b'[k] == b[k]; }
        }
      }
    }
  }

  lemma {:induction false} SubRowKeepsSolutions(m: Matrix, b: seq<real>, n: nat, i: nat, j: nat, f: real)
    requires IsSquare(m, n) && |b| == n && i < j < n
    requires forall k :: 0 <= k < i ==> m[i][k] == 0.0
    ensures SameSolutions(m, b, SubRow(m, n, i, j, f), SubEntry(b, i, j, f), n)
  {
    var m' := SubRow(m, n, i, j, f);
    var b' := SubEntry(b, i, j, f);
    forall x | |x| == n
      ensures Solves(m, n, x, b) <==> Solves(m', n, x, b')
    {
      DotRangeLinear(m[j], m[i], m'[j], f, x, 0, n);
      if Solves(m, n, x, b) {
        forall k | 0 <= k < n ensures DotRange(m'[k], x, 0, n) == b'[k] {
          if k != j { assert m'[k] == m[k]; }
        }
      }
      if Solves(m', n, x, b') {
        forall k | 0 <= k < n ensures DotRange(m[k], x, 0, n) == b[k] {
          if k != j { assert m'[k] == m[k]; }
          else { assert DotRange(m'[i], x, 0, n) == b'[i]; }
        }
      }
    }
  }

  lemma {:induction false} SameSolutionsTrans(m1: Matrix, b1: seq<real>, m2: Matrix, b2: seq<real>, m3: Matrix, b3: seq<real>, n: nat)
    requires IsSquare(m1, n) && |b1| == n && IsSquare(m2, n) && |b2| == n && IsSquare(m3, n) && |b3| == n
    requires SameSolutions(m1, b1, m2, b2, n) && SameSolutions(m2, b2, m3, b3, n)
    ensures SameSolutions(m1, b1, m3, b3, n)
  {
  }

  // ---------------------------------------------------------------------
  // Forward elimination

  /** One elimination step clears column `i` below the pivot and keeps the
      rows above and the pivot row. */
  lemma {:induction false} EliminateBelowClears(m: Matrix, b: seq<real>, n: nat, i: nat, j: nat)
    requires IsSquare(m, n) && |b| == n && i < j <= n && m[i][i] != 0.0
    requires LowerZero(m, n, i)
    requires forall r :: i < r < j ==> m[r][i] == 0.0
    ensures LowerZero(EliminateBelow(m, b, n, i, j).0, n, i + 1)
    decreases n - j
  {
    if j == n {
      assert EliminateBelow(m, b, n, i, j) == (m, b);
      assert LowerZero(m, n, i + 1) by {
        forall r, c | 0 <= c < r < n && c < i + 1 ensures m[r][c] == 0.0 {
          if c == i { assert i < r < j; }
        }
      }
    } else {
      var s := ElimStep(m, b, n, i, j);
      ElimStepClears(m, b, n, i, j);
      assert s.0[i] == m[i];
      EliminateBelowClears(s.0, s.1, n, i, j + 1);
      assert EliminateBelow(m, b, n, i, j) == EliminateBelow(s.0, s.1, n, i, j + 1);
    }
  }

  /** ... and keeps the solution set. */
  lemma {:induction false} EliminateBelowSound(m: Matrix, b: seq<real>, n: nat, i: nat, j: nat)
    requires IsSquare(m, n) && |b| == n && i < j <= n && m[i][i] != 0.0
    requires forall k :: 0 <= k < i ==> m[i][k] == 0.0
    ensures var e := EliminateBelow(m, b, n, i, j);
      SameSolutions(m, b, e.0, e.1, n)
    decreases n - j
  {
    if j < n {
      var s := ElimStep(m, b, n, i, j);
      SubRowKeepsSolutions(m, b, n, i, j, Factor(m, n, i, j));
      assert s.0[i] == m[i];
      EliminateBelowSound(s.0, s.1, n, i, j + 1);
      var e := EliminateBelow(s.0, s.1, n, i, j + 1);
      assert EliminateBelow(m, b, n, i, j) == e;
      SameSolutionsTrans(m, b, s.0, s.1, e.0, e.1, n);
    }
  }

  lemma {:induction false} ElimStepClears(m: Matrix, b: seq<real>, n: nat, i: nat, j: nat)
    requires IsSquare(m, n) && |b| == n && i < j < n && m[i][i] != 0.0
    requires LowerZero(m, n, i)
    requires forall r :: i < r < j ==> m[r][i] == 0.0
    ensures var s := ElimStep(m, b, n, i, j);
      && LowerZero(s.0, n, i)
      && (forall r :: i < r < j + 1 ==> s.0[r][i] == 0.0)
  {
    var f := Factor(m, n, i, j);
    var m' := SubRow(m, n, i, j, f);
    assert ElimStep(m, b, n, i, j).0 == m';
    PivotColumnCleared(m, n, i, j);
    forall r | i < r < j + 1 ensures m'[r][i] == 0.0 {
      if r != j { assert m'[r] == m[r]; }
    }
    assert LowerZero(m', n, i) by {
      forall r, c | 0 <= c < r < n && c < i ensures m'[r][c] == 0.0 {
        if r == j { assert m'[r][c] == m[r][c]; }
        else { assert m'[r] == m[r]; }
      }
    }
  }

  /** The factor is chosen so that row `j` loses its column-`i` entry. */
  lemma {:induction false} PivotColumnCleared(m: Matrix, n: nat, i: nat, j: nat)
    requires IsSquare(m, n) && i < j < n && m[i][i] != 0.0
    ensures SubRow(m, n, i, j, Factor(m, n, i, j))[j][i] == 0.0
  {
    var f := Factor(m, n, i, j);
    assert SubRow(m, n, i, j, f)[j][i] == m[j][i] - f * m[i][i];
    CancelPivot(m[j][i], m[i][i]);
  }

  lemma {:induction false} CancelPivot(a: real, p: real)
    requires p != 0.0
    ensures a - (a / p) * p == 0.0
  {
  }

  lemma {:induction false} CancelFactor(a: real, x: real, y: real)
    requires a != 0.0 && a * x == a * y
    ensures x == y
  {
    assert a * (x - y) == 0.0;
  }

  /** A pivot step extends the triangular shape by one column. */
  lemma {:induction false} PivotStepShape(m: Matrix, b: seq<real>, n: nat, i: nat)
    requires IsSquare(m, n) && |b| == n && i < n
    requires Abs(m[PivotRow(m, n, i)][i]) >= Threshold
    requires LowerZero(m, n, i) && DiagOk(m, n, i)
    ensures var e := PivotStep(m, b, n, i);
      LowerZero(e.0, n, i + 1) && DiagOk(e.0, n, i + 1)
  {
    var p := PivotRow(m, n, i);
    var m1 := SwapRows(m, i, p);
    var b1 := SwapRows(b, i, p);
    assert LowerZero(m1, n, i) by {
      forall r, c | 0 <= c < r < n && c < i ensures m1[r][c] == 0.0 {
        if r == i { assert m1[r] == m[p]; }
        else if r == p { assert m1[r] == m[i]; }
        else { assert m1[r] == m[r]; }
      }
    }
    var e := EliminateBelow(m1, b1, n, i, i + 1);
    assert PivotStep(m, b, n, i) == e;
    EliminateBelowClears(m1, b1, n, i, i + 1);
    forall r | 0 <= r < i + 1 ensures Abs(e.0[r][r]) >= Threshold {
      assert e.0[r] == m1[r];
      if r < i { assert m1[r] == m[r]; }
    }
  }

  /** A pivot step keeps the solution set. */
  lemma {:induction false} PivotStepSolutions(m: Matrix, b: seq<real>, n: nat, i: nat)
    requires IsSquare(m, n) && |b| == n && i < n
    requires Abs(m[PivotRow(m, n, i)][i]) >= Threshold
    requires LowerZero(m, n, i)
    ensures var e := PivotStep(m, b, n, i);
      SameSolutions(m, b, e.0, e.1, n)
  {
    var p := PivotRow(m, n, i);
    var m1 := SwapRows(m, i, p);
    var b1 := SwapRows(b, i, p);
    SwapKeepsSolutions(m, b, n, i, p);
    forall k | 0 <= k < i ensures m1[i][k] == 0.0 {
      assert m1[i] == m[p];
    }
    var e := EliminateBelow(m1, b1, n, i, i + 1);
    assert PivotStep(m, b, n, i) == e;
    EliminateBelowSound(m1, b1, n, i, i + 1);
    SameSolutionsTrans(m, b, m1, b1, e.0, e.1, n);
  }

  /** Forward elimination ends in an upper-triangular system whose diagonal
      clears the threshold ... */
  lemma {:induction false} EliminateShape(m: Matrix, b: seq<real>, n: nat, i: nat)
    requires IsSquare(m, n) && |b| == n && i <= n
    requires LowerZero(m, n, i) && DiagOk(m, n, i)
    ensures var r := Eliminate(m, b, n, i);
      r.Some? ==> LowerZero(r.value.0, n, n) && DiagOk(r.value.0, n, n)
    decreases n - i
  {
    if i < n && Abs(m[PivotRow(m, n, i)][i]) >= Threshold {
      var e := PivotStep(m, b, n, i);
      PivotStepShape(m, b, n, i);
      EliminateShape(e.0, e.1, n, i + 1);
      assert Eliminate(m, b, n, i) == Eliminate(e.0, e.1, n, i + 1);
    }
  }

  /** ... and which has the same solutions. */
  lemma {:induction false} EliminateSolutions(m: Matrix, b: seq<real>, n: nat, i: nat)
    requires IsSquare(m, n) && |b| == n && i <= n
    requires LowerZero(m, n, i) && DiagOk(m, n, i)
    ensures var r := Eliminate(m, b, n, i);
      r.Some? ==> SameSolutions(m, b, r.value.0, r.value.1, n)
    decreases n - i
  {
    if i < n && Abs(m[PivotRow(m, n, i)][i]) >= Threshold {
      var e := PivotStep(m, b, n, i);
      PivotStepShape(m, b, n, i);
      PivotStepSolutions(m, b, n, i);
      EliminateSolutions(e.0, e.1, n, i + 1);
      var r := Eliminate(e.0, e.1, n, i + 1);
      assert Eliminate(m, b, n, i) == r;
      if r.Some? {
        SameSolutionsTrans(m, b, e.0, e.1, r.value.0, r.value.1, n);
      }
    }
  }

  // ---------------------------------------------------------------------
  // Back substitution

  /** Entries already filled stay as they are while the rows above are solved. */
  lemma {:induction false} BackFromStable(u: Matrix, c: seq<real>, n: nat, i: nat, k: nat)
    requires IsSquare(u, n) && |c| == n && i <= k < n
    requires forall r :: i <= r < n ==> u[r][r] != 0.0
    ensures BackFrom(u, c, n, i)[k] == BackFrom(u, c, n, k)[k]
    decreases k - i
  {
    if i < k {
      BackFromStable(u, c, n, i + 1, k);
    }
  }

  lemma {:induction false} BackRow(u: Matrix, c: seq<real>, n: nat, i: nat)
    requires IsSquare(u, n) && |c| == n && i < n
    requires forall r :: 0 <= r < n ==> u[r][r] != 0.0
    requires LowerZero(u, n, n)
    ensures DotRange(u[i], BackFrom(u, c, n, 0), 0, n) == c[i]
  {
    var x := BackFrom(u, c, n, 0);
    var y := BackFrom(u, c, n, i + 1);
    forall k | i < k < n ensures x[k] == y[k] {
      BackFromStable(u, c, n, 0, k);
      BackFromStable(u, c, n, i + 1, k);
    }
    DotRangeSameX(u[i], x, y, i + 1, n);
    BackFromStable(u, c, n, 0, i);
    assert x[i] == (c[i] - DotRange(u[i], y, i + 1, n)) / u[i][i];
    UpperRow(u[i], x, i, n);
  }

  lemma {:induction false} BackSolves(u: Matrix, c: seq<real>, n: nat)
    requires IsSquare(u, n) && |c| == n
    requires LowerZero(u, n, n) && DiagOk(u, n, n)
    ensures forall r :: 0 <= r < n ==> u[r][r] != 0.0
    ensures Solves(u, n, BackFrom(u, c, n, 0), c)
  {
    assert forall r :: 0 <= r < n ==> u[r][r] != 0.0 by {
      forall r | 0 <= r < n ensures u[r][r] != 0.0 {
        assert Abs(u[r][r]) >= Threshold;
      }
    }
    forall i | 0 <= i < n ensures DotRange(u[i], BackFrom(u, c, n, 0), 0, n) == c[i] {
      BackRow(u, c, n, i);
    }
  }

  /** An upper-triangular system with non-zero diagonal has at most one
      solution: rows are pinned from the bottom up. */
  lemma {:induction false} TriangularUnique(u: Matrix, c: seq<real>, n: nat, x: seq<real>, y: seq<real>, i: nat)
    requires IsSquare(u, n) && |c| == n && |x| == n && |y| == n && i <= n
    requires LowerZero(u, n, n) && forall r :: 0 <= r < n ==> u[r][r] != 0.0
    requires Solves(u, n, x, c) && Solves(u, n, y, c)
    ensures forall k :: i <= k < n ==> x[k] == y[k]
    decreases n - i
  {
    if i < n {
      TriangularUnique(u, c, n, x, y, i + 1);
      assert DotRange(u[i], x, 0, n) == c[i] && DotRange(u[i], y, 0, n) == c[i];
      RowPins(u[i], x, y, i, n, c[i]);
    }
  }

  /** One triangular row fixes its diagonal unknown once the later ones agree. */
  lemma {:induction false} RowPins(r: seq<real>, x: seq<real>, y: seq<real>, i: nat, n: nat, ci: real)
    requires i < n == |r| && |x| == n && |y| == n
    requires forall k :: 0 <= k < i ==> r[k] == 0.0
    requires r[i] != 0.0
    requires forall k :: i < k < n ==> x[k] == y[k]
    requires DotRange(r, x, 0, n) == ci && DotRange(r, y, 0, n) == ci
    ensures x[i] == y[i]
  {
    UpperRow(r, x, i, n);
    UpperRow(r, y, i, n);
    DotRangeSameX(r, x, y, i + 1, n);
    CancelTerm(r[i], x[i], y[i], DotRange(r, x, i + 1, n), ci);
  }

  /** Two solutions of `a * v + t == ci` with `a != 0` coincide. */
  lemma {:induction false} CancelTerm(a: real, p: real, q: real, t: real, ci: real)
    requires a != 0.0 && a * p + t == ci && a * q + t == ci
    ensures p == q
  {
    CancelFactor(a, p, q);
  }

  lemma {:induction false} BackUnique(u: Matrix, c: seq<real>, n: nat)
    requires IsSquare(u, n) && |c| == n
    requires LowerZero(u, n, n) && DiagOk(u, n, n)
    ensures forall r :: 0 <= r < n ==> u[r][r] != 0.0
    ensures forall y {:trigger Solves(u, n, y, c)} :: |y| == n && Solves(u, n, y, c) ==> y == BackFrom(u, c, n, 0)
  {
    BackSolves(u, c, n);
    forall y | |y| == n && Solves(u, n, y, c) ensures y == BackFrom(u, c, n, 0) {
      TriangularUnique(u, c, n, y, BackFrom(u, c, n, 0), 0);
    }
  }
}

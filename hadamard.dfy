/**
 * Hadamard matrices (src/hadamard_matrix.rs): the validity check, the in-place
 * sign normalization and the derived 0/1 incidence matrix.
 *
 * Matrices are `Array2<i32>` in the source. The object's own matrix is an
 * `array2<int>` that `Normalize` updates in place; every other matrix is a
 * value of type `Matrix`, a sequence of rows. Overflow of `i32` in the matrix
 * product is not modelled.
 */
module Hadamard {
  import opened Wrappers

  type Matrix = seq<seq<int>>

  /** Every row is as long as there are rows (`is_square`). */
  predicate IsSquare(m: Matrix)
  {
    forall i | 0 <= i < |m| :: |m[i]| == |m|
  }

  /** Every entry is -1 or +1. */
  predicate EntriesAreSigns(m: Matrix)
    requires IsSquare(m)
  {
    forall i, j | 0 <= i < |m| && 0 <= j < |m| :: m[i][j] == -1 || m[i][j] == 1
  }

  /** The inner product of two vectors of equal length. */
  function Dot(u: seq<int>, v: seq<int>): int
    requires |u| == |v|
    decreases |u|
  {
    if |u| == 0 then 0 else u[0] * v[0] + Dot(u[1..], v[1..])
  }

  /** Column `j` of `m`. */
  function Column(m: Matrix, j: nat): (c: seq<int>)
    requires IsSquare(m) && j < |m|
    ensures |c| == |m|
  {
    seq(|m|, k requires 0 <= k < |m| => m[k][j])
  }

  /** `m.t()`. */
  function Transpose(m: Matrix): (t: Matrix)
    requires IsSquare(m)
    ensures IsSquare(t) && |t| == |m|
  {
    seq(|m|, i requires 0 <= i < |m| => Column(m, i))
  }

  /** `a.dot(&b)` for two square matrices of the same order. */
  function Product(a: Matrix, b: Matrix): (c: Matrix)
    requires IsSquare(a) && IsSquare(b) && |a| == |b|
    ensures IsSquare(c) && |c| == |a|
  {
    seq(|a|, i requires 0 <= i < |a| =>
      seq(|a|, j requires 0 <= j < |a| => Dot(a[i], Column(b, j))))
  }

  /** `n as i32 * Array2::<i32>::eye(n)`. */
  function ScaledIdentity(n: nat): (s: Matrix)
    ensures IsSquare(s) && |s| == n
  {
    seq(n, i requires 0 <= i < n => seq(n, j requires 0 <= j < n => if i == j then n else 0))
  }

  /**
   * The acceptance test of `is_hadamard`: square, at least one row, entries
   * in {-1, 1}, and M * M^T equal to n * I entry by entry.
   */
  predicate IsHadamard(m: Matrix)
  {
    && IsSquare(m)
    && |m| >= 1
    && EntriesAreSigns(m)
    && Product(m, Transpose(m)) == ScaledIdentity(|m|)
  }

  /** The entries of M * M^T are the inner products of pairs of rows. */
  lemma GramEntry(m: Matrix, i: nat, j: nat)
    requires IsSquare(m) && i < |m| && j < |m|
    ensures Product(m, Transpose(m))[i][j] == Dot(m[i], m[j])
  {
    assert Column(Transpose(m), j) == m[j];
  }

  /**
   * The matrix-product test is the same as asking that distinct rows be
   * orthogonal and that every row have squared norm n.
   */
  lemma HadamardIffOrthogonalRows(m: Matrix)
    requires IsSquare(m)
    ensures IsHadamard(m) <==>
      && |m| >= 1
      && EntriesAreSigns(m)
      && forall i, j | 0 <= i < |m| && 0 <= j < |m| :: Dot(m[i], m[j]) == if i == j then |m| else 0
  {
    var n := |m|;
    var g := Product(m, Transpose(m));
    forall i, j | 0 <= i < n && 0 <= j < n
      ensures g[i][j] == Dot(m[i], m[j])
    {
      GramEntry(m, i, j);
    }
    if forall i, j | 0 <= i < n && 0 <= j < n :: Dot(m[i], m[j]) == if i == j then n else 0 {
      assert forall i | 0 <= i < n :: g[i] == ScaledIdentity(n)[i];
    }
  }

  // ---------------------------------------------------------------------------
  // Normalization

  /** `x` negated when `negate` holds: one sign flip of `*= -1`. */
  function Flip(x: int, negate: bool): int
  {
    if negate then -x else x
  }

  /** Row `a` is negated by `normalize`: its first entry is -1. */
  predicate RowNegated(m: Matrix, a: nat)
    requires IsSquare(m) && a < |m|
  {
    m[a][0] == -1
  }

  /**
   * Column `b` is negated by `normalize`: once row 0 has been made to start
   * with +1, entry (0, b) is -1, that is, it differs from entry (0, 0).
   */
  predicate ColumnNegated(m: Matrix, b: nat)
    requires IsSquare(m) && |m| >= 1 && b < |m|
  {
    m[0][b] != m[0][0]
  }

  /**
   * Entry (a, b) of `m` once the rows below `rows` and the columns below
   * `cols` have received their sign flips.
   */
  function StepEntry(m: Matrix, rows: nat, cols: nat, a: nat, b: nat): int
    requires IsSquare(m) && |m| >= 1 && a < |m| && b < |m|
  {
    Flip(m[a][b], (a < rows && RowNegated(m, a)) != (b < cols && ColumnNegated(m, b)))
  }

  /**
   * What `normalize` leaves behind on a matrix of -1 and +1 entries, in
   * closed form (for such a matrix, the source's column test "entry (0, b)
   * is -1 after row 0's flip" is `ColumnNegated`): every entry negated once
   * for its row and once for its column, so that it keeps its sign exactly
   * when both or neither of the two flips apply.
   */
  function NormalForm(m: Matrix): (r: Matrix)
    requires IsSquare(m) && |m| >= 1
    ensures IsSquare(r) && |r| == |m|
  {
    seq(|m|, a requires 0 <= a < |m| =>
      seq(|m|, b requires 0 <= b < |m| => Flip(m[a][b], RowNegated(m, a) != ColumnNegated(m, b))))
  }

  /** `u` with entry k negated when `negate != cols[k]`. */
  function FlipVector(u: seq<int>, negate: bool, cols: seq<bool>): (r: seq<int>)
    requires |u| == |cols|
    ensures |r| == |u|
    decreases |u|
  {
    if |u| == 0 then [] else [Flip(u[0], negate != cols[0])] + FlipVector(u[1..], negate, cols[1..])
  }

  lemma {:induction false} FlipVectorAt(u: seq<int>, negate: bool, cols: seq<bool>, k: nat)
    requires |u| == |cols| && k < |u|
    ensures FlipVector(u, negate, cols)[k] == Flip(u[k], negate != cols[k])
    decreases |u|
  {
    if k > 0 {
      FlipVectorAt(u[1..], negate, cols[1..], k - 1);
    }
  }

  /**
   * Flipping the same columns in two rows leaves their inner product alone;
   * flipping one of the two rows negates it.
   */
  lemma {:induction false} DotOfFlipped(u: seq<int>, v: seq<int>, f: bool, g: bool, cols: seq<bool>)
    requires |u| == |v| == |cols|
    ensures Dot(FlipVector(u, f, cols), FlipVector(v, g, cols)) == Flip(Dot(u, v), f != g)
    decreases |u|
  {
    if |u| > 0 {
      var fu, fv := FlipVector(u, f, cols), FlipVector(v, g, cols);
      DotOfFlipped(u[1..], v[1..], f, g, cols[1..]);
      assert fu[1..] == FlipVector(u[1..], f, cols[1..]) && fv[1..] == FlipVector(v[1..], g, cols[1..]);
      FlipProduct(u[0], v[0], f != cols[0], g != cols[0]);
    }
  }

  /** The product of two sign-flipped numbers is their product flipped by both signs. */
  lemma FlipProduct(x: int, y: int, s: bool, t: bool)
    ensures Flip(x, s) * Flip(y, t) == Flip(x * y, s != t)
  {
    if s && t {
      assert (-x) * (-y) == x * y;
    } else if s {
      assert (-x) * y == -(x * y);
    } else if t {
      assert x * (-y) == -(x * y);
    }
  }

  /** The column flips that `normalize` applies, one per column. */
  function ColumnNegations(m: Matrix): (cs: seq<bool>)
    requires IsSquare(m) && |m| >= 1
    ensures |cs| == |m|
  {
    seq(|m|, b requires 0 <= b < |m| => ColumnNegated(m, b))
  }

  lemma NormalFormRow(m: Matrix, a: nat)
    requires IsSquare(m) && |m| >= 1 && a < |m|
    ensures NormalForm(m)[a] == FlipVector(m[a], RowNegated(m, a), ColumnNegations(m))
  {
    forall k | 0 <= k < |m|
      ensures NormalForm(m)[a][k] == FlipVector(m[a], RowNegated(m, a), ColumnNegations(m))[k]
    {
      FlipVectorAt(m[a], RowNegated(m, a), ColumnNegations(m), k);
    }
  }

  /** After normalization row 0 and column 0 hold only +1. */
  lemma NormalFormFirstRowAndColumn(m: Matrix)
    requires IsSquare(m) && |m| >= 1 && EntriesAreSigns(m)
    ensures forall b | 0 <= b < |m| :: NormalForm(m)[0][b] == 1
    ensures forall a | 0 <= a < |m| :: NormalForm(m)[a][0] == 1
  {
    var r := NormalForm(m);
    assert m[0][0] == -1 || m[0][0] == 1;
    forall b | 0 <= b < |m|
      ensures r[0][b] == 1
    {
      assert r[0][b] == Flip(m[0][b], RowNegated(m, 0) != ColumnNegated(m, b));
      assert m[0][b] == -1 || m[0][b] == 1;
    }
    forall a | 0 <= a < |m|
      ensures r[a][0] == 1
    {
      assert r[a][0] == Flip(m[a][0], RowNegated(m, a) != ColumnNegated(m, 0));
      assert m[a][0] == -1 || m[a][0] == 1;
    }
  }

  /** Sign flips keep every entry in {-1, 1}. */
  lemma NormalFormKeepsSigns(m: Matrix)
    requires IsSquare(m) && |m| >= 1 && EntriesAreSigns(m)
    ensures EntriesAreSigns(NormalForm(m))
  {
    var r := NormalForm(m);
    forall a, b | 0 <= a < |m| && 0 <= b < |m|
      ensures r[a][b] == -1 || r[a][b] == 1
    {
      assert r[a][b] == Flip(m[a][b], RowNegated(m, a) != ColumnNegated(m, b));
    }
  }

  /** Normalizing a Hadamard matrix yields a Hadamard matrix. */
  lemma NormalFormKeepsHadamard(m: Matrix)
    requires IsHadamard(m)
    ensures IsHadamard(NormalForm(m))
  {
    var n, r := |m|, NormalForm(m);
    HadamardIffOrthogonalRows(m);
    forall i, j | 0 <= i < n && 0 <= j < n
      ensures Dot(r[i], r[j]) == if i == j then n else 0
    {
      NormalFormRow(m, i);
      NormalFormRow(m, j);
      DotOfFlipped(m[i], m[j], RowNegated(m, i), RowNegated(m, j), ColumnNegations(m));
    }
    NormalFormKeepsSigns(m);
    HadamardIffOrthogonalRows(r);
  }

  /** A matrix whose first row and column are all +1 is left as it is. */
  lemma NormalFormOfNormalized(m: Matrix)
    requires IsSquare(m) && |m| >= 1
    requires forall b | 0 <= b < |m| :: m[0][b] == 1
    requires forall a | 0 <= a < |m| :: m[a][0] == 1
    ensures NormalForm(m) == m
  {
    assert forall a | 0 <= a < |m| :: NormalForm(m)[a] == m[a];
  }

  /** Normalizing twice is normalizing once. */
  lemma NormalFormIdempotent(m: Matrix)
    requires IsSquare(m) && |m| >= 1 && EntriesAreSigns(m)
    ensures NormalForm(NormalForm(m)) == NormalForm(m)
  {
    NormalFormFirstRowAndColumn(m);
    NormalFormOfNormalized(NormalForm(m));
  }

  // ---------------------------------------------------------------------------
  // Incidence matrix

  /** Rust's `/ 2` on `i32`, which truncates toward zero. */
  function HalfTowardZero(x: int): int
  {
    if x < 0 then -((-x) / 2) else x / 2
  }

  /**
   * `(mtx.slice(s![1.., 1..]) + ones((n - 1, n - 1))) / 2`: the interior of
   * the matrix with -1 read as 0 and +1 read as 1.
   */
  function Incidence(m: Matrix): (r: Matrix)
    requires IsSquare(m) && |m| >= 1
    ensures IsSquare(r) && |r| == |m| - 1
    ensures EntriesAreSigns(m) ==>
      forall i, j | 0 <= i < |r| && 0 <= j < |r| :: r[i][j] == if m[i + 1][j + 1] == 1 then 1 else 0
  {
    var r := seq(|m| - 1, i requires 0 <= i < |m| - 1 =>
      seq(|m| - 1, j requires 0 <= j < |m| - 1 => HalfTowardZero(m[i + 1][j + 1] + 1)));
    assert EntriesAreSigns(m) ==>
      forall i, j | 0 <= i < |r| && 0 <= j < |r| :: r[i][j] == if m[i + 1][j + 1] == 1 then 1 else 0 by {
      if EntriesAreSigns(m) {
        forall i, j | 0 <= i < |r| && 0 <= j < |r|
          ensures r[i][j] == if m[i + 1][j + 1] == 1 then 1 else 0
        {
          assert r[i][j] == HalfTowardZero(m[i + 1][j + 1] + 1);
          assert m[i + 1][j + 1] == -1 || m[i + 1][j + 1] == 1;
        }
      }
    }
    r
  }

  // ---------------------------------------------------------------------------
  // The object

  /** The contents of a two-dimensional array, row by row. */
  function Grid(a: array2<int>): (g: Matrix)
    reads a
    ensures |g| == a.Length0
    ensures forall i | 0 <= i < |g| :: |g[i]| == a.Length1
    ensures forall i, j | 0 <= i < a.Length0 && 0 <= j < a.Length1 :: g[i][j] == a[i, j]
  {
    seq(a.Length0, i requires 0 <= i < a.Length0 reads a =>
      seq(a.Length1, j requires 0 <= j < a.Length1 reads a => a[i, j]))
  }

  /** `HadamardMatrix`: owns a matrix that always satisfies `IsHadamard`. */
  class HadamardMatrix {
    var mtx: array2<int>

    ghost predicate Valid()
      reads this, mtx
    {
      mtx.Length0 == mtx.Length1 && IsHadamard(Grid(mtx))
    }

    /** The matrix held, as a value. */
    function Matrix(): Matrix
      reads this, mtx
    {
      Grid(mtx)
    }

    /** `HadamardMatrix { mtx: mtx.clone() }`. */
    constructor Copy(src: array2<int>)
      ensures fresh(mtx)
      ensures mtx.Length0 == src.Length0 && mtx.Length1 == src.Length1
      ensures Matrix() == Grid(src)
    {
      mtx := new int[src.Length0, src.Length1]((i, j) requires 0 <= i < src.Length0 && 0 <= j < src.Length1 reads src => src[i, j]);
      new;
      assert Grid(mtx) == Grid(src) by {
        assert forall i | 0 <= i < src.Length0 :: Grid(mtx)[i] == Grid(src)[i];
      }
    }

    /** `is_hadamard`: the shape test, then the entry scan that stops at the first bad entry, then M * M^T == n * I. */
    static method CheckHadamard(src: array2<int>) returns (ok: bool)
      ensures ok == IsHadamard(Grid(src))
    {
      var n := src.Length0;
      var m := src.Length1;
      if n != m || n < 1 {
        assert !IsSquare(Grid(src)) || |Grid(src)| < 1 by {
          if n != m && n >= 1 {
            assert |Grid(src)[0]| != |Grid(src)|;
          }
        }
        return false;
      }
      for i := 0 to n
        invariant forall a, b | 0 <= a < i && 0 <= b < n :: src[a, b] == -1 || src[a, b] == 1
      {
        for j := 0 to n
          invariant forall a, b | 0 <= a < n && 0 <= b < n && (a < i || (a == i && b < j)) :: src[a, b] == -1 || src[a, b] == 1
        {
          if src[i, j] != -1 && src[i, j] != 1 {
            assert !EntriesAreSigns(Grid(src)) by {
              assert Grid(src)[i][j] == src[i, j];
            }
            return false;
          }
        }
      }
      var g := Grid(src);
      ok := Product(g, Transpose(g)) == ScaledIdentity(n);
    }

    /** `from`: a copy of `src` when it is a Hadamard matrix, an error otherwise. */
    static method From(src: array2<int>) returns (r: Result<HadamardMatrix>)
      ensures r.Ok? <==> IsHadamard(Grid(src))
      ensures r.Ok? ==> fresh(r.value) && fresh(r.value.mtx) && r.value.Valid() && r.value.Matrix() == Grid(src)
    {
      var ok := CheckHadamard(src);
      if ok {
        assert |Grid(src)[0]| == |Grid(src)|;
        var h := new HadamardMatrix.Copy(src);
        r := Ok(h);
      } else {
        r := Err("something wrong with that matrix");
      }
    }

    /**
     * `normalize`: for i = 0 .. n-1, negate row i if entry (i, 0) is -1, then
     * negate column i if entry (0, i) is -1, both read from the current state.
     */
    method Normalize()
      requires Valid()
      modifies mtx
      ensures Valid()
      ensures Matrix() == NormalForm(old(Matrix()))
    {
      ghost var m := Grid(mtx);
      var n := mtx.Length0;
      assert forall a, b | 0 <= a < n && 0 <= b < n :: m[a][b] == -1 || m[a][b] == 1;
      for i := 0 to n
        invariant forall a, b | 0 <= a < n && 0 <= b < n :: mtx[a, b] == StepEntry(m, i, i, a, b)
      {
        NormalizeRow(m, i);
        NormalizeColumn(m, i);
      }
      assert Grid(mtx) == NormalForm(m) by {
        assert forall a | 0 <= a < n :: Grid(mtx)[a] == NormalForm(m)[a];
      }
      NormalFormKeepsHadamard(m);
    }

    /** The row half of step `i` of `normalize`: row `i` is negated when it starts with -1. */
    method NormalizeRow(ghost m: Matrix, i: nat)
      requires IsSquare(m) && EntriesAreSigns(m) && i < |m|
      requires mtx.Length0 == |m| && mtx.Length1 == |m|
      requires forall a, b | 0 <= a < |m| && 0 <= b < |m| :: mtx[a, b] == StepEntry(m, i, i, a, b)
      modifies mtx
      ensures forall a, b | 0 <= a < |m| && 0 <= b < |m| :: mtx[a, b] == StepEntry(m, i + 1, i, a, b)
    {
      assert mtx[i, 0] == StepEntry(m, i, i, i, 0) == m[i][0];
      if mtx[i, 0] == -1 {
        NegateRow(i);
      }
    }

    /** The column half of step `i` of `normalize`: column `i` is negated when row 0 holds -1 there. */
    method NormalizeColumn(ghost m: Matrix, i: nat)
      requires IsSquare(m) && EntriesAreSigns(m) && i < |m|
      requires mtx.Length0 == |m| && mtx.Length1 == |m|
      requires forall a, b | 0 <= a < |m| && 0 <= b < |m| :: mtx[a, b] == StepEntry(m, i + 1, i, a, b)
      modifies mtx
      ensures forall a, b | 0 <= a < |m| && 0 <= b < |m| :: mtx[a, b] == StepEntry(m, i + 1, i + 1, a, b)
    {
      assert mtx[0, i] == StepEntry(m, i + 1, i, 0, i) == Flip(m[0][i], RowNegated(m, 0));
      if mtx[0, i] == -1 {
        NegateColumn(i);
      }
    }

    /** The inner loop over row `i` of `normalize`: `mtx[[i, j]] *= -1` for every j. */
    method NegateRow(i: nat)
      requires mtx.Length0 == mtx.Length1 && i < mtx.Length0
      modifies mtx
      ensures forall a, b | 0 <= a < mtx.Length0 && 0 <= b < mtx.Length1 ::
        mtx[a, b] == if a == i then -old(mtx[a, b]) else old(mtx[a, b])
    {
      for j := 0 to mtx.Length1
        invariant forall a, b | 0 <= a < mtx.Length0 && 0 <= b < mtx.Length1 ::
          mtx[a, b] == if a == i && b < j then -old(mtx[a, b]) else old(mtx[a, b])
      {
        mtx[i, j] := mtx[i, j] * -1;
      }
    }

    /** The inner loop over column `i` of `normalize`: `mtx[[j, i]] *= -1` for every j. */
    method NegateColumn(i: nat)
      requires mtx.Length0 == mtx.Length1 && i < mtx.Length1
      modifies mtx
      ensures forall a, b | 0 <= a < mtx.Length0 && 0 <= b < mtx.Length1 ::
        mtx[a, b] == if b == i then -old(mtx[a, b]) else old(mtx[a, b])
    {
      for j := 0 to mtx.Length0
        invariant forall a, b | 0 <= a < mtx.Length0 && 0 <= b < mtx.Length1 ::
          mtx[a, b] == if b == i && a < j then -old(mtx[a, b]) else old(mtx[a, b])
      {
        mtx[j, i] := mtx[j, i] * -1;
      }
    }

    /** `get_incidence`: the (n-1) x (n-1) interior, with +1 read as 1 and -1 as 0. */
    function GetIncidence(): (r: Matrix)
      reads this, mtx
      requires Valid()
      ensures IsSquare(r) && |r| == mtx.Length0 - 1
      ensures forall i, j | 0 <= i < |r| && 0 <= j < |r| :: r[i][j] == if mtx[i + 1, j + 1] == 1 then 1 else 0
    {
      Incidence(Matrix())
    }
  }
}

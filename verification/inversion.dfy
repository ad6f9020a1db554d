/** Gauss-Jordan inversion of a square bit matrix. The elimination works on
    a copy `f` of the input `e` and on an augmentation `out` that starts as
    the identity; every row operation is applied to both, so `out x e == f`
    throughout, and once `f` is the identity `out` is a left inverse of `e`. */
module Inversion {
  import opened Rows
  import opened Matrices
  import opened Linear

  /** `f` and `out` are the working copy and the augmentation for `e`: all
      three are `n x n`, and `out x e == f`, row by row. */
  predicate WorkingPair(e: Matrix, f: Matrix, out: Matrix)
  {
    && |e| > 0 && |e| % 8 == 0 && Rectangular(e, |e| / 8)
    && |f| == |e| && Rectangular(f, |e| / 8)
    && |out| == |e| && Rectangular(out, |e| / 8)
    && forall k {:trigger ProductRow(out, e, k)} :: 0 <= k < |e| ==> ProductRow(out, e, k) == f[k]
  }

  /** Row `k` of `out x e`. */
  function ProductRow(out: Matrix, e: Matrix, k: int): Row
    requires |e| > 0 && |e| % 8 == 0 && Rectangular(e, |e| / 8)
    requires |out| == |e| && Rectangular(out, |e| / 8)
    requires 0 <= k < |out|
  {
    Combine(out[k], e, |e| / 8, |e|)
  }

  /** Columns `0 .. c - 1` of `f` are unit vectors: column `j` is set in row
      `j` only. */
  predicate UnitColumns(f: Matrix, c: nat)
    requires forall i :: 0 <= i < |f| ==> c <= Rows.Size(f[i])
  {
    forall i, j :: 0 <= i < |f| && 0 <= j < c ==> (Bit(f[i], j) <==> i == j)
  }

  /** Every vector that `f` maps to zero is one that `e` maps to zero. */
  ghost predicate KernelWithin(f: Matrix, e: Matrix, w: nat)
    requires Rectangular(f, w) && Rectangular(e, w)
  {
    forall x {:trigger InKernel(f, x)} :: |x| == w && InKernel(f, x) ==> InKernel(e, x)
  }

  /* ---------------------------------------------------------------------- */
  /* One elimination step                                                   */
  /* ---------------------------------------------------------------------- */

  /** Exchanging two rows in both the working copy and the augmentation. */
  lemma SwapStep(e: Matrix, f: Matrix, out: Matrix, row: nat, cand: nat, f': Matrix, out': Matrix)
    requires WorkingPair(e, f, out)
    requires row <= cand < |e|
    requires UnitColumns(f, row)
    requires KernelWithin(f, e, |e| / 8)
    requires f' == f[row := f[cand]][cand := f[row]]
    requires out' == out[row := out[cand]][cand := out[row]]
    ensures WorkingPair(e, f', out')
    ensures UnitColumns(f', row)
    ensures KernelWithin(f', e, |e| / 8)
  {
    var n, w := |e|, |e| / 8;
    forall k | 0 <= k < n
      ensures ProductRow(out', e, k) == f'[k]
    {
      if k == cand {
        assert ProductRow(out', e, k) == ProductRow(out, e, row);
      } else if k == row {
        assert ProductRow(out', e, k) == ProductRow(out, e, cand);
      } else {
        assert ProductRow(out', e, k) == ProductRow(out, e, k);
      }
    }
    SwapKeepsUnitColumns(f, row, cand, f');
    SwapKeepsKernel(e, f, row, cand, f', w);
  }

  lemma SwapKeepsUnitColumns(f: Matrix, row: nat, cand: nat, f': Matrix)
    requires row <= cand < |f|
    requires forall i :: 0 <= i < |f| ==> row <= Rows.Size(f[i])
    requires UnitColumns(f, row)
    requires f' == f[row := f[cand]][cand := f[row]]
    ensures forall i :: 0 <= i < |f'| ==> row <= Rows.Size(f'[i])
    ensures UnitColumns(f', row)
  {
    forall i, j | 0 <= i < |f'| && 0 <= j < row
      ensures Bit(f'[i], j) <==> i == j
    {
      if i == cand {
        assert f'[i] == f[row];
        assert !Bit(f[row], j);
      } else if i == row {
        assert f'[i] == f[cand];
        assert !Bit(f[cand], j);
      } else {
        assert f'[i] == f[i];
      }
    }
  }

  lemma SwapKeepsKernel(e: Matrix, f: Matrix, row: nat, cand: nat, f': Matrix, w: nat)
    requires row <= cand < |f|
    requires Rectangular(f, w) && Rectangular(e, w)
    requires KernelWithin(f, e, w)
    requires f' == f[row := f[cand]][cand := f[row]]
    ensures Rectangular(f', w)
    ensures KernelWithin(f', e, w)
  {
    forall x | |x| == w && InKernel(f', x)
      ensures InKernel(e, x)
    {
      forall k | 0 <= k < |f|
        ensures !DotProduct(f[k], x)
      {
        if k == row {
          assert f[k] == f'[cand];
        } else if k == cand {
          assert f[k] == f'[row];
        } else {
          assert f[k] == f'[k];
        }
      }
      assert InKernel(f, x);
    }
  }

  /** Adding row `row` into row `i` of both the working copy and the
      augmentation. */
  lemma AddRowStep(e: Matrix, f: Matrix, out: Matrix, row: nat, i: nat, f': Matrix, out': Matrix)
    requires WorkingPair(e, f, out)
    requires row < |e| && i < |e| && i != row
    requires KernelWithin(f, e, |e| / 8)
    requires f' == f[i := Rows.Add(f[i], f[row])]
    requires out' == out[i := Rows.Add(out[i], out[row])]
    ensures WorkingPair(e, f', out')
    ensures KernelWithin(f', e, |e| / 8)
  {
    AddRowKeepsProduct(e, f, out, row, i, f', out');
    AddRowKeepsKernel(e, f, row, i, f', |e| / 8);
  }

  lemma AddRowKeepsProduct(e: Matrix, f: Matrix, out: Matrix, row: nat, i: nat, f': Matrix, out': Matrix)
    requires WorkingPair(e, f, out)
    requires row < |e| && i < |e| && i != row
    requires f' == f[i := Rows.Add(f[i], f[row])]
    requires out' == out[i := Rows.Add(out[i], out[row])]
    ensures WorkingPair(e, f', out')
  {
    var n, w := |e|, |e| / 8;
    CombineLinear(out[i], out[row], e, w, n);
    forall k | 0 <= k < n
      ensures ProductRow(out', e, k) == f'[k]
    {
      if k == i {
        assert ProductRow(out', e, k) == Rows.Add(ProductRow(out, e, i), ProductRow(out, e, row));
      } else {
        assert ProductRow(out', e, k) == ProductRow(out, e, k);
      }
    }
  }

  lemma AddRowKeepsKernel(e: Matrix, f: Matrix, row: nat, i: nat, f': Matrix, w: nat)
    requires row < |f| && i < |f| && i != row
    requires Rectangular(f, w) && Rectangular(e, w)
    requires KernelWithin(f, e, w)
    requires f' == f[i := Rows.Add(f[i], f[row])]
    ensures Rectangular(f', w)
    ensures KernelWithin(f', e, w)
  {
    forall x | |x| == w && InKernel(f', x)
      ensures InKernel(e, x)
    {
      DotLinear(f[i], f[row], x);
      forall k | 0 <= k < |f|
        ensures !DotProduct(f[k], x)
      {
        if k != i {
          assert f[k] == f'[k];
        } else {
          assert !DotProduct(f'[i], x) && !DotProduct(f'[row], x);
        }
      }
      assert InKernel(f, x);
    }
  }

  /** Clearing bit `row` of row `i` by adding the pivot row keeps every
      invariant of the column elimination and extends the cleared prefix. */
  lemma ClearStep(e: Matrix, f: Matrix, out: Matrix, row: nat, i: nat, pivot: Row, f': Matrix, out': Matrix)
    requires WorkingPair(e, f, out)
    requires row < |e| && i < |e| && i != row
    requires f[row] == pivot && Bit(pivot, row) && Bit(f[i], row)
    requires UnitColumns(f, row)
    requires forall k :: 0 <= k < i && k != row ==> !Bit(f[k], row)
    requires KernelWithin(f, e, |e| / 8)
    requires f' == f[i := Rows.Add(f[i], f[row])]
    requires out' == out[i := Rows.Add(out[i], out[row])]
    ensures WorkingPair(e, f', out')
    ensures f'[row] == pivot
    ensures UnitColumns(f', row)
    ensures forall k :: 0 <= k < i + 1 && k != row ==> !Bit(f'[k], row)
    ensures KernelWithin(f', e, |e| / 8)
  {
    AddRowStep(e, f, out, row, i, f', out');
    forall j | 0 <= j <= row
      ensures Bit(f'[i], j) <==> (Bit(f[i], j) != Bit(f[row], j))
    {
    }
    forall k, j | 0 <= k < |f'| && 0 <= j < row
      ensures Bit(f'[k], j) <==> k == j
    {
      if k == i {
        assert (Bit(f[i], j) <==> i == j) && !Bit(f[row], j);
      }
    }
  }

  /** A column that is set in its diagonal row only extends the unit
      columns by one. */
  lemma UnitColumnsExtend(f: Matrix, row: nat)
    requires forall i :: 0 <= i < |f| ==> row < Rows.Size(f[i])
    requires row < |f| && Bit(f[row], row)
    requires UnitColumns(f, row)
    requires forall k :: 0 <= k < |f| && k != row ==> !Bit(f[k], row)
    ensures UnitColumns(f, row + 1)
  {
  }

  /** Makes column `row` of the working copy a unit vector, using the pivot
      found in row `cand`: the pivot row is swapped into place, then added
      into every other row that has bit `row` set. */
  method EliminateColumn(ghost e: Matrix, f: Matrix, out: Matrix, row: nat, cand: nat)
    returns (f': Matrix, out': Matrix)
    requires WorkingPair(e, f, out)
    requires row <= cand < |e| && Bit(f[cand], row)
    requires UnitColumns(f, row)
    requires KernelWithin(f, e, |e| / 8)
    ensures WorkingPair(e, f', out')
    ensures UnitColumns(f', row + 1)
    ensures KernelWithin(f', e, |e| / 8)
    ensures f == e && out == e && IsIdentity(e) && cand == row ==> f' == f && out' == out
  {
    var n := |f|;
    ghost var untouched := f == e && out == e && IsIdentity(e) && cand == row;
    f' := f[row := f[cand]][cand := f[row]];
    out' := out[row := out[cand]][cand := out[row]];
    SwapStep(e, f, out, row, cand, f', out');
    ghost var pivot := f'[row];
    var i := 0;
    while i < n
      invariant 0 <= i <= n
      invariant WorkingPair(e, f', out')
      invariant f'[row] == pivot && Bit(pivot, row)
      invariant UnitColumns(f', row)
      invariant forall k :: 0 <= k < i && k != row ==> !Bit(f'[k], row)
      invariant KernelWithin(f', e, |e| / 8)
      invariant untouched ==> f' == f && out' == out
    {
      if i != row && GetBit(f'[i], row) == 1 {
        var nf := f'[i := Rows.Add(f'[i], f'[row])];
        var nout := out'[i := Rows.Add(out'[i], out'[row])];
        ClearStep(e, f', out', row, i, pivot, nf, nout);
        f', out' := nf, nout;
      }
      i := i + 1;
    }
    UnitColumnsExtend(f', row);
  }

  /** Scans rows `col ..` for a set bit in column `col`; returns the first
      such row, or `notFound` when there is none. */
  method FindPivot(f: Matrix, col: nat, notFound: int) returns (cand: int)
    requires forall i :: 0 <= i < |f| ==> col < Rows.Size(f[i])
    ensures || (col <= cand < |f| && Bit(f[cand], col) && forall k :: col <= k < cand ==> !Bit(f[k], col))
            || (cand == notFound && forall k :: col <= k < |f| ==> !Bit(f[k], col))
  {
    cand := notFound;
    var i := col;
    while i < |f|
      invariant col <= i <= |f| || (col > |f| && i == col)
      invariant cand == notFound
      invariant forall k :: col <= k < i ==> !Bit(f[k], col)
    {
      if GetBit(f[i], col) == 1 {
        cand := i;
        break;
      }
      i := i + 1;
    }
  }

  /* ---------------------------------------------------------------------- */
  /* Singularity when a pivot is missing                                    */
  /* ---------------------------------------------------------------------- */

  /** The vector with bit `row` set and, below `k`, bit `j` set when row `j`
      of `f` has bit `row` set. */
  function PivotWitness(f: Matrix, w: nat, row: nat, k: nat): (x: Row)
    requires k <= row < |f| && row < 8 * w
    requires Rectangular(f, w)
    ensures |x| == w
    ensures forall j :: 0 <= j < 8 * w ==> (Bit(x, j) <==> j == row || (j < k && Bit(f[j], row)))
  {
    if k == 0 then
      SetBit(Zero(w), row, true)
    else
      var x := PivotWitness(f, w, row, k - 1);
      var x' := if Bit(f[k - 1], row) then SetBit(x, k - 1, true) else x;
      PivotWitnessStep(f, w, row, k, x, x');
      x'
  }

  lemma PivotWitnessStep(f: Matrix, w: nat, row: nat, k: nat, x: Row, x': Row)
    requires 0 < k <= row < |f| && row < 8 * w
    requires Rectangular(f, w) && |x| == w
    requires forall j :: 0 <= j < 8 * w ==> (Bit(x, j) <==> j == row || (j < k - 1 && Bit(f[j], row)))
    requires x' == if Bit(f[k - 1], row) then SetBit(x, k - 1, true) else x
    ensures |x'| == w
    ensures forall j :: 0 <= j < 8 * w ==> (Bit(x', j) <==> j == row || (j < k && Bit(f[j], row)))
  {
    forall j | 0 <= j < 8 * w
      ensures Bit(x', j) <==> j == row || (j < k && Bit(f[j], row))
    {
      assert Bit(x, j) <==> j == row || (j < k - 1 && Bit(f[j], row));
      if Bit(f[k - 1], row) {
        if j != k - 1 {
          assert GetBit(x', j) == GetBit(x, j);
        } else {
          assert Bit(x', j);
        }
      } else {
        assert x' == x;
      }
    }
  }

  /** A row whose bits below `row` are just bit `k` (and which misses bit
      `row` when `k >= row`), against a vector with bit `row` set, nothing
      above it, and bit `k` set as the row's bit `row`: the two share either
      no position or exactly positions `k` and `row`. */
  lemma WitnessOrthogonal(fk: Row, x: Row, k: nat, row: nat)
    requires |fk| == |x| && row < Rows.Size(x)
    requires forall j :: 0 <= j < row ==> (Bit(fk, j) <==> j == k)
    requires k >= row ==> !Bit(fk, row)
    requires forall j :: 0 <= j < Rows.Size(x) && Bit(x, j) ==> j <= row
    requires Bit(x, row)
    requires k < row ==> (Bit(x, k) <==> Bit(fk, row))
    ensures !DotProduct(fk, x)
  {
    DotProductParity(fk, x);
    WitnessCommon(fk, x, k, row);
  }

  /** Under WitnessOrthogonal's hypotheses, `fk` and `x` share either no
      position or exactly the two positions `k` and `row`. */
  lemma WitnessCommon(fk: Row, x: Row, k: nat, row: nat)
    requires |fk| == |x| && row < Rows.Size(x)
    requires forall j :: 0 <= j < row ==> (Bit(fk, j) <==> j == k)
    requires k >= row ==> !Bit(fk, row)
    requires forall j :: 0 <= j < Rows.Size(x) && Bit(x, j) ==> j <= row
    requires Bit(x, row)
    requires k < row ==> (Bit(x, k) <==> Bit(fk, row))
    ensures |set j | 0 <= j < Rows.Size(fk) && Bit(fk, j) && Bit(x, j)| % 2 == 0
  {
    var common := set j | 0 <= j < Rows.Size(fk) && Bit(fk, j) && Bit(x, j);
    var expected: set<int> := if k < row && Bit(fk, row) then {k, row} else {};
    assert common == expected;
  }

  /** When columns `0 .. row - 1` are unit vectors and no row from `row` on
      has bit `row` set, column `row` is the sum of the earlier columns it
      meets, so `e` maps a non-zero vector to zero. */
  lemma NoPivotSingular(e: Matrix, f: Matrix, out: Matrix, row: nat)
    requires WorkingPair(e, f, out)
    requires row < |e|
    requires UnitColumns(f, row)
    requires KernelWithin(f, e, |e| / 8)
    requires forall k :: row <= k < |f| ==> !Bit(f[k], row)
    ensures Singular(e)
  {
    var n, w := |e|, |e| / 8;
    var x := PivotWitness(f, w, row, row);
    forall k | 0 <= k < n
      ensures !DotProduct(f[k], x)
    {
      WitnessOrthogonal(f[k], x, k, row);
    }
    assert Bit(x, row);
    assert InKernel(f, x);
    assert KernelVector(e, x);
  }

  /* ---------------------------------------------------------------------- */
  /* Inversion                                                              */
  /* ---------------------------------------------------------------------- */

  /** The starting state: the input itself, augmented with the identity. */
  lemma WorkingPairStart(e: Matrix, out: Matrix)
    requires |e| > 0 && |e| % 8 == 0 && Rectangular(e, |e| / 8)
    requires |out| == |e| && IsIdentity(out)
    ensures WorkingPair(e, e, out)
  {
    ProductIdentityLeft(out, e, |e| / 8);
    forall k | 0 <= k < |e|
      ensures ProductRow(out, e, k) == e[k]
    {
      assert ProductRow(out, e, k) == Product(out, e, |e| / 8)[k];
    }
  }

  /** The row-by-row invariant is the product equation. */
  lemma WorkingPairProduct(e: Matrix, f: Matrix, out: Matrix)
    requires WorkingPair(e, f, out)
    ensures Product(out, e, |e| / 8) == f
  {
    var p := Product(out, e, |e| / 8);
    forall k | 0 <= k < |e|
      ensures p[k] == f[k]
    {
      assert p[k] == ProductRow(out, e, k);
    }
  }

  /** Once every column of the working copy is a unit vector, the
      augmentation is a left inverse of the input. */
  lemma InverseFound(e: Matrix, f: Matrix, out: Matrix)
    requires WorkingPair(e, f, out)
    requires UnitColumns(f, |e|)
    ensures IsIdentity(Product(out, e, |e| / 8))
    ensures !Singular(e)
    ensures forall v :: |v| == |e| / 8 ==> Matrices.Mul(out, Matrices.Mul(e, v)) == v
  {
    UnitColumnsIdentity(f);
    WorkingPairProduct(e, f, out);
    LeftInverseNonSingular(out, e);
    forall v | |v| == |e| / 8
      ensures Matrices.Mul(out, Matrices.Mul(e, v)) == v
    {
      LeftInverseUndoes(out, e, v);
    }
  }

  lemma UnitColumnsIdentity(f: Matrix)
    requires |f| > 0 && |f| % 8 == 0 && Rectangular(f, |f| / 8)
    requires UnitColumns(f, |f|)
    ensures IsIdentity(f)
  {
  }

  /** Gauss-Jordan inversion as the package writes it: a pivot search that
      finds nothing leaves the candidate index at 255, and so does one that
      finds its pivot in row 255. On success `out` is a left inverse of `e`;
      on failure `e` is singular unless it has more than 255 rows. The
      identity of 256 rows or more is reported singular. */
  method Invert(e: Matrix) returns (out: Matrix, ok: bool)
    requires |e| > 0
    requires Rectangular(e, |e[0]|)
    requires Dimensions(e).0 == Dimensions(e).1
    ensures |out| == |e| && Rectangular(out, |e[0]|)
    ensures ok ==> IsIdentity(Product(out, e, |e[0]|))
    ensures ok ==> forall v :: |v| == |e[0]| ==> Matrices.Mul(out, Matrices.Mul(e, v)) == v
    ensures ok ==> !Singular(e)
    ensures !ok ==> Singular(e) || |e| > 255
    ensures IsIdentity(e) && |e| <= 255 ==> ok && out == e
    ensures IsIdentity(e) && |e| > 255 ==> !ok
  {
    var a := |e|;
    assert a == Rows.Size(e[0]);
    out := GenerateIdentity(a);
    var f := e;
    WorkingPairStart(e, out);
    if IsIdentity(e) {
      IdentityUnique(out, e);
    }
    var row := 0;
    while row < a
      invariant row <= a
      invariant WorkingPair(e, f, out)
      invariant UnitColumns(f, row)
      invariant KernelWithin(f, e, a / 8)
      invariant IsIdentity(e) ==> f == e && out == e
      invariant IsIdentity(e) && a > 255 ==> row <= 255
    {
      assert IsIdentity(e) ==> Bit(f[row], row);
      var cand := FindPivot(f, row, 255);
      if cand == 255 {
        assert a <= 255 ==> Singular(e) by {
          if a <= 255 {
            NoPivotSingular(e, f, out, row);
          }
        }
        ok := false;
        return;
      }
      f, out := EliminateColumn(e, f, out, row, cand);
      row := row + 1;
    }
    InverseFound(e, f, out);
    ok := true;
  }

  /** Gauss-Jordan inversion with a "not found" value that no row index can
      take. It succeeds exactly on the non-singular matrices, and then `out`
      is a left inverse of `e`. */
  method InvertCorrected(e: Matrix) returns (out: Matrix, ok: bool)
    requires |e| > 0
    requires Rectangular(e, |e[0]|)
    requires Dimensions(e).0 == Dimensions(e).1
    ensures |out| == |e| && Rectangular(out, |e[0]|)
    ensures ok ==> IsIdentity(Product(out, e, |e[0]|))
    ensures ok ==> forall v :: |v| == |e[0]| ==> Matrices.Mul(out, Matrices.Mul(e, v)) == v
    ensures ok <==> !Singular(e)
    ensures IsIdentity(e) ==> ok && out == e
  {
    var a := |e|;
    assert a == Rows.Size(e[0]);
    out := GenerateIdentity(a);
    var f := e;
    WorkingPairStart(e, out);
    if IsIdentity(e) {
      IdentityUnique(out, e);
    }
    var row := 0;
    while row < a
      invariant row <= a
      invariant WorkingPair(e, f, out)
      invariant UnitColumns(f, row)
      invariant KernelWithin(f, e, a / 8)
      invariant IsIdentity(e) ==> f == e && out == e
    {
      assert IsIdentity(e) ==> Bit(f[row], row);
      var cand := FindPivot(f, row, -1);
      if cand == -1 {
        NoPivotSingular(e, f, out, row);
        ok := false;
        return;
      }
      f, out := EliminateColumn(e, f, out, row, cand);
      row := row + 1;
    }
    InverseFound(e, f, out);
    ok := true;
  }

  /** The input on which `Invert` and `InvertCorrected` disagree: the
      256 x 256 identity is not singular, yet `Invert` reports it so. */
  lemma SentinelCounterexample()
    ensures var e := GenerateIdentity(256);
            && |e| == 256 && IsIdentity(e)
            && Rectangular(e, |e[0]|) && Dimensions(e).0 == Dimensions(e).1
            && !Singular(e)
  {
    var e := GenerateIdentity(256);
    ProductIdentityLeft(e, e, 32);
    LeftInverseNonSingular(e, e);
  }

  /** `Invert` and `InvertCorrected` run on the 256 x 256 identity: the
      package's `Invert` reports it singular, the corrected one inverts it,
      and it is not singular. */
  method SentinelDisagreement() returns (e: Matrix, ok: bool, okCorrected: bool)
    ensures IsIdentity(e) && |e| == 256
    ensures !Singular(e)
    ensures !ok && okCorrected
  {
    e := GenerateIdentity(256);
    SentinelCounterexample();
    var out;
    out, ok := Invert(e);
    out, okCorrected := InvertCorrected(e);
  }

  /** The all-ones row meets a vector with exactly bits 0 and 1 set twice. */
  lemma PairOrthogonal(ones: Row, x: Row)
    requires |ones| == |x| && 2 <= Rows.Size(x)
    requires forall j :: 0 <= j < Rows.Size(ones) ==> Bit(ones, j)
    requires forall j :: 0 <= j < Rows.Size(x) ==> (Bit(x, j) <==> j < 2)
    ensures !DotProduct(ones, x)
  {
    DotProductParity(ones, x);
    assert (set j | 0 <= j < Rows.Size(ones) && Bit(ones, j) && Bit(x, j)) == {0, 1};
  }

  /** The all-ones matrix of size 8 or more maps the vector with bits 0 and
      1 set to zero, so inversion fails on it. */
  lemma FullSingular(n: nat)
    requires n >= 8 && n % 8 == 0
    ensures Rectangular(GenerateFull(n), n / 8)
    ensures Singular(GenerateFull(n))
  {
    var m := GenerateFull(n);
    var w := n / 8;
    var x := SetBit(SetBit(Zero(w), 0, true), 1, true);
    forall k | 0 <= k < n
      ensures !DotProduct(m[k], x)
    {
      PairOrthogonal(m[k], x);
    }
    assert Bit(x, 0);
    assert KernelVector(m, x);
  }
}

/** Linear algebra over GF(2) on top of rows and matrices: linear
    combinations of rows, the matrix product, and singularity. These are the
    notions in which the result of matrix inversion is stated. */
module Linear {
  import opened Rows
  import opened Matrices

  /** The sum of the rows `rows[j]`, `j < k`, whose coefficient bit `j` of
      `c` is set: row `c` of a matrix product `C x rows`. */
  function Combine(c: Row, rows: Matrix, w: nat, k: nat): (r: Row)
    requires k <= |rows| && k <= Rows.Size(c)
    requires Rectangular(rows, w)
    ensures |r| == w
  {
    if k == 0 then
      Zero(w)
    else
      var r := Combine(c, rows, w, k - 1);
      if Bit(c, k - 1) then Rows.Add(r, rows[k - 1]) else r
  }

  /** The matrix product `a x b` of an `|a| x |b|` and a `|b| x 8w` matrix. */
  function Product(a: Matrix, b: Matrix, w: nat): (p: Matrix)
    requires Rectangular(b, w)
    requires forall i :: 0 <= i < |a| ==> |b| <= Rows.Size(a[i])
    ensures |p| == |a| && Rectangular(p, w)
  {
    seq(|a|, i requires 0 <= i < |a| => Combine(a[i], b, w, |b|))
  }

  /** `x` is mapped to zero by every row of `m`. */
  predicate InKernel(m: Matrix, x: Row)
    requires Rectangular(m, |x|)
  {
    forall k {:trigger DotProduct(m[k], x)} :: 0 <= k < |m| ==> !DotProduct(m[k], x)
  }

  /** `x` is a non-zero vector that `m` maps to zero. */
  predicate KernelVector(m: Matrix, x: Row)
    requires |m| > 0 && Rectangular(m, |m[0]|)
  {
    |x| == |m[0]| && x != Zero(|x|) && InKernel(m, x)
  }

  /** `m` maps some non-zero vector to zero, so it has no inverse. */
  ghost predicate Singular(m: Matrix)
    requires |m| > 0 && Rectangular(m, |m[0]|)
  {
    exists x :: KernelVector(m, x)
  }

  /* ---------------------------------------------------------------------- */
  /* Combinations                                                           */
  /* ---------------------------------------------------------------------- */

  /** Combining is linear in the coefficients. */
  lemma {:induction false} CombineLinear(c: Row, d: Row, rows: Matrix, w: nat, k: nat)
    requires |c| == |d|
    requires k <= |rows| && k <= Rows.Size(c)
    requires Rectangular(rows, w)
    ensures Combine(Rows.Add(c, d), rows, w, k) == Rows.Add(Combine(c, rows, w, k), Combine(d, rows, w, k))
  {
    var s := Rows.Add(c, d);
    if k == 0 {
      AddSelfZero(Zero(w));
    } else {
      CombineLinear(c, d, rows, w, k - 1);
      var cs, cc, cd := Combine(s, rows, w, k), Combine(c, rows, w, k), Combine(d, rows, w, k);
      RowExt(cs, Rows.Add(cc, cd));
    }
  }

  /** Combining with a coefficient row that has exactly bit `j` set selects
      row `j`, once `j` is among the first `k` rows. */
  lemma {:induction false} CombineUnit(u: Row, j: int, rows: Matrix, w: nat, k: nat)
    requires k <= |rows| && k <= Rows.Size(u) && 0 <= j < Rows.Size(u)
    requires Rectangular(rows, w)
    requires forall i :: 0 <= i < Rows.Size(u) ==> (Bit(u, i) <==> i == j)
    ensures Combine(u, rows, w, k) == if j < k then rows[j] else Zero(w)
  {
    if k > 0 {
      CombineUnit(u, j, rows, w, k - 1);
      if k - 1 == j {
        AddZero(rows[j]);
      }
    }
  }

  /** A combination of kernel vectors' rows: if every row maps `x` to zero, so
      does every combination of them. */
  lemma {:induction false} CombineInKernel(c: Row, rows: Matrix, w: nat, k: nat, x: Row)
    requires k <= |rows| && k <= Rows.Size(c)
    requires Rectangular(rows, w) && |x| == w
    requires InKernel(rows, x)
    ensures !DotProduct(Combine(c, rows, w, k), x)
  {
    if k == 0 {
      DotZero(x);
    } else {
      CombineInKernel(c, rows, w, k - 1, x);
      KernelStep(Combine(c, rows, w, k - 1), rows[k - 1], x, Bit(c, k - 1), Combine(c, rows, w, k));
    }
  }

  /** Adding a row orthogonal to `x`, or not, keeps a row orthogonal to `x`. */
  lemma KernelStep(prev: Row, r: Row, x: Row, take: bool, next: Row)
    requires |prev| == |r| == |x|
    requires !DotProduct(prev, x) && !DotProduct(r, x)
    requires next == if take then Rows.Add(prev, r) else prev
    ensures !DotProduct(next, x)
  {
    if take {
      DotLinear(prev, r, x);
    }
  }

  /** The positions below `k` set in both `c` and `u`. */
  ghost function CommonBelow(c: Row, u: Row, k: nat): set<int>
    requires k <= Rows.Size(c) && k <= Rows.Size(u)
  {
    set j | 0 <= j < k && Bit(c, j) && Bit(u, j)
  }

  lemma CommonStep(c: Row, u: Row, k: nat)
    requires 0 < k <= Rows.Size(c) && k <= Rows.Size(u)
    ensures |CommonBelow(c, u, k)| % 2 == 1 <==>
            (|CommonBelow(c, u, k - 1)| % 2 == 1) != (Bit(c, k - 1) && Bit(u, k - 1))
  {
    var prev := CommonBelow(c, u, k - 1);
    var extra: set<int> := if Bit(c, k - 1) && Bit(u, k - 1) then {k - 1} else {};
    assert CommonBelow(c, u, k) == prev + extra;
    assert prev !! extra;
    SumParity(|prev|, |extra|);
  }

  /** The dot product of a combination with `v` is the parity of the
      combined rows whose dot product with `v` is true; bit `j` of `u`
      records the dot product of row `j`. */
  lemma {:induction false} CombineDot(c: Row, rows: Matrix, k: nat, v: Row, u: Row)
    requires k <= |rows| && k <= Rows.Size(c) && k <= Rows.Size(u)
    requires Rectangular(rows, |v|)
    requires forall j {:trigger DotProduct(rows[j], v)} :: 0 <= j < k ==> (Bit(u, j) <==> DotProduct(rows[j], v))
    ensures DotProduct(Combine(c, rows, |v|, k), v) <==> |CommonBelow(c, u, k)| % 2 == 1
    decreases k, 1
  {
    if k == 0 {
      DotZero(v);
      assert CommonBelow(c, u, 0) == {};
    } else {
      CombineDotStep(c, rows, k, v, u);
    }
  }

  /** The inductive step of CombineDot: one more row flips the dot product
      exactly when that row is taken and its own dot product is true. */
  lemma {:induction false} CombineDotStep(c: Row, rows: Matrix, k: nat, v: Row, u: Row)
    requires 0 < k <= |rows| && k <= Rows.Size(c) && k <= Rows.Size(u)
    requires Rectangular(rows, |v|)
    requires forall j {:trigger DotProduct(rows[j], v)} :: 0 <= j < k ==> (Bit(u, j) <==> DotProduct(rows[j], v))
    ensures DotProduct(Combine(c, rows, |v|, k), v) <==> |CommonBelow(c, u, k)| % 2 == 1
    decreases k, 0
  {
    CombineDot(c, rows, k - 1, v, u);
    CommonStep(c, u, k);
    DotStep(Combine(c, rows, |v|, k - 1), rows[k - 1], v, Bit(c, k - 1), Combine(c, rows, |v|, k));
  }

  /** Adding row `r`, or not, flips the dot product with `v` exactly when `r`
      is added and its own dot product with `v` is true. */
  lemma DotStep(prev: Row, r: Row, v: Row, take: bool, next: Row)
    requires |prev| == |r| == |v|
    requires next == if take then Rows.Add(prev, r) else prev
    ensures DotProduct(next, v) <==> DotProduct(prev, v) != (take && DotProduct(r, v))
  {
    if take {
      DotLinear(prev, r, v);
    }
  }

  /* ---------------------------------------------------------------------- */
  /* Products                                                               */
  /* ---------------------------------------------------------------------- */

  /** The identity is a left unit of the product. */
  lemma ProductIdentityLeft(id: Matrix, b: Matrix, w: nat)
    requires IsIdentity(id) && |id| == |b|
    requires Rectangular(b, w)
    ensures Product(id, b, w) == b
  {
    var n := |b|;
    assert 8 * (n / 8) == n;
    forall i | 0 <= i < n
      ensures Product(id, b, w)[i] == b[i]
    {
      CombineUnit(id[i], i, b, w, n);
    }
  }

  /** Applying a product is applying its factors in turn. */
  lemma MulProduct(a: Matrix, b: Matrix, v: Row)
    requires |a| > 0 && |a| % 8 == 0
    requires |b| > 0 && |b| % 8 == 0
    requires Rectangular(a, |b| / 8) && Rectangular(b, |v|)
    ensures Matrices.Mul(Product(a, b, |v|), v) == Matrices.Mul(a, Matrices.Mul(b, v))
  {
    var n := |b|;
    assert 8 * (n / 8) == n;
    var p, u := Product(a, b, |v|), Matrices.Mul(b, v);
    var lhs, rhs := Matrices.Mul(p, v), Matrices.Mul(a, u);
    forall i | 0 <= i < Rows.Size(lhs)
      ensures Bit(lhs, i) <==> Bit(rhs, i)
    {
      CombineDot(a[i], b, n, v, u);
      DotProductParity(a[i], u);
    }
    RowExt(lhs, rhs);
  }

  /** A left inverse undoes the application of its matrix. */
  lemma LeftInverseUndoes(out: Matrix, e: Matrix, v: Row)
    requires |e| > 0 && |e| % 8 == 0 && Rectangular(e, |e| / 8)
    requires |out| == |e| && Rectangular(out, |e| / 8)
    requires IsIdentity(Product(out, e, |e| / 8))
    requires |v| == |e| / 8
    ensures Matrices.Mul(out, Matrices.Mul(e, v)) == v
  {
    MulProduct(out, e, v);
    MulIdentity(Product(out, e, |v|), v);
  }

  /** A matrix with a left inverse maps no non-zero vector to zero. */
  lemma LeftInverseNonSingular(out: Matrix, e: Matrix)
    requires |e| > 0 && |e| % 8 == 0 && Rectangular(e, |e| / 8)
    requires |out| == |e| && Rectangular(out, |e| / 8)
    requires IsIdentity(Product(out, e, |e| / 8))
    ensures !Singular(e)
  {
    var n, w := |e|, |e| / 8;
    var p := Product(out, e, w);
    if x :| KernelVector(e, x) {
      forall i | 0 <= i < Rows.Size(x)
        ensures !Bit(x, i)
      {
        CombineInKernel(out[i], e, w, n, x);
        DotUnit(p[i], i, x);
      }
      RowExt(x, Zero(|x|));
    }
  }
}

/** Bit matrices over GF(2): the `Matrix` type of the matrix package, a
    sequence of rows. Row `i` of a matrix is the linear form giving bit `i`
    of the image, so applying a matrix to a row takes one dot product per
    matrix row. */
module Matrices {
  import opened Rows

  type Matrix = seq<Row>

  /** Every row of `m` is `w` bytes long. */
  predicate Rectangular(m: Matrix, w: nat)
  {
    forall i :: 0 <= i < |m| ==> |m[i]| == w
  }

  /** The (row count, row width in bits) pair. Only the first row is read,
      so the width is that of every row only when the matrix is rectangular. */
  function Dimensions(m: Matrix): (d: (int, int))
    requires |m| > 0
    ensures d.0 == |m|
    ensures forall w: nat :: Rectangular(m, w) ==> d.1 == 8 * w
  {
    (|m|, Rows.Size(m[0]))
  }

  /** `m` is the identity: `n` rows of `n / 8` bytes, bit `j` of row `i`
      set exactly when `i == j`. */
  predicate IsIdentity(m: Matrix)
  {
    && |m| % 8 == 0
    && Rectangular(m, |m| / 8)
    && forall i, j :: 0 <= i < |m| && 0 <= j < |m| ==> (Bit(m[i], j) <==> i == j)
  }

  /** There is only one identity of each size. */
  lemma IdentityUnique(a: Matrix, b: Matrix)
    requires IsIdentity(a) && IsIdentity(b) && |a| == |b|
    ensures a == b
  {
    forall i | 0 <= i < |a|
      ensures a[i] == b[i]
    {
      RowExt(a[i], b[i]);
    }
  }

  /* ---------------------------------------------------------------------- */
  /* Matrix times vector                                                    */
  /* ---------------------------------------------------------------------- */

  /** The result row after the first `k` iterations of the loop in `Mul`. */
  function MulUpTo(m: Matrix, f: Row, k: nat): (r: Row)
    requires k <= |m|
    requires Rectangular(m, |f|)
    requires forall i :: 8 * (|m| / 8) <= i < k ==> !DotProduct(m[i], f)
    ensures |r| == |m| / 8
    ensures forall i :: 0 <= i < Rows.Size(r) ==> (Bit(r, i) <==> i < k && DotProduct(m[i], f))
  {
    if k == 0 then
      Zero(|m| / 8)
    else
      var r := MulUpTo(m, f, k - 1);
      if DotProduct(m[k - 1], f) then SetBit(r, k - 1, true) else r
  }

  /** Applies `m` to `f`: bit `i` of the result is the dot product of row `i`
      with `f`. The result has `|m| / 8` bytes; a set bit for a row past the
      last whole byte would be written out of bounds, so such rows must have
      a zero dot product with `f`. */
  function Mul(m: Matrix, f: Row): (r: Row)
    requires |m| > 0
    requires Rectangular(m, |f|)
    requires forall i :: 8 * (|m| / 8) <= i < |m| ==> !DotProduct(m[i], f)
    ensures |r| == |m| / 8
    ensures forall i :: 0 <= i < Rows.Size(r) ==> (Bit(r, i) <==> DotProduct(m[i], f))
  {
    MulUpTo(m, f, |m|)
  }

  /** The identity maps every row to itself. */
  lemma MulIdentity(m: Matrix, v: Row)
    requires IsIdentity(m) && |m| > 0 && |v| == |m| / 8
    ensures Mul(m, v) == v
  {
    var r := Mul(m, v);
    forall i | 0 <= i < Rows.Size(r)
      ensures Bit(r, i) <==> Bit(v, i)
    {
      DotUnit(m[i], i, v);
    }
    RowExt(r, v);
  }

  /** Applying a matrix is linear. */
  lemma MulLinear(m: Matrix, v: Row, w: Row)
    requires |m| > 0 && |m| % 8 == 0
    requires Rectangular(m, |v|) && |v| == |w|
    ensures Mul(m, Rows.Add(v, w)) == Rows.Add(Mul(m, v), Mul(m, w))
  {
    var lhs, rhs := Mul(m, Rows.Add(v, w)), Rows.Add(Mul(m, v), Mul(m, w));
    forall i | 0 <= i < Rows.Size(lhs)
      ensures Bit(lhs, i) <==> Bit(rhs, i)
    {
      DotSymmetric(m[i], Rows.Add(v, w));
      DotSymmetric(m[i], v);
      DotSymmetric(m[i], w);
      DotLinear(v, w, m[i]);
    }
    RowExt(lhs, rhs);
  }

  /* ---------------------------------------------------------------------- */
  /* Matrix addition                                                        */
  /* ---------------------------------------------------------------------- */

  /** Row-wise XOR of `e` and the first `|e|` rows of `f`. */
  function Add(e: Matrix, f: Matrix): (r: Matrix)
    requires |e| <= |f|
    requires forall i :: 0 <= i < |e| ==> |e[i]| == |f[i]|
    ensures |r| == |e|
    ensures forall i :: 0 <= i < |r| ==> |r[i]| == |e[i]|
    ensures forall i, j :: 0 <= i < |r| && 0 <= j < Rows.Size(r[i]) ==>
              (Bit(r[i], j) <==> Bit(e[i], j) != Bit(f[i], j))
  {
    seq(|e|, i requires 0 <= i < |e| => Rows.Add(e[i], f[i]))
  }

  /** Adding the same matrix twice gives back the original matrix. */
  lemma AddSelfInverse(a: Matrix, b: Matrix)
    requires |a| == |b|
    requires forall i :: 0 <= i < |a| ==> |a[i]| == |b[i]|
    ensures Add(Add(a, b), b) == a
  {
    forall i | 0 <= i < |a|
      ensures Add(Add(a, b), b)[i] == a[i]
    {
      RowExt(Add(Add(a, b), b)[i], a[i]);
    }
  }

  /** Applying a sum of matrices is the sum of the applications. */
  lemma MulDistributesOverAdd(a: Matrix, b: Matrix, v: Row)
    requires |a| == |b| && |a| > 0 && |a| % 8 == 0
    requires Rectangular(a, |v|) && Rectangular(b, |v|)
    ensures Mul(Add(a, b), v) == Rows.Add(Mul(a, v), Mul(b, v))
  {
    var s := Add(a, b);
    var lhs, rhs := Mul(s, v), Rows.Add(Mul(a, v), Mul(b, v));
    forall i | 0 <= i < Rows.Size(lhs)
      ensures Bit(lhs, i) <==> Bit(rhs, i)
    {
      assert s[i] == Rows.Add(a[i], b[i]) by {
        RowExt(s[i], Rows.Add(a[i], b[i]));
      }
      DotLinear(a[i], b[i], v);
    }
    RowExt(lhs, rhs);
  }

  /* ---------------------------------------------------------------------- */
  /* Trace                                                                  */
  /* ---------------------------------------------------------------------- */

  /** The contribution of row `i` to the trace: bit `i` of the row's first
      byte, where a shift by eight or more leaves nothing. */
  function TraceTerm(r: Row, i: nat): byte
    requires |r| > 0
  {
    if i < 8 then (r[0] >> (i as byte)) & 1 else 0
  }

  /** The diagonal positions below `k` that `Trace` can see. */
  ghost function TraceSeen(m: Matrix, k: nat): set<int>
    requires k <= |m|
    requires forall i :: 0 <= i < |m| ==> |m[i]| > 0
  {
    set i | 0 <= i < k && i < 8 && Bit(m[i], i)
  }

  /** The XOR of the first `k` trace terms. */
  function TraceUpTo(m: Matrix, k: nat): (t: byte)
    requires k <= |m|
    requires forall i :: 0 <= i < |m| ==> |m[i]| > 0
    ensures t <= 1
    ensures t == 1 <==> |TraceSeen(m, k)| % 2 == 1
  {
    if k == 0 then
      assert TraceSeen(m, 0) == {};
      0
    else
      var t := TraceUpTo(m, k - 1);
      var term := TraceTerm(m[k - 1], k - 1);
      TraceStep(m, k);
      SumParity(|TraceSeen(m, k - 1)|, if term == 1 then 1 else 0);
      t ^ term
  }

  lemma TraceStep(m: Matrix, k: nat)
    requires 0 < k <= |m|
    requires forall i :: 0 <= i < |m| ==> |m[i]| > 0
    ensures TraceTerm(m[k - 1], k - 1) <= 1
    ensures |TraceSeen(m, k)| == |TraceSeen(m, k - 1)| + (if TraceTerm(m[k - 1], k - 1) == 1 then 1 else 0)
  {
    var i := k - 1;
    if i < 8 {
      BitIndex(i, 0, i);
      assert TraceTerm(m[i], i) == GetBit(m[i], i);
      if Bit(m[i], i) {
        assert TraceSeen(m, k) == TraceSeen(m, i) + {i};
      } else {
        assert TraceSeen(m, k) == TraceSeen(m, i);
      }
    } else {
      assert TraceSeen(m, k) == TraceSeen(m, i);
    }
  }

  /** XOR of bit `i` of the first byte of row `i`, over all rows: the parity
      of the diagonal entries in the first eight rows only. */
  function Trace(m: Matrix): (t: byte)
    requires |m| > 0
    requires forall i :: 0 <= i < |m| ==> |m[i]| > 0
    ensures t <= 1
    ensures t == 1 <==> |set i | 0 <= i < |m| && i < 8 && Bit(m[i], i)| % 2 == 1
  {
    TraceUpTo(m, Dimensions(m).0)
  }

  /** The diagonal positions below `k`. */
  ghost function DiagonalBelow(m: Matrix, k: nat): set<int>
    requires k <= |m|
    requires forall i :: 0 <= i < |m| ==> i < Rows.Size(m[i])
  {
    set i | 0 <= i < k && Bit(m[i], i)
  }

  function DiagonalParityUpTo(m: Matrix, k: nat): (t: byte)
    requires k <= |m|
    requires forall i :: 0 <= i < |m| ==> i < Rows.Size(m[i])
    ensures t <= 1
    ensures t == 1 <==> |DiagonalBelow(m, k)| % 2 == 1
  {
    if k == 0 then
      assert DiagonalBelow(m, 0) == {};
      0
    else
      var t := DiagonalParityUpTo(m, k - 1);
      var term := GetBit(m[k - 1], k - 1);
      DiagonalStep(m, k);
      SumParity(|DiagonalBelow(m, k - 1)|, if term == 1 then 1 else 0);
      t ^ term
  }

  lemma DiagonalStep(m: Matrix, k: nat)
    requires 0 < k <= |m|
    requires forall i :: 0 <= i < |m| ==> i < Rows.Size(m[i])
    ensures |DiagonalBelow(m, k)| == |DiagonalBelow(m, k - 1)| + (if Bit(m[k - 1], k - 1) then 1 else 0)
  {
    var extra: set<int> := if Bit(m[k - 1], k - 1) then {k - 1} else {};
    assert DiagonalBelow(m, k) == DiagonalBelow(m, k - 1) + extra;
    assert DiagonalBelow(m, k - 1) !! extra;
  }

  /** The trace in the linear-algebra sense of the name: the parity of every
      diagonal entry. */
  function DiagonalParity(m: Matrix): (t: byte)
    requires forall i :: 0 <= i < |m| ==> i < Rows.Size(m[i])
    ensures t <= 1
    ensures t == 1 <==> |set i | 0 <= i < |m| && Bit(m[i], i)| % 2 == 1
  {
    DiagonalParityUpTo(m, |m|)
  }

  /** On matrices of at most eight rows the two traces agree. */
  lemma TraceSmall(m: Matrix)
    requires 0 < |m| <= 8
    requires forall i :: 0 <= i < |m| ==> |m[i]| > 0
    ensures Trace(m) == DiagonalParity(m)
  {
    assert (set i | 0 <= i < |m| && i < 8 && Bit(m[i], i)) == (set i | 0 <= i < |m| && Bit(m[i], i));
  }

  /** A 16 x 16 matrix whose only set entry is on the diagonal at (8, 8):
      `Trace` misses it. */
  lemma TraceCounterexample()
    ensures var m := GenerateEmpty(16)[8 := SetBit(Zero(2), 8, true)];
            Trace(m) == 0 && DiagonalParity(m) == 1
  {
    var m := GenerateEmpty(16)[8 := SetBit(Zero(2), 8, true)];
    assert (set i | 0 <= i < |m| && i < 8 && Bit(m[i], i)) == {};
    assert (set i | 0 <= i < |m| && Bit(m[i], i)) == {8};
  }

  /* ---------------------------------------------------------------------- */
  /* Generators                                                             */
  /* ---------------------------------------------------------------------- */

  /** `n` rows of `n / 8` zero bytes. */
  function GenerateEmpty(n: nat): (m: Matrix)
    ensures |m| == n && Rectangular(m, n / 8)
    ensures forall i, j :: 0 <= i < n && 0 <= j < Rows.Size(m[i]) ==> !Bit(m[i], j)
  {
    seq(n, i => Zero(n / 8))
  }

  lemma FullByteBits(t: byte)
    requires t < 8
    ensures ByteBit(0xff, t) == 1
  {
  }

  /** `n` rows of `n / 8` bytes with every bit set. */
  function GenerateFull(n: nat): (m: Matrix)
    ensures |m| == n && Rectangular(m, n / 8)
    ensures forall i, j :: 0 <= i < n && 0 <= j < Rows.Size(m[i]) ==> Bit(m[i], j)
  {
    var m := seq(n, i => seq(n / 8, j => 0xff));
    forall i, j | 0 <= i < n && 0 <= j < Rows.Size(m[i])
      ensures Bit(m[i], j)
    {
      FullByteBits((j % 8) as byte);
    }
    m
  }

  /** The empty matrix after the first `k` iterations of the loop in
      `GenerateIdentity`. */
  function IdentityUpTo(n: nat, k: nat): (m: Matrix)
    requires n % 8 == 0 && k <= n
    ensures |m| == n && Rectangular(m, n / 8)
    ensures forall i, j :: 0 <= i < n && 0 <= j < n ==> (Bit(m[i], j) <==> i == j && i < k)
  {
    if k == 0 then
      GenerateEmpty(n)
    else
      var m := IdentityUpTo(n, k - 1);
      var m' := m[k - 1 := SetBit(m[k - 1], k - 1, true)];
      IdentityStep(n, k, m, m');
      m'
  }

  lemma IdentityStep(n: nat, k: nat, m: Matrix, m': Matrix)
    requires n % 8 == 0 && 0 < k <= n
    requires |m| == n && Rectangular(m, n / 8)
    requires forall i, j :: 0 <= i < n && 0 <= j < n ==> (Bit(m[i], j) <==> i == j && i < k - 1)
    requires m' == m[k - 1 := SetBit(m[k - 1], k - 1, true)]
    ensures |m'| == n && Rectangular(m', n / 8)
    ensures forall i, j :: 0 <= i < n && 0 <= j < n ==> (Bit(m'[i], j) <==> i == j && i < k)
  {
    assert 8 * (n / 8) == n;
    forall i, j | 0 <= i < n && 0 <= j < n
      ensures Bit(m'[i], j) <==> i == j && i < k
    {
      assert Rows.Size(m[i]) == n;
      assert Bit(m[i], j) <==> i == j && i < k - 1;
      if i == k - 1 {
        if j != i {
          assert GetBit(m'[i], j) == GetBit(m[i], j);
        } else {
          assert Bit(m'[i], j);
        }
      } else {
        assert m'[i] == m[i];
      }
    }
  }

  /** The `n x n` identity, built by setting bit `i` of row `i` of the empty
      matrix; `n` must be byte-aligned or the last bits fall off the rows. */
  function GenerateIdentity(n: nat): (m: Matrix)
    requires n % 8 == 0
    ensures |m| == n && IsIdentity(m)
  {
    IdentityUpTo(n, n)
  }
}

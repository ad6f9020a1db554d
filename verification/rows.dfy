/** Packed bit vectors over GF(2): the `Row` type of the matrix package.
    A row is a sequence of bytes; bit `i` of a row is bit `i % 8` of byte
    `i / 8`, least significant bit first. */
module Rows {

  type byte = bv8
  type Row = seq<byte>

  /** Byte-parity lookup table: bit `g % 64` of entry `g / 64` is the parity
      of the number of set bits of the byte `g`. */
  const WeightTable: seq<bv64> := [
    0x6996966996696996, 0x9669699669969669,
    0x9669699669969669, 0x6996966996696996
  ]

  /* ---------------------------------------------------------------------- */
  /* Single bytes                                                           */
  /* ---------------------------------------------------------------------- */

  /** Bit `t` of byte `b`, as 0 or 1. */
  function ByteBit(b: byte, t: byte): byte
    requires t < 8
  {
    (b >> t) & 1
  }

  lemma ByteXorBit(b: byte, c: byte, t: byte)
    requires t < 8
    ensures ByteBit(b ^ c, t) == ByteBit(b, t) ^ ByteBit(c, t)
  {
  }

  lemma ByteAndBit(b: byte, c: byte, t: byte)
    requires t < 8
    ensures ByteBit(b & c, t) == ByteBit(b, t) & ByteBit(c, t)
  {
  }

  /** Flipping bit `t` changes bit `t` and no other. */
  lemma ByteToggleBit(b: byte, t: byte, s: byte)
    requires t < 8 && s < 8
    ensures ByteBit(b ^ (1 << t), s) == if s == t then 1 - ByteBit(b, s) else ByteBit(b, s)
  {
  }

  /** A byte is determined by its eight bits. */
  lemma ByteExt(b: byte, c: byte)
    requires forall t: byte :: t < 8 ==> ByteBit(b, t) == ByteBit(c, t)
    ensures b == c
  {
    assert ByteBit(b, 0) == ByteBit(c, 0);
    assert ByteBit(b, 1) == ByteBit(c, 1);
    assert ByteBit(b, 2) == ByteBit(c, 2);
    assert ByteBit(b, 3) == ByteBit(c, 3);
    assert ByteBit(b, 4) == ByteBit(c, 4);
    assert ByteBit(b, 5) == ByteBit(c, 5);
    assert ByteBit(b, 6) == ByteBit(c, 6);
    assert ByteBit(b, 7) == ByteBit(c, 7);
  }

  /** Bit `t` of a byte, as a count. */
  function One(b: byte, t: byte): nat
    requires t < 8
  {
    if ByteBit(b, t) == 1 then 1 else 0
  }

  /** Number of set bits of a byte. */
  function PopCount(b: byte): nat
  {
    One(b, 0) + One(b, 1) + One(b, 2) + One(b, 3) + One(b, 4) + One(b, 5) + One(b, 6) + One(b, 7)
  }

  /** XOR of the eight bits of a byte. */
  function XorOfBits(g: byte): byte
  {
    ByteBit(g, 0) ^ ByteBit(g, 1) ^ ByteBit(g, 2) ^ ByteBit(g, 3) ^
    ByteBit(g, 4) ^ ByteBit(g, 5) ^ ByteBit(g, 6) ^ ByteBit(g, 7)
  }

  /** The table lookup used by DotProduct for one byte: the parity of the
      number of set bits of `g`. */
  function TableParity(g: byte): (t: bv64)
    ensures t <= 1
    ensures t == 1 <==> PopCount(g) % 2 == 1
  {
    var w := WeightTable[(g / 64) as int];
    TableQuarter(w, g);
    XorOfBitsParity(g);
    (w >> (g % 64)) & 1
  }

  lemma TableQuarter(w: bv64, g: byte)
    requires g / 64 == 0 ==> w == 0x6996966996696996
    requires g / 64 == 1 ==> w == 0x9669699669969669
    requires g / 64 == 2 ==> w == 0x9669699669969669
    requires g / 64 == 3 ==> w == 0x6996966996696996
    ensures (w >> (g % 64)) & 1 == XorOfBits(g) as bv64
  {
  }

  lemma XorOfBitsParity(g: byte)
    ensures XorOfBits(g) == 1 <==> PopCount(g) % 2 == 1
  {
  }

  /* ---------------------------------------------------------------------- */
  /* Bit access                                                             */
  /* ---------------------------------------------------------------------- */

  /** Length of a row in bits: eight per byte, so every position below it
      lies in some byte of the row. */
  function Size(r: Row): (s: nat)
    ensures s % 8 == 0 && s / 8 == |r|
  {
    8 * |r|
  }

  /** Bit `i` of the row: bit `i % 8` of byte `i / 8`, as 0 or 1. */
  function GetBit(r: Row, i: int): (b: byte)
    requires 0 <= i < Size(r)
    ensures b <= 1
  {
    ByteBit(r[i / 8], (i % 8) as byte)
  }

  /** Reading bit `i` and masking byte `i / 8` with `1 << (i % 8)`, the mask
      SetBit toggles, agree. */
  lemma GetBitMask(r: Row, i: int)
    requires 0 <= i < Size(r)
    ensures GetBit(r, i) == 1 <==> r[i / 8] & (1 << ((i % 8) as byte)) != 0
  {
  }

  /** Bit `i` of the row is set. */
  predicate Bit(r: Row, i: int)
    requires 0 <= i < Size(r)
  {
    GetBit(r, i) == 1
  }

  lemma BitIndex(i: int, k: int, t: int)
    requires 0 <= k && 0 <= t < 8 && i == 8 * k + t
    ensures i / 8 == k && (i % 8) as byte == t as byte
  {
  }

  /** Flipping bit `i` in storage changes that bit and no other. */
  lemma ToggleFrame(r: Row, i: int, r': Row)
    requires 0 <= i < Size(r)
    requires r' == r[i / 8 := r[i / 8] ^ (1 << ((i % 8) as byte))]
    ensures GetBit(r', i) == 1 - GetBit(r, i)
    ensures forall j :: 0 <= j < Size(r) && j != i ==> GetBit(r', j) == GetBit(r, j)
  {
    var k, t := i / 8, (i % 8) as byte;
    var b := r[k];
    assert r'[k] == b ^ (1 << t);
    ByteToggleBit(b, t, t);
    assert GetBit(r', i) == ByteBit(b ^ (1 << t), t);
    forall j | 0 <= j < Size(r) && j != i
      ensures GetBit(r', j) == GetBit(r, j)
    {
      ToggleOther(r, i, r', j);
    }
  }

  /** Flipping bit `i` in storage leaves bit `j != i` alone. */
  lemma ToggleOther(r: Row, i: int, r': Row, j: int)
    requires 0 <= i < Size(r) && 0 <= j < Size(r) && j != i
    requires r' == r[i / 8 := r[i / 8] ^ (1 << ((i % 8) as byte))]
    ensures GetBit(r', j) == GetBit(r, j)
  {
    if j / 8 == i / 8 {
      var t, s := (i % 8) as byte, (j % 8) as byte;
      assert s != t;
      ByteToggleBit(r[i / 8], t, s);
      assert GetBit(r', j) == ByteBit(r[i / 8] ^ (1 << t), s);
    }
  }

  /** Sets bit `i` to `x`, flipping storage only when the bit differs. */
  function SetBit(r: Row, i: int, x: bool): (r': Row)
    requires 0 <= i < Size(r)
    ensures |r'| == |r|
    ensures Bit(r', i) == x
    ensures forall j :: 0 <= j < Size(r) && j != i ==> GetBit(r', j) == GetBit(r, j)
  {
    var y := GetBit(r, i);
    if (y == 0 && x) || (y == 1 && !x) then
      var r' := r[i / 8 := r[i / 8] ^ (1 << ((i % 8) as byte))];
      ToggleFrame(r, i, r');
      r'
    else
      r
  }

  /** Rows of equal length with the same bits are equal. */
  lemma RowExt(a: Row, b: Row)
    requires |a| == |b|
    requires forall i :: 0 <= i < Size(a) ==> (Bit(a, i) <==> Bit(b, i))
    ensures a == b
  {
    forall k | 0 <= k < |a|
      ensures a[k] == b[k]
    {
      forall t: byte | t < 8
        ensures ByteBit(a[k], t) == ByteBit(b[k], t)
      {
        BitIndex(8 * k + t as int, k, t as int);
        assert Bit(a, 8 * k + t as int) <==> Bit(b, 8 * k + t as int);
      }
      ByteExt(a[k], b[k]);
    }
  }

  /** The all-zero row of `n` bytes. */
  function Zero(n: nat): (r: Row)
    ensures |r| == n
    ensures forall i :: 0 <= i < Size(r) ==> !Bit(r, i)
  {
    seq(n, k => 0)
  }

  /* ---------------------------------------------------------------------- */
  /* Arithmetic                                                             */
  /* ---------------------------------------------------------------------- */

  lemma XorRowBits(a: Row, b: Row, r: Row)
    requires |a| == |b| == |r|
    requires forall k :: 0 <= k < |r| ==> r[k] == a[k] ^ b[k]
    ensures forall i :: 0 <= i < Size(r) ==> GetBit(r, i) == GetBit(a, i) ^ GetBit(b, i)
  {
    forall i | 0 <= i < Size(r)
      ensures GetBit(r, i) == GetBit(a, i) ^ GetBit(b, i)
    {
      ByteXorBit(a[i / 8], b[i / 8], (i % 8) as byte);
    }
  }

  lemma AndRowBits(a: Row, b: Row, r: Row)
    requires |a| == |b| == |r|
    requires forall k :: 0 <= k < |r| ==> r[k] == a[k] & b[k]
    ensures forall i :: 0 <= i < Size(r) ==> GetBit(r, i) == GetBit(a, i) & GetBit(b, i)
  {
    forall i | 0 <= i < Size(r)
      ensures GetBit(r, i) == GetBit(a, i) & GetBit(b, i)
    {
      ByteAndBit(a[i / 8], b[i / 8], (i % 8) as byte);
    }
  }

  /** GF(2) addition: bitwise XOR of two rows of the same length. */
  function Add(a: Row, b: Row): (r: Row)
    requires |a| == |b|
    ensures |r| == |a|
    ensures forall i :: 0 <= i < Size(r) ==> (Bit(r, i) <==> Bit(a, i) != Bit(b, i))
  {
    var r := seq(|a|, k requires 0 <= k < |a| => a[k] ^ b[k]);
    XorRowBits(a, b, r);
    r
  }

  /** GF(2) multiplication: bitwise AND of two rows of the same length. */
  function Mul(a: Row, b: Row): (r: Row)
    requires |a| == |b|
    ensures |r| == |a|
    ensures forall i :: 0 <= i < Size(r) ==> (Bit(r, i) <==> Bit(a, i) && Bit(b, i))
  {
    var r := seq(|a|, k requires 0 <= k < |a| => a[k] & b[k]);
    AndRowBits(a, b, r);
    r
  }

  /* ---------------------------------------------------------------------- */
  /* Weight and dot product                                                 */
  /* ---------------------------------------------------------------------- */

  /** The positions below `k` at which the row has a set bit. */
  ghost function OnesBelow(r: Row, k: nat): set<int>
    requires k <= Size(r)
  {
    set i | 0 <= i < k && Bit(r, i)
  }

  /** Number of set bits below position `k`, counted one position at a time. */
  function CountBelow(r: Row, k: nat): nat
    requires k <= Size(r)
  {
    if k == 0 then 0 else CountBelow(r, k - 1) + (if Bit(r, k - 1) then 1 else 0)
  }

  /** The count below `k` is the number of set positions below `k`. */
  lemma {:induction false} CountBelowOnes(r: Row, k: nat)
    requires k <= Size(r)
    ensures CountBelow(r, k) == |OnesBelow(r, k)|
  {
    if k == 0 {
      assert OnesBelow(r, 0) == {};
    } else {
      CountBelowOnes(r, k - 1);
      OnesStep(r, k);
    }
  }

  lemma OnesStep(r: Row, k: nat)
    requires 0 < k <= Size(r)
    ensures |OnesBelow(r, k)| == |OnesBelow(r, k - 1)| + if Bit(r, k - 1) then 1 else 0
  {
    var extra: set<int> := if Bit(r, k - 1) then {k - 1} else {};
    assert OnesBelow(r, k) == OnesBelow(r, k - 1) + extra;
    assert OnesBelow(r, k - 1) !! extra;
  }

  /** Hamming weight: the number of set bits of the row. */
  function Weight(r: Row): (w: nat)
    ensures w == |set i | 0 <= i < Size(r) && Bit(r, i)|
  {
    CountBelowOnes(r, Size(r));
    CountBelow(r, Size(r))
  }

  /** XOR of the table parities of the bytes, first to last. */
  function ParityFold(g: Row): bv64
  {
    if |g| == 0 then 0 else ParityFold(g[..|g| - 1]) ^ TableParity(g[|g| - 1])
  }

  /** Counting below a byte boundary only looks at the bytes before it. */
  lemma {:induction false} CountPrefix(g: Row, n: nat, k: nat)
    requires n <= |g| && k <= 8 * n
    ensures CountBelow(g, k) == CountBelow(g[..n], k)
  {
    if k > 0 {
      CountPrefix(g, n, k - 1);
      assert GetBit(g, k - 1) == GetBit(g[..n], k - 1);
    }
  }

  /** Counting through byte `n` adds that byte's population count. */
  lemma {:induction false} CountByte(g: Row, n: nat, t: nat)
    requires n < |g| && t <= 8
    ensures CountBelow(g, 8 * n + t) == CountBelow(g, 8 * n) + CountBelow([g[n]], t)
  {
    if t > 0 {
      CountByte(g, n, t - 1);
      CountByteStep(g, n, t);
    }
  }

  lemma CountByteStep(g: Row, n: nat, t: nat)
    requires n < |g| && 0 < t <= 8
    requires CountBelow(g, 8 * n + t - 1) == CountBelow(g, 8 * n) + CountBelow([g[n]], t - 1)
    ensures CountBelow(g, 8 * n + t) == CountBelow(g, 8 * n) + CountBelow([g[n]], t)
  {
    ByteOfRow(g, n, t - 1);
  }

  /** Bit `t` of byte `n` of a row, read in the row and in the byte alone. */
  lemma ByteOfRow(g: Row, n: nat, t: nat)
    requires n < |g| && t < 8
    ensures GetBit(g, 8 * n + t) == GetBit([g[n]], t)
  {
    BitIndex(8 * n + t, n, t);
    BitIndex(t, 0, t);
  }

  lemma CountStep(r: Row, k: nat)
    requires k < Size(r)
    ensures CountBelow(r, k + 1) == CountBelow(r, k) + (if GetBit(r, k) == 1 then 1 else 0)
  {
  }

  lemma SingleByteBit(b: byte, t: nat)
    requires t < 8
    ensures GetBit([b], t) == ByteBit(b, t as byte)
  {
    BitIndex(t, 0, t);
  }

  lemma {:induction false} ByteCountBelow(b: byte, t: nat)
    requires t <= 8
    ensures CountBelow([b], t) == PartialPop(b, t)
  {
    if t > 0 {
      ByteCountBelow(b, t - 1);
      CountStep([b], t - 1);
      SingleByteBit(b, t - 1);
    }
  }

  lemma PartialPopFull(b: byte)
    ensures PartialPop(b, 8) == PopCount(b)
  {
    assert PartialPop(b, 1) == One(b, 0);
    assert PartialPop(b, 2) == PartialPop(b, 1) + One(b, 1);
    assert PartialPop(b, 3) == PartialPop(b, 2) + One(b, 2);
    assert PartialPop(b, 4) == PartialPop(b, 3) + One(b, 3);
    assert PartialPop(b, 5) == PartialPop(b, 4) + One(b, 4);
    assert PartialPop(b, 6) == PartialPop(b, 5) + One(b, 5);
    assert PartialPop(b, 7) == PartialPop(b, 6) + One(b, 6);
    assert PartialPop(b, 8) == PartialPop(b, 7) + One(b, 7);
  }

  lemma ByteCount(b: byte)
    ensures CountBelow([b], 8) == PopCount(b)
  {
    ByteCountBelow(b, 8);
    PartialPopFull(b);
  }

  /** Set bits among the low `t` bits of a byte. */
  function PartialPop(b: byte, t: nat): nat
    requires t <= 8
  {
    if t == 0 then 0 else PartialPop(b, t - 1) + One(b, (t - 1) as byte)
  }

  lemma XorParityBit(a: bv64, c: bv64)
    requires a <= 1 && c <= 1
    ensures a ^ c <= 1
    ensures a ^ c == 1 <==> (a == 1) != (c == 1)
  {
  }

  /** The table fold computes the parity of the weight. */
  lemma {:induction false} ParityFoldIsWeightParity(g: Row)
    ensures ParityFold(g) <= 1
    ensures ParityFold(g) == 1 <==> Weight(g) % 2 == 1
  {
    if |g| > 0 {
      var n := |g| - 1;
      var p := g[..n];
      ParityFoldIsWeightParity(p);
      var last := g[n];
      WeightSplit(g, n);
      var fp, tp := ParityFold(p), TableParity(last);
      XorParityBit(fp, tp);
      assert ParityFold(g) == fp ^ tp;
      SumParity(Weight(p), PopCount(last));
    }
  }

  lemma SumParity(x: nat, y: nat)
    ensures (x + y) % 2 == 1 <==> (x % 2 == 1) != (y % 2 == 1)
  {
  }

  /** The weight of a row is the weight of its first `n` bytes plus the
      population count of its last byte. */
  lemma WeightSplit(g: Row, n: nat)
    requires n + 1 == |g|
    ensures Weight(g) == Weight(g[..n]) + PopCount(g[n])
  {
    ByteCount(g[n]);
    CountByte(g, n, 8);
    CountPrefix(g, n, 8 * n);
  }

  /** GF(2) inner product: AND the rows, then XOR the table parities of the
      resulting bytes. */
  function DotProduct(e: Row, f: Row): (d: bool)
    requires |e| == |f|
    ensures d <==> Weight(Mul(e, f)) % 2 == 1
  {
    ParityFoldIsWeightParity(Mul(e, f));
    ParityFold(Mul(e, f)) == 1
  }

  /** The dot product is true exactly when an odd number of positions are
      set in both rows. */
  lemma DotProductParity(e: Row, f: Row)
    requires |e| == |f|
    ensures DotProduct(e, f) <==> Weight(Mul(e, f)) % 2 == 1
    ensures DotProduct(e, f) <==> |set i | 0 <= i < Size(e) && Bit(e, i) && Bit(f, i)| % 2 == 1
  {
    var g := Mul(e, f);
    assert (set i | 0 <= i < Size(g) && Bit(g, i)) == (set i | 0 <= i < Size(e) && Bit(e, i) && Bit(f, i));
  }

  /* ---------------------------------------------------------------------- */
  /* GF(2) algebra of rows                                                  */
  /* ---------------------------------------------------------------------- */

  /** Adding the same row twice gives back the original row. */
  lemma AddSelfInverse(a: Row, b: Row)
    requires |a| == |b|
    ensures Add(Add(a, b), b) == a
  {
    RowExt(Add(Add(a, b), b), a);
  }

  /** Every row is its own additive inverse. */
  lemma AddSelfZero(a: Row)
    ensures Add(a, a) == Zero(|a|)
  {
    RowExt(Add(a, a), Zero(|a|));
  }

  lemma AddZero(a: Row)
    ensures Add(a, Zero(|a|)) == a
    ensures Add(Zero(|a|), a) == a
  {
    RowExt(Add(a, Zero(|a|)), a);
    RowExt(Add(Zero(|a|), a), a);
  }

  lemma AddCommutes(a: Row, b: Row)
    requires |a| == |b|
    ensures Add(a, b) == Add(b, a)
  {
    RowExt(Add(a, b), Add(b, a));
  }

  lemma AddAssociates(a: Row, b: Row, c: Row)
    requires |a| == |b| == |c|
    ensures Add(Add(a, b), c) == Add(a, Add(b, c))
  {
    RowExt(Add(Add(a, b), c), Add(a, Add(b, c)));
  }

  /** AND distributes over XOR. */
  lemma MulDistributes(a: Row, b: Row, x: Row)
    requires |a| == |b| == |x|
    ensures Mul(Add(a, b), x) == Add(Mul(a, x), Mul(b, x))
  {
    RowExt(Mul(Add(a, b), x), Add(Mul(a, x), Mul(b, x)));
  }

  lemma {:induction false} CountAddParity(u: Row, v: Row, k: nat)
    requires |u| == |v| && k <= Size(u)
    ensures CountBelow(Add(u, v), k) % 2 == 1 <==> (CountBelow(u, k) % 2 == 1) != (CountBelow(v, k) % 2 == 1)
  {
    if k > 0 {
      CountAddParity(u, v, k - 1);
      SumParity(CountBelow(Add(u, v), k - 1), if Bit(Add(u, v), k - 1) then 1 else 0);
      SumParity(CountBelow(u, k - 1), if Bit(u, k - 1) then 1 else 0);
      SumParity(CountBelow(v, k - 1), if Bit(v, k - 1) then 1 else 0);
    }
  }

  /** The dot product is linear in its first argument. */
  lemma DotLinear(a: Row, b: Row, x: Row)
    requires |a| == |b| == |x|
    ensures DotProduct(Add(a, b), x) == (DotProduct(a, x) != DotProduct(b, x))
  {
    MulDistributes(a, b, x);
    CountAddParity(Mul(a, x), Mul(b, x), Size(x));
    DotProductParity(Add(a, b), x);
    DotProductParity(a, x);
    DotProductParity(b, x);
  }

  /** The dot product is symmetric. */
  lemma DotSymmetric(a: Row, b: Row)
    requires |a| == |b|
    ensures DotProduct(a, b) == DotProduct(b, a)
  {
    DotProductParity(a, b);
    DotProductParity(b, a);
    assert (set i | 0 <= i < Size(a) && Bit(a, i) && Bit(b, i)) == (set i | 0 <= i < Size(b) && Bit(b, i) && Bit(a, i));
  }

  /** The dot product with the zero row is false. */
  lemma DotZero(x: Row)
    ensures !DotProduct(Zero(|x|), x)
  {
    var z := Zero(|x|);
    DotProductParity(z, x);
    RowExt(Mul(z, x), z);
    assert (set i | 0 <= i < Size(z) && Bit(z, i)) == {};
  }

  /** A row with exactly bit `j` set picks bit `j` out of any row. */
  lemma DotUnit(u: Row, j: int, x: Row)
    requires |u| == |x| && 0 <= j < Size(u)
    requires forall i :: 0 <= i < Size(u) ==> (Bit(u, i) <==> i == j)
    ensures DotProduct(u, x) <==> Bit(x, j)
  {
    DotProductParity(u, x);
    var common := set i | 0 <= i < Size(u) && Bit(u, i) && Bit(x, i);
    if Bit(x, j) {
      assert common == {j};
    } else {
      assert common == {};
    }
  }
}

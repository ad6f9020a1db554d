# GF(2) bit vectors and bit matrices

A Dafny model of the bit-vector and bit-matrix package at the heart of the
white-box cryptography library (`primitives/matrix/matrix.go`). It covers:

- `Row`, a packed bit vector.
  - Bits are stored least significant bit first within each byte.
  - Operations: XOR `Add`, AND `Mul`, the table-driven `DotProduct`, `Weight`,
    `GetBit`, `SetBit` and `Size`.
- The byte-parity lookup table `weight`.
- `Matrix`, a sequence of rows.
  - Operations: matrix × vector `Mul`, row-wise `Add`, Gauss-Jordan `Invert`
    and `Trace`.
  - Generators: `GenerateIdentity`, `GenerateEmpty` and `GenerateFull`.

The model has four modules:

- `Rows` (`rows.dfy`): bytes are `bv8` and a row is `seq<bv8>`. Each row
  operation is a pure function. Go's in-place `SetBit` returns the updated
  row.
- `Matrices` (`matrices.dfy`): matrix × vector, matrix addition, the trace
  and the three generators.
- `Linear` (`linear.dfy`): linear combinations of rows, the matrix product
  `out × e`, and singularity.
  - A matrix is *singular* when it maps some non-zero vector to zero.
  - Inversion's results are stated in these terms.
- `Inversion` (`inversion.dfy`): `Invert` as an imperative loop.
  - Its invariants: the augmentation times the input equals the working
    copy, row by row; columns `0 .. row-1` of the working copy are unit
    vectors; and every vector the working copy maps to zero is one the input
    maps to zero.
  - When the loop finishes, `out` is a left inverse of the input.
  - When a pivot is missing, the input is singular.

Go's panics are preconditions: unequal row lengths in `Add`/`Mul`, a vector
of the wrong size in `Matrix.Mul`, a non-square matrix in `Invert`, and
out-of-range indices. `Matrix.Size` is `Matrices.Dimensions`, and the square
precondition of `Invert` is written through it, as the Go code compares the
two sizes.

`Trace` is modelled as the code computes it. In linear algebra the trace of a
matrix takes in every diagonal entry, and over GF(2) that is the parity of the
whole diagonal. The code reads only the first byte of each row, so
`Matrices.Trace` is the parity of the first eight diagonal entries.
`Matrices.DiagonalParity` is the trace in the sense of the name (see
Findings).

## Model

| member | source | states |
|---|---|---|
| Rows.TableParity | primitives/matrix/matrix.go:8-11 | The lookup `weight[g/64] >> (g%64) & 1` that `DotProduct` makes into this table (line 45) is 0 or 1 for every byte `g`. It is 1 exactly when `g` has an odd number of set bits, counted bit by bit. |
| Rows.Size | primitives/matrix/matrix.go:72-74 | A row's size in bits is a multiple of eight, and one eighth of it is the row's length in bytes. |
| Rows.GetBit | primitives/matrix/matrix.go:61-63 | Bit `i` of a row, read from byte `i / 8`, is 0 or 1. |
| Rows.GetBitMask | primitives/matrix/matrix.go:61-70 | Bit `i` reads 1 exactly when byte `i / 8` has the bit of mask `1 << (i % 8)` set, the mask `SetBit` toggles. |
| Rows.SetBit | primitives/matrix/matrix.go:65-70 | After `SetBit(i, x)`, bit `i` reads `x`. Every other bit reads as before, and the length is unchanged. |
| Rows.RowExt | primitives/matrix/matrix.go:61-63 | Two rows of equal length whose bits agree at every position (bit `i%8` of byte `i/8`) are the same row. |
| Rows.Add | primitives/matrix/matrix.go:15-26 | Needs rows of equal length. The result has that length, and each bit is set iff exactly one input has it. |
| Rows.AddSelfInverse | primitives/matrix/matrix.go:15-26 | `a.Add(b).Add(b) == a`. |
| Rows.AddSelfZero | primitives/matrix/matrix.go:15-26 | `a.Add(a)` is the zero row of `a`'s length. |
| Rows.AddZero | primitives/matrix/matrix.go:15-26 | Adding the zero row, on either side, changes nothing. |
| Rows.AddCommutes | primitives/matrix/matrix.go:15-26 | Row addition is commutative. |
| Rows.AddAssociates | primitives/matrix/matrix.go:15-26 | Row addition is associative. |
| Rows.Mul | primitives/matrix/matrix.go:28-39 | Needs rows of equal length. The result has that length, and each bit is set iff both inputs have it. |
| Rows.MulDistributes | primitives/matrix/matrix.go:15-39 | AND distributes over XOR: `(a + b) · x == a·x + b·x`. |
| Rows.CountBelowOnes | primitives/matrix/matrix.go:51-56 | After the counting loop has visited positions `0 .. k-1`, the count equals the number of set bits below `k`. |
| Rows.Weight | primitives/matrix/matrix.go:51-59 | The weight is the number of positions below `Size()` whose bit is set. |
| Rows.ParityFoldIsWeightParity | primitives/matrix/matrix.go:41-46 | XOR-ing the table parity of every byte gives 1 iff the row's weight is odd. |
| Rows.DotProduct | primitives/matrix/matrix.go:41-49 | The table-driven parity fold over the bytes of `e.Mul(f)` is true exactly when `e.Mul(f)` has odd weight, with the weight counted bit by bit. |
| Rows.DotProductParity | primitives/matrix/matrix.go:41-49 | `DotProduct(e, f)` is true iff `e.Mul(f)` has odd weight. Equivalently, an odd number of positions are set in both `e` and `f`. |
| Rows.DotLinear | primitives/matrix/matrix.go:41-49 | The dot product is linear in its first argument: `(a + b)·x == a·x XOR b·x`. |
| Rows.DotSymmetric | primitives/matrix/matrix.go:41-49 | `e·f == f·e`. |
| Rows.DotZero | primitives/matrix/matrix.go:41-49 | The zero row's dot product with anything is false. |
| Rows.DotUnit | primitives/matrix/matrix.go:41-49 | If a row has exactly bit `j` set, its dot product with `x` is bit `j` of `x`. |
| Matrices.Dimensions | primitives/matrix/matrix.go:158-160 | The first component is the number of rows. For a matrix whose rows are all `w` bytes long, the second is the width `8w` in bits. |
| Matrices.MulUpTo | primitives/matrix/matrix.go:84-89 | After the loop has visited rows `0 .. k-1`, the result has `n/8` bytes. Bit `i` is set iff `i < k` and row `i`'s dot product with `f` is true. |
| Matrices.Mul | primitives/matrix/matrix.go:78-92 | Needs every row as wide as `f`. Rows past the last whole byte must have a false dot product, because otherwise `SetBit` writes out of range. The result has `n/8` bytes, and bit `i` is `e[i].DotProduct(f)`. |
| Matrices.MulIdentity | primitives/matrix/matrix.go:78-92 | The identity maps every vector of its width to itself. |
| Matrices.MulLinear | primitives/matrix/matrix.go:78-92 | `m·(v + w) == m·v + m·w`. |
| Matrices.Add | primitives/matrix/matrix.go:94-101 | Needs `f` to have at least as many rows as `e`, with matching widths. The result has `e`'s shape, and entry `(i, j)` is the XOR of the two entries. |
| Matrices.AddSelfInverse | primitives/matrix/matrix.go:94-101 | `a.Add(b).Add(b) == a` for matrices of the same shape. |
| Matrices.MulDistributesOverAdd | primitives/matrix/matrix.go:78-101 | `(a + b)·v == a·v + b·v`. |
| Matrices.TraceUpTo | primitives/matrix/matrix.go:151-153 | After the loop has visited rows `0 .. k-1`, the value is 0 or 1. It is 1 iff an odd number of `i < min(k, 8)` have bit `i` of row `i` set. |
| Matrices.Trace | primitives/matrix/matrix.go:149-156 | The trace is 0 or 1. It is 1 iff an odd number of the first `min(n, 8)` diagonal entries are set, because a shift of a byte by 8 or more gives 0. |
| Matrices.DiagonalParity | primitives/matrix/matrix.go:149-156 | The trace in the linear-algebra sense of the name: 0 or 1, and 1 iff an odd number of all diagonal entries are set. |
| Matrices.TraceSmall | primitives/matrix/matrix.go:149-156 | On matrices of at most 8 rows, `Trace` equals the full diagonal parity. |
| Matrices.TraceCounterexample | primitives/matrix/matrix.go:152 | A 16 × 16 matrix whose only set entry is `(8, 8)` has trace 0 but full diagonal parity 1. |
| Matrices.GenerateEmpty | primitives/matrix/matrix.go:182-189 | `n` rows of `n/8` bytes, with no bit set. |
| Matrices.GenerateFull | primitives/matrix/matrix.go:171-180 | `n` rows of `n/8` bytes, with every bit set. |
| Matrices.IdentityUpTo | primitives/matrix/matrix.go:162-166 | After the loop has visited rows `0 .. k-1`, bit `j` of row `i` is set iff `i == j < k`. |
| Matrices.GenerateIdentity | primitives/matrix/matrix.go:162-169 | For byte-aligned `n`, the result is `n` rows of `n/8` bytes, and bit `j` of row `i` is set iff `i == j`. |
| Matrices.IdentityUnique | primitives/matrix/matrix.go:162-169 | Any two identities of the same size are equal. |
| Linear.CombineLinear | primitives/matrix/matrix.go:139-142 | Adding coefficient row `out[row]` into `out[i]` adds the corresponding rows of `out × e`. |
| Linear.CombineDot | primitives/matrix/matrix.go:78-92 | The dot product of a row combination with `v` is the parity of the combined rows whose dot product with `v` is true. |
| Linear.ProductIdentityLeft | primitives/matrix/matrix.go:109-112 | The identity augmentation times `e` is `e`, so the loop starts in a state where `out × e == f`. |
| Linear.MulProduct | primitives/matrix/matrix.go:78-92 | Applying `a × b` to `v` equals applying `b`, then `a`. |
| Linear.LeftInverseUndoes | primitives/matrix/matrix.go:78-92 | If `out × e = I`, then `out.Mul(e.Mul(v)) == v` for every `v` of the right size. |
| Linear.LeftInverseNonSingular | primitives/matrix/matrix.go:103-147 | A matrix with a left inverse maps no non-zero vector to zero. |
| Inversion.WorkingPairStart | primitives/matrix/matrix.go:109-112 | The identity augmentation and the copied rows satisfy `out × e == f` row by row. |
| Inversion.SwapStep | primitives/matrix/matrix.go:129-131 | Swapping rows `row` and `candId` in both `f` and `out` keeps `out × e == f`. It also keeps the unit columns `< row` and the kernel inclusion. |
| Inversion.AddRowStep | primitives/matrix/matrix.go:139-142 | Adding row `row` into row `i` of both `f` and `out` keeps `out × e == f` and the kernel inclusion. |
| Inversion.ClearStep | primitives/matrix/matrix.go:134-143 | Clearing bit `row` of row `i` keeps every invariant and the pivot row, and extends the cleared rows to `i`. |
| Inversion.EliminateColumn | primitives/matrix/matrix.go:129-143 | After the swap and the clearing loop, columns `0 .. row` of `f` are unit vectors and the invariants hold. When the input is the identity, nothing changes. |
| Inversion.FindPivot | primitives/matrix/matrix.go:116-123 | Returns the first index `>= col` whose row has bit `col` set. If there is none, it returns the "not found" value and no such row exists. |
| Inversion.NoPivotSingular | primitives/matrix/matrix.go:125-127 | If no row from `row` on has bit `row` set, the input maps a non-zero vector to zero. |
| Inversion.InverseFound | primitives/matrix/matrix.go:144-146 | When every column is a unit vector, `out × e = I` and `e` is not singular. Also `out.Mul(e.Mul(v)) == v` for all `v`. |
| Inversion.Invert | primitives/matrix/matrix.go:103-147 | The code as written, for a rectangular input whose two `Dimensions` are equal. On success, `out × e = I`, `out` undoes `e.Mul`, and `e` is non-singular. On failure, `e` is singular or has more than 255 rows. The identity of at most 255 rows inverts to itself; the identity of 256 rows or more is reported singular. |
| Inversion.InvertCorrected | primitives/matrix/matrix.go:103-147 | With a "not found" value no index can take: `ok` iff `e` is non-singular. On success, `out × e = I` and `out` undoes `e.Mul`. The identity inverts to itself. |
| Inversion.SentinelCounterexample | primitives/matrix/matrix.go:116-125 | `GenerateIdentity(256)` is a square identity that meets `Invert`'s precondition, and it is not singular. |
| Inversion.SentinelDisagreement | primitives/matrix/matrix.go:116-125 | Run on the 256 × 256 identity, which is not singular, `Invert` reports failure while `InvertCorrected` succeeds. |
| Inversion.FullSingular | primitives/matrix/matrix.go:171-180 | `GenerateFull(n)` for `n >= 8` is singular: it maps the vector with bits 0 and 1 set to zero, so inversion fails on it. |

## Left out

- `GenerateRandom` reads from an `io.Reader` and retries by unbounded recursion until a matrix inverts. It is not modelled: its termination is only probabilistic.
- The incremental matrix builder exercised by `primitives/matrix/incremental_test.go` is not part of this model: its implementation file is not available.
- The white-box AES key generation in `constructions/xiao/keygen.go` is not part of this model. It composes tables and encodings from packages that are not available.
- Rows.GetBit: requires `0 <= i`. Go also accepts `-7 <= i < 0`, which reads byte 0 at bit `uint(i) % 8`. No caller in the package passes a negative index.
- Rows.SetBit: requires `0 <= i`. Go's `SetBit` goes through `GetBit`, so it also accepts `-7 <= i < 0` and then toggles a bit of byte 0. No caller in the package passes a negative index.
- Inversion.Invert: requires every row to be as wide as the first. Go checks only the first row. A ragged matrix panics in `GetBit` or `Add`, or may slip through when the odd rows are never added.
- Inversion.Invert: proves only that `out` is a left inverse (`out × e = I`). That it is also a right inverse follows for square matrices, but is not proved here.
- Inversion.Invert: says nothing about `out` on failure. The package gives that value no meaning.
- Go's `Invert` never mutates the caller's matrix. This is not stated as a contract, because values cannot be mutated in the model.
- `Weight` returns a Go `int`. The model's count is unbounded, and at most `8 * len`, so no overflow is modelled.

## Findings

| source | as written | input that shows it | evidently intended | confidence | as-written member | corrected member |
|---|---|---|---|---|---|---|
| primitives/matrix/matrix.go:116-125 | `candId` starts at 255 as its "no pivot" value. A pivot found at index 255 is therefore indistinguishable from none. | `GenerateIdentity(256)`: the pivot for column 255 is row 255, and `Invert` returns `false` | A "not found" value outside every row index, so that inversion fails exactly on singular matrices | not executed | Inversion.Invert, Inversion.SentinelCounterexample, Inversion.SentinelDisagreement | Inversion.InvertCorrected |
| primitives/matrix/matrix.go:152 | `Trace` reads only byte 0 of each row, so diagonal entries from 8 on never contribute | A 16 × 16 matrix whose only set entry is `(8, 8)`: `Trace` returns 0, while the diagonal parity is 1 | The parity of the whole diagonal, which is what the trace of a matrix means in linear algebra; the package has no comment that says otherwise | not executed | Matrices.Trace, Matrices.TraceCounterexample | Matrices.DiagonalParity |

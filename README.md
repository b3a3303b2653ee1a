# smeshkov/matrix in Dafny

A model of the Go package `matrix`: integer vectors and integer matrices, plus one linear-algebra routine (`ProbabiltyAmpl`) built on top of them.

- **Vectors.** A `Vector` wraps one slice of entries.
  - `DimV` and `V` build vectors. `V` works on a copy of its argument.
  - The operations are `ForEach`, `Equals`, `MultiplyScalar`, `Add`, `Multiply` (the inner product), `IsUnit` and `IsOrthogonal`.
- **Matrices.** A `Matrix` holds a row count `rs`, a column count `cs` and a row-major store `es`. Entry `(row, col)` sits at `cs*row + col`.
  - `DimM`, `IdentityM` and `M` build matrices. `M` builds one from a slice of row vectors ("bras").
  - The operations are `Entry`, `SetEntry`, `ForEach`, `Equals`, `MultiplyScalar`, `Add`, `Multiply`, `Transpose` and `IsIdentity`.
- **`ProbabiltyAmpl(v, ket1, ket2)`.**
  - It builds the `d x 2` matrix `a` whose columns are the two kets.
  - It then computes `a.Transpose().Multiply(M([]Vector{v}))` and reads off entries `(0, 0)` and `(1, 0)`.

## Files

- **`options.dfy`** — `Option`. A Go `nil` result is `None`.
- **`vector.dfy`** — module `Vectors`.
  - Functions on `seq<int>` say what the vector operations compute: `Scaled`, `Plus`, `Dot`. Lemmas about them state the algebra.
  - `class Vector` keeps the backing array as a `const` field and writes only its own freshly made copies.
- **`grid.dfy`** — module `Grids`.
  - The value of a matrix is a `Grid(rows, cols, cells)`.
  - Functions say what each matrix constructor and operation computes: `Zero`, `Identity`, `FromRows`, `Scale`, `Plus`, `Product`, `Transposed`.
  - Lemmas cover row-major indexing and the algebra: transposing twice, the identity as left unit of the product, and `(ab)^T = b^T a^T`.
- **`matrix.dfy`** — module `Matrices`.
  - `class Matrix` with the fields `rs`, `cs`, `es`. `IdentityM`, `M`, `MultiplyScalar`, `Add`, `Multiply` and `Transpose` fill a fresh result with a loop; `DimM` allocates a zero store directly.
  - Each method that returns a matrix is proved to produce the `Grid` function of its operands.
- **`linear.dfy`** — module `Linear`. `ProbabiltyAmpl` as written, and the column-vector computation its doc-comment describes.
- **`oracles.dfy`** — module `Oracles`. The outcomes the repository's tests expect, derived from the contracts.

## Behaviour modelled as written

- **`ForEach` callbacks.** In Go, the library's own operations are written as `ForEach` callbacks. In the model, each such use is a loop over the same indices in the same order.
  - `Vector.ForEach` and `Matrix.ForEach` themselves are methods that take a pure visitor.
  - They return the trace of calls they made, and stop right after the first call that answers `false`.
- **`Vector.Equals`.** `ok` starts `true`, so two empty vectors are equal.
- **`Matrix.Equals`.** `ok` starts `false`, so two matrices with no entries (for example `DimM(0, 0)`) are unequal, even to each other.
- **`Vector.Add` and `Vector.Multiply`** run over the argument's indices. An argument longer than the receiver indexes past the receiver's slice, so such an argument is excluded by a `requires`.
  - A shorter argument is allowed. `Add` then leaves the receiver's tail unchanged, and `Multiply` sums only over the argument's indices.
- **`Matrix.Add` and `Matrix.Multiply`** return `None` on a dimension mismatch.
- **`M(bras)` returns `None` for no bras.** Otherwise it uses `bras[0].Dim()` as the column count and does not check the other bras' lengths.
  - Its store has `rs*cs` entries (`Valid()`) when all the bras have that length. Ragged bras can also give `rs*cs` entries by chance, for example lengths 2, 1, 3 under a first length of 2.
  - The arithmetic methods, which in Go index by `cs*row + col`, therefore require `Valid()`.
- **`IsIdentity` answers `false` for every matrix** (see Findings).

## Model

| member | source | states |
|---|---|---|
| Vectors.Vector.constructor | vector.go:49-53 | the new vector owns a fresh array holding the given entries |
| Vectors.DimV | vector.go:55-58 | a fresh vector of n zeros |
| Vectors.V | vector.go:60-64 | a fresh vector holding the caller's entries |
| Vectors.CopyOnConstruction | vector.go:49-53 | writing the caller's slice after V leaves the vector's entries as they were (the copy is not shared) |
| Vectors.Vector.Dim | vector.go:66-68 | the number of entries |
| Vectors.Vector.ForEach | vector.go:70-76 | the calls made are (i, e[i]) for ascending i; every call but the last answered true; fewer calls than entries only when the last one answered false |
| Vectors.Vector.Equals | vector.go:78-88 | true exactly when both vectors hold the same entries (so two empty vectors are equal) |
| Vectors.Vector.MultiplyScalar | vector.go:90-97 | a fresh vector whose entries are the receiver's times s (`Scaled`) |
| Vectors.Vector.Add | vector.go:99-106 | a fresh vector: receiver plus argument on the argument's indices, receiver elsewhere (`Plus`) |
| Vectors.Vector.Multiply | vector.go:108-115 | the inner product summed over the argument's indices (`Dot`) |
| Vectors.Vector.IsUnit | vector.go:121-123 | true exactly when the inner product with itself is 1 |
| Vectors.Vector.IsOrthogonal | vector.go:125-127 | true exactly when the inner product with the argument is 0 |
| Vectors.DotSelfNonnegative | vector.go:117-119 | the radicand `Len` takes the square root of is never negative |
| Vectors.DotCommutes | vector.go:108-115 | `Multiply` on vectors of one dimension does not depend on the order of its operands |
| Vectors.DotPrefix | vector.go:108-115 | only the receiver entries the argument reaches take part in the inner product |
| Vectors.DotScaled | vector.go:108-115 | the inner product is linear under `MultiplyScalar` of its first operand |
| Vectors.DotPlus | vector.go:99-115 | the inner product is additive under `Add` of its first operand |
| Vectors.PlusCommutes | vector.go:99-106 | `Add` on vectors of one dimension is commutative |
| Vectors.ScaledTwice | vector.go:90-97 | scaling by s and then by t is scaling by s*t |
| Grids.DivModUnique | matrix.go:52-54 | the row and column are recovered from the store position as position / cs and position % cs |
| Grids.Decode | matrix.go:108-116 | every store position i of a rows x cols matrix names the valid entry (i / cs, i % cs), whose index is i |
| Grids.IndexDecodes | matrix.go:52-54 | for any row >= 0 and column inside the width, the index decodes back by division and remainder, and a valid (row, col) lies inside the store |
| Grids.IndexInRange | matrix.go:52-54 | a valid (row, col) indexes inside the store |
| Grids.IndexInjective | matrix.go:52-54 | distinct valid (row, col) have distinct indices |
| Grids.Extensionality | matrix.go:118-130 | two matrices of one shape that agree entry by entry are the same value |
| Grids.ZeroAt | matrix.go:62-65 | every entry of DimM(m, n) is 0 |
| Grids.IdentityAt | matrix.go:67-78 | entry (r, c) of IdentityM(n) is 1 exactly when r == c, else 0 |
| Grids.ConcatSingle | matrix.go:86-92 | appending the entries of a single bra gives that bra's entries |
| Grids.ConcatLength | matrix.go:86-93 | bras of one length n give rows*n entries |
| Grids.ConcatAt | matrix.go:86-93 | entry c of bra r lands at position n*r + c |
| Grids.FromRowsAt | matrix.go:81-94 | bras of one length make a well-shaped matrix whose entry (r, c) is entry c of bra r |
| Grids.ScaleAt | matrix.go:132-139 | entry (r, c) of MultiplyScalar(s) is the receiver's entry times s |
| Grids.PlusAt | matrix.go:141-154 | entry (r, c) of Add is the sum of the two entries |
| Grids.PlusCommutes | matrix.go:141-154 | matrix addition is commutative |
| Grids.ScaleTwice | matrix.go:132-139 | scaling by s and then by t is scaling by s*t |
| Grids.ProductAt | matrix.go:156-172 | entry (r, c) of the product is the sum over i < cs of a(r, i) * b(i, c) |
| Grids.TransposedAt | matrix.go:174-183 | entry (c, r) of the transpose is entry (r, c) of the source |
| Grids.TransposeSource | matrix.go:174-183 | the source position read for every result position is in range |
| Grids.TransposeTarget | matrix.go:177-180 | the target r + c*rs of source position i is in range and reads back as i |
| Grids.TransposeSourceTarget | matrix.go:177-180 | every result position is the target of exactly its source position |
| Grids.TransposeStep | matrix.go:177-180 | one visitor call extends the copied part of the transpose by one position |
| Grids.TransposeDone | matrix.go:174-183 | once every position is copied the store is the transposed matrix's |
| Grids.TransposeTwice | matrix.go:174-183 | transposing twice gives back the matrix |
| Grids.InnerIdentity | matrix.go:164-167 | the inner sum of an identity row against column c picks entry (r, c) |
| Grids.IdentityLeft | matrix.go:156-172 | IdentityM(rows).Multiply(m) equals m |
| Grids.InnerTransposed | matrix.go:164-167 | the inner sum of a and b at (r, c) equals that of b^T and a^T at (c, r) |
| Grids.TransposeShape | matrix.go:175 | the transpose of a rows x cols matrix is cols x rows |
| Grids.ProductTransposed | matrix.go:156-183 | (a.Multiply(b)).Transpose() equals b.Transpose().Multiply(a.Transpose()) |
| Grids.IsIdentityGridExactly | matrix.go:39-40 | the diagonal check IsIdentity promises accepts exactly the identity matrices |
| Matrices.Matrix.constructor | matrix.go:56-60 | the new matrix has the given dimensions and a fresh store holding the given entries |
| Matrices.Matrix.Index | matrix.go:52-54 | the store position of (row, col) decodes back to (row, col) by `/ cs` and `% cs` when the column is inside the width, and lies inside an `rs*cs` store when (row, col) is valid |
| Matrices.Matrix.Dim | matrix.go:96-98 | the row and column counts, whose product is the store size on a well-shaped matrix |
| Matrices.Matrix.Entry | matrix.go:100-102 | on a well-shaped matrix and a valid (row, col), the value's entry (row, col) |
| Matrices.Matrix.IsIdentity | matrix.go:185-187 | false for every matrix, the stub as written (see Findings) |
| Matrices.Matrix.SetEntry | matrix.go:104-106 | only the indexed store position changes, and Entry reads the new value back |
| Matrices.SetEntryLeavesOthers | matrix.go:100-106 | on a well-shaped matrix, SetEntry at (row, col) does not touch any other valid (r, c) |
| Matrices.Matrix.ForEach | matrix.go:108-116 | the calls made are (i / cs, i % cs, es[i]) for ascending i; every call but the last answered true; fewer calls than entries only when the last answered false |
| Matrices.Matrix.Equals | matrix.go:118-130 | true exactly when the dimensions agree, there is at least one entry and all entries agree |
| Matrices.Matrix.MultiplyScalar | matrix.go:132-139 | a fresh well-shaped matrix equal to `Scale` of the receiver |
| Matrices.Matrix.Add | matrix.go:141-154 | None exactly on a dimension mismatch; otherwise a fresh matrix equal to the entrywise sum |
| Matrices.Matrix.Multiply | matrix.go:156-172 | None exactly when cs differs from the argument's rows; otherwise a fresh rs x cols2 matrix equal to `Product` |
| Matrices.Matrix.RowTimesColumn | matrix.go:164-167 | the inner loop's sum is `Inner` over the full shared dimension |
| Matrices.Matrix.Transpose | matrix.go:174-183 | a fresh cs x rs matrix equal to `Transposed` of the receiver |
| Matrices.DimM | matrix.go:62-65 | a fresh well-shaped m x n matrix of zeros |
| Matrices.IdentityM | matrix.go:67-78 | a fresh well-shaped n x n matrix equal to `Identity(n)` |
| Matrices.M | matrix.go:80-94 | None exactly for no bras; otherwise |bras| rows of bras[0].Dim() columns over the bras' entries in order, well-shaped when the bras have one length |
| Matrices.IsIdentityStubDisagrees | matrix.go:185-187 | a matrix holding exactly the identity passes the diagonal check yet IsIdentity answers false |
| Linear.ColumnsAt | linear.go:18-26 | column 0 of a holds ket1, column 1 holds ket2 padded with zeros |
| Linear.KetColumns | linear.go:18-26 | the two loops leave a equal to the d x 2 matrix whose columns are the kets |
| Linear.SingleBra | linear.go:28 | M([]Vector{v}) is the 1 x v.Dim() matrix holding v as its only row |
| Linear.RowProduct | linear.go:28-30 | for a 1-entry ket1, the product's first column is ket1[0]*v[0] over ket2[0]*v[0] |
| Linear.ProbabiltyAmpl | linear.go:17-31 | as written, the result is (ket1[0]*v[0], ket2[0]*v[0]) and is defined only for a 1-entry ket1 |
| Linear.StandardBasisRowMismatch | linear.go:28 | for the kets {1,0} and {0,1}, aT has 2 columns but the matrix of any v has 1 row, so Multiply returns nil |
| Linear.ColumnInnerFirst | linear.go:5-8 | row 0 of aT against v as a column sums v[i]*ket1[i] |
| Linear.FirstRowStep | linear.go:5-8 | one step of row 0's inner sum adds v[i]*ket1[i] |
| Linear.ColumnInnerSecond | linear.go:5-8 | row 1 of aT against v as a column sums v[i]*ket2[i] |
| Linear.SecondRowStep | linear.go:5-8 | one step of row 1's inner sum adds v[i]*ket2[i] while ket2 has entries |
| Linear.ColumnProduct | linear.go:5-8 | aT times v as a column is the column of inner products (v.ket1, v.ket2) |
| Linear.ProbabilityAmplColumn | linear.go:3-31 | with v as a column the amplitudes are v.ket1 and v.ket2 for every v of the kets' dimension |
| Linear.AmplitudesRecoverCoefficients | linear.go:5-8 | for orthonormal kets, if v = x1*ket1 + x2*ket2 then v.ket1 == x1 and v.ket2 == x2 |
| Linear.StandardBasisAmplitudes | linear.go:5-8 | against the standard basis the amplitudes of v are its own entries |
| Oracles.VectorForEachOnOneTwo | vector_test.go:23-47 | on V({1, 2}) a visitor that continues makes 2 calls summing 3; one that stops makes 1 call summing 1 |
| Oracles.EmptyVectorsEqual | vector.go:82-87 | two empty vectors compare equal |
| Oracles.EmptyMatricesUnequal | matrix.go:124-129 | two 0 x 0 matrices compare unequal |
| Oracles.ZeroMatricesCompare | matrix_test.go:124-127 | DimM(2, 2) equals DimM(2, 2) and not DimM(3, 2) |
| Oracles.IdentityForEach | matrix_test.go:84-106 | on IdentityM(2) a visitor that continues makes 4 calls summing 2; one that stops makes 1 call summing 1 |
| Oracles.UnitAndOrthogonal | vector_test.go:90-102 | {1,0} is unit, {1,1} and {0,2} are not; {1,0} is orthogonal to {0,1} and not to itself |
| Oracles.PairDot | vector_test.go:78-82 | the inner product of two 2-entry vectors written out |
| Oracles.VectorAddExample | vector_test.go:71-76 | V({1,0,3}).Add(V({2,5,-4})) equals V({3,5,-1}) |
| Oracles.MultiplyTwoByThree | matrix_test.go:172-187 | the product of any 2 x 3 and 3 x 2 matrix is the 2 x 2 matrix of the row-by-column sums, the shape the Multiply test checks |
| Oracles.ProductRow | matrix.go:156-172 | both entries of row r of such a product are the row-by-column sums |
| Oracles.ProductStore | matrix.go:156-172 | store position 2*r + c of such a product holds row r times column c |
| Oracles.InnerThree | matrix.go:164-167 | the inner loop over a shared dimension of 3, written out as three products |
| Oracles.TransposeTwoByThree | matrix_test.go:189-200 | the transpose of any 2 x 3 matrix [[a,b,c],[d,e,f]] is [[a,d],[b,e],[c,f]], the shape the Transpose test checks |
| Oracles.TransposedRow | matrix.go:174-183 | row c of the transpose of a 2 x 3 matrix is its column c |
| Oracles.ThreeByTwo | matrix.go:52-54 | a 3 x 2 matrix's store lists its six entries row by row |
| Oracles.MultiplyTestNumbers | matrix_test.go:172-187 | [[1,-4,2],[2,3,0]] times [[1,2],[7,5],[6,1]] is [[-15,-16],[23,19]] |
| Oracles.TransposeTestNumbers | matrix_test.go:189-200 | [[1,-4,2],[2,3,0]] transposed is [[1,2],[-4,3],[2,0]] |
| Oracles.TransposeBackTestNumbers | matrix_test.go:202-213 | [[1,2],[-4,3],[2,0]] transposed is [[1,-4,2],[2,3,0]] |
| Oracles.AddTestNumbers | matrix_test.go:156-170 | [[1,-4,2],[2,3,0]] plus [[1,2,0],[7,-3,17]] is [[2,-2,2],[9,0,17]] |

## Left out

- `Len`: it returns a `float64` square root, and floating point is not modelled. Only the radicand `Multiply(v)` is modelled, and `Vectors.DotSelfNonnegative` proves it is never negative.
- Go's `int` is 64 bits and wraps around on overflow. The model uses unbounded integers, so every sum and product here is exact.
- Vectors.DimV, Matrices.DimM and Matrices.IdentityM give their dimensions type `nat`, so Go's results for negative arguments are not described. `DimV` panics there. `DimM` panics when exactly one dimension is negative and the other is non-zero, and otherwise allocates `m*n` zeros under the given counts: 6 for `DimM(-2, -3)`, none for `DimM(-2, 0)` or `DimM(0, -3)`. `IdentityM(-2)` allocates 4 entries and, under Go's truncating division, returns a -2 x -2 matrix holding [1, 0, 0, 0].
- Go's interfaces `Vector` and `Matrix` dispatch to the one implementation each. The model calls the classes directly, so a foreign implementation of either interface is not modelled.
- Panics become `requires` clauses:
  - a `nil` argument;
  - an index out of range in `SetEntry`/`Entry`;
  - a division by a zero column count in `Matrix.ForEach`;
  - the `Entry` calls of `ProbabiltyAmpl` on a `nil` product.
- Matrices.Matrix.Equals, Matrices.Matrix.MultiplyScalar, Matrices.Matrix.Add, Matrices.Matrix.Multiply and Matrices.Matrix.Transpose require `Valid()` (a store of exactly `rs*cs` entries). On a ragged matrix from `M`, Go reads or writes by `cs*row + col` over whatever store it has, and may panic. Those runs are not described.
- Vectors.Vector.ForEach and Matrices.Matrix.ForEach take a visitor with no side effects and return the trace of calls. A Go closure that writes to captured variables is modelled only through the loops that inline the library's own closures.
- Linear.ProbabiltyAmpl requires a 1-entry `ket1`, a `ket2` of at most one entry and a non-empty `v`: outside those the Go function panics (see Findings).
- The tests in `vector_test.go` and `matrix_test.go` are not modelled one by one. Module `Oracles` derives a selection of their expected outcomes from the contracts.
  - Some tests are not derived: the entry-by-entry tests of `IdentityM`, `M` and `SetEntry` (covered by `Grids.IdentityAt`, `Grids.FromRowsAt` and `Matrices.Matrix.SetEntry`), and the matrix `MultiplyScalar` examples, whose outcomes follow from `Matrices.Matrix.MultiplyScalar`.
  - The `Multiply` and `Transpose` tests are stated for every operand of the tested shape (`Oracles.MultiplyTwoByThree`, `Oracles.TransposeTwoByThree`) and then on the tests' numbers (`Oracles.MultiplyTestNumbers`, `Oracles.TransposeTestNumbers`, `Oracles.TransposeBackTestNumbers`); the matrix `Add` test on its numbers is `Oracles.AddTestNumbers`. These are statements about the `Grid` functions that the methods are proved to compute.
  - The `IsIdentity` tests at matrix_test.go:215-238 expect true where the code answers false; see Findings.

## Findings

| source | as written | input that shows it | evidently intended | confidence | as-written member | corrected member |
|---|---|---|---|---|---|---|
| matrix.go:185-187 | `IsIdentity` returns `false` for every matrix | `IdentityM(2).IsIdentity()` is false (matrix_test.go:216 expects true) | true exactly for a square matrix with 1 on the diagonal and 0 elsewhere | high; not executed | Matrices.IsIdentityStubDisagrees | Grids.IsIdentityGridExactly |
| linear.go:28 | `M([]Vector{v})` makes `v` a 1 x d row, so `a.Transpose()` (2 x d) can multiply it only when d == 1; for any other d `Multiply` returns nil and `result.Entry` panics | kets `V({1, 0})`, `V({0, 1})`, any `v` of two entries, such as `V({3, 4})` | `aT * v` with `v` as a d x 1 column, giving `x1 = v.ket1` and `x2 = v.ket2` as the doc-comment's formula says | high; not executed | Linear.StandardBasisRowMismatch | Linear.ProbabilityAmplColumn |

# linalg: exact rationals and matrices, in Dafny

This project models the two packages at the heart of the linalg repository:

- `internal/rational`: a mixed-fraction number `{i, n, d}`, meaning `i + n/d`; `d == 0` means there is no fractional part. It has the normalising constructor `New`, `ParseInt`, `ParseFloat`, the four operations and `String`.
- `internal/matrix`: a matrix stored as a slice of rows of rationals. It has bounds-checked access, `SetRow`, `Add`, `Product`, `Scalar`, `Transpose`, `minor`, the cofactor determinant `DeterminantClassic` and the in-place Gaussian elimination `Determinant`.

Layout:

- `wrappers.dfy` (`Wrappers`): `Option`, `Result`, and `Outcome` (for Go functions that return only an `error`).
- `gostd.dfy` (`GoStd`): the Go standard-library calls the rational package uses. These are `strconv.FormatInt`, `strconv.Atoi`/`ParseInt` in base 10, and `strings.Split` with a one-character separator.
- `rational.dfy` (`Rationals`): the number type as a value datatype.
  - Go's truncating `/` and `%` are `Quot` and `Rem`.
  - `gcd` is the method `Gcd`, a loop proved against the recursive `Euclid`.
  - `New` is a method with the source's two loops, proved to compute the function `Normalize`.
  - `Val(r)` is the real number a value stands for. Every operation is proved against it.
  - `Add`, `Sub`, `Multiply` and `Divide` end with the corrected constructor `Normalize`. Go's versions end with `New`, which never returns on some of their operands. The predicates `AddHalts`, `SubHalts`, `MultiplyHalts` and `DivideHalts` say exactly where Go's call returns, and there its result agrees with the model's. The value lemmas hold on every input.
- `grids.dfy` (`Grids`): one function per matrix operation, saying which grid the operation's loops produce. Lemmas state what those grids mean entry by entry, and what the two determinants are against the determinant of the real matrix.
  - The `…Halts` predicates at the end say where each method's chain of rational operations returns in Go: `AddGridHalts`, `ScalarGridHalts`, `ProductHalts`, `ClassicDetHalts`, `DeterminantHalts`.
  - On matrices of whole numbers, `Add`, `Scalar`, `Product` and `DeterminantClassic` always return. This is proved by the `Integral…` lemmas.
- `matrix.dfy` (`Matrices`): `class Matrix` with the field `cells: seq<seq<Rational>>`.
  - Each method reassigns `cells` the way the Go code writes its slices.
  - `Determinant` rewrites the receiver's rows in place.
  - The helper methods are the bodies of the source's nested loops.
- `scenarios.dfy` (`Scenarios`): the matrices of `matrix_test.go`, built as the tests build them, and what the methods give on them. It also holds inputs that show the findings below.

The first row of each of the rational package's test tables is restated as a lemma (`NormalizeExample`, `ArithmeticExamples`, `ParseFloatExamples`, `StringExamples`).

The determinant test at matrix_test.go:111-112 compares the result with `ParseInt(-13)`, which is `{-13, 0, 0}`. Go's `DeterminantClassic` returns `{0, -13, 1}` on (4 7; 3 2): the same number in another representation, since `Sub` leaves a negative result as a fraction. A structural comparison of the two therefore cannot succeed.

Go's `Determinant` never returns on this matrix. Its first step computes `2 - 7·(3/4)`, and `Sub` then calls `New(0, -13, 4)`, whose loop never exits. The same holds for the 5×5 matrix of `TestDeterminant`, where the call is `New(0, -159, 7)`. Only the model's `Determinant`, built on the corrected constructor, gives `{0, -13, 1}` for (4 7; 3 2) (`Scenarios.DeterminantsOfTestMatrix`, `Scenarios.TestGridDiverges`, `Scenarios.FiveGridDiverges`).

## Model

| member | source | states |
|---|---|---|
| GoStd.FormatIntRoundTrip | internal/rational/rational.go:155-165 | what `strconv.FormatInt` prints, `strconv.Atoi` reads back as the same integer |
| GoStd.FormatIntAlphabet | internal/rational/rational.go:155-165 | `FormatInt` prints a non-empty text of digits and '-', and "0" exactly for zero |
| GoStd.Split | internal/rational/rational.go:52 | `strings.Split` gives at least one piece, and no piece contains the separator |
| GoStd.SplitJoin | internal/rational/rational.go:52 | joining the pieces of `strings.Split` with the separator gives back the text |
| Rationals.Rem | internal/rational/rational.go:39 | Go's `%`: `a == b*Quot(a,b) + r`, `|r| < |b|`, and `r` has the sign of `a` |
| Rationals.Gcd | internal/rational/rational.go:37-42 | the loop returns `Euclid(x, y)`, which divides both inputs when they are not both 0, and which every common divisor divides |
| Rationals.EuclidSign | internal/rational/rational.go:37-42 | Go's gcd is non-negative on non-negative inputs and non-positive on non-positive ones |
| Rationals.Reduce | internal/rational/rational.go:19-21 | dividing `n` and `d` by the gcd gives a coprime pair with a non-zero denominator and the same ratio |
| Rationals.HaltsIff | internal/rational/rational.go:22-25 | for `d != 0`, the carry loop exits exactly when the reduced denominator is positive |
| Rationals.HaltsOnNonNegative | internal/rational/rational.go:17-25 | for `n >= 0`, `d > 0`, `New` returns, and the reduced numerator is non-negative |
| Rationals.HaltsOnUnitDenominator | internal/rational/rational.go:17-25 | with `d == 1`, the gcd is 1, nothing is divided and `New` returns |
| Rationals.NewLoopNeverExits | internal/rational/rational.go:22-25 | when `Halts` fails, the reduced denominator is negative and the guard `n >= d` holds after any number of iterations |
| Rationals.NewDivergesExamples | internal/rational/rational.go:17-25 | `New(0,-2,4)` and `New(0,-159,7)` never return; the second is `47 - 69 5/7`, the call `Sub` makes |
| Rationals.New | internal/rational/rational.go:17-35 | on every input where its loop exits, `New` returns `Normalize(i, n, d)`; with `d == 0` it returns `{i, n, 0}` untouched; otherwise the result is in normal form and has the value `i + n/d` |
| Rationals.CarryValue | internal/rational/rational.go:22-28 | moving whole units from the numerator into `i` keeps the value `i + n/d` |
| Rationals.CarryReduced | internal/rational/rational.go:22-28 | after the carry loop, on a coprime pair, the fraction is in normal form, and a non-negative numerator stays non-negative |
| Rationals.NormalizeReduced | internal/rational/rational.go:17-35 | the result is either no fraction, or lowest terms with `0 < d` and `n < d`; for `n >= 0`, `d > 0`, it has `0 <= n < d` |
| Rationals.NormalizeValue | internal/rational/rational.go:19-25 | the normalised value of `(i, n, d)` is `i + n/d` |
| Rationals.NormalizeIdempotent | internal/rational/rational.go:17-35 | normalising a value already in normal form gives it back unchanged |
| Rationals.NormalizeExample | internal/rational/rational_test.go:27-35 | `New(0,16,8) == {2,0,0}` |
| Rationals.ParseInt | internal/rational/rational.go:44-48 | `ParseInt(k) == New(k,0,0)`, a normal form whose value is `k` |
| Rationals.CommonDenominator | internal/rational/rational.go:73-79 | the common denominator is never 0, and is positive on non-negative denominators |
| Rationals.Add | internal/rational/rational.go:72-92 | the sum is in normal form |
| Rationals.AddValue | internal/rational/rational.go:72-92 | for operands in constructor form, `Val(a.Add(b)) == Val(a) + Val(b)` |
| Rationals.AddCommutes | internal/rational/rational.go:73-91 | `a.Add(b)` and `b.Add(a)` are the same value, field by field |
| Rationals.Sub | internal/rational/rational.go:94-114 | the difference is in normal form |
| Rationals.SubValue | internal/rational/rational.go:94-114 | for operands in constructor form, `Val(a.Sub(b)) == Val(a) - Val(b)` |
| Rationals.Fraction | internal/rational/rational.go:117-128 | the numerator and denominator `Multiply` and `Divide` read from an operand have the operand's value |
| Rationals.Multiply | internal/rational/rational.go:116-132 | the product is in normal form |
| Rationals.MultiplyValue | internal/rational/rational.go:116-132 | `Val(a.Multiply(b)) == Val(a) * Val(b)`, for every pair of operands |
| Rationals.MultiplyCommutes | internal/rational/rational.go:116-131 | `a.Multiply(b)` and `b.Multiply(a)` are the same value, field by field |
| Rationals.DivideValue | internal/rational/rational.go:134-150 | when `Val(b) != 0`, `Val(a.Divide(b)) == Val(a) / Val(b)`, and the result is in normal form |
| Rationals.DivideByZero | internal/rational/rational.go:134-150 | when `Val(b) == 0`, no error is reported; the result is the unreduced `{0, a_num*b_den, 0}`, whose value is 0 |
| Rationals.Divide | internal/rational/rational.go:134-150 | with a divisor whose numerator is not 0, the quotient is in normal form; otherwise no error is reported and the result is `{0, a_num*b_den, 0}` |
| Rationals.ScaledValue | internal/rational/rational.go:73-89 | the two numerators `Add` and `Sub` build over the common denominator stand for the operands' numbers |
| Rationals.AddHaltsOnNonNegative | internal/rational/rational.go:72-92 | Go's `Add` returns on operands in constructor form, with non-negative denominators, whose sum is not negative |
| Rationals.SubHaltsWhenNotBelow | internal/rational/rational.go:94-114 | Go's `a.Sub(b)` returns when `a` is at least `b` |
| Rationals.MultiplyHaltsOnNonNegative | internal/rational/rational.go:116-132 | Go's `Multiply` returns on two non-negative numbers |
| Rationals.DivideHaltsOnPositive | internal/rational/rational.go:134-150 | Go's `Divide` returns on a non-negative number over a positive one |
| Rationals.DivideHaltsOnZero | internal/rational/rational.go:134-150 | Go's `Divide` returns whenever the divisor stands for 0 |
| Rationals.IntegralArithmetic | internal/rational/rational.go:72-132 | on whole numbers Go's `Add`, `Sub` and `Multiply` always return, and give whole numbers |
| Rationals.ArithmeticDiverges | internal/rational/rational.go:17-25 | Go's `-1 + 1/2`, `-1 · 1/2` and `-1 / 2` call `New(0,-1,2)`, and `2 - 5 1/4` calls `New(0,-13,4)`; none of these returns |
| Rationals.ArithmeticExamples | internal/rational/rational_test.go:54-164 | the first row of each of the Add, Sub, Multiply and Divide test tables |
| Rationals.IntegerAdd | internal/rational/rational.go:72-92 | the sum of two whole numbers is `ParseInt` of their sum when it is not negative, else the fraction `{0, x+y, 1}` |
| Rationals.IntegerSub | internal/rational/rational.go:94-114 | the same for the difference: a negative result is the fraction `{0, x-y, 1}` |
| Rationals.IntegerMultiply | internal/rational/rational.go:116-132 | the same for the product |
| Rationals.DecimalParts | internal/rational/rational.go:52-68 | parts are returned only for a non-empty text, the denominator is positive, and a negative integer part requires a leading '-' |
| Rationals.ParseFloat | internal/rational/rational.go:50-70 | from the printed text: it fails exactly when splitting or reading the parts fails, and otherwise returns a normal form |
| Rationals.ParseFloatValue | internal/rational/rational.go:50-70 | on the text of a non-negative number, `ParseFloat` is exact and agrees with `ParseDecimal` |
| Rationals.ParseFloatNegative | internal/rational/rational.go:50-70 | "-4.750000" (that is, -19/4) parses as `{-4, 3, 4}`, the value -13/4; "-0.500000" parses as the value +1/2 |
| Rationals.ParseDecimal | internal/rational/rational.go:50-70 | the sign-corrected parser fails exactly when `ParseFloat` fails, and otherwise returns a normal form |
| Rationals.ParseDecimalValue | internal/rational/rational.go:50-70 | on the text of every number, negative ones included, the corrected parser returns that number |
| Rationals.ParseFloatExamples | internal/rational/rational_test.go:9-25 | 4.75 parses as `{4,3,4}`, and 4.63 as `New(4,63,100)` (also rational_test.go:45-52) |
| Rationals.String | internal/rational/rational.go:152-171 | the receiver keeps `i` and its value, its `n` and `d` are negated exactly when `n != 0` and `d < 0`, and the text is "0" exactly when `i == 0` and `n == 0` |
| Rationals.FlipKeepsValue | internal/rational/rational.go:161-164 | negating both `n` and `d` in place keeps the value |
| Rationals.StringScan | internal/rational/rational.go:152-171 | the text `String` writes reads back as the receiver it leaves, or as `{i,0,0}` when `n == 0`, so it always reads back as the value |
| Rationals.StringExamples | internal/rational/rational.go:152-171 | "15", "4 + 3/4", and "-1/2" for `{0,1,-2}`, whose receiver becomes `{0,-1,2}` |
| Grids.AddGrid | internal/matrix/matrix.go:91-106 | the sum grid has the operands' shape |
| Grids.AddGridValue | internal/matrix/matrix.go:91-106 | each entry of the sum stands for the sum of the entries' numbers |
| Grids.AddGridCommutes | internal/matrix/matrix.go:91-106 | `A.Add(B)` and `B.Add(A)` fill the same grid (also matrix_test.go:55-72) |
| Grids.ScalarGridValue | internal/matrix/matrix.go:108-116 | each entry of `Scalar(p)` stands for the entry's number times `p`'s |
| Grids.ScalarGrid | internal/matrix/matrix.go:108-116 | the scaled grid has the operand's shape |
| Grids.TransposeGrid | internal/matrix/matrix.go:174-182 | a `Cols × Rows` result |
| Grids.TransposeInvolution | internal/matrix/matrix.go:174-182 | transposing twice gives the matrix back |
| Grids.ProductGrid | internal/matrix/matrix.go:74-89 | an `a.Rows() × b.Cols()` result |
| Grids.ProductEntryValue | internal/matrix/matrix.go:82-85 | the left fold of `Add` over `a[i][l].Multiply(b[l][j])` stands for the dot product of the numbers |
| Grids.ProductGridValue | internal/matrix/matrix.go:74-89 | every entry of the product stands for the real dot product of row `i` and column `j` |
| Grids.Minor | internal/matrix/matrix.go:151-172 | without the first row and column `col`, the result is `(n-1) × (m-1)` |
| Grids.MinorSquare | internal/matrix/matrix.go:151-172 | the minor of an `n × n` matrix is `(n-1) × (n-1)` |
| Grids.MinorValue | internal/matrix/matrix.go:151-172 | the minor of the numbers is the numbers of the minor |
| Grids.Sign | internal/matrix/matrix.go:134-138 | the cofactor sign stands for +1 at even columns and -1 at odd ones |
| Grids.ClassicDetValue | internal/matrix/matrix.go:118-149 | the cofactor recursion's result stands for the determinant of the matrix of numbers |
| Grids.ExpansionValue | internal/matrix/matrix.go:131-147 | after `k` columns, the accumulated sum stands for the first `k` terms of the real expansion |
| Grids.EliminateRowValue | internal/matrix/matrix.go:200-211 | each entry of an eliminated row stands for the row's number less the pivot row's number times the multiplier |
| Grids.EliminateRow | internal/matrix/matrix.go:200-211 | the eliminated row is as long as the row |
| Grids.Step | internal/matrix/matrix.go:191-213 | one step changes row `i` only, and keeps the grid square |
| Grids.Sweep | internal/matrix/matrix.go:190-214 | a column's sweep leaves the rows up to the pivot row unchanged |
| Grids.Triangulate | internal/matrix/matrix.go:189-214 | the eliminated grid is square, of the same size |
| Grids.StepClearsEntry | internal/matrix/matrix.go:191-213 | with a non-zero pivot, a step clears the entry below the pivot |
| Grids.ZeroPivotKeepsRow | internal/matrix/matrix.go:192-211 | with a zero pivot, the multiplier is `{0, _, 0}`, which stands for 0, and the row keeps its numbers |
| Grids.DiagonalProductValue | internal/matrix/matrix.go:219-226 | the diagonal product stands for the product of the diagonal numbers |
| Grids.EliminationTwoValue | internal/matrix/matrix.go:184-228 | on a 2×2 matrix with a non-zero first pivot, the elimination's diagonal product stands for the determinant |
| Grids.ZeroPivotTwo | internal/matrix/matrix.go:184-228 | on a 2×2 matrix with a zero first pivot, the result stands for 0 whatever the other entries, while the determinant is `-m01*m10` |
| Grids.IntegralAddGrid | internal/matrix/matrix.go:91-106 | on matrices of whole numbers every `Add` of the loop returns |
| Grids.IntegralScalarGrid | internal/matrix/matrix.go:108-116 | on a matrix and a factor of whole numbers every `Multiply` of the loop returns |
| Grids.IntegralEntry | internal/matrix/matrix.go:82-85 | on whole numbers every product and sum of the innermost product loop returns, and the entry is a whole number |
| Grids.IntegralProduct | internal/matrix/matrix.go:74-89 | on matrices of whole numbers `Product` returns |
| Grids.IntegralClassicDet | internal/matrix/matrix.go:118-149 | on a square matrix of whole numbers the cofactor recursion returns, with a whole number |
| Grids.IntegralExpansion | internal/matrix/matrix.go:131-147 | the first `k` rounds of the expansion loop return, with a whole number |
| Grids.IntegralDiagonal | internal/matrix/matrix.go:219-226 | on whole numbers the diagonal product returns, with a whole number |
| Grids.TriangulateTwoHalts | internal/matrix/matrix.go:189-214 | on a 2×2 matrix the elimination returns exactly when its one step does |
| Grids.FirstStepNeeded | internal/matrix/matrix.go:189-214 | `Determinant` returns only if its first step, clearing `m[1][0]`, returns |
| Grids.RowHaltsAt | internal/matrix/matrix.go:200-201 | a step returns only if each entry's product and difference return |
| Grids.ExpansionHaltsPrefix | internal/matrix/matrix.go:132-146 | the expansion returns only if each of its rounds does |
| Matrices.CopyInto | internal/matrix/matrix.go:69-72 | Go's `copy`: the first `min(len(dst), len(src))` entries come from `src`, the rest of `dst` is unchanged |
| Matrices.Without | internal/matrix/matrix.go:163-168 | the row with entry `col` dropped: entry `k` is `row[k]` before `col` and `row[k+1]` from it on |
| Matrices.Matrix.New | internal/matrix/matrix.go:50-59 | `rows` rows of `cols` entries, each `ParseInt(0)` (also matrix_test.go:10-15) |
| Matrices.Matrix.Rows | internal/matrix/matrix.go:61-63 | the row count is 0 exactly for a matrix without rows |
| Matrices.Matrix.Cols | internal/matrix/matrix.go:65-67 | on a rectangular matrix, the width of the first row is the width of every row |
| Matrices.Matrix.OutOfRange | internal/matrix/matrix.go:18 | the guard passes every index inside a rectangular matrix, and passes only indices up to `Rows()` and `Cols()` |
| Matrices.Matrix.Get | internal/matrix/matrix.go:17-23 | an error exactly when `row > Rows()` or `col > Cols()`, and otherwise the entry |
| Matrices.Matrix.Lookup | internal/matrix/matrix.go:17-23 | the corrected guard: the entry exactly when `0 <= row < Rows()` and `0 <= col < len(row)`, otherwise the error |
| Matrices.Matrix.GetAgreesInRange | internal/matrix/matrix.go:17-23 | on a rectangular matrix, inside the range, `Get` passes the guard and agrees with `Lookup` |
| Matrices.Matrix.OutOfRangeIsOutside | internal/matrix/matrix.go:18 | every index pair the guard rejects is outside the matrix |
| Matrices.Matrix.GuardMissesBoundary | internal/matrix/matrix.go:18 | `(Rows(), 0)`, `(0, Cols())` and negative indices pass the guard though they lie outside the matrix |
| Matrices.Matrix.GetRow | internal/matrix/matrix.go:33-39 | an error exactly when `row > Rows()`, and otherwise the row |
| Matrices.Matrix.Set | internal/matrix/matrix.go:41-48 | fails exactly when the guard rejects; otherwise only entry `(row, col)` changes, and a following lookup there returns `v` |
| Matrices.Matrix.SetRow | internal/matrix/matrix.go:69-72 | copies into the existing row `index`, leaves every other row as it was, and returns the same matrix |
| Matrices.Matrix.Add | internal/matrix/matrix.go:91-106 | an error exactly when the shapes differ, and otherwise a fresh matrix holding the entry-wise sums |
| Matrices.Matrix.Product | internal/matrix/matrix.go:74-89 | an error exactly when `a.Rows() != b.Cols()`, and otherwise a fresh matrix holding `ProductGrid` |
| Matrices.Matrix.ProductChecked | internal/matrix/matrix.go:74-89 | the corrected check: an error exactly when `a.Cols() != b.Rows()`, and otherwise the `a.Rows() × b.Cols()` product |
| Matrices.Matrix.FillProduct | internal/matrix/matrix.go:78-88 | the three nested loops fill a fresh matrix with `ProductGrid` |
| Matrices.Matrix.AccumulateEntry | internal/matrix/matrix.go:82-85 | the innermost loop leaves `ProductEntry` over all of `b`'s rows in entry `(i, j)`, and changes nothing else |
| Matrices.Matrix.Scalar | internal/matrix/matrix.go:108-116 | a fresh matrix holding `a[i][j].Multiply(p)`, with the receiver unchanged |
| Matrices.Matrix.Transpose | internal/matrix/matrix.go:174-182 | a fresh matrix holding the transpose, with the receiver unchanged |
| Matrices.Matrix.Minor | internal/matrix/matrix.go:151-172 | a fresh matrix holding the receiver without its first row and column `col` |
| Matrices.Matrix.DropColumn | internal/matrix/matrix.go:162-170 | the second loop of `minor` leaves the minor in the pre-sized result |
| Matrices.Matrix.WithoutColumn | internal/matrix/matrix.go:163-168 | the inner loop of `minor` appends every entry except entry `col` |
| Matrices.Matrix.DeterminantClassic | internal/matrix/matrix.go:118-149 | an error exactly when the matrix is not square, and otherwise the cofactor determinant `ClassicDet`, which `ClassicDetValue` ties to the real determinant |
| Matrices.Matrix.CrossProduct | internal/matrix/matrix.go:122-129 | the 2×2 case `m00*m11 - m01*m10` |
| Matrices.Matrix.Cofactor | internal/matrix/matrix.go:133-145 | one term of the expansion: `m[0][col]` times the minor's determinant times the sign |
| Matrices.Matrix.Expansion | internal/matrix/matrix.go:131-147 | the loop's sum after every column is the full expansion |
| Matrices.Matrix.Determinant | internal/matrix/matrix.go:184-228 | an error exactly when the matrix is not square, the receiver untouched then; otherwise the receiver's rows become `Triangulate` of the old rows and the result is their diagonal product |
| Matrices.Matrix.SweepColumn | internal/matrix/matrix.go:190-214 | the inner loop over rows `i` for pivot column `j` leaves `Sweep` of the old rows |
| Matrices.Matrix.ClearBelow | internal/matrix/matrix.go:191-213 | one step changes the receiver to `Step(old, j, i)`: row `i` less the multiplier times row `j` |
| Matrices.Matrix.EliminateInPlace | internal/matrix/matrix.go:200-211 | the write loop replaces row `i` by `EliminateRow` of it, and no other row changes |
| Matrices.Matrix.Diagonal | internal/matrix/matrix.go:219-226 | the product of the diagonal entries, starting from `ParseInt(1)` |
| Scenarios.ProductOfTestGrids | internal/matrix/matrix_test.go:27-49 | (0 1; 0 0) times (0 0; 1 0) is (1 0; 0 0), and the product in the other order differs |
| Scenarios.ProductNotCommutative | internal/matrix/matrix_test.go:27-53 | `A.Product(B)` is (1 0; 0 0), `B.Product(A)` differs, and a product with a 3×1 matrix is refused |
| Scenarios.DeterminantsOfTestMatrix | internal/matrix/matrix_test.go:106-112 | `DeterminantClassic` of (4 7; 3 2) returns `{0,-13,1}`, whose value is `4*2 - 3*7`, and which is not `ParseInt(4*2 - 3*7)`; Go's `Determinant` never returns there, since `New(0,-13,4)` never returns; the model's corrected `Determinant` gives `{0,-13,1}` |
| Scenarios.TestGridDiverges | internal/matrix/matrix.go:184-228 | on (4 7; 3 2) the multiplier is 3/4, `7·(3/4)` is `5 1/4`, Go's `2 - 5 1/4` never returns, so `Determinant` never returns, while `DeterminantClassic` does |
| Scenarios.FiveGridDiverges | internal/matrix/matrix_test.go:131-138 | on the 5×5 test matrix the multiplier is 61/77, `88·(61/77)` is `69 5/7`, and Go's `47 - 69 5/7` never returns, so `Determinant` never returns |
| Scenarios.FiveGridClassicHalts | internal/matrix/matrix_test.go:99-104 | Go's `DeterminantClassic` returns on the 5×5 test matrix |
| Scenarios.DeterminantsOfSwap | internal/matrix/matrix.go:184-228 | on (0 1; 1 0), `DeterminantClassic` gives -1 and `Determinant` gives 0, and Go's versions of both return there |
| Scenarios.SwapGridHalts | internal/matrix/matrix.go:184-228 | on (0 1; 1 0) the zero pivot gives the multiplier `{0,1,0}` and Go's `Determinant` and `DeterminantClassic` return |
| Scenarios.ProductRefusesConformable | internal/matrix/matrix.go:75 | `Product` refuses a 1×2 times a 2×3 matrix, which the corrected check multiplies into a 1×3 |
| Scenarios.ProductAdmitsShortRows | internal/matrix/matrix.go:75-83 | a 3×1 and a 2×3 matrix pass the check, though the rows of the first are shorter than the second has rows |

## Left out

The contracts of the following members are deliberately narrower than the source:

- Rationals.New: requires `Halts(n, d)`, that is, that the source's loop exits. On the other inputs the Go code never returns (first finding), and a method cannot model that.
- Rationals.Add: returns the corrected constructor's result `Normalize(0, n, cd)` on every input. Go's `Add` returns only where `AddHalts` holds and otherwise never returns, for example on `-1 + 1/2` (`ArithmeticDiverges`).
- Rationals.Sub: the same, with `SubHalts`; for example, Go's `2 - 5 1/4` never returns.
- Rationals.Multiply: the same, with `MultiplyHalts`; for example, Go's `-1 · 1/2` never returns.
- Rationals.Divide: the same, with `DivideHalts`; for example, Go's `-1 / 2` never returns.
- Matrices.Matrix.Add, Matrices.Matrix.Scalar, Matrices.Matrix.Product, Matrices.Matrix.DeterminantClassic, Matrices.Matrix.Determinant and their helper methods are built on those operations. Each returns where its Go method may not. The `…Halts` predicates of `Grids` say where the Go method returns, and the `Integral…` lemmas show that it does on matrices of whole numbers. `Determinant` diverges in Go even on both test matrices (fifth finding).
- Rationals.ParseFloat: the model starts from any text, including a signed fraction part such as "1.-5", which `%f` never prints. `strconv.ParseInt` reads "-5" and Go calls `New(1, -5, 100)`, whose gcd -5 leaves the fraction 1/-20, so it never returns. The model returns the corrected constructor's result there.
- Matrices.Matrix.Get: requires that every index pair the guard lets through is inside the matrix. Go panics on the others (fourth finding).
- Matrices.Matrix.Set: the same precondition as `Get`.
- Matrices.Matrix.GetRow: the same, for the row index.
- Matrices.Matrix.Cols: requires at least one row. Go panics on `(*m)[0]` of an empty matrix.
- Matrices.Matrix.Product: requires that, when the check passes, every row of `a` has at least `b.Rows()` entries. Otherwise the Go loop indexes out of range (third finding).
- Matrices.Matrix.DeterminantClassic: requires a square matrix to be at least 2×2. A 1×1 matrix recurses into a minor with no rows, and `Cols()` panics there.
- Matrices.Matrix.Determinant: its result is proved to be the product of the diagonal of the eliminated grid (`Triangulate`). Agreement with the real determinant is proved only for 2×2 matrices with a non-zero first pivot (`Grids.EliminationTwoValue`). For larger matrices that elimination preserves the determinant is not proved. Without row exchanges, a zero pivot gives a wrong result (`Scenarios.DeterminantsOfSwap`).
- Rationals.String: the in-place negation of the receiver's `n` and `d` is returned as the `receiver` half of the result, not written through a pointer.

What the model does not cover, and why:

- Go's 64-bit `int` overflow: integers are unbounded throughout.
- `fmt.Sprintf("%f", f)` and `math.Pow10` in `ParseFloat` (rational.go:51, 63): floating point. The model starts from the printed text, and `Pow10` is exact.
- `math.Pow(-1, col)` (matrix.go:134): a float call, modelled by the parity of `col`.
- `Matrix.String` (matrix.go:25-31) and the debug printing in `Determinant` (matrix.go:202-209, 216-218): console output.
- The dead comparison `element == rational.ParseInt(0)` (matrix.go:193): it compares against a fresh pointer, so it is never true and the `continue` never runs. The model has no branch for it.
- The error checks after `c.Set` in `Add` (matrix.go:99-102), after the recursive `DeterminantClassic` (matrix.go:139-142), and after `Get`/`GetRow` in `Determinant`: none of them can fail on the indices the loops use, so they are not modelled.
- Aliasing.
  - `GetRow` hands out the live row, and `result := m` in `Determinant` is the receiver itself. The model writes the receiver's `cells` directly, which makes the same changes.
  - Rationals shared between matrices are values here. In Go only `String` mutates a rational.
- The unused `Number` interface (matrix.go:11-13) and the unused helper `multyRow` (matrix.go:230-237).
- The 5×5 determinant test value -546499540 (matrix_test.go:102): the model proves what `DeterminantClassic` computes on every square matrix, and that it returns on this instance, but does not evaluate its value.
- The benchmarks and the testify harness of the test files.

## Findings

| source | as written | input that shows it | evidently intended | confidence | as-written member | corrected member |
|---|---|---|---|---|---|---|
| internal/rational/rational.go:19-25 | Go's `gcd` takes the sign of its operands, so for a negative `n` the reduced denominator can be negative, and then `for n >= d` never exits | `New(0, -2, 4)` (gcd -2 leaves 1/-2); `New(0, -159, 7)`, which `Sub` calls for 47 - 69 5/7 | a reduced fraction with a positive denominator | not executed | Rationals.NewDivergesExamples | Rationals.NormalizeReduced |
| internal/rational/rational.go:58-69 | the integer part keeps the minus sign, but the fraction digits are added as a positive numerator | -4.75, printed "-4.750000", parses as `{-4, 3, 4}`, which is -13/4 | -19/4, the number parsed | not executed | Rationals.ParseFloatNegative | Rationals.ParseDecimalValue |
| internal/matrix/matrix.go:75 | the size check compares `a.Rows()` with `b.Cols()` | a 1×2 times a 2×3 matrix is refused; a 3×1 and a 2×3 matrix pass and then index out of range | the check `a.Cols() != b.Rows()` | not executed | Scenarios.ProductRefusesConformable | Matrices.Matrix.ProductChecked |
| internal/matrix/matrix.go:18 | the guard `m.Rows() < row \|\| m.Cols() < col` lets `row == Rows()`, `col == Cols()` and negative indices through (also at lines 34 and 42) | `Get(Rows(), 0)`, `Get(0, -1)` | an error for every index outside the matrix | not executed | Matrices.Matrix.GuardMissesBoundary | Matrices.Matrix.Lookup |
| internal/matrix/matrix.go:189-212 | the elimination divides and subtracts with `Divide` and `Sub`, whose `New` never returns on a negative fraction that Go's gcd leaves over a negative denominator | (4 7; 3 2): `2 - 7·(3/4)` calls `New(0,-13,4)`; the 5×5 matrix of `TestDeterminant`: `47 - 88·(61/77)` calls `New(0,-159,7)`; so `Determinant` never returns on either test matrix | the determinant, -13 and -546499540 | not executed | Scenarios.FiveGridDiverges | Grids.EliminationTwoValue |

/**
  The matrices of internal/matrix/matrix_test.go, built the way the tests
  build them (`New`, then `SetRow` row by row), and what the methods of
  `Matrices.Matrix` give on them.
*/
module Scenarios {
  import opened Wrappers
  import opened Rationals
  import opened Grids
  import opened Matrices

  /** `New(2, 2).SetRow(0, r0).SetRow(1, r1)`. */
  method TwoByTwo(r0: seq<Rational>, r1: seq<Rational>) returns (m: Matrix)
    requires |r0| == 2 && |r1| == 2
    ensures fresh(m) && m.cells == [r0, r1]
  {
    m := new Matrix.New(2, 2);
    CopyIntoSame(m.cells[0], r0);
    CopyIntoSame(m.cells[1], r1);
    m := m.SetRow(0, r0);
    m := m.SetRow(1, r1);
  }

  /** A sum of two products of whole numbers, as `Product` accumulates it from zero. */
  lemma DotOfWholes(x0: nat, y0: nat, x1: nat, y1: nat)
    ensures Rationals.Add(Rationals.Add(ParseInt(0), Multiply(ParseInt(x0), ParseInt(y0))), Multiply(ParseInt(x1), ParseInt(y1)))
         == ParseInt(x0 * y0 + x1 * y1)
  {
    WholeProduct(x0, y0);
    WholeProduct(x1, y1);
    IntegerAdd(0, x0 * y0);
    IntegerAdd(x0 * y0, x1 * y1);
  }

  lemma WholeProduct(x: nat, y: nat)
    ensures Multiply(ParseInt(x), ParseInt(y)) == ParseInt(x * y)
  {
    IntegerMultiply(x, y);
  }

  /** Entry `(i, j)` of the product of two 2×2 grids, as two accumulation steps from zero. */
  lemma ProductEntryTwo(a: Grid, b: Grid, i: nat, j: nat)
    requires |a| == 2 && |b| == 2 && i < 2 && j < 2 && |a[i]| == 2 && |b[0]| == 2 && |b[1]| == 2
    ensures ProductEntry(a, b, i, j, 2)
         == Rationals.Add(Rationals.Add(ParseInt(0), Multiply(a[i][0], b[0][j])), Multiply(a[i][1], b[1][j]))
  {
    assert ProductEntry(a, b, i, j, 1) == Rationals.Add(ParseInt(0), Multiply(a[i][0], b[0][j]));
  }

  lemma ProductEntryOfWholes(a: Grid, b: Grid, i: nat, j: nat, x0: nat, y0: nat, x1: nat, y1: nat)
    requires IsSquare(a) && IsSquare(b) && |a| == 2 && |b| == 2 && i < 2 && j < 2
    requires a[i][0] == ParseInt(x0) && b[0][j] == ParseInt(y0)
    requires a[i][1] == ParseInt(x1) && b[1][j] == ParseInt(y1)
    ensures ProductGrid(a, b)[i][j] == ParseInt(x0 * y0 + x1 * y1)
  {
    ProductEntryTwo(a, b, i, j);
    DotOfWholes(x0, y0, x1, y1);
  }

  /** A 2×2 grid is the display of its four entries. */
  lemma GridOfEntries<T>(g: seq<seq<T>>, w: T, x: T, y: T, z: T)
    requires |g| == 2 && |g[0]| == 2 && |g[1]| == 2
    requires g[0][0] == w && g[0][1] == x && g[1][0] == y && g[1][1] == z
    ensures g == [[w, x], [y, z]]
  {
    assert g[0] == [w, x] && g[1] == [y, z];
  }

  /** The grids of TestProduct: A = (0 1; 0 0), B = (0 0; 1 0). */
  lemma ProductOfTestGrids(ga: Grid, gb: Grid)
    requires IsSquare(ga) && IsSquare(gb) && |ga| == 2 && |gb| == 2
    requires ga[0][0] == ParseInt(0) && ga[0][1] == ParseInt(1) && ga[1][0] == ParseInt(0) && ga[1][1] == ParseInt(0)
    requires gb[0][0] == ParseInt(0) && gb[0][1] == ParseInt(0) && gb[1][0] == ParseInt(1) && gb[1][1] == ParseInt(0)
    ensures ProductGrid(ga, gb) == [[ParseInt(1), ParseInt(0)], [ParseInt(0), ParseInt(0)]]
    ensures ProductGrid(gb, ga)[0][0] == ParseInt(0)
  {
    ProductEntryOfWholes(ga, gb, 0, 0, 0, 0, 1, 1);
    ProductEntryOfWholes(ga, gb, 0, 1, 0, 0, 1, 0);
    ProductEntryOfWholes(ga, gb, 1, 0, 0, 0, 0, 1);
    ProductEntryOfWholes(ga, gb, 1, 1, 0, 0, 0, 0);
    GridOfEntries(ProductGrid(ga, gb), ParseInt(1), ParseInt(0), ParseInt(0), ParseInt(0));
    ProductEntryOfWholes(gb, ga, 0, 0, 0, 0, 0, 0);
  }

  /**
    TestProduct (matrix_test.go:27-53): with A = (0 1; 0 0) and
    B = (0 0; 1 0), A·B is (1 0; 0 0), B·A is something else, and a 3×1
    right operand is refused.
  */
  method ProductNotCommutative() returns (c: Result<Matrix, MatrixError>, d: Result<Matrix, MatrixError>, e: Result<Matrix, MatrixError>)
    ensures c.Ok? && c.value.cells == [[ParseInt(1), ParseInt(0)], [ParseInt(0), ParseInt(0)]]
    ensures d.Ok? && d.value.cells != c.value.cells
    ensures e == Err(WrongSizes)
  {
    var r0 := [ParseInt(0), ParseInt(0)];
    var r1 := [ParseInt(1), ParseInt(0)];
    var r2 := [ParseInt(0), ParseInt(1)];
    var a := TwoByTwo(r2, r0);
    var b := TwoByTwo(r0, r1);
    ProductOfTestGrids(a.cells, b.cells);
    c := a.Product(b);
    d := b.Product(a);
    var f := new Matrix.New(3, 1);
    e := a.Product(f);
  }

  // ---------------------------------------------------------------------------
  // The 2×2 matrix (4 7; 3 2) of TestDeterminantClassic (matrix_test.go:106-112)

  /** The three quotients the elimination of (4 7; 3 2) produces. */
  lemma EliminationQuotients()
    ensures Divide(ParseInt(3), ParseInt(4)) == Rational(0, 3, 4)
    ensures Multiply(ParseInt(4), Rational(0, 3, 4)) == ParseInt(3)
    ensures Multiply(ParseInt(7), Rational(0, 3, 4)) == Rational(5, 1, 4)
  {
    assert Rem(3, 4) == 3 && Rem(4, 3) == 1 && Rem(3, 1) == 0;
    assert Euclid(3, 4) == Euclid(4, 3) == Euclid(3, 1) == Euclid(1, 0) == 1;
    QuotByUnit(3);
    QuotByUnit(4);
    assert Divide(ParseInt(3), ParseInt(4)) == Normalize(0, 3, 4);
    assert Rem(12, 4) == 0;
    assert Euclid(12, 4) == Euclid(4, 0) == 4;
    DividesMultiple(4, 3);
    DividesMultiple(4, 1);
    assert Multiply(ParseInt(4), Rational(0, 3, 4)) == Normalize(0, 12, 4);
    assert Rem(21, 4) == 1 && Rem(4, 1) == 0;
    assert Euclid(21, 4) == Euclid(4, 1) == Euclid(1, 0) == 1;
    QuotByUnit(21);
    assert Multiply(ParseInt(7), Rational(0, 3, 4)) == Normalize(0, 21, 4);
    DivModUnique(21, 4, 5, 1);
  }

  /** The second row after elimination: `3 - 4·(3/4)` and `2 - 7·(3/4)`. */
  lemma EliminationDifferences()
    ensures Sub(ParseInt(3), ParseInt(3)) == ParseInt(0)
    ensures Sub(ParseInt(2), Rational(5, 1, 4)) == Rational(0, -13, 4)
  {
    IntegerSub(3, 3);
    assert Sub(ParseInt(2), Rational(5, 1, 4)) == Normalize(0, -13, 4);
    assert Rem(-13, 4) == -1 && Rem(4, -1) == 0;
    assert Euclid(-13, 4) == Euclid(4, -1) == Euclid(-1, 0) == -1;
    DividesMultiple(-1, 13);
    DividesMultiple(-1, -4);
  }

  /** The diagonal product `1 · 4 · (-13/4)`. */
  lemma EliminationDiagonal()
    ensures Multiply(Multiply(ParseInt(1), ParseInt(4)), Rational(0, -13, 4)) == Rational(0, -13, 1)
  {
    IntegerMultiply(1, 4);
    assert Multiply(ParseInt(4), Rational(0, -13, 4)) == Normalize(0, -52, 4);
    assert Rem(-52, 4) == 0;
    assert Euclid(-52, 4) == Euclid(4, 0) == 4;
    DividesMultiple(4, -13);
    DividesMultiple(4, 1);
  }

  /** The step on (4 7; 3 2): the multiplier is 3/4 and the second row becomes (0, -13/4). */
  lemma StepOfTestGrid(g: Grid)
    requires IsSquare(g) && |g| == 2
    requires g[0][0] == ParseInt(4) && g[0][1] == ParseInt(7) && g[1][0] == ParseInt(3) && g[1][1] == ParseInt(2)
    ensures Step(g, 0, 1) == [[ParseInt(4), ParseInt(7)], [ParseInt(0), Rational(0, -13, 4)]]
  {
    EliminationQuotients();
    EliminationDifferences();
    var h := Step(g, 0, 1);
    assert Multiplier(g, 0, 1) == Rational(0, 3, 4);
    var row := EliminateRow(g[1], g[0], Rational(0, 3, 4));
    assert row[0] == ParseInt(0) && row[1] == Rational(0, -13, 4);
    assert h[0] == g[0] && h[1] == row;
    GridOfEntries(h, ParseInt(4), ParseInt(7), ParseInt(0), Rational(0, -13, 4));
  }

  /** Elimination on (4 7; 3 2) leaves (4 7; 0 -13/4), whose diagonal product is -13 as the fraction -13/1. */
  lemma EliminationOfTestGrid(g: Grid)
    requires IsSquare(g) && |g| == 2
    requires g[0][0] == ParseInt(4) && g[0][1] == ParseInt(7) && g[1][0] == ParseInt(3) && g[1][1] == ParseInt(2)
    ensures Triangulate(g, 0) == [[ParseInt(4), ParseInt(7)], [ParseInt(0), Rational(0, -13, 4)]]
    ensures DiagonalProduct(Triangulate(g, 0), 2) == Rational(0, -13, 1)
  {
    TriangulateTwo(g);
    StepOfTestGrid(g);
    var t := Triangulate(g, 0);
    EliminationDiagonal();
    assert DiagonalProduct(t, 1) == Multiply(ParseInt(1), ParseInt(4));
  }

  /** The cross product of (4 7; 3 2): `4·2 - 7·3`. */
  lemma CrossOfTestGrid(g: Grid)
    requires IsSquare(g) && |g| == 2
    requires g[0][0] == ParseInt(4) && g[0][1] == ParseInt(7) && g[1][0] == ParseInt(3) && g[1][1] == ParseInt(2)
    ensures ClassicDet(g) == Rational(0, -13, 1)
  {
    IntegerMultiply(4, 2);
    IntegerMultiply(7, 3);
    IntegerSub(8, 21);
  }

  /** The matrix (4 7; 3 2) of matrix_test.go:106-108. */
  function TestGrid(): Grid
  {
    [[ParseInt(4), ParseInt(7)], [ParseInt(3), ParseInt(2)]]
  }

  /** A grid of `ParseInt` entries holds whole numbers only. */
  lemma WholeGrid(g: Grid)
    requires forall i, j :: 0 <= i < |g| && 0 <= j < |g[i]| ==> g[i][j] == ParseInt(g[i][j].i)
    ensures IntegralGrid(g)
  {
  }

  /**
    On (4 7; 3 2) the source's `DeterminantClassic` returns, but its
    `Determinant` does not: the first step takes `2 - 7·(3/4)`, for which
    `Sub` calls `New(0, -13, 4)`, whose loop never exits.
  */
  lemma TestGridDiverges()
    ensures Multiplier(TestGrid(), 0, 1) == Rational(0, 3, 4)
    ensures Multiply(ParseInt(7), Rational(0, 3, 4)) == Rational(5, 1, 4)
    ensures !SubHalts(ParseInt(2), Rational(5, 1, 4)) && !Halts(-13, 4)
    ensures ClassicDetHalts(TestGrid()) && !DeterminantHalts(TestGrid())
  {
    var g := TestGrid();
    EliminationQuotients();
    ArithmeticDiverges();
    WholeGrid(g);
    IntegralClassicDet(g);
    DivergesAtFirstStep(g, 1);
  }

  /**
    Both determinants of (4 7; 3 2), as the model computes them with the
    corrected constructor, are the value -13, as the fraction -13/1. The test
    compares with `ParseInt(4*2 - 3*7)`, the whole number -13: the same value
    in another representation. Go's `DeterminantClassic` returns that fraction
    too; Go's `Determinant` never returns on this matrix.
  */
  method DeterminantsOfTestMatrix() returns (classic: Result<Rational, MatrixError>, eliminated: Result<Rational, MatrixError>)
    ensures classic == eliminated == Ok(Rational(0, -13, 1))
    ensures Val(classic.value) == (4 * 2 - 3 * 7) as real
    ensures classic.value != ParseInt(4 * 2 - 3 * 7)
    ensures ClassicDetHalts(TestGrid())
    ensures !Halts(-13, 4) && !DeterminantHalts(TestGrid())
  {
    var r0 := [ParseInt(4), ParseInt(7)];
    var r1 := [ParseInt(3), ParseInt(2)];
    var b := TwoByTwo(r0, r1);
    CrossOfTestGrid(b.cells);
    classic := b.DeterminantClassic();
    EliminationOfTestGrid(b.cells);
    eliminated := b.Determinant();
    MinusThirteen();
    TestGridDiverges();
  }

  /** -13/1 is the number -13, but not the value `ParseInt(-13)`. */
  lemma MinusThirteen()
    ensures Val(Rational(0, -13, 1)) == (4 * 2 - 3 * 7) as real
    ensures Rational(0, -13, 1) != ParseInt(4 * 2 - 3 * 7)
  {
  }

  // ---------------------------------------------------------------------------
  // The 5×5 matrix of makeTestMatrix (matrix_test.go:88-97)

  function FiveGrid(): Grid
  {
    [[ParseInt(77), ParseInt(88), ParseInt(99), ParseInt(12), ParseInt(42)],
     [ParseInt(61), ParseInt(47), ParseInt(8), ParseInt(19), ParseInt(41)],
     [ParseInt(1), ParseInt(22), ParseInt(13), ParseInt(74), ParseInt(55)],
     [ParseInt(3), ParseInt(17), ParseInt(58), ParseInt(3), ParseInt(32)],
     [ParseInt(91), ParseInt(27), ParseInt(49), ParseInt(4), ParseInt(65)]]
  }

  /** The multiplier 61/77 of the first step. */
  lemma FiveGridMultiplier()
    ensures Divide(ParseInt(61), ParseInt(77)) == Rational(0, 61, 77)
  {
    assert Rem(61, 77) == 61 && Rem(77, 61) == 16 && Rem(61, 16) == 13;
    assert Rem(16, 13) == 3 && Rem(13, 3) == 1 && Rem(3, 1) == 0;
    assert Euclid(61, 77) == Euclid(77, 61) == Euclid(61, 16) == Euclid(16, 13) == 1;
    QuotByUnit(61);
    QuotByUnit(77);
    assert Divide(ParseInt(61), ParseInt(77)) == Normalize(0, 61, 77);
  }

  /** The product `88 · 61/77 = 488/7`, that is `69 5/7`. */
  lemma FiveGridProduct()
    ensures Multiply(ParseInt(88), Rational(0, 61, 77)) == Rational(69, 5, 7)
  {
    assert Rem(5368, 77) == 55 && Rem(77, 55) == 22 && Rem(55, 22) == 11 && Rem(22, 11) == 0;
    assert Euclid(5368, 77) == Euclid(77, 55) == Euclid(55, 22) == Euclid(22, 11) == Euclid(11, 0) == 11;
    DividesMultiple(11, 488);
    DividesMultiple(11, 7);
    assert Multiply(ParseInt(88), Rational(0, 61, 77)) == Normalize(0, 5368, 77);
    DivModUnique(488, 7, 69, 5);
  }

  /** `47 - 69 5/7` is the call `New(0, -159, 7)`. */
  lemma FiveGridDifference()
    ensures !SubHalts(ParseInt(47), Rational(69, 5, 7)) && !Halts(-159, 7)
  {
    NewDivergesExamples();
    assert Scaled(ParseInt(47), Rational(69, 5, 7)) == (329, 488);
    assert CommonDenominator(ParseInt(47), Rational(69, 5, 7)) == 7;
  }

  /** The source's `DeterminantClassic` returns on the 5×5 test matrix. */
  lemma FiveGridClassicHalts()
    ensures ClassicDetHalts(FiveGrid())
  {
    WholeGrid(FiveGrid());
    IntegralClassicDet(FiveGrid());
  }

  /**
    TestDeterminant (matrix_test.go:131-138) cannot finish: on the 5×5 test
    matrix the first step clears row 1 with the multiplier 61/77, and at
    column 1 takes `47 - 88·(61/77) = 47 - 69 5/7`, for which `Sub` calls
    `New(0, -159, 7)`, whose loop never exits. `DeterminantClassic` on the
    same matrix returns (`FiveGridClassicHalts`).
  */
  lemma FiveGridDiverges()
    ensures Multiplier(FiveGrid(), 0, 1) == Rational(0, 61, 77)
    ensures Multiply(FiveGrid()[0][1], Multiplier(FiveGrid(), 0, 1)) == Rational(69, 5, 7)
    ensures !SubHalts(FiveGrid()[1][1], Rational(69, 5, 7)) && !Halts(-159, 7)
    ensures !DeterminantHalts(FiveGrid())
  {
    var g := FiveGrid();
    FiveGridMultiplier();
    FiveGridProduct();
    FiveGridDifference();
    assert g[1][0] == ParseInt(61) && g[0][0] == ParseInt(77);
    assert g[0][1] == ParseInt(88) && g[1][1] == ParseInt(47);
    DivergesAtFirstStep(g, 1);
  }

  /** Elimination never returns once an entry of its first step does not. */
  lemma DivergesAtFirstStep(g: Grid, k: nat)
    requires IsSquare(g) && |g| >= 2 && k < |g|
    requires !SubHalts(g[1][k], Multiply(g[0][k], Multiplier(g, 0, 1)))
    ensures !DeterminantHalts(g)
  {
    FirstStepNeeded(g);
    RowHaltsAt(g[1], g[0], Multiplier(g, 0, 1), k);
  }

  /**
    On (0 1; 1 0) the two determinants part: the expansion gives -1, the
    elimination, which never exchanges rows, meets the zero pivot and gives 0.
  */
  method DeterminantsOfSwap() returns (classic: Result<Rational, MatrixError>, eliminated: Result<Rational, MatrixError>)
    ensures classic.Ok? && Val(classic.value) == -1.0
    ensures eliminated.Ok? && Val(eliminated.value) == 0.0
    ensures ClassicDetHalts(SwapGrid()) && DeterminantHalts(SwapGrid())
  {
    var b := TwoByTwo([ParseInt(0), ParseInt(1)], [ParseInt(1), ParseInt(0)]);
    SwapGridValues(b.cells);
    SwapGridHalts();
    classic := b.DeterminantClassic();
    eliminated := b.Determinant();
  }

  /** The matrix (0 1; 1 0). */
  function SwapGrid(): Grid
  {
    [[ParseInt(0), ParseInt(1)], [ParseInt(1), ParseInt(0)]]
  }

  /**
    On (0 1; 1 0) the source's two determinants both return: the zero pivot
    gives the multiplier `{0, 1, 0}`, and every difference stays a whole number.
  */
  lemma SwapGridHalts()
    ensures ClassicDetHalts(SwapGrid()) && DeterminantHalts(SwapGrid())
  {
    var g := SwapGrid();
    WholeGrid(g);
    IntegralClassicDet(g);
    TriangulateTwoHalts(g);
    TriangulateTwo(g);
    var m := Multiplier(g, 0, 1);
    DivideHaltsOnZero(g[1][0], g[0][0]);
    assert m == Rational(0, 1, 0);
    var row := EliminateRow(g[1], g[0], m);
    forall k | 0 <= k < 2
      ensures MultiplyHalts(g[0][k], m) && SubHalts(g[1][k], Multiply(g[0][k], m)) && Integral(row[k])
    {
      IntegralArithmetic(g[0][k], m);
      IntegralArithmetic(g[1][k], Multiply(g[0][k], m));
    }
    assert StepHalts(g, 0, 1);
    var t := Triangulate(g, 0);
    assert t == [g[0], row];
    assert IntegralGrid(t);
    IntegralDiagonal(t, 2);
  }

  lemma SwapGridValues(g: Grid)
    requires g == [[ParseInt(0), ParseInt(1)], [ParseInt(1), ParseInt(0)]]
    ensures IsSquare(g) && AllProper(g)
    ensures Val(ClassicDet(g)) == -1.0 && Val(DiagonalProduct(Triangulate(g, 0), 2)) == 0.0
  {
    ClassicDetValue(g);
    ZeroPivotTwo(g);
    DetTwo(g);
  }

  // ---------------------------------------------------------------------------
  // The size check of Product (matrix.go:75)

  /**
    A 1×2 matrix times a 2×3 matrix is defined, yet `Product` refuses it,
    while the check `a.Cols() != b.Rows()` accepts it and gives a 1×3 result.
  */
  method ProductRefusesConformable() returns (r: Result<Matrix, MatrixError>, s: Result<Matrix, MatrixError>)
    ensures r == Err(WrongSizes)
    ensures s.Ok? && s.value.Rows() == 1 && s.value.Cols() == 3
  {
    var a := new Matrix.New(1, 2);
    var b := new Matrix.New(2, 3);
    r := a.Product(b);
    s := a.ProductChecked(b);
  }

  /**
    A 3×1 matrix and a 2×3 matrix pass the check of `Product`, though a row of
    the first has fewer entries than the second has rows: the loop at
    matrix.go:82-83 then indexes past the end of the row.
  */
  method ProductAdmitsShortRows() returns (a: Matrix, b: Matrix)
    ensures Rectangular(a.cells) && Rectangular(b.cells) && b.Rows() > 0
    ensures a.Rows() == b.Cols() && a.Rows() > 0 && |a.cells[0]| < b.Rows()
  {
    a := new Matrix.New(3, 1);
    b := new Matrix.New(2, 3);
  }
}

/**
  What the operations of internal/matrix/matrix.go compute, stated on values.

  A matrix is a sequence of rows, each a sequence of `Rational`s. The methods
  of `Matrices.Matrix` fill their grids with loops; the functions here say, in
  one expression each, which grid those loops produce, and the lemmas say what
  that grid means: entry by entry in terms of `Val`, and, for the two
  determinants, against the determinant of the matrix of real numbers.
*/
module Grids {
  import opened Rationals

  type Grid = seq<seq<Rational>>

  /**
    Multiplication of reals, as a function of its own. The value lemmas below
    state every product of two entries as `Times(x, y)` rather than `x * y`:
    the solver then treats a product as one term and closes a goal by matching
    that term with a fact another lemma proved, instead of searching through
    nonlinear arithmetic, which is where the solver spends its resources on
    these proofs.
  */
  function Times(x: real, y: real): real
  {
    x * y
  }

  /** Every row as wide as the first. */
  predicate Rectangular<T>(g: seq<seq<T>>)
  {
    forall i :: 0 <= i < |g| ==> |g[i]| == |g[0]|
  }

  /** The number of columns: the width of the first row (0 for no rows). */
  function Width<T>(g: seq<seq<T>>): nat
  {
    if |g| == 0 then 0 else |g[0]|
  }

  predicate IsSquare<T>(g: seq<seq<T>>)
  {
    Rectangular(g) && Width(g) == |g|
  }

  /** Same number of rows, and row by row the same width. */
  predicate SameShape<T, U>(a: seq<seq<T>>, b: seq<seq<U>>)
  {
    |a| == |b| && forall i :: 0 <= i < |a| ==> |a[i]| == |b[i]|
  }

  predicate AllProper(g: Grid)
  {
    forall i, j :: 0 <= i < |g| && 0 <= j < |g[i]| ==> Proper(g[i][j])
  }

  /** The matrix of the numbers the entries stand for. */
  function ValGrid(g: Grid): (v: seq<seq<real>>)
    ensures SameShape(v, g)
  {
    seq(|g|, i requires 0 <= i < |g| => seq(|g[i]|, j requires 0 <= j < |g[i]| => Val(g[i][j])))
  }

  lemma ValGridShape(g: Grid)
    requires Rectangular(g)
    ensures Rectangular(ValGrid(g)) && Width(ValGrid(g)) == Width(g)
  {
  }

  // ---------------------------------------------------------------------------
  // Entry-wise operations

  /** The grid `a.Add(b)` fills (matrix.go:91-106): entry by entry `a[i][j].Add(b[i][j])`. */
  function AddGrid(a: Grid, b: Grid): (c: Grid)
    requires SameShape(a, b)
    ensures SameShape(c, a)
  {
    seq(|a|, i requires 0 <= i < |a| =>
      seq(|a[i]|, j requires 0 <= j < |a[i]| => Add(a[i][j], b[i][j])))
  }

  /** Adding matrices adds the numbers entry by entry. */
  lemma AddGridValue(a: Grid, b: Grid)
    requires SameShape(a, b) && AllProper(a) && AllProper(b)
    ensures AllProper(AddGrid(a, b))
    ensures forall i, j :: 0 <= i < |a| && 0 <= j < |a[i]| ==>
      Val(AddGrid(a, b)[i][j]) == Val(a[i][j]) + Val(b[i][j])
  {
    forall i, j | 0 <= i < |a| && 0 <= j < |a[i]|
      ensures Proper(AddGrid(a, b)[i][j])
      ensures Val(AddGrid(a, b)[i][j]) == Val(a[i][j]) + Val(b[i][j])
    {
      AddEntryValue(a, b, i, j);
    }
  }

  lemma AddEntryValue(a: Grid, b: Grid, i: nat, j: nat)
    requires SameShape(a, b) && AllProper(a) && AllProper(b) && i < |a| && j < |a[i]|
    ensures Proper(AddGrid(a, b)[i][j])
    ensures Val(AddGrid(a, b)[i][j]) == Val(a[i][j]) + Val(b[i][j])
  {
    var x, y := a[i][j], b[i][j];
    assert AddGrid(a, b)[i][j] == Add(x, y);
    AddValue(x, y);
    ReducedProper(Add(x, y));
  }

  /** `A.Add(B)` and `B.Add(A)` are the same grid (matrix_test.go:55-72). */
  lemma AddGridCommutes(a: Grid, b: Grid)
    requires SameShape(a, b)
    ensures AddGrid(a, b) == AddGrid(b, a)
  {
    forall i | 0 <= i < |a|
      ensures AddGrid(a, b)[i] == AddGrid(b, a)[i]
    {
      forall j | 0 <= j < |a[i]|
        ensures AddGrid(a, b)[i][j] == AddGrid(b, a)[i][j]
      {
        AddCommutes(a[i][j], b[i][j]);
      }
    }
  }

  /** The grid `a.Scalar(p)` fills (matrix.go:108-116). */
  function ScalarGrid(a: Grid, p: Rational): (c: Grid)
    ensures SameShape(c, a)
  {
    seq(|a|, i requires 0 <= i < |a| =>
      seq(|a[i]|, j requires 0 <= j < |a[i]| => Multiply(a[i][j], p)))
  }

  /** Scaling multiplies every number by the number `p` stands for. */
  lemma ScalarGridValue(a: Grid, p: Rational)
    ensures forall i, j :: 0 <= i < |a| && 0 <= j < |a[i]| ==>
      Val(ScalarGrid(a, p)[i][j]) == Times(Val(a[i][j]), Val(p))
  {
    forall i, j | 0 <= i < |a| && 0 <= j < |a[i]|
      ensures Val(ScalarGrid(a, p)[i][j]) == Times(Val(a[i][j]), Val(p))
    {
      ScalarEntryValue(a, p, i, j);
    }
  }

  lemma ScalarEntryValue(a: Grid, p: Rational, i: nat, j: nat)
    requires i < |a| && j < |a[i]|
    ensures Val(ScalarGrid(a, p)[i][j]) == Times(Val(a[i][j]), Val(p))
  {
    assert ScalarGrid(a, p)[i][j] == Multiply(a[i][j], p);
    MultiplyTimes(a[i][j], p);
  }

  lemma MultiplyTimes(x: Rational, y: Rational)
    ensures Val(Multiply(x, y)) == Times(Val(x), Val(y))
  {
    MultiplyValue(x, y);
  }

  /** The grid `m.Transpose()` fills (matrix.go:174-182): `Width(m)` rows of `|m|` entries. */
  function TransposeGrid<T>(g: seq<seq<T>>): (t: seq<seq<T>>)
    requires Rectangular(g)
    ensures |t| == Width(g) && Rectangular(t)
    ensures |t| > 0 ==> Width(t) == |g|
  {
    seq(Width(g), i requires 0 <= i < Width(g) => seq(|g|, j requires 0 <= j < |g| => g[j][i]))
  }

  /** Transposing twice gives the matrix back, for a matrix with at least one column. */
  lemma TransposeInvolution<T>(g: seq<seq<T>>)
    requires Rectangular(g) && Width(g) > 0
    ensures TransposeGrid(TransposeGrid(g)) == g
  {
    var t := TransposeGrid(g);
    var tt := TransposeGrid(t);
    assert |tt| == |g|;
    forall i | 0 <= i < |g|
      ensures tt[i] == g[i]
    {
      assert |tt[i]| == Width(g) == |g[i]|;
    }
  }

  // ---------------------------------------------------------------------------
  // Product

  /**
    Entry `(i, j)` of `a.Product(b)` after `l` rounds of its innermost loop
    (matrix.go:82-85): `Add` folded from the left over `a[i][q].Multiply(b[q][j])`,
    starting from `ParseInt(0)`.
  */
  function ProductEntry(a: Grid, b: Grid, i: nat, j: nat, l: nat): Rational
    requires i < |a| && l <= |a[i]| && l <= |b|
    requires forall q :: 0 <= q < l ==> j < |b[q]|
  {
    if l == 0 then ParseInt(0)
    else Add(ProductEntry(a, b, i, j, l - 1), Multiply(a[i][l - 1], b[l - 1][j]))
  }

  /** The grid `a.Product(b)` fills (matrix.go:74-89): `|a|` rows of `Width(b)` entries, summing over the rows of `b`. */
  function ProductGrid(a: Grid, b: Grid): (c: Grid)
    requires Rectangular(b) && forall i :: 0 <= i < |a| ==> |a[i]| >= |b|
    ensures |c| == |a| && forall i :: 0 <= i < |c| ==> |c[i]| == Width(b)
  {
    seq(|a|, i requires 0 <= i < |a| =>
      seq(Width(b), j requires 0 <= j < Width(b) => ProductEntry(a, b, i, j, |b|)))
  }

  /** The dot product of row `i` of `a` and column `j` of `b`, over the first `l` terms. */
  function RealDot(a: seq<seq<real>>, b: seq<seq<real>>, i: nat, j: nat, l: nat): real
    requires i < |a| && l <= |a[i]| && l <= |b|
    requires forall q :: 0 <= q < l ==> j < |b[q]|
  {
    if l == 0 then 0.0 else RealDot(a, b, i, j, l - 1) + Times(a[i][l - 1], b[l - 1][j])
  }

  lemma {:induction false} ProductEntryValue(a: Grid, b: Grid, i: nat, j: nat, l: nat)
    requires i < |a| && l <= |a[i]| && l <= |b|
    requires forall q :: 0 <= q < l ==> j < |b[q]|
    ensures Proper(ProductEntry(a, b, i, j, l))
    ensures Val(ProductEntry(a, b, i, j, l)) == RealDot(ValGrid(a), ValGrid(b), i, j, l)
  {
    if l > 0 {
      ProductEntryValue(a, b, i, j, l - 1);
      var va, vb := ValGrid(a), ValGrid(b);
      assert va[i][l - 1] == Val(a[i][l - 1]);
      assert vb[l - 1][j] == Val(b[l - 1][j]);
      DotStep(ProductEntry(a, b, i, j, l - 1), a[i][l - 1], b[l - 1][j],
              RealDot(va, vb, i, j, l - 1), va[i][l - 1], vb[l - 1][j]);
    }
  }

  /** One round of an `Add` over products, on numbers. */
  lemma DotStep(acc: Rational, x: Rational, y: Rational, s: real, vx: real, vy: real)
    requires Proper(acc) && Val(acc) == s && Val(x) == vx && Val(y) == vy
    ensures Proper(Add(acc, Multiply(x, y)))
    ensures Val(Add(acc, Multiply(x, y))) == s + Times(vx, vy)
  {
    var p := Multiply(x, y);
    MultiplyTimes(x, y);
    AddValue(acc, p);
    ReducedProper(Add(acc, p));
  }

  /** Every entry of the product is the dot product of a row of `a` and a column of `b`. */
  lemma ProductGridValue(a: Grid, b: Grid)
    requires Rectangular(b) && forall i :: 0 <= i < |a| ==> |a[i]| >= |b|
    ensures forall i, j :: 0 <= i < |a| && 0 <= j < Width(b) ==>
      Val(ProductGrid(a, b)[i][j]) == RealDot(ValGrid(a), ValGrid(b), i, j, |b|)
  {
    forall i, j | 0 <= i < |a| && 0 <= j < Width(b)
      ensures Val(ProductGrid(a, b)[i][j]) == RealDot(ValGrid(a), ValGrid(b), i, j, |b|)
    {
      ProductEntryValue(a, b, i, j, |b|);
    }
  }

  // ---------------------------------------------------------------------------
  // Minors and the cofactor determinant

  /**
    The grid `m.minor(col)` fills (matrix.go:151-172): the first row dropped,
    and column `col` left out of every other row.
  */
  function Minor<T>(g: seq<seq<T>>, col: nat): (r: seq<seq<T>>)
    requires |g| > 0 && Rectangular(g) && Width(g) > 0
    ensures |r| == |g| - 1 && Rectangular(r)
    ensures forall i :: 0 <= i < |r| ==> |r[i]| == Width(g) - 1
  {
    seq(|g| - 1, i requires 0 <= i < |g| - 1 =>
      seq(Width(g) - 1, j requires 0 <= j < Width(g) - 1 => g[i + 1][if j < col then j else j + 1]))
  }

  lemma MinorSquare<T>(g: seq<seq<T>>, col: nat)
    requires IsSquare(g) && |g| >= 2
    ensures IsSquare(Minor(g, col)) && |Minor(g, col)| == |g| - 1
  {
  }

  /** Taking a minor and reading the numbers can be done in either order. */
  lemma MinorValue(g: Grid, col: nat)
    requires |g| > 0 && Rectangular(g) && Width(g) > 0
    ensures Rectangular(ValGrid(g)) && Width(ValGrid(g)) == Width(g)
    ensures ValGrid(Minor(g, col)) == Minor(ValGrid(g), col)
    ensures AllProper(g) ==> AllProper(Minor(g, col))
  {
    ValGridShape(g);
    var v := ValGrid(g);
    var lhs, rhs := ValGrid(Minor(g, col)), Minor(v, col);
    assert |lhs| == |rhs|;
    forall i | 0 <= i < |lhs|
      ensures lhs[i] == rhs[i]
    {
      assert |lhs[i]| == |rhs[i]| == Width(g) - 1;
      forall j | 0 <= j < |lhs[i]|
        ensures lhs[i][j] == rhs[i][j]
      {
        var c := if j < col then j else j + 1;
        assert lhs[i][j] == Val(g[i + 1][c]);
        assert rhs[i][j] == v[i + 1][c];
      }
    }
  }

  /** The sign `math.Pow(-1, col)` picks at matrix.go:134-138. */
  function Sign(col: nat): (s: Rational)
    ensures Proper(s) && Val(s) == if col % 2 == 0 then 1.0 else -1.0
  {
    if col % 2 == 0 then ParseInt(1) else ParseInt(-1)
  }

  /**
    `m.DeterminantClassic()` (matrix.go:118-149) on a square grid of size 2 or
    more: the cross product for size 2, otherwise the expansion along the first
    row.
  */
  function ClassicDet(g: Grid): Rational
    requires IsSquare(g) && |g| >= 2
    decreases |g|, 1
  {
    if |g| == 2 then Sub(Multiply(g[0][0], g[1][1]), Multiply(g[0][1], g[1][0]))
    else ExpansionSum(g, |g|)
  }

  /** The loop of matrix.go:132-146 after `k` columns: `d.Add(element.Multiply(minorDet).Multiply(sign))`. */
  function ExpansionSum(g: Grid, k: nat): Rational
    requires IsSquare(g) && |g| >= 3 && k <= |g|
    decreases |g|, 0, k
  {
    if k == 0 then ParseInt(0)
    else
      MinorSquare(g, k - 1);
      Add(ExpansionSum(g, k - 1), Multiply(Multiply(g[0][k - 1], ClassicDet(Minor(g, k - 1))), Sign(k - 1)))
  }

  /** The determinant of a square matrix of reals, by expansion along the first row. */
  function RealDet(g: seq<seq<real>>): real
    requires IsSquare(g) && |g| >= 1
    decreases |g|, 1
  {
    if |g| == 1 then g[0][0] else RealExpansion(g, |g|)
  }

  function RealExpansion(g: seq<seq<real>>, k: nat): real
    requires IsSquare(g) && |g| >= 2 && k <= |g|
    decreases |g|, 0, k
  {
    if k == 0 then 0.0
    else
      MinorSquare(g, k - 1);
      RealExpansion(g, k - 1) + Times(Times(if (k - 1) % 2 == 0 then 1.0 else -1.0, g[0][k - 1]), RealDet(Minor(g, k - 1)))
  }

  lemma TwoByTwoReal(v: seq<seq<real>>)
    requires IsSquare(v) && |v| == 2
    ensures RealDet(v) == Times(v[0][0], v[1][1]) - Times(v[0][1], v[1][0])
  {
    MinorSquare(v, 0);
    MinorSquare(v, 1);
    var m0, m1 := Minor(v, 0), Minor(v, 1);
    assert RealDet(m0) == m0[0][0] == v[1][1];
    assert RealDet(m1) == m1[0][0] == v[1][0];
    assert RealExpansion(v, 1) == 0.0 + Times(Times(1.0, v[0][0]), RealDet(m0));
    assert RealExpansion(v, 2) == RealExpansion(v, 1) + Times(Times(-1.0, v[0][1]), RealDet(m1));
  }

  lemma ReducedProper(r: Rational)
    requires Reduced(r)
    ensures Proper(r)
  {
  }

  /**
    The cofactor determinant computes the determinant of the numbers: the
    shortcut for size 2 agrees with the expansion, and the expansion of every
    larger size is the one of the definition.
  */
  lemma {:induction false} ClassicDetValue(g: Grid)
    requires IsSquare(g) && |g| >= 2 && AllProper(g)
    ensures Proper(ClassicDet(g))
    ensures Val(ClassicDet(g)) == RealDet(ValGrid(g))
    decreases |g|, 1
  {
    var v := ValGrid(g);
    ValGridShape(g);
    if |g| == 2 {
      assert v[0][0] == Val(g[0][0]) && v[1][1] == Val(g[1][1]);
      assert v[0][1] == Val(g[0][1]) && v[1][0] == Val(g[1][0]);
      CrossValue(g[0][0], g[1][1], g[0][1], g[1][0], v[0][0], v[1][1], v[0][1], v[1][0]);
      TwoByTwoReal(v);
    } else {
      ExpansionValue(g, |g|);
    }
  }

  lemma {:induction false} ExpansionValue(g: Grid, k: nat)
    requires IsSquare(g) && |g| >= 3 && k <= |g| && AllProper(g)
    ensures Proper(ExpansionSum(g, k))
    ensures Rectangular(ValGrid(g)) && IsSquare(ValGrid(g))
    ensures Val(ExpansionSum(g, k)) == RealExpansion(ValGrid(g), k)
    decreases |g|, 0, k
  {
    ValGridShape(g);
    if k > 0 {
      ExpansionValue(g, k - 1);
      var c := k - 1;
      var v := ValGrid(g);
      MinorSquare(g, c);
      MinorValue(g, c);
      ClassicDetValue(Minor(g, c));
      assert v[0][c] == Val(g[0][c]);
      ExpansionStep(ExpansionSum(g, c), g[0][c], ClassicDet(Minor(g, c)), Sign(c),
                    RealExpansion(v, c), v[0][c], RealDet(Minor(v, c)), if c % 2 == 0 then 1.0 else -1.0);
    }
  }

  /** The size-2 shortcut, on numbers. */
  lemma CrossValue(w: Rational, x: Rational, y: Rational, z: Rational, vw: real, vx: real, vy: real, vz: real)
    requires Val(w) == vw && Val(x) == vx && Val(y) == vy && Val(z) == vz
    ensures Proper(Sub(Multiply(w, x), Multiply(y, z)))
    ensures Val(Sub(Multiply(w, x), Multiply(y, z))) == Times(vw, vx) - Times(vy, vz)
  {
    var p, q := Multiply(w, x), Multiply(y, z);
    MultiplyTimes(w, x);
    MultiplyTimes(y, z);
    SubValue(p, q);
    ReducedProper(Sub(p, q));
  }

  /** One round of the cofactor expansion, on numbers. */
  lemma ExpansionStep(acc: Rational, e: Rational, det: Rational, s: Rational, r: real, ve: real, vdet: real, vs: real)
    requires Proper(acc) && Val(acc) == r && Val(e) == ve && Val(det) == vdet && Val(s) == vs
    ensures Proper(Add(acc, Multiply(Multiply(e, det), s)))
    ensures Val(Add(acc, Multiply(Multiply(e, det), s))) == r + Times(Times(vs, ve), vdet)
  {
    var p := Multiply(e, det);
    MultiplyTimes(e, det);
    var t := Multiply(p, s);
    MultiplyTimes(p, s);
    Reorder(Val(t), Val(p), ve, vdet, vs);
    AddValue(acc, t);
    ReducedProper(Add(acc, t));
  }

  lemma Reorder(t: real, p: real, x: real, y: real, s: real)
    requires t == Times(p, s) && p == Times(x, y)
    ensures t == Times(Times(s, x), y)
  {
  }

  // ---------------------------------------------------------------------------
  // Gaussian elimination

  /** Row `i` after one elimination step (matrix.go:200-211): `row[k].Sub(pivotRow[k].Multiply(m))`. */
  function EliminateRow(row: seq<Rational>, pivotRow: seq<Rational>, m: Rational): (r: seq<Rational>)
    requires |pivotRow| >= |row|
    ensures |r| == |row|
  {
    seq(|row|, k requires 0 <= k < |row| => Sub(row[k], Multiply(pivotRow[k], m)))
  }

  /** The multiplier of matrix.go:192-197: the entry to clear over the pivot. */
  function Multiplier(g: Grid, j: nat, i: nat): Rational
    requires j < |g| && i < |g| && j < |g[i]| && j < |g[j]|
  {
    Divide(g[i][j], g[j][j])
  }

  /** One step of the elimination: row `i` less `Multiplier(g, j, i)` times row `j`. */
  function Step(g: Grid, j: nat, i: nat): (r: Grid)
    requires IsSquare(g) && j < i < |g|
    ensures IsSquare(r) && |r| == |g|
    ensures forall q :: 0 <= q < |g| && q != i ==> r[q] == g[q]
  {
    g[i := EliminateRow(g[i], g[j], Multiplier(g, j, i))]
  }

  /** The loop of matrix.go:190-214 for column `j`, from row `i` on; rows `i <= j` are skipped. */
  function Sweep(g: Grid, j: nat, i: nat): (r: Grid)
    requires IsSquare(g) && j < |g| && 1 <= i <= |g|
    ensures IsSquare(r) && |r| == |g|
    ensures forall q :: 0 <= q < |g| && q <= j ==> r[q] == g[q]
    decreases |g| - i
  {
    if i == |g| then g else Sweep(if j < i then Step(g, j, i) else g, j, i + 1)
  }

  /** The loop of matrix.go:189-215, from column `j` on. */
  function Triangulate(g: Grid, j: nat): (r: Grid)
    requires IsSquare(g) && j <= |g|
    ensures IsSquare(r) && |r| == |g|
    decreases |g| - j
  {
    if j == |g| then g else Triangulate(Sweep(g, j, 1), j + 1)
  }

  /** The loop of matrix.go:219-226 over the first `k` rows: `d.Multiply(element)` on the diagonal, from `ParseInt(1)`. */
  function DiagonalProduct(g: Grid, k: nat): Rational
    requires k <= |g| && forall q :: 0 <= q < k ==> q < |g[q]|
  {
    if k == 0 then ParseInt(1) else Multiply(DiagonalProduct(g, k - 1), g[k - 1][k - 1])
  }

  function RealDiagonal(v: seq<seq<real>>, k: nat): real
    requires k <= |v| && forall q :: 0 <= q < k ==> q < |v[q]|
  {
    if k == 0 then 1.0 else Times(RealDiagonal(v, k - 1), v[k - 1][k - 1])
  }

  /** The product of the diagonal entries is the product of their numbers. */
  lemma {:induction false} DiagonalProductValue(g: Grid, k: nat)
    requires k <= |g| && forall q :: 0 <= q < k ==> q < |g[q]|
    ensures Val(DiagonalProduct(g, k)) == RealDiagonal(ValGrid(g), k)
  {
    if k > 0 {
      DiagonalProductValue(g, k - 1);
      var v := ValGrid(g);
      assert v[k - 1][k - 1] == Val(g[k - 1][k - 1]);
      ProductStep(DiagonalProduct(g, k - 1), g[k - 1][k - 1], RealDiagonal(v, k - 1), v[k - 1][k - 1]);
    }
  }

  lemma ProductStep(acc: Rational, x: Rational, r: real, vx: real)
    requires Val(acc) == r && Val(x) == vx
    ensures Val(Multiply(acc, x)) == Times(r, vx)
  {
    MultiplyTimes(acc, x);
  }

  /** Each entry of an eliminated row is the row's number less the pivot row's number times the multiplier. */
  lemma EliminateRowValue(row: seq<Rational>, pivotRow: seq<Rational>, m: Rational)
    requires |pivotRow| >= |row| && forall k :: 0 <= k < |row| ==> Proper(row[k])
    ensures forall k :: 0 <= k < |row| ==> Proper(EliminateRow(row, pivotRow, m)[k])
    ensures forall k :: 0 <= k < |row| ==>
      Val(EliminateRow(row, pivotRow, m)[k]) == Val(row[k]) - Times(Val(pivotRow[k]), Val(m))
  {
    forall k | 0 <= k < |row|
      ensures Proper(EliminateRow(row, pivotRow, m)[k])
      ensures Val(EliminateRow(row, pivotRow, m)[k]) == Val(row[k]) - Times(Val(pivotRow[k]), Val(m))
    {
      assert EliminateRow(row, pivotRow, m)[k] == Sub(row[k], Multiply(pivotRow[k], m));
      EliminateEntry(row[k], pivotRow[k], m);
    }
  }

  lemma EliminateEntry(x: Rational, y: Rational, m: Rational)
    requires Proper(x)
    ensures Proper(Sub(x, Multiply(y, m)))
    ensures Val(Sub(x, Multiply(y, m))) == Val(x) - Times(Val(y), Val(m))
  {
    var p := Multiply(y, m);
    MultiplyTimes(y, m);
    SubValue(x, p);
    ReducedProper(Sub(x, p));
  }

  /** With a non-zero pivot, a step clears the entry below it. */
  lemma StepClearsEntry(g: Grid, j: nat, i: nat)
    requires IsSquare(g) && j < i < |g| && AllProper(g) && Val(g[j][j]) != 0.0
    ensures Val(Step(g, j, i)[i][j]) == 0.0
  {
    var m := Multiplier(g, j, i);
    assert Step(g, j, i)[i][j] == Sub(g[i][j], Multiply(g[j][j], m));
    EliminateEntry(g[i][j], g[j][j], m);
    DivideValue(g[i][j], g[j][j]);
    CancelPivot(Val(Step(g, j, i)[i][j]), Val(g[i][j]), Val(g[j][j]), Val(m));
  }

  lemma CancelPivot(u: real, x: real, p: real, q: real)
    requires p != 0.0 && q == x / p && u == x - Times(p, q)
    ensures u == 0.0
  {
  }

  /**
    With a zero pivot the multiplier is the unreduced `{0, _, 0}`, which stands
    for 0, and the row keeps its numbers.
  */
  lemma ZeroPivotKeepsRow(g: Grid, j: nat, i: nat)
    requires IsSquare(g) && j < i < |g| && AllProper(g) && Val(g[j][j]) == 0.0
    ensures Multiplier(g, j, i).d == 0 && Val(Multiplier(g, j, i)) == 0.0
    ensures forall k :: 0 <= k < |g| ==> Val(Step(g, j, i)[i][k]) == Val(g[i][k])
  {
    DivideByZero(g[i][j], g[j][j]);
    EliminateRowValue(g[i], g[j], Multiplier(g, j, i));
  }
  /** On a 2×2 grid the elimination is the single step that clears the entry below the first pivot. */
  lemma TriangulateTwo(g: Grid)
    requires IsSquare(g) && |g| == 2
    ensures Triangulate(g, 0) == Step(g, 0, 1)
  {
    var h := Step(g, 0, 1);
    assert Sweep(g, 0, 1) == Sweep(h, 0, 2) == h;
    assert Sweep(h, 1, 1) == Sweep(h, 1, 2) == h;
    assert Triangulate(g, 0) == Triangulate(h, 1) == Triangulate(h, 2) == h;
  }

  /**
    On a 2×2 grid whose first pivot is not zero, the elimination's diagonal
    product is the determinant.
  */
  lemma EliminationTwoValue(g: Grid)
    requires IsSquare(g) && |g| == 2 && AllProper(g) && Val(g[0][0]) != 0.0
    ensures Val(DiagonalProduct(Triangulate(g, 0), 2)) == RealDet(ValGrid(g))
  {
    TriangulateTwo(g);
    var t := Step(g, 0, 1);
    var m := Multiplier(g, 0, 1);
    DivideValue(g[1][0], g[0][0]);
    assert t[0] == g[0] && t[1][1] == Sub(g[1][1], Multiply(g[0][1], m));
    EliminateEntry(g[1][1], g[0][1], m);
    DiagonalTwo(t);
    DetTwo(g);
    PivotAlgebra(Val(g[0][0]), Val(g[1][1]), Val(g[0][1]), Val(g[1][0]), Val(m), Val(t[1][1]));
  }

  /**
    On a 2×2 grid whose first pivot is zero, no row is exchanged and the
    elimination's diagonal product is 0, whatever the other three entries.
  */
  lemma ZeroPivotTwo(g: Grid)
    requires IsSquare(g) && |g| == 2 && AllProper(g) && Val(g[0][0]) == 0.0
    ensures Val(DiagonalProduct(Triangulate(g, 0), 2)) == 0.0
    ensures RealDet(ValGrid(g)) == -Times(Val(g[0][1]), Val(g[1][0]))
  {
    TriangulateTwo(g);
    var t := Step(g, 0, 1);
    assert t[0] == g[0];
    DiagonalTwo(t);
    DetTwo(g);
  }

  lemma DiagonalTwo(t: Grid)
    requires IsSquare(t) && |t| == 2
    ensures Val(DiagonalProduct(t, 2)) == Times(Times(1.0, Val(t[0][0])), Val(t[1][1]))
  {
    DiagonalProductValue(t, 2);
    var v := ValGrid(t);
    assert v[0][0] == Val(t[0][0]) && v[1][1] == Val(t[1][1]);
    assert RealDiagonal(v, 1) == Times(1.0, v[0][0]);
  }

  lemma DetTwo(g: Grid)
    requires IsSquare(g) && |g| == 2
    ensures RealDet(ValGrid(g)) == Times(Val(g[0][0]), Val(g[1][1])) - Times(Val(g[0][1]), Val(g[1][0]))
  {
    var v := ValGrid(g);
    ValGridShape(g);
    TwoByTwoReal(v);
    assert v[0][0] == Val(g[0][0]) && v[1][1] == Val(g[1][1]);
    assert v[0][1] == Val(g[0][1]) && v[1][0] == Val(g[1][0]);
  }

  lemma PivotAlgebra(a: real, b: real, c: real, x: real, q: real, u: real)
    requires a != 0.0 && q == x / a && u == b - Times(c, q)
    ensures Times(Times(1.0, a), u) == Times(a, b) - Times(c, x)
  {
    calc {
      Times(Times(1.0, a), u);
      a * (b - c * (x / a));
      a * b - c * (a * (x / a));
      a * b - c * x;
    }
  }

  // ---------------------------------------------------------------------------
  // Where the source's matrix operations return

  /*
    Every entry the methods of matrix.go compute comes from a call of the
    rational arithmetic, and the source returns only if each of those calls
    does (`AddHalts` and its siblings). The predicates below collect those
    conditions, operation by operation, in the order the loops make the calls.
  */

  /** Every `element.Add(bVal)` of `a.Add(b)` (matrix.go:100) returns. */
  predicate AddGridHalts(a: Grid, b: Grid)
  {
    forall i, j :: 0 <= i < |a| && 0 <= j < |a[i]| && i < |b| && j < |b[i]| ==> AddHalts(a[i][j], b[i][j])
  }

  /** Every `element.Multiply(p)` of `a.Scalar(p)` (matrix.go:112) returns. */
  predicate ScalarGridHalts(a: Grid, p: Rational)
  {
    forall i, j :: 0 <= i < |a| && 0 <= j < |a[i]| ==> MultiplyHalts(a[i][j], p)
  }

  /** The first `l` rounds of the innermost product loop for entry `(i, j)` (matrix.go:82-85) return. */
  predicate EntryHalts(a: Grid, b: Grid, i: nat, j: nat, l: nat)
    requires i < |a| && l <= |a[i]| && l <= |b|
    requires forall q :: 0 <= q < l ==> j < |b[q]|
  {
    l == 0 ||
    (EntryHalts(a, b, i, j, l - 1) && MultiplyHalts(a[i][l - 1], b[l - 1][j])
     && AddHalts(ProductEntry(a, b, i, j, l - 1), Multiply(a[i][l - 1], b[l - 1][j])))
  }

  /** Every call of the arithmetic in `a.Product(b)` returns. */
  predicate ProductHalts(a: Grid, b: Grid)
    requires Rectangular(b) && forall i :: 0 <= i < |a| ==> |a[i]| >= |b|
  {
    forall i, j :: 0 <= i < |a| && 0 <= j < Width(b) ==> EntryHalts(a, b, i, j, |b|)
  }

  /** Every call of the arithmetic in `m.DeterminantClassic()`, down through the recursive calls, returns. */
  predicate ClassicDetHalts(g: Grid)
    requires IsSquare(g) && |g| >= 2
    decreases |g|, 2
  {
    if |g| == 2 then
      MultiplyHalts(g[0][0], g[1][1]) && MultiplyHalts(g[0][1], g[1][0])
      && SubHalts(Multiply(g[0][0], g[1][1]), Multiply(g[0][1], g[1][0]))
    else
      ExpansionHalts(g, |g|)
  }

  /** The first `k` rounds of the loop at matrix.go:132-146 return. */
  predicate ExpansionHalts(g: Grid, k: nat)
    requires IsSquare(g) && |g| >= 3 && k <= |g|
    decreases |g|, 1, k
  {
    k == 0 || (ExpansionHalts(g, k - 1) && CofactorHalts(g, k - 1))
  }

  /**
    Round `c` of the loop at matrix.go:132-146 returns: the determinant of the
    minor, the two products and the sum.
  */
  predicate CofactorHalts(g: Grid, c: nat)
    requires IsSquare(g) && |g| >= 3 && c < |g|
    decreases |g|, 0
  {
    MinorSquare(g, c);
    var det := ClassicDet(Minor(g, c));
    ClassicDetHalts(Minor(g, c))
    && MultiplyHalts(g[0][c], det)
    && MultiplyHalts(Multiply(g[0][c], det), Sign(c))
    && AddHalts(ExpansionSum(g, c), Multiply(Multiply(g[0][c], det), Sign(c)))
  }

  /** Every `mr[k].Multiply(m)` and `el.Sub(...)` of the write loop (matrix.go:200-201) returns. */
  predicate RowHalts(row: seq<Rational>, pivotRow: seq<Rational>, m: Rational)
    requires |pivotRow| >= |row|
  {
    forall k :: 0 <= k < |row| ==> MultiplyHalts(pivotRow[k], m) && SubHalts(row[k], Multiply(pivotRow[k], m))
  }

  /** One elimination step returns: the division of matrix.go:197 and the write loop. */
  predicate StepHalts(g: Grid, j: nat, i: nat)
    requires IsSquare(g) && j < i < |g|
  {
    DivideHalts(g[i][j], g[j][j]) && RowHalts(g[i], g[j], Multiplier(g, j, i))
  }

  /** The sweep of column `j`, from row `i` on, returns. */
  predicate SweepHalts(g: Grid, j: nat, i: nat)
    requires IsSquare(g) && j < |g| && 1 <= i <= |g|
    decreases |g| - i
  {
    i == |g| || ((j < i ==> StepHalts(g, j, i)) && SweepHalts(if j < i then Step(g, j, i) else g, j, i + 1))
  }

  /** The elimination, from column `j` on, returns. */
  predicate TriangulateHalts(g: Grid, j: nat)
    requires IsSquare(g) && j <= |g|
    decreases |g| - j
  {
    j == |g| || (SweepHalts(g, j, 1) && TriangulateHalts(Sweep(g, j, 1), j + 1))
  }

  /** The first `k` products of the diagonal loop (matrix.go:219-226) return. */
  predicate DiagonalHalts(g: Grid, k: nat)
    requires k <= |g| && forall q :: 0 <= q < k ==> q < |g[q]|
  {
    k == 0 || (DiagonalHalts(g, k - 1) && MultiplyHalts(DiagonalProduct(g, k - 1), g[k - 1][k - 1]))
  }

  /** `m.Determinant()` returns: the elimination and then the diagonal product. */
  predicate DeterminantHalts(g: Grid)
    requires IsSquare(g)
  {
    TriangulateHalts(g, 0) && DiagonalHalts(Triangulate(g, 0), |g|)
  }

  /** A matrix of whole numbers. */
  predicate IntegralGrid(g: Grid)
  {
    forall i, j :: 0 <= i < |g| && 0 <= j < |g[i]| ==> Integral(g[i][j])
  }

  /** Adding two matrices of whole numbers always returns. */
  lemma IntegralAddGrid(a: Grid, b: Grid)
    requires IntegralGrid(a) && IntegralGrid(b)
    ensures AddGridHalts(a, b)
  {
    forall i, j | 0 <= i < |a| && 0 <= j < |a[i]| && i < |b| && j < |b[i]|
      ensures AddHalts(a[i][j], b[i][j])
    {
      IntegralArithmetic(a[i][j], b[i][j]);
    }
  }

  /** Scaling a matrix of whole numbers by a whole number always returns. */
  lemma IntegralScalarGrid(a: Grid, p: Rational)
    requires IntegralGrid(a) && Integral(p)
    ensures ScalarGridHalts(a, p)
  {
    forall i, j | 0 <= i < |a| && 0 <= j < |a[i]|
      ensures MultiplyHalts(a[i][j], p)
    {
      IntegralArithmetic(a[i][j], p);
    }
  }

  lemma {:induction false} IntegralEntry(a: Grid, b: Grid, i: nat, j: nat, l: nat)
    requires i < |a| && l <= |a[i]| && l <= |b|
    requires forall q :: 0 <= q < l ==> j < |b[q]|
    requires IntegralGrid(a) && IntegralGrid(b)
    ensures Integral(ProductEntry(a, b, i, j, l)) && EntryHalts(a, b, i, j, l)
  {
    if l > 0 {
      IntegralEntry(a, b, i, j, l - 1);
      var acc, p := ProductEntry(a, b, i, j, l - 1), Multiply(a[i][l - 1], b[l - 1][j]);
      IntegralArithmetic(a[i][l - 1], b[l - 1][j]);
      IntegralArithmetic(acc, p);
      assert ProductEntry(a, b, i, j, l) == Add(acc, p);
    }
  }

  /** The product of two matrices of whole numbers always returns, with whole numbers. */
  lemma IntegralProduct(a: Grid, b: Grid)
    requires Rectangular(b) && forall i :: 0 <= i < |a| ==> |a[i]| >= |b|
    requires IntegralGrid(a) && IntegralGrid(b)
    ensures ProductHalts(a, b) && IntegralGrid(ProductGrid(a, b))
  {
    forall i, j | 0 <= i < |a| && 0 <= j < Width(b)
      ensures EntryHalts(a, b, i, j, |b|) && Integral(ProductGrid(a, b)[i][j])
    {
      IntegralEntry(a, b, i, j, |b|);
    }
  }

  lemma MinorIntegral(g: Grid, col: nat)
    requires |g| > 0 && Rectangular(g) && Width(g) > 0 && IntegralGrid(g)
    ensures IntegralGrid(Minor(g, col))
  {
  }

  /** The cofactor determinant of a matrix of whole numbers always returns, with a whole number. */
  lemma {:induction false} IntegralClassicDet(g: Grid)
    requires IsSquare(g) && |g| >= 2 && IntegralGrid(g)
    ensures ClassicDetHalts(g) && Integral(ClassicDet(g))
    decreases |g|, 2
  {
    if |g| == 2 {
      IntegralArithmetic(g[0][0], g[1][1]);
      IntegralArithmetic(g[0][1], g[1][0]);
      IntegralArithmetic(Multiply(g[0][0], g[1][1]), Multiply(g[0][1], g[1][0]));
    } else {
      IntegralExpansion(g, |g|);
    }
  }

  lemma {:induction false} IntegralExpansion(g: Grid, k: nat)
    requires IsSquare(g) && |g| >= 3 && k <= |g| && IntegralGrid(g)
    ensures Integral(ExpansionSum(g, k)) && ExpansionHalts(g, k)
    decreases |g|, 1, k, 1
  {
    if k > 0 {
      IntegralExpansionStep(g, k);
    }
  }

  lemma ExpansionHaltsNext(g: Grid, k: nat)
    requires IsSquare(g) && |g| >= 3 && 0 < k <= |g|
    requires ExpansionHalts(g, k - 1) && CofactorHalts(g, k - 1)
    ensures ExpansionHalts(g, k)
  {
  }

  lemma {:induction false} IntegralExpansionStep(g: Grid, k: nat)
    requires IsSquare(g) && |g| >= 3 && 0 < k <= |g| && IntegralGrid(g)
    ensures Integral(ExpansionSum(g, k)) && ExpansionHalts(g, k)
    decreases |g|, 1, k, 0
  {
    var c := k - 1;
    IntegralExpansion(g, c);
    IntegralTerm(g, c);
    MinorSquare(g, c);
    var det := ClassicDet(Minor(g, c));
    var sum, term := ExpansionSum(g, c), Multiply(Multiply(g[0][c], det), Sign(c));
    IntegralArithmetic(sum, term);
    assert ExpansionSum(g, k) == Add(sum, term);
    assert CofactorHalts(g, c);
    ExpansionHaltsNext(g, k);
  }

  /** The term of column `c`: the minor's determinant and both products return, with a whole number. */
  lemma {:induction false} IntegralTerm(g: Grid, c: nat)
    requires IsSquare(g) && |g| >= 3 && c < |g| && IntegralGrid(g)
    ensures IsSquare(Minor(g, c)) && |Minor(g, c)| >= 2 && ClassicDetHalts(Minor(g, c))
      && MultiplyHalts(g[0][c], ClassicDet(Minor(g, c)))
      && MultiplyHalts(Multiply(g[0][c], ClassicDet(Minor(g, c))), Sign(c))
      && Integral(Multiply(Multiply(g[0][c], ClassicDet(Minor(g, c))), Sign(c)))
    decreases |g|, 0
  {
    MinorSquare(g, c);
    MinorIntegral(g, c);
    IntegralClassicDet(Minor(g, c));
    var det := ClassicDet(Minor(g, c));
    var e, s := g[0][c], Sign(c);
    assert Integral(e) && Integral(s);
    IntegralArithmetic(e, det);
    IntegralArithmetic(Multiply(e, det), s);
  }

  /** The diagonal product of a matrix of whole numbers always returns, with a whole number. */
  lemma {:induction false} IntegralDiagonal(g: Grid, k: nat)
    requires k <= |g| && forall q :: 0 <= q < k ==> q < |g[q]|
    requires IntegralGrid(g)
    ensures Integral(DiagonalProduct(g, k)) && DiagonalHalts(g, k)
  {
    if k > 0 {
      IntegralDiagonal(g, k - 1);
      var acc := DiagonalProduct(g, k - 1);
      IntegralArithmetic(acc, g[k - 1][k - 1]);
      assert DiagonalProduct(g, k) == Multiply(acc, g[k - 1][k - 1]);
    }
  }

  /** On a 2×2 grid the elimination returns exactly when its single step does. */
  lemma TriangulateTwoHalts(g: Grid)
    requires IsSquare(g) && |g| == 2
    ensures TriangulateHalts(g, 0) <==> StepHalts(g, 0, 1)
  {
    TriangulateTwo(g);
    var h := Step(g, 0, 1);
    assert Sweep(g, 0, 1) == h;
    assert SweepHalts(h, 0, 2) && SweepHalts(h, 1, 2) && SweepHalts(h, 1, 1);
    assert Sweep(h, 1, 1) == h;
    assert TriangulateHalts(h, 2) && TriangulateHalts(h, 1);
  }

  /** The determinant by elimination returns only if its first step, on rows 0 and 1, does. */
  lemma FirstStepNeeded(g: Grid)
    requires IsSquare(g) && |g| >= 2
    ensures DeterminantHalts(g) ==> StepHalts(g, 0, 1)
  {
  }

  /** The first `k` rounds of the expansion return only if round `c < k` does. */
  lemma {:induction false} ExpansionHaltsPrefix(g: Grid, k: nat, c: nat)
    requires IsSquare(g) && |g| >= 3 && c < k <= |g|
    ensures ExpansionHalts(g, k) ==> CofactorHalts(g, c)
    decreases k
  {
    if c < k - 1 {
      ExpansionHaltsPrefix(g, k - 1, c);
    }
  }

  /** A step returns only if each entry's product and difference do. */
  lemma RowHaltsAt(row: seq<Rational>, pivotRow: seq<Rational>, m: Rational, k: nat)
    requires |pivotRow| >= |row| && k < |row|
    ensures RowHalts(row, pivotRow, m) ==> MultiplyHalts(pivotRow[k], m) && SubHalts(row[k], Multiply(pivotRow[k], m))
  {
  }
}

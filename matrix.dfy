/**
  The matrix of internal/matrix/matrix.go: a grid of rows of rationals, owned
  by one `Matrix` object whose methods fill fresh grids through index loops
  and, in `Determinant`, rewrite the receiver's own rows. The entries are
  combined with the rational functions of `Rationals`, which use the corrected
  constructor: where a Go method never returns (the `…Halts` predicates of
  `Grids` fail), its model still returns the corrected result.
*/
module Matrices {
  import opened Wrappers
  import opened Rationals
  import opened Grids

  /** The three error texts of matrix.go: "wrong arguments", "wrong matrices sizes", "matrix must be n x n". */
  datatype MatrixError = WrongArguments | WrongSizes | NotSquare

  /**
    `g` has the shape of `target`; the entries before `(i, j)` in row-major
    order are those of `target`, the others still the zeros `New` put there.
  */
  ghost predicate FilledTo(g: Grid, target: Grid, i: nat, j: nat)
  {
    SameShape(g, target) &&
    forall p, q :: 0 <= p < |g| && 0 <= q < |g[p]| ==>
      g[p][q] == if p < i || (p == i && q < j) then target[p][q] else ParseInt(0)
  }

  /** The same, filling column after column (the order `Transpose` writes in). */
  ghost predicate FilledByColumns(g: Grid, target: Grid, j: nat, i: nat)
  {
    SameShape(g, target) &&
    forall p, q :: 0 <= p < |g| && 0 <= q < |g[p]| ==>
      g[p][q] == if q < j || (q == j && p < i) then target[p][q] else ParseInt(0)
  }

  lemma FilledAll(g: Grid, target: Grid)
    requires FilledTo(g, target, |g|, 0)
    ensures g == target
  {
    forall p | 0 <= p < |g|
      ensures g[p] == target[p]
    {
    }
  }

  lemma FilledColumnsAll(g: Grid, target: Grid, n: nat)
    requires FilledByColumns(g, target, n, 0)
    requires forall p :: 0 <= p < |g| ==> |g[p]| == n
    ensures g == target
  {
    forall p | 0 <= p < |g|
      ensures g[p] == target[p]
    {
    }
  }

  lemma CopyIntoSame(dst: seq<Rational>, src: seq<Rational>)
    requires |src| == |dst|
    ensures CopyInto(dst, src) == src
  {
  }

  lemma WithoutStep(row: seq<Rational>, col: nat, j: nat)
    requires j < |row|
    ensures Without(row[..j + 1], col) == if j == col then Without(row[..j], col) else Without(row[..j], col) + [row[j]]
  {
    if j > col {
      assert row[..j + 1][..col] == row[..j][..col];
      assert row[..j + 1][col + 1..] == row[..j][col + 1..] + [row[j]];
    } else if j == col {
      assert row[..j + 1][..col] == row[..j];
    } else {
      assert row[..j + 1] == row[..j] + [row[j]];
    }
  }

  /** Row `i` of the minor is the copy of row `i + 1` without the entry at `col`. */
  lemma MinorRow(g: Grid, col: nat, i: nat, dst: seq<Rational>, newRow: seq<Rational>)
    requires |g| > 0 && Rectangular(g) && Width(g) > 0 && i < |g| - 1
    requires |dst| == Width(g) - 1 && newRow == Without(g[i + 1], col)
    ensures CopyInto(dst, newRow) == Minor(g, col)[i]
  {
  }

  lemma SpliceStep<T>(e: seq<T>, c: seq<T>, k: nat)
    requires |e| == |c| && k < |c|
    ensures (e[..k] + c[k..])[k := e[k]] == e[..k + 1] + c[k + 1..]
  {
  }

  lemma FilledNextEntry(g: Grid, target: Grid, i: nat, j: nat)
    requires FilledTo(g, target, i, j) && i < |g| && j < |g[i]|
    ensures FilledTo(g[i := g[i][j := target[i][j]]], target, i, j + 1)
  {
  }

  lemma FilledNextRow(g: Grid, target: Grid, i: nat)
    requires i < |g| && FilledTo(g, target, i, |g[i]|)
    ensures FilledTo(g, target, i + 1, 0)
  {
  }

  /** One round of the innermost product loop, on the grid being filled. */
  lemma AccumulateStep(before: Grid, a: Grid, bc: Grid, i: nat, j: nat, l: nat)
    requires i < |before| && j < |before[i]| && i < |a| && l < |bc| && |a[i]| >= |bc|
    requires forall q :: 0 <= q < |bc| ==> j < |bc[q]|
    ensures var g := before[i := before[i][j := ProductEntry(a, bc, i, j, l)]];
      g[i := g[i][j := Rationals.Add(g[i][j], Multiply(a[i][l], bc[l][j]))]]
      == before[i := before[i][j := ProductEntry(a, bc, i, j, l + 1)]]
  {
    var g := before[i := before[i][j := ProductEntry(a, bc, i, j, l)]];
    assert g[i][j] == ProductEntry(a, bc, i, j, l);
    assert g[i][j := ProductEntry(a, bc, i, j, l + 1)] == before[i][j := ProductEntry(a, bc, i, j, l + 1)];
  }

  /**
    `copy(dst, src)` (Go's built-in, used by `SetRow` at matrix.go:69-72): the
    first `min(|dst|, |src|)` entries come from `src`, the rest stay.
  */
  function CopyInto(dst: seq<Rational>, src: seq<Rational>): (r: seq<Rational>)
    ensures |r| == |dst|
    ensures forall k :: 0 <= k < |dst| && k < |src| ==> r[k] == src[k]
    ensures forall k :: |src| <= k < |dst| ==> r[k] == dst[k]
  {
    if |src| >= |dst| then src[..|dst|] else src + dst[|src|..]
  }

  /** A row with the entry at index `col` left out, as the loop of matrix.go:163-168 builds it. */
  function Without(row: seq<Rational>, col: nat): (r: seq<Rational>)
    ensures |r| == if col < |row| then |row| - 1 else |row|
    ensures forall k :: 0 <= k < |r| ==> r[k] == row[if k < col then k else k + 1]
  {
    if col < |row| then row[..col] + row[col + 1..] else row
  }

  class Matrix {
    var cells: seq<seq<Rational>>

    /** `New(rows, cols)` (matrix.go:50-59): every row `cols` zeros. */
    constructor New(rows: nat, cols: nat)
      ensures |cells| == rows
      ensures forall i :: 0 <= i < rows ==> |cells[i]| == cols
      ensures forall i, j :: 0 <= i < rows && 0 <= j < cols ==> cells[i][j] == ParseInt(0)
    {
      var m: seq<seq<Rational>> := [];
      var i := 0;
      while i < rows
        invariant 0 <= i <= rows && |m| == i
        invariant forall p :: 0 <= p < i ==> |m[p]| == cols
        invariant forall p, q :: 0 <= p < i && 0 <= q < cols ==> m[p][q] == ParseInt(0)
      {
        var row: seq<Rational> := [];
        var j := 0;
        while j < cols
          invariant 0 <= j <= cols && |row| == j
          invariant forall q :: 0 <= q < j ==> row[q] == ParseInt(0)
        {
          row := row + [ParseInt(0)];
          j := j + 1;
        }
        m := m + [row];
        i := i + 1;
      }
      cells := m;
    }

    /** `Rows` (matrix.go:61-63). */
    function Rows(): (r: nat)
      reads this
      ensures r == 0 <==> cells == []
    {
      |cells|
    }

    /** `Cols` (matrix.go:65-67): the width of the first row, which must exist. */
    function Cols(): (r: nat)
      reads this
      requires Rows() > 0
      ensures Rectangular(cells) ==> forall i :: 0 <= i < |cells| ==> |cells[i]| == r
    {
      |cells[0]|
    }

    /**
      The bounds guard of `Get` and `Set` (matrix.go:18, 42), exactly as
      written. It reads `Cols()` only when `row` does not already exceed `Rows()`.
    */
    predicate OutOfRange(row: int, col: int): (r: bool)
      reads this
      requires Rows() < row || Rows() > 0
      ensures Rectangular(cells) && 0 <= row < Rows() && 0 <= col < Cols() ==> !r
      ensures !r ==> row <= Rows() && col <= Cols()
    {
      Rows() < row || Cols() < col
    }

    /**
      `Get` (matrix.go:17-23). The guard passes `row == Rows()`,
      `col == Cols()` and negative indices, which then fault on the index: the
      precondition leaves those out.
    */
    function Get(row: int, col: int): (r: Result<Rational, MatrixError>)
      reads this
      requires Rows() < row || Rows() > 0
      requires !OutOfRange(row, col) ==> 0 <= row < Rows() && 0 <= col < |cells[row]|
      ensures Rectangular(cells) && 0 <= row < Rows() && 0 <= col < Cols() ==> r == Ok(cells[row][col])
      ensures r.Err? <==> row > Rows() || col > Cols()
      ensures r.Err? ==> r.error == WrongArguments
    {
      if OutOfRange(row, col) then Err(WrongArguments) else Ok(cells[row][col])
    }

    /** The bounds check `Get` evidently intends: an error for every index outside the grid. */
    function Lookup(row: int, col: int): (r: Result<Rational, MatrixError>)
      reads this
      ensures r.Ok? <==> 0 <= row < Rows() && 0 <= col < |cells[row]|
      ensures r.Ok? ==> r.value == cells[row][col]
      ensures r.Err? ==> r.error == WrongArguments
    {
      if 0 <= row < |cells| && 0 <= col < |cells[row]| then Ok(cells[row][col]) else Err(WrongArguments)
    }

    /** Inside the grid the guard as written and the intended check agree. */
    lemma GetAgreesInRange(row: int, col: int)
      requires Rectangular(cells) && 0 <= row < Rows() && 0 <= col < Cols()
      ensures !OutOfRange(row, col) && Get(row, col) == Lookup(row, col)
    {
    }

    /** The guard never refuses an index the intended check accepts. */
    lemma OutOfRangeIsOutside(row: int, col: int)
      requires Rectangular(cells) && Rows() > 0 && OutOfRange(row, col)
      ensures Lookup(row, col).Err?
    {
    }

    /**
      The guard lets through the indices just past the last row and column,
      and every negative one, all of which lie outside the grid.
    */
    lemma GuardMissesBoundary(k: int)
      requires Rectangular(cells) && Rows() > 0 && k < 0
      ensures !OutOfRange(Rows(), 0) && Lookup(Rows(), 0).Err?
      ensures !OutOfRange(0, Cols()) && Lookup(0, Cols()).Err?
      ensures !OutOfRange(k, 0) && Lookup(k, 0).Err?
      ensures !OutOfRange(0, k) && Lookup(0, k).Err?
    {
    }

    /** `GetRow` (matrix.go:33-39), with the same guard on the row alone; the row comes back as a value. */
    function GetRow(row: int): (r: Result<seq<Rational>, MatrixError>)
      reads this
      requires !(Rows() < row) ==> 0 <= row < Rows()
      ensures 0 <= row < Rows() ==> r == Ok(cells[row])
      ensures r.Err? <==> row > Rows()
    {
      if Rows() < row then Err(WrongArguments) else Ok(cells[row])
    }

    /** `Set` (matrix.go:41-48): the entry changes and nothing else does, or the guard reports an error. */
    method Set(row: int, col: int, v: Rational) returns (e: Outcome<MatrixError>)
      modifies this
      requires Rows() < row || Rows() > 0
      requires !OutOfRange(row, col) ==> 0 <= row < Rows() && 0 <= col < |cells[row]|
      ensures e.Fail? <==> old(OutOfRange(row, col))
      ensures e.Fail? ==> e.error == WrongArguments && cells == old(cells)
      ensures e.Pass? ==> cells == old(cells)[row := old(cells)[row][col := v]]
      ensures e.Pass? ==> Lookup(row, col) == Ok(v)
      ensures e.Pass? ==> forall p, q :: (p, q) != (row, col) ==> Lookup(p, q) == old(Lookup(p, q))
    {
      if OutOfRange(row, col) {
        return Fail(WrongArguments);
      }
      cells := cells[row := cells[row][col := v]];
      return Pass;
    }

    /** `SetRow` (matrix.go:69-72): copies into row `index` and returns the receiver itself. */
    method SetRow(index: int, row: seq<Rational>) returns (m: Matrix)
      modifies this
      requires 0 <= index < Rows()
      ensures m == this
      ensures cells == old(cells)[index := CopyInto(old(cells)[index], row)]
    {
      cells := cells[index := CopyInto(cells[index], row)];
      return this;
    }

    /** `a.Add(b)` (matrix.go:91-106). */
    method Add(b: Matrix) returns (r: Result<Matrix, MatrixError>)
      requires Rectangular(cells) && Rectangular(b.cells)
      requires Rows() == b.Rows() ==> Rows() > 0
      ensures r.Err? <==> Rows() != b.Rows() || Cols() != b.Cols()
      ensures r.Err? ==> r.error == WrongSizes
      ensures r.Ok? ==> fresh(r.value) && r.value.cells == AddGrid(cells, b.cells)
    {
      if Rows() != b.Rows() || Cols() != b.Cols() {
        return Err(WrongSizes);
      }
      ghost var target := AddGrid(cells, b.cells);
      var c := new Matrix.New(Rows(), Cols());
      var i := 0;
      while i < |cells|
        invariant 0 <= i <= |cells|
        invariant FilledTo(c.cells, target, i, 0)
      {
        var row := cells[i];
        var j := 0;
        while j < |row|
          invariant 0 <= j <= |row|
          invariant FilledTo(c.cells, target, i, j)
        {
          var bVal := b.Get(i, j).value;
          var _ := c.Set(i, j, Rationals.Add(row[j], bVal));
          j := j + 1;
        }
        FilledNextRow(c.cells, target, i);
        i := i + 1;
      }
      FilledAll(c.cells, target);
      return Ok(c);
    }

    /**
      `a.Product(b)` (matrix.go:74-89), with its size check as written: the
      result is refused exactly when `a.Rows() != b.Cols()`. When the check
      passes a row of `a` must still reach `b.Rows()` entries, or the loop
      faults on the index.
    */
    method Product(b: Matrix) returns (r: Result<Matrix, MatrixError>)
      requires Rectangular(cells) && Rectangular(b.cells) && b.Rows() > 0
      requires Rows() == b.Cols() ==> forall i :: 0 <= i < Rows() ==> |cells[i]| >= b.Rows()
      ensures r.Err? <==> Rows() != b.Cols()
      ensures r.Err? ==> r.error == WrongSizes
      ensures r.Ok? ==> fresh(r.value) && r.value.cells == ProductGrid(cells, b.cells)
    {
      if Rows() != b.Cols() {
        return Err(WrongSizes);
      }
      var c := FillProduct(b);
      return Ok(c);
    }

    /** `Product` with the size check it evidently intends: `a.Cols() != b.Rows()`. */
    method ProductChecked(b: Matrix) returns (r: Result<Matrix, MatrixError>)
      requires Rectangular(cells) && Rectangular(b.cells) && Rows() > 0 && b.Rows() > 0
      ensures r.Err? <==> Cols() != b.Rows()
      ensures r.Err? ==> r.error == WrongSizes
      ensures r.Ok? ==> fresh(r.value) && |r.value.cells| == Rows() && Rectangular(r.value.cells)
      ensures r.Ok? ==> r.value.Cols() == b.Cols() && r.value.cells == ProductGrid(cells, b.cells)
    {
      if Cols() != b.Rows() {
        return Err(WrongSizes);
      }
      var c := FillProduct(b);
      return Ok(c);
    }

    /** The loops of matrix.go:78-88: entry `(i, j)` accumulates `a[i][l].Multiply(b[l][j])` in place. */
    method FillProduct(b: Matrix) returns (c: Matrix)
      requires Rectangular(cells) && Rectangular(b.cells) && b.Rows() > 0
      requires forall i :: 0 <= i < |cells| ==> |cells[i]| >= |b.cells|
      ensures fresh(c) && c.cells == ProductGrid(cells, b.cells)
    {
      var a, bc := cells, b.cells;
      ghost var target := ProductGrid(a, bc);
      c := new Matrix.New(Rows(), b.Cols());
      var i := 0;
      while i < |a|
        invariant 0 <= i <= |a|
        invariant FilledTo(c.cells, target, i, 0)
      {
        var j := 0;
        while j < |bc[0]|
          invariant 0 <= j <= |bc[0]|
          invariant FilledTo(c.cells, target, i, j)
        {
          ghost var before := c.cells;
          assert before[i][j] == ProductEntry(a, bc, i, j, 0);
          AccumulateEntry(c, a, bc, i, j);
          FilledNextEntry(before, target, i, j);
          j := j + 1;
        }
        FilledNextRow(c.cells, target, i);
        i := i + 1;
      }
      FilledAll(c.cells, target);
    }

    /** The innermost loop of matrix.go:82-85, summing into entry `(i, j)` of the fresh `c`. */
    static method AccumulateEntry(c: Matrix, a: Grid, bc: Grid, i: nat, j: nat)
      modifies c
      requires i < |c.cells| && j < |c.cells[i]| && i < |a| && |a[i]| >= |bc|
      requires forall q :: 0 <= q < |bc| ==> j < |bc[q]|
      requires c.cells[i][j] == ProductEntry(a, bc, i, j, 0)
      ensures c.cells == old(c.cells)[i := old(c.cells)[i][j := ProductEntry(a, bc, i, j, |bc|)]]
    {
      ghost var before := c.cells;
      assert before[i][j := before[i][j]] == before[i];
      assert before[i := before[i]] == before;
      var l := 0;
      while l < |bc|
        invariant 0 <= l <= |bc|
        invariant c.cells == before[i := before[i][j := ProductEntry(a, bc, i, j, l)]]
      {
        var p := Multiply(a[i][l], bc[l][j]);
        AccumulateStep(before, a, bc, i, j, l);
        c.cells := c.cells[i := c.cells[i][j := Rationals.Add(c.cells[i][j], p)]];
        l := l + 1;
      }
    }

    /** `a.Scalar(p)` (matrix.go:108-116): a fresh matrix; `a` keeps its entries. */
    method Scalar(p: Rational) returns (result: Matrix)
      requires Rectangular(cells) && Rows() > 0
      ensures fresh(result) && result.cells == ScalarGrid(cells, p)
    {
      ghost var target := ScalarGrid(cells, p);
      result := new Matrix.New(Rows(), Cols());
      var i := 0;
      while i < |cells|
        invariant 0 <= i <= |cells|
        invariant FilledTo(result.cells, target, i, 0)
      {
        var row := cells[i];
        var j := 0;
        while j < |row|
          invariant 0 <= j <= |row|
          invariant FilledTo(result.cells, target, i, j)
        {
          var _ := result.Set(i, j, Multiply(row[j], p));
          j := j + 1;
        }
        FilledNextRow(result.cells, target, i);
        i := i + 1;
      }
      FilledAll(result.cells, target);
    }

    /** `m.Transpose()` (matrix.go:174-182): row `j` of `m` becomes column `j` of the result. */
    method Transpose() returns (result: Matrix)
      requires Rectangular(cells) && Rows() > 0
      ensures fresh(result) && result.cells == TransposeGrid(cells)
    {
      ghost var target := TransposeGrid(cells);
      result := new Matrix.New(Cols(), Rows());
      var j := 0;
      while j < |cells|
        invariant 0 <= j <= |cells|
        invariant FilledByColumns(result.cells, target, j, 0)
      {
        var row := cells[j];
        var i := 0;
        while i < |row|
          invariant 0 <= i <= |row|
          invariant FilledByColumns(result.cells, target, j, i)
        {
          var _ := result.Set(i, j, row[i]);
          i := i + 1;
        }
        j := j + 1;
      }
      FilledColumnsAll(result.cells, target, |cells|);
    }

    /**
      `m.minor(col)` (matrix.go:151-172): first every row but the first is
      copied into a fresh matrix, then each of those rows, less its entry at
      `col`, is copied into a second fresh matrix one column narrower.
    */
    method Minor(col: nat) returns (result: Matrix)
      requires Rectangular(cells) && Rows() > 0 && Cols() > 0
      ensures fresh(result) && result.cells == Grids.Minor(cells, col)
    {
      var noFirstRow := new Matrix.New(Rows() - 1, Cols());
      var i := 0;
      while i < |cells|
        invariant 0 <= i <= |cells| && |noFirstRow.cells| == |cells| - 1
        invariant forall p :: 0 <= p < |cells| - 1 ==> |noFirstRow.cells[p]| == Cols()
        invariant forall p :: 0 <= p < |cells| - 1 && p + 1 < i ==> noFirstRow.cells[p] == cells[p + 1]
      {
        if i != 0 {
          CopyIntoSame(noFirstRow.cells[i - 1], cells[i]);
          var _ := noFirstRow.SetRow(i - 1, cells[i]);
        }
        i := i + 1;
      }
      result := new Matrix.New(noFirstRow.Rows(), Cols() - 1);
      DropColumn(cells, noFirstRow.cells, col, result);
    }

    /** The second loop of `minor` (matrix.go:162-170): each row without its entry at `col`. */
    static method DropColumn(g: Grid, rows: Grid, col: nat, result: Matrix)
      modifies result
      requires |g| > 0 && Rectangular(g) && Width(g) > 0
      requires |rows| == |g| - 1 && forall p :: 0 <= p < |rows| ==> rows[p] == g[p + 1]
      requires |result.cells| == |rows| && forall p :: 0 <= p < |rows| ==> |result.cells[p]| == Width(g) - 1
      ensures result.cells == Grids.Minor(g, col)
    {
      ghost var target := Grids.Minor(g, col);
      var i := 0;
      while i < |rows|
        invariant 0 <= i <= |rows| && |result.cells| == |target|
        invariant forall p :: 0 <= p < |target| ==> |result.cells[p]| == Width(g) - 1
        invariant forall p :: 0 <= p < i ==> result.cells[p] == target[p]
      {
        var newRow := WithoutColumn(rows[i], col);
        MinorRow(g, col, i, result.cells[i], newRow);
        var _ := result.SetRow(i, newRow);
        i := i + 1;
      }
    }

    /** The loop of matrix.go:163-168: `append` every entry but the one at `col`. */
    static method WithoutColumn(row: seq<Rational>, col: nat) returns (newRow: seq<Rational>)
      ensures newRow == Without(row, col)
    {
      newRow := [];
      var j := 0;
      while j < |row|
        invariant 0 <= j <= |row|
        invariant newRow == Without(row[..j], col)
      {
        WithoutStep(row, col, j);
        if j != col {
          newRow := newRow + [row[j]];
        }
        j := j + 1;
      }
      assert row[..|row|] == row;
    }

    /**
      `m.DeterminantClassic()` (matrix.go:118-149): the cross product for a
      2×2 matrix, otherwise the first-row cofactor expansion over recursive
      calls on the minors. A 1×1 matrix recurses into a matrix without rows,
      whose `Cols()` faults, so the precondition leaves it out.
    */
    method DeterminantClassic() returns (r: Result<Rational, MatrixError>)
      requires Rectangular(cells) && Rows() > 0
      requires Rows() == Cols() ==> Rows() >= 2
      ensures r.Err? <==> Rows() != Cols()
      ensures r.Err? ==> r.error == NotSquare
      ensures r.Ok? ==> r.value == ClassicDet(cells)
      decreases |cells|, 2
    {
      if Rows() != Cols() {
        return Err(NotSquare);
      }
      if Rows() == 2 {
        var d := CrossProduct();
        return Ok(d);
      }
      var d := Expansion();
      return Ok(d);
    }

    /** The loop of matrix.go:132-146: the cofactor expansion along the first row. */
    method Expansion() returns (d: Rational)
      requires IsSquare(cells) && |cells| >= 3
      ensures d == ExpansionSum(cells, |cells|)
      decreases |cells|, 1
    {
      d := ParseInt(0);
      var col := 0;
      while col < |cells[0]|
        invariant 0 <= col <= |cells|
        invariant d == ExpansionSum(cells, col)
      {
        var td := Cofactor(col);
        d := Rationals.Add(d, td);
        col := col + 1;
      }
      assert col == |cells|;
    }

    /** The 2×2 case of matrix.go:122-129: `a*b - c*d` over the four entries. */
    method CrossProduct() returns (d: Rational)
      requires IsSquare(cells) && |cells| == 2
      ensures d == ClassicDet(cells)
    {
      var a := Get(0, 0).value;
      var b := Get(1, 1).value;
      var c := Get(0, 1).value;
      var e := Get(1, 0).value;
      a := Multiply(a, b);
      b := Multiply(c, e);
      d := Sub(a, b);
    }

    /**
      One turn of the loop at matrix.go:132-146: the entry of the first row,
      times the determinant of its minor, times `(-1)^col`.
    */
    method Cofactor(col: nat) returns (td: Rational)
      requires IsSquare(cells) && |cells| >= 3 && col < |cells|
      ensures td == Multiply(Multiply(cells[0][col], ClassicDet(Grids.Minor(cells, col))), Sign(col))
      decreases |cells|, 0
    {
      var element := cells[0][col];
      var minorMatrix := Minor(col);
      // math.Pow(-1, col) is negative exactly when col is odd.
      var sign := ParseInt(1);
      if col % 2 == 1 {
        sign := ParseInt(-1);
      }
      MinorSquare(cells, col);
      var minorDet := minorMatrix.DeterminantClassic();
      td := Multiply(element, minorDet.value);
      td := Multiply(td, sign);
    }

    /**
      `m.Determinant()` (matrix.go:184-228): Gaussian elimination without
      pivoting, in place on the receiver's rows (`result := m`, and `GetRow`
      hands out the live row that `cr[k] = v` writes through), then the
      product of the diagonal.
    */
    method Determinant() returns (r: Result<Rational, MatrixError>)
      modifies this
      requires Rectangular(cells) && Rows() > 0
      ensures r.Err? <==> old(Rows() != Cols())
      ensures r.Err? ==> r.error == NotSquare && cells == old(cells)
      ensures r.Ok? ==> cells == Triangulate(old(cells), 0)
      ensures r.Ok? ==> r.value == DiagonalProduct(cells, |cells|)
    {
      if Rows() != Cols() {
        return Err(NotSquare);
      }
      ghost var target := Triangulate(cells, 0);
      var j := 0;
      while j < Cols()
        invariant IsSquare(cells) && |cells| > 0 && 0 <= j <= |cells|
        invariant Triangulate(cells, j) == target
      {
        SweepColumn(j);
        j := j + 1;
      }
      var d := Diagonal();
      return Ok(d);
    }

    /** The loop of matrix.go:190-214 for one pivot column `j`. */
    method SweepColumn(j: nat)
      modifies this
      requires IsSquare(cells) && j < |cells|
      ensures cells == Sweep(old(cells), j, 1)
    {
      var i := 1;
      while i < Rows()
        invariant IsSquare(cells) && 1 <= i <= |cells| == |old(cells)|
        invariant Sweep(cells, j, i) == Sweep(old(cells), j, 1)
      {
        if j < i {
          ghost var before := cells;
          ClearBelow(j, i);
          assert Sweep(before, j, i) == Sweep(cells, j, i + 1);
        }
        i := i + 1;
      }
    }

    /**
      Row `i` less the multiplier `m[i][j] / m[j][j]` times row `j`
      (matrix.go:192-212). The skip at matrix.go:193 compares the pointer
      `element` with a freshly allocated `ParseInt(0)`: never equal, so it
      never fires.
    */
    method ClearBelow(j: nat, i: nat)
      modifies this
      requires IsSquare(cells) && j < i < |cells|
      ensures cells == Step(old(cells), j, i)
    {
      var element := Get(i, j).value;
      var d := Get(j, j).value;
      var m := Divide(element, d);
      var mr := GetRow(j).value;
      var cr := GetRow(i).value;
      EliminateInPlace(i, cr, mr, m);
      // `cr` is the live row in Go, so `SetRow(i, cr)` copies row `i` onto itself.
      CopyIntoSame(cells[i], cells[i]);
      var _ := SetRow(i, cells[i]);
    }

    /**
      The write loop of matrix.go:200-211: `cr[k] = cr[k] - mr[k]*m`, entry by
      entry, where `cr` is row `i` as `GetRow` handed it out.
    */
    method EliminateInPlace(i: nat, cr: seq<Rational>, mr: seq<Rational>, m: Rational)
      modifies this
      requires i < |cells| && cr == cells[i] && |mr| >= |cr|
      ensures cells == old(cells)[i := EliminateRow(old(cells)[i], mr, m)]
    {
      ghost var before := cells;
      assert before[i := cr] == before;
      assert EliminateRow(cr, mr, m)[..0] + cr[0..] == cr;
      var k := 0;
      while k < |cr|
        invariant 0 <= k <= |cr|
        invariant cells == before[i := EliminateRow(cr, mr, m)[..k] + cr[k..]]
      {
        var v := Sub(cr[k], Multiply(mr[k], m));
        SpliceStep(EliminateRow(cr, mr, m), cr, k);
        cells := cells[i := cells[i][k := v]];
        k := k + 1;
      }
      assert EliminateRow(cr, mr, m)[..|cr|] + cr[|cr|..] == EliminateRow(cr, mr, m);
    }

    /** The loop of matrix.go:219-226: the product of the diagonal entries. */
    method Diagonal() returns (d: Rational)
      requires IsSquare(cells)
      ensures d == DiagonalProduct(cells, |cells|)
    {
      d := ParseInt(1);
      var i := 0;
      while i < |cells|
        invariant 0 <= i <= |cells|
        invariant d == DiagonalProduct(cells, i)
      {
        var row := cells[i];
        var j := 0;
        while j < |row|
          invariant 0 <= j <= |row|
          invariant d == DiagonalProduct(cells, if j > i then i + 1 else i)
        {
          if i == j {
            d := Multiply(d, row[j]);
          }
          j := j + 1;
        }
        i := i + 1;
      }
    }
  }
}

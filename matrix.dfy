/**
  `MatrixT<real, rows, cols>`: a fixed-size dense matrix held row by row in
  `data[rows][cols]`, with in-place row, column and whole-matrix operations.

  Entries are exact `real`s.  The value of a matrix is its `Grid`, a
  sequence of rows; each operation is first a function on grids, and each
  method of `MatrixT` is proved to leave `Cells()` equal to that function of
  the old cells, so that "this row changes and nothing else does" is stated
  once, by the function.  The lemmas after the functions relate the
  operations to each other (undoing a row operation, transposing twice,
  multiplying by the identity, ...).
 */
module Matrix {

  type Grid = seq<seq<real>>

  /** `rows` rows of `cols` entries each. */
  predicate Shaped(g: Grid, rows: nat, cols: nat)
  {
    |g| == rows && forall r :: 0 <= r < rows ==> |g[r]| == cols
  }

  // ---------------------------------------------------------------------
  // The operations on values
  // ---------------------------------------------------------------------

  /** `setRow(row, toWhat)`: row `row` becomes `v`. */
  function RowSet(g: Grid, row: nat, v: seq<real>): Grid
    requires row < |g|
  {
    g[row := v]
  }

  /** `swapRow(r1, r2)`: rows `r1` and `r2` trade places. */
  function RowsSwapped(g: Grid, r1: nat, r2: nat): Grid
    requires r1 < |g| && r2 < |g|
  {
    g[r1 := g[r2]][r2 := g[r1]]
  }

  /** Every entry of `v` multiplied by `s`. */
  function Scaled(v: seq<real>, s: real): (w: seq<real>)
    ensures |w| == |v|
  {
    seq(|v|, c requires 0 <= c < |v| => v[c] * s)
  }

  /** `u[c] + v[c] * s` for every `c`. */
  function Combined(u: seq<real>, v: seq<real>, s: real): (w: seq<real>)
    requires |u| == |v|
    ensures |w| == |u|
  {
    seq(|u|, c requires 0 <= c < |u| => u[c] + v[c] * s)
  }

  /** `u[c] + v[c]` for every `c`. */
  function Plus(u: seq<real>, v: seq<real>): (w: seq<real>)
    requires |u| == |v|
    ensures |w| == |u|
  {
    seq(|u|, c requires 0 <= c < |u| => u[c] + v[c])
  }

  /** `scaleRow(row, s)`: row `row` multiplied by `s`. */
  function RowScaled(g: Grid, row: nat, s: real): Grid
    requires row < |g|
  {
    g[row := Scaled(g[row], s)]
  }

  /** `scaleAddRow(src, s, dst)`: `s` times row `src` added to row `dst`. */
  function RowScaleAdded(g: Grid, src: nat, s: real, dst: nat): Grid
    requires src < |g| && dst < |g| && |g[src]| == |g[dst]|
  {
    g[dst := Combined(g[dst], g[src], s)]
  }

  /** `setColumn(col, toWhat)`: entry `col` of row `r` becomes `v[r]`. */
  function ColumnSet(g: Grid, cols: nat, col: nat, v: seq<real>): Grid
    requires Shaped(g, |v|, cols) && col < cols
  {
    seq(|g|, r requires 0 <= r < |g| => g[r][col := v[r]])
  }

  /** `add(m)`: the entrywise sum. */
  function Sum(a: Grid, b: Grid, rows: nat, cols: nat): (g: Grid)
    requires Shaped(a, rows, cols) && Shaped(b, rows, cols)
    ensures Shaped(g, rows, cols)
  {
    seq(rows, r requires 0 <= r < rows => Plus(a[r], b[r]))
  }

  /** `operator*=(s)`: every entry multiplied by `s`. */
  function AllScaled(g: Grid, s: real): (h: Grid)
    ensures |h| == |g| && forall r :: 0 <= r < |g| ==> |h[r]| == |g[r]|
  {
    seq(|g|, r requires 0 <= r < |g| => Scaled(g[r], s))
  }

  /** `transpose(dest)`: entry (c, r) of the result is entry (r, c) of `g`. */
  function Transposed(g: Grid, rows: nat, cols: nat): (t: Grid)
    requires Shaped(g, rows, cols)
    ensures Shaped(t, cols, rows)
  {
    seq(cols, c requires 0 <= c < cols => seq(rows, r requires 0 <= r < rows => g[r][c]))
  }

  /** `identity(x)`: `x` on the diagonal and 0 elsewhere. */
  function Diagonal(rows: nat, cols: nat, x: real): (g: Grid)
    ensures Shaped(g, rows, cols)
  {
    seq(rows, r requires 0 <= r < rows => seq(cols, c requires 0 <= c < cols => if r == c then x else 0.0))
  }

  /** The sum of `u[i] * v[i]` over `i < n`, added up from `i = 0` on. */
  function Dot(u: seq<real>, v: seq<real>, n: nat): real
    requires n <= |u| && n <= |v|
  {
    if n == 0 then 0.0 else Dot(u, v, n - 1) + u[n - 1] * v[n - 1]
  }

  /** Column `c` of `g`. */
  function Column(g: Grid, c: nat): (v: seq<real>)
    requires forall r :: 0 <= r < |g| ==> c < |g[r]|
    ensures |v| == |g|
  {
    seq(|g|, r requires 0 <= r < |g| => g[r][c])
  }

  /** `product(by, dest)`: a `rows` x `cols` matrix times a `cols` x `rows` one. */
  function Times(a: Grid, b: Grid, rows: nat, cols: nat): (g: Grid)
    requires Shaped(a, rows, cols) && Shaped(b, cols, rows)
    ensures Shaped(g, rows, rows)
  {
    seq(rows, r requires 0 <= r < rows => seq(rows, c requires 0 <= c < rows => Dot(a[r], Column(b, c), cols)))
  }

  /** `apply(in, out)`: the matrix applied to the vector `v` of `cols` entries. */
  function Applied(a: Grid, v: seq<real>, rows: nat, cols: nat): (w: seq<real>)
    requires Shaped(a, rows, cols) && |v| == cols
    ensures |w| == rows
  {
    seq(rows, r requires 0 <= r < rows => Dot(a[r], v, cols))
  }

  /** Free `copy(s, d)`: the top-left block that `s` and `d` share is taken from `s`. */
  function Overlay(d: Grid, s: Grid, drows: nat, dcols: nat, srows: nat, scols: nat): (g: Grid)
    requires Shaped(d, drows, dcols) && Shaped(s, srows, scols)
    ensures Shaped(g, drows, dcols)
  {
    seq(drows, r requires 0 <= r < drows =>
      seq(dcols, c requires 0 <= c < dcols => if r < srows && c < scols then s[r][c] else d[r][c]))
  }

  // ---------------------------------------------------------------------
  // What the operations do to each other
  // ---------------------------------------------------------------------

  /** Two grids of one shape with the same entries are equal. */
  lemma SameGrid(g: Grid, h: Grid, rows: nat, cols: nat)
    requires Shaped(g, rows, cols) && Shaped(h, rows, cols)
    requires forall r, c :: 0 <= r < rows && 0 <= c < cols ==> g[r][c] == h[r][c]
    ensures g == h
  {
    forall r | 0 <= r < rows
      ensures g[r] == h[r]
    {
      assert forall c :: 0 <= c < cols ==> g[r][c] == h[r][c];
    }
  }

  /** Swapping two rows and swapping them again restores the matrix, in either order. */
  lemma SwapTwice(g: Grid, r1: nat, r2: nat)
    requires r1 < |g| && r2 < |g|
    ensures RowsSwapped(RowsSwapped(g, r1, r2), r1, r2) == g
    ensures RowsSwapped(g, r1, r2) == RowsSwapped(g, r2, r1)
  {
    var h := RowsSwapped(g, r1, r2);
    assert RowsSwapped(h, r1, r2) == g;
  }

  /** Swapping two rows keeps the same rows. */
  lemma SwapPermutes(g: Grid, r1: nat, r2: nat)
    requires r1 < |g| && r2 < |g|
    ensures multiset(RowsSwapped(g, r1, r2)) == multiset(g)
  {
    if r1 != r2 {
      var g1 := g[r1 := g[r2]];
      assert g1[r2] == g[r2];
      assert multiset(g1) == multiset(g) - multiset{g[r1]} + multiset{g[r2]};
      assert multiset(g1[r2 := g[r1]]) == multiset(g1) - multiset{g[r2]} + multiset{g[r1]};
    }
  }

  /** Scaling a row by a non-zero `s` and then by `1 / s` restores it. */
  lemma ScaleUndone(g: Grid, row: nat, s: real)
    requires row < |g| && s != 0.0
    ensures RowScaled(RowScaled(g, row, s), row, 1.0 / s) == g
  {
    var v := g[row];
    forall c | 0 <= c < |v|
      ensures Scaled(Scaled(v, s), 1.0 / s)[c] == v[c]
    {
      calc {
        Scaled(Scaled(v, s), 1.0 / s)[c];
        (v[c] * s) * (1.0 / s);
        v[c] * (s * (1.0 / s));
        v[c];
      }
    }
    assert Scaled(Scaled(v, s), 1.0 / s) == v;
  }

  /** Adding `s` times another row and then `-s` times it restores the row. */
  lemma ScaleAddUndone(g: Grid, src: nat, s: real, dst: nat)
    requires src < |g| && dst < |g| && |g[src]| == |g[dst]| && src != dst
    ensures RowScaleAdded(RowScaleAdded(g, src, s, dst), src, -s, dst) == g
  {
    var h := RowScaleAdded(g, src, s, dst);
    assert h[src] == g[src];
    assert Combined(h[dst], g[src], -s) == g[dst];
  }

  /** Transposing twice gives the matrix back. */
  lemma TransposeTwice(g: Grid, rows: nat, cols: nat)
    requires Shaped(g, rows, cols)
    ensures Transposed(Transposed(g, rows, cols), cols, rows) == g
  {
    SameGrid(Transposed(Transposed(g, rows, cols), cols, rows), g, rows, cols);
  }

  /** Setting a column is setting a row of the transpose. */
  lemma ColumnIsTransposedRow(g: Grid, rows: nat, cols: nat, col: nat, v: seq<real>)
    requires Shaped(g, rows, cols) && col < cols && |v| == rows
    ensures ColumnSet(g, cols, col, v) == Transposed(RowSet(Transposed(g, rows, cols), col, v), cols, rows)
  {
    var t := Transposed(g, rows, cols);
    SameGrid(ColumnSet(g, cols, col, v), Transposed(RowSet(t, col, v), cols, rows), rows, cols);
  }

  /** The diagonal matrix is its own transpose, with the dimensions exchanged. */
  lemma DiagonalTransposed(rows: nat, cols: nat, x: real)
    ensures Transposed(Diagonal(rows, cols, x), rows, cols) == Diagonal(cols, rows, x)
  {
    SameGrid(Transposed(Diagonal(rows, cols, x), rows, cols), Diagonal(cols, rows, x), cols, rows);
  }

  /** `MatrixT(x)` is the identity scaled by `x`. */
  lemma DiagonalIsScaledIdentity(rows: nat, cols: nat, x: real)
    ensures AllScaled(Diagonal(rows, cols, 1.0), x) == Diagonal(rows, cols, x)
  {
    SameGrid(AllScaled(Diagonal(rows, cols, 1.0), x), Diagonal(rows, cols, x), rows, cols);
  }

  /** Entrywise addition does not depend on the order of the operands. */
  lemma SumCommutes(a: Grid, b: Grid, rows: nat, cols: nat)
    requires Shaped(a, rows, cols) && Shaped(b, rows, cols)
    ensures Sum(a, b, rows, cols) == Sum(b, a, rows, cols)
  {
    SameGrid(Sum(a, b, rows, cols), Sum(b, a, rows, cols), rows, cols);
  }

  /** The entries before `k` of a row of the identity pick entry `r` of `v` out, if it is among them. */
  lemma {:induction false} DotUnit(v: seq<real>, n: nat, r: nat, k: nat)
    requires k <= n && k <= |v| && r < n
    ensures Dot(Diagonal(n, n, 1.0)[r], v, k) == if r < k then v[r] else 0.0
  {
    if k > 0 {
      DotUnit(v, n, r, k - 1);
    }
  }

  /** The sum of products is symmetric in its two vectors. */
  lemma {:induction false} DotCommutes(u: seq<real>, v: seq<real>, n: nat)
    requires n <= |u| && n <= |v|
    ensures Dot(u, v, n) == Dot(v, u, n)
  {
    if n > 0 {
      DotCommutes(u, v, n - 1);
    }
  }

  /** The sum of products distributes over the entrywise sum. */
  lemma {:induction false} DotPlus(u: seq<real>, w: seq<real>, v: seq<real>, n: nat)
    requires |u| == |w| && n <= |u| && n <= |v|
    ensures Dot(Plus(u, w), v, n) == Dot(u, v, n) + Dot(w, v, n)
  {
    if n > 0 {
      DotPlus(u, w, v, n - 1);
    }
  }

  /** The identity leaves a vector as it is. */
  lemma ApplyIdentity(n: nat, v: seq<real>)
    requires |v| == n
    ensures Applied(Diagonal(n, n, 1.0), v, n, n) == v
  {
    forall r | 0 <= r < n
      ensures Applied(Diagonal(n, n, 1.0), v, n, n)[r] == v[r]
    {
      DotUnit(v, n, r, n);
    }
  }

  /** Applying a sum of two matrices adds what each of them gives. */
  lemma ApplySum(a: Grid, b: Grid, v: seq<real>, rows: nat, cols: nat)
    requires Shaped(a, rows, cols) && Shaped(b, rows, cols) && |v| == cols
    ensures Applied(Sum(a, b, rows, cols), v, rows, cols) == Plus(Applied(a, v, rows, cols), Applied(b, v, rows, cols))
  {
    forall r | 0 <= r < rows
      ensures Applied(Sum(a, b, rows, cols), v, rows, cols)[r]
        == Plus(Applied(a, v, rows, cols), Applied(b, v, rows, cols))[r]
    {
      DotPlus(a[r], b[r], v, cols);
    }
  }

  /** Multiplying by the identity on either side leaves a square matrix as it is. */
  lemma TimesIdentity(a: Grid, n: nat)
    requires Shaped(a, n, n)
    ensures Times(a, Diagonal(n, n, 1.0), n, n) == a
    ensures Times(Diagonal(n, n, 1.0), a, n, n) == a
  {
    var id := Diagonal(n, n, 1.0);
    forall r, c | 0 <= r < n && 0 <= c < n
      ensures Times(a, id, n, n)[r][c] == a[r][c]
      ensures Times(id, a, n, n)[r][c] == a[r][c]
    {
      assert Column(id, c) == id[c];
      DotCommutes(a[r], id[c], n);
      DotUnit(a[r], n, c, n);
      DotUnit(Column(a, c), n, r, n);
    }
    SameGrid(Times(a, id, n, n), a, n, n);
    SameGrid(Times(id, a, n, n), a, n, n);
  }

  /** The transpose of a product is the product of the transposes, in the other order. */
  lemma TimesTransposed(a: Grid, b: Grid, rows: nat, cols: nat)
    requires Shaped(a, rows, cols) && Shaped(b, cols, rows)
    ensures Transposed(Times(a, b, rows, cols), rows, rows)
      == Times(Transposed(b, cols, rows), Transposed(a, rows, cols), rows, cols)
  {
    var at, bt := Transposed(a, rows, cols), Transposed(b, cols, rows);
    forall r, c | 0 <= r < rows && 0 <= c < rows
      ensures Transposed(Times(a, b, rows, cols), rows, rows)[r][c] == Times(bt, at, rows, cols)[r][c]
    {
      assert Column(at, c) == a[c];
      assert bt[r] == Column(b, r);
      DotCommutes(a[c], Column(b, r), cols);
    }
    SameGrid(Transposed(Times(a, b, rows, cols), rows, rows), Times(bt, at, rows, cols), rows, rows);
  }

  /** Copying a matrix onto one of the same size gives the copied matrix, whatever was there. */
  lemma OverlayWhole(d: Grid, s: Grid, rows: nat, cols: nat)
    requires Shaped(d, rows, cols) && Shaped(s, rows, cols)
    ensures Overlay(d, s, rows, cols, rows, cols) == s
  {
    SameGrid(Overlay(d, s, rows, cols, rows, cols), s, rows, cols);
  }

  /** Copying the same matrix twice changes nothing more. */
  lemma OverlayTwice(d: Grid, s: Grid, drows: nat, dcols: nat, srows: nat, scols: nat)
    requires Shaped(d, drows, dcols) && Shaped(s, srows, scols)
    ensures Overlay(Overlay(d, s, drows, dcols, srows, scols), s, drows, dcols, srows, scols)
      == Overlay(d, s, drows, dcols, srows, scols)
  {
    var o := Overlay(d, s, drows, dcols, srows, scols);
    SameGrid(Overlay(o, s, drows, dcols, srows, scols), o, drows, dcols);
  }

  // ---------------------------------------------------------------------
  // The matrix in place
  // ---------------------------------------------------------------------

  /** `MatrixT<real, rows, cols>`: entry (r, c) is held at `data[r, c]`. */
  class MatrixT {
    const rows: nat
    const cols: nat
    const data: array2<real>

    predicate Valid()
      reads this
    {
      data.Length0 == rows && data.Length1 == cols
    }

    /** The entries, row by row. */
    function Cells(): (g: Grid)
      requires Valid()
      reads this, data
      ensures Shaped(g, rows, cols)
    {
      seq(rows, r requires 0 <= r < rows reads data =>
        seq(cols, c requires 0 <= c < cols reads data => data[r, c]))
    }

    /** The entries before (r, c), row by row, are those of `done`, the others those of `before`. */
    ghost predicate Upto(r: nat, c: nat, done: Grid, before: Grid)
      requires Valid() && Shaped(done, rows, cols) && Shaped(before, rows, cols)
      reads this, data
    {
      forall i, j :: 0 <= i < rows && 0 <= j < cols ==>
        data[i, j] == if i < r || (i == r && j < c) then done[i][j] else before[i][j]
    }

    /** The entries of the columns before `c` are those of `done`, the others those of `before`. */
    ghost predicate LeftOf(c: nat, done: Grid, before: Grid)
      requires Valid() && Shaped(done, rows, cols) && Shaped(before, rows, cols)
      reads this, data
    {
      forall i, j :: 0 <= i < rows && 0 <= j < cols ==>
        data[i, j] == if j < c then done[i][j] else before[i][j]
    }

    /** `MatrixT()`: the entries are not initialised. */
    constructor (rows: nat, cols: nat)
      ensures this.rows == rows && this.cols == cols && Valid() && fresh(data)
    {
      this.rows, this.cols := rows, cols;
      data := new real[rows, cols];
    }

    /** `MatrixT(x)`: the scaling matrix, made by `identity(x)`. */
    constructor Scaling(rows: nat, cols: nat, x: real)
      ensures this.rows == rows && this.cols == cols && Valid() && fresh(data)
      ensures Cells() == Diagonal(rows, cols, x)
    {
      this.rows, this.cols := rows, cols;
      data := new real[rows, cols];
      new;
      Identity(x);
    }

    /** `identity(x)`. */
    method Identity(x: real)
      requires Valid()
      modifies data
      ensures Cells() == Diagonal(rows, cols, x)
    {
      ghost var g0, target := Cells(), Diagonal(rows, cols, x);
      for r := 0 to rows
        invariant Upto(r, 0, target, g0)
      {
        for c := 0 to cols
          invariant Upto(r, c, target, g0)
        {
          data[r, c] := if r == c then x else 0.0;
        }
      }
      SameGrid(Cells(), target, rows, cols);
    }

    /** `setRow(row, toWhat)`: the first `cols` values of `toWhat` become row `row`. */
    method SetRow(row: nat, toWhat: seq<real>)
      requires Valid() && row < rows && cols <= |toWhat|
      modifies data
      ensures Cells() == RowSet(old(Cells()), row, toWhat[..cols])
    {
      ghost var g0 := Cells();
      ghost var target := RowSet(g0, row, toWhat[..cols]);
      for c := 0 to cols
        invariant LeftOf(c, target, g0)
      {
        data[row, c] := toWhat[c];
      }
      SameGrid(Cells(), target, rows, cols);
    }

    /** `swapRow(r1, r2)`. */
    method SwapRow(r1: nat, r2: nat)
      requires Valid() && r1 < rows && r2 < rows
      modifies data
      ensures Cells() == RowsSwapped(old(Cells()), r1, r2)
    {
      ghost var g0 := Cells();
      ghost var target := RowsSwapped(g0, r1, r2);
      for c := 0 to cols
        invariant LeftOf(c, target, g0)
      {
        var tmp := data[r1, c];
        data[r1, c] := data[r2, c];
        data[r2, c] := tmp;
      }
      SameGrid(Cells(), target, rows, cols);
    }

    /** `scaleRow(row, s)`. */
    method ScaleRow(row: nat, s: real)
      requires Valid() && row < rows
      modifies data
      ensures Cells() == RowScaled(old(Cells()), row, s)
    {
      ghost var g0 := Cells();
      ghost var target := RowScaled(g0, row, s);
      for c := 0 to cols
        invariant LeftOf(c, target, g0)
      {
        data[row, c] := data[row, c] * s;
      }
      SameGrid(Cells(), target, rows, cols);
    }

    /** `scaleAddRow(src, s, dst)`; `src` may be `dst`, which then becomes `1 + s` times itself. */
    method ScaleAddRow(src: nat, s: real, dst: nat)
      requires Valid() && src < rows && dst < rows
      modifies data
      ensures Cells() == RowScaleAdded(old(Cells()), src, s, dst)
    {
      ghost var g0 := Cells();
      ghost var target := RowScaleAdded(g0, src, s, dst);
      for c := 0 to cols
        invariant LeftOf(c, target, g0)
      {
        data[dst, c] := data[dst, c] + data[src, c] * s;
      }
      SameGrid(Cells(), target, rows, cols);
    }

    /** `setColumn(col, toWhat)`: the first `rows` values of `toWhat` become column `col`. */
    method SetColumn(col: nat, toWhat: seq<real>)
      requires Valid() && col < cols && rows <= |toWhat|
      modifies data
      ensures Cells() == ColumnSet(old(Cells()), cols, col, toWhat[..rows])
    {
      ghost var g0 := Cells();
      ghost var target := ColumnSet(g0, cols, col, toWhat[..rows]);
      for r := 0 to rows
        invariant Upto(r, 0, target, g0)
      {
        data[r, col] := toWhat[r];
      }
      SameGrid(Cells(), target, rows, cols);
    }

    /** `operator*=(s)`. */
    method Scale(s: real)
      requires Valid()
      modifies data
      ensures Cells() == AllScaled(old(Cells()), s)
    {
      ghost var g0 := Cells();
      ghost var target := AllScaled(g0, s);
      for r := 0 to rows
        invariant Upto(r, 0, target, g0)
      {
        for c := 0 to cols
          invariant Upto(r, c, target, g0)
        {
          data[r, c] := data[r, c] * s;
        }
      }
      SameGrid(Cells(), target, rows, cols);
    }

    /** `add(m)`; `m` may be this matrix, which then doubles. */
    method Add(m: MatrixT)
      requires Valid() && m.Valid() && m.rows == rows && m.cols == cols
      modifies data
      ensures Cells() == Sum(old(Cells()), old(m.Cells()), rows, cols)
    {
      ghost var g0, m0 := Cells(), m.Cells();
      ghost var target := Sum(g0, m0, rows, cols);
      for r := 0 to rows
        invariant Upto(r, 0, target, g0)
        invariant m.data != data ==> m.Cells() == m0
      {
        for c := 0 to cols
          invariant Upto(r, c, target, g0)
          invariant m.data != data ==> m.Cells() == m0
        {
          assert m.data[r, c] == m0[r][c];
          data[r, c] := data[r, c] + m.data[r, c];
        }
      }
      SameGrid(Cells(), target, rows, cols);
    }

    /** `transpose(dest)`, into another matrix. */
    method Transpose(dest: MatrixT)
      requires Valid() && dest.Valid() && dest.rows == cols && dest.cols == rows && dest.data != data
      modifies dest.data
      ensures dest.Cells() == Transposed(Cells(), rows, cols)
    {
      ghost var target := Transposed(Cells(), rows, cols);
      for r := 0 to rows
        invariant forall i, j :: 0 <= i < cols && 0 <= j < r ==> dest.data[i, j] == target[i][j]
      {
        for c := 0 to cols
          invariant forall i, j :: 0 <= i < cols && 0 <= j < rows && (j < r || (j == r && i < c)) ==>
                      dest.data[i, j] == target[i][j]
        {
          dest.data[c, r] := data[r, c];
        }
      }
      SameGrid(dest.Cells(), target, cols, rows);
    }

    /** The inner loop of `product`: row `r` of this matrix times column `c` of `other`. */
    method RowTimesColumn(other: MatrixT, r: nat, c: nat) returns (sum: real)
      requires Valid() && other.Valid() && other.rows == cols && r < rows && c < other.cols
      ensures sum == Dot(Cells()[r], Column(other.Cells(), c), cols)
    {
      ghost var u, v := Cells()[r], Column(other.Cells(), c);
      sum := 0.0;
      for inner := 0 to cols
        invariant sum == Dot(u, v, inner)
      {
        sum := sum + data[r, inner] * other.data[inner, c];
      }
    }

    /** `product(by, dest)`: `dest` becomes this matrix times `other` (`by`). */
    method Product(other: MatrixT, dest: MatrixT)
      requires Valid() && other.Valid() && dest.Valid()
      requires other.rows == cols && other.cols == rows && dest.rows == rows && dest.cols == rows
      requires dest.data != data && dest.data != other.data
      modifies dest.data
      ensures dest.Cells() == Times(Cells(), other.Cells(), rows, cols)
    {
      ghost var a, b := Cells(), other.Cells();
      ghost var target := Times(a, b, rows, cols);
      for r := 0 to rows
        invariant forall i, j :: 0 <= i < r && 0 <= j < rows ==> dest.data[i, j] == target[i][j]
      {
        for c := 0 to rows
          invariant forall i, j :: 0 <= i < rows && 0 <= j < rows && (i < r || (i == r && j < c)) ==>
                      dest.data[i, j] == target[i][j]
        {
          var sum := RowTimesColumn(other, r, c);
          dest.data[r, c] := sum;
        }
      }
      SameGrid(dest.Cells(), target, rows, rows);
    }

    /** `apply(in, out)`: the first `rows` entries of `out` become this matrix applied to the first `cols` of `inp`. */
    method Apply(inp: seq<real>, out: array<real>)
      requires Valid() && cols <= |inp| && rows <= out.Length
      modifies out
      ensures out[..rows] == Applied(Cells(), inp[..cols], rows, cols)
      ensures out[rows..] == old(out[rows..])
    {
      ghost var a, v := Cells(), inp[..cols];
      for r := 0 to rows
        invariant forall i :: 0 <= i < r ==> out[i] == Applied(a, v, rows, cols)[i]
        invariant out[rows..] == old(out[rows..])
      {
        var sum := 0.0;
        for c := 0 to cols
          invariant sum == Dot(a[r], v, c)
        {
          sum := sum + data[r, c] * inp[c];
        }
        out[r] := sum;
      }
    }
  }

  /** Free `copy(s, d)`: the block of `d` that `s` covers takes the entries of `s`; `s` may be `d`. */
  method Copy(s: MatrixT, d: MatrixT)
    requires s.Valid() && d.Valid()
    modifies d.data
    ensures d.Cells() == Overlay(old(d.Cells()), old(s.Cells()), d.rows, d.cols, s.rows, s.cols)
  {
    ghost var d0, s0 := d.Cells(), s.Cells();
    ghost var target := Overlay(d0, s0, d.rows, d.cols, s.rows, s.cols);
    var rows := if s.rows > d.rows then d.rows else s.rows;
    var cols := if s.cols > d.cols then d.cols else s.cols;
    for r := 0 to rows
      invariant d.Upto(r, 0, target, d0)
      invariant s.data != d.data ==> s.Cells() == s0
    {
      for c := 0 to cols
        invariant d.Upto(r, c, target, d0)
        invariant s.data != d.data ==> s.Cells() == s0
      {
        assert s.data[r, c] == s0[r][c];
        d.data[r, c] := s.data[r, c];
      }
    }
    SameGrid(d.Cells(), target, d.rows, d.cols);
  }

  /** `operator+(a, b)`: a new matrix holding `a + b`, made as a copy of `a` that then adds `b`. */
  method NewSum(a: MatrixT, b: MatrixT) returns (ret: MatrixT)
    requires a.Valid() && b.Valid() && a.rows == b.rows && a.cols == b.cols
    ensures fresh(ret) && fresh(ret.data) && ret.Valid() && ret.rows == a.rows && ret.cols == a.cols
    ensures ret.Cells() == Sum(a.Cells(), b.Cells(), a.rows, a.cols)
  {
    ret := new MatrixT(a.rows, a.cols);
    ghost var r0 := ret.Cells();
    Copy(a, ret);
    OverlayWhole(r0, a.Cells(), a.rows, a.cols);
    ret.Add(b);
  }

  /** `operator*(a, b)` for square matrices: a new matrix holding `a` times `b`. */
  method NewProduct(a: MatrixT, b: MatrixT) returns (ret: MatrixT)
    requires a.Valid() && b.Valid() && a.rows == a.cols && b.rows == a.rows && b.cols == a.cols
    ensures fresh(ret) && fresh(ret.data) && ret.Valid() && ret.rows == a.rows && ret.cols == a.rows
    ensures ret.Cells() == Times(a.Cells(), b.Cells(), a.rows, a.cols)
  {
    ret := new MatrixT(a.rows, a.cols);
    a.Product(b, ret);
  }
}

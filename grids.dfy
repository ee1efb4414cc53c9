/**
 * Rectangular grids of cells, the value view of a board.
 *
 * A board is stored by the program as a two-dimensional array; the
 * specification talks about its contents as a sequence of rows, so that
 * boards before and after an in-place update can be compared as values.
 */
module Grids {
  /** A cell is addressed by (row, column); negative or too large coordinates
      name cells outside the grid. */
  type Cell = (int, int)

  type Grid<T> = seq<seq<T>>

  function Cols<T>(g: Grid<T>): nat {
    if |g| == 0 then 0 else |g[0]|
  }

  ghost predicate IsRect<T>(g: Grid<T>) {
    forall i :: 0 <= i < |g| ==> |g[i]| == Cols(g)
  }

  predicate InBounds<T>(g: Grid<T>, p: Cell) {
    0 <= p.0 < |g| && 0 <= p.1 < Cols(g)
  }

  /** The four cells reached by one step down, up, right or left. */
  function Neighbours(p: Cell): set<Cell> {
    {(p.0 + 1, p.1), (p.0 - 1, p.1), (p.0, p.1 + 1), (p.0, p.1 - 1)}
  }

  predicate Adjacent(p: Cell, q: Cell) {
    q in Neighbours(p)
  }

  /** Some neighbour of `q` lies in `R`. */
  predicate Touches(R: set<Cell>, q: Cell) {
    (q.0 + 1, q.1) in R || (q.0 - 1, q.1) in R || (q.0, q.1 + 1) in R || (q.0, q.1 - 1) in R
  }

  lemma TouchesWitness(R: set<Cell>, q: Cell) returns (r: Cell)
    requires Touches(R, q)
    ensures r in R && Adjacent(r, q)
  {
    if (q.0 + 1, q.1) in R {
      r := (q.0 + 1, q.1);
    } else if (q.0 - 1, q.1) in R {
      r := (q.0 - 1, q.1);
    } else if (q.0, q.1 + 1) in R {
      r := (q.0, q.1 + 1);
    } else {
      r := (q.0, q.1 - 1);
    }
  }

  lemma AdjacentTouches(R: set<Cell>, r: Cell, q: Cell)
    requires r in R && Adjacent(r, q)
    ensures Touches(R, q)
  {
  }

  ghost function AllCells(rows: int, cols: int): (r: set<Cell>)
    ensures forall p :: p in r <==> 0 <= p.0 < rows && 0 <= p.1 < cols
  {
    set i, j | 0 <= i < rows && 0 <= j < cols :: (i, j)
  }

  /** The cells of one row. */
  ghost function RowCells(i: int, cols: int): (r: set<Cell>)
    ensures forall p :: p in r <==> p.0 == i && 0 <= p.1 < cols
  {
    set j | 0 <= j < cols :: (i, j)
  }

  lemma {:induction false} RowCellsCard(i: int, cols: nat)
    ensures |RowCells(i, cols)| == cols
  {
    if cols > 0 {
      var A, x := RowCells(i, cols - 1), (i, cols - 1);
      RowCellsCard(i, cols - 1);
      assert x !in A;
      assert RowCells(i, cols) == A + {x};
      AddOneCard(A, x);
    } else {
      assert RowCells(i, cols) == {};
    }
  }

  lemma AddOneCard(A: set<Cell>, x: Cell)
    requires x !in A
    ensures |A + {x}| == |A| + 1
  {
  }

  lemma DisjointCard(A: set<Cell>, B: set<Cell>)
    requires A !! B
    ensures |A + B| == |A| + |B|
  {
    assert A * B == {};
  }

  lemma MulStep(a: int, b: int)
    ensures (a - 1) * b + b == a * b
  {
  }

  /** A rows x cols grid has rows * cols cells. */
  lemma {:induction false} AllCellsCard(rows: nat, cols: nat)
    ensures |AllCells(rows, cols)| == rows * cols
  {
    if rows > 0 {
      var A, R := AllCells(rows - 1, cols), RowCells(rows - 1, cols);
      AllCellsCard(rows - 1, cols);
      RowCellsCard(rows - 1, cols);
      assert AllCells(rows, cols) == A + R;
      assert A !! R;
      DisjointCard(A, R);
      MulStep(rows, cols);
    } else {
      assert AllCells(rows, cols) == {};
    }
  }

  /** A set of cells is no larger than a set holding it. */
  lemma SubsetCard(s: set<Cell>, t: set<Cell>)
    requires s <= t
    ensures |s| <= |t|
  {
    assert t == s + (t - s);
  }

  /** The cells of `g` that hold `x`. */
  ghost function CellsOf<T>(g: Grid<T>, x: T): (r: set<Cell>)
    requires IsRect(g)
    ensures forall p :: p in r <==> InBounds(g, p) && g[p.0][p.1] == x
  {
    set p | p in AllCells(|g|, Cols(g)) && g[p.0][p.1] == x
  }

  /** Row `i` of a grid with every cell of `s` overwritten by `x`. */
  ghost function FilledRow<T>(row: seq<T>, i: int, s: set<Cell>, x: T): (r: seq<T>)
    ensures |r| == |row|
    ensures forall j {:trigger r[j]} :: 0 <= j < |row| ==> r[j] == if (i, j) in s then x else row[j]
    decreases |row|
  {
    if row == [] then []
    else
      var j := |row| - 1;
      FilledRow(row[..j], i, s, x) + [if (i, j) in s then x else row[j]]
  }

  ghost function FilledRows<T>(g: Grid<T>, s: set<Cell>, x: T): (h: Grid<T>)
    ensures |h| == |g|
    ensures forall i {:trigger h[i]} :: 0 <= i < |g| ==> h[i] == FilledRow(g[i], i, s, x)
    decreases |g|
  {
    if g == [] then []
    else
      var i := |g| - 1;
      FilledRows(g[..i], s, x) + [FilledRow(g[i], i, s, x)]
  }

  /** `g` with every cell of `s` overwritten by `x`. */
  ghost function Filled<T>(g: Grid<T>, s: set<Cell>, x: T): (h: Grid<T>)
    requires IsRect(g)
    ensures |h| == |g| && IsRect(h) && Cols(h) == Cols(g)
    ensures forall i, j {:trigger h[i][j]} :: 0 <= i < |g| && 0 <= j < Cols(g) ==>
              h[i][j] == if (i, j) in s then x else g[i][j]
  {
    FilledRows(g, s, x)
  }

  /** The contents of an array as a grid value. */
  ghost function Snap<T>(a: array2<T>): (g: Grid<T>)
    reads a
    ensures |g| == a.Length0 && IsRect(g)
    ensures Cols(g) == if a.Length0 == 0 then 0 else a.Length1
  {
    seq(a.Length0, i reads a requires 0 <= i < a.Length0 =>
      seq(a.Length1, j reads a requires 0 <= j < a.Length1 => a[i, j]))
  }

  /** The cells of the snapshot are those of the array. */
  lemma SnapCells<T>(a: array2<T>)
    ensures forall i, j :: 0 <= i < a.Length0 && 0 <= j < a.Length1 ==> Snap(a)[i][j] == a[i, j]
  {
  }

  /** The cells of an array that hold `x`. */
  ghost function ColourCells<T>(a: array2<T>, x: T): (r: set<Cell>)
    reads a
    ensures forall p :: p in r <==> 0 <= p.0 < a.Length0 && 0 <= p.1 < a.Length1 && a[p.0, p.1] == x
  {
    set p | p in AllCells(a.Length0, a.Length1) && a[p.0, p.1] == x
  }

  /** The cells of a colour in the snapshot are those in the array. */
  lemma SnapColourCells<T>(a: array2<T>, x: T)
    ensures CellsOf(Snap(a), x) == ColourCells(a, x)
  {
    SnapCells(a);
  }

  /** Grids are equal when their shapes and all their cells agree. */
  lemma GridExt<T>(g: Grid<T>, h: Grid<T>)
    requires IsRect(g) && IsRect(h) && |g| == |h| && Cols(g) == Cols(h)
    requires forall i, j :: 0 <= i < |g| && 0 <= j < Cols(g) ==> g[i][j] == h[i][j]
    ensures g == h
  {
    forall i | 0 <= i < |g|
      ensures g[i] == h[i]
    {
      assert |g[i]| == |h[i]|;
    }
  }

  /** Filling the same cells twice leaves only the second colour. */
  lemma FilledAgain<T>(g: Grid<T>, s: set<Cell>, x: T, y: T)
    requires IsRect(g)
    ensures Filled(Filled(g, s, x), s, y) == Filled(g, s, y)
  {
    var h, k := Filled(Filled(g, s, x), s, y), Filled(g, s, y);
    forall i, j | 0 <= i < |g| && 0 <= j < Cols(g)
      ensures h[i][j] == k[i][j]
    {
    }
    GridExt(h, k);
  }

  lemma FilledNothing<T>(g: Grid<T>, x: T)
    requires IsRect(g)
    ensures Filled(g, {}, x) == g
  {
    GridExt(Filled(g, {}, x), g);
  }
}

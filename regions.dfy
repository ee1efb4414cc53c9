/**
 * Colour regions of a grid and the cells that border them.
 */
module Regions {
  import opened Grids
  import opened Reachability

  /** The 4-connected cells of colour `x` reachable from `s` through cells of
      colour `x`; empty when `s` is outside the grid or has another colour. */
  ghost function Region<T>(g: Grid<T>, x: T, s: Cell): (r: set<Cell>)
    requires IsRect(g)
    ensures r <= CellsOf(g, x)
  {
    Reach(CellsOf(g, x), CellsOf(g, x), s)
  }

  /** The cells of the grid outside the region of `s` that are a neighbour of
      one of its cells. */
  ghost function Border<T>(g: Grid<T>, x: T, s: Cell): set<Cell>
    requires IsRect(g)
  {
    var R := Region(g, x, s);
    set q | q in AllCells(|g|, Cols(g)) && q !in R && Touches(R, q)
  }

  lemma InRegion<T>(g: Grid<T>, x: T, s: Cell)
    requires IsRect(g) && InBounds(g, s) && g[s.0][s.1] == x
    ensures s in Region(g, x, s)
  {
    ReachSelf(CellsOf(g, x), CellsOf(g, x), s);
  }

  /** A region swallows every neighbour of its own colour. */
  lemma RegionClosed<T>(g: Grid<T>, x: T, s: Cell, r: Cell, q: Cell)
    requires IsRect(g) && r in Region(g, x, s)
    requires InBounds(g, q) && g[q.0][q.1] == x && Adjacent(r, q)
    ensures q in Region(g, x, s)
  {
    ReachStep(CellsOf(g, x), CellsOf(g, x), s, r, q);
  }

  /** A border cell never has the region's colour. */
  lemma BorderColour<T>(g: Grid<T>, x: T, s: Cell, q: Cell)
    requires IsRect(g) && q in Border(g, x, s)
    ensures InBounds(g, q) && g[q.0][q.1] != x
  {
    var r := TouchesWitness(Region(g, x, s), q);
    if g[q.0][q.1] == x {
      RegionClosed(g, x, s, r, q);
    }
  }

  /** The region and its border are what a traversal from a seed of colour
      `x` reaches when it may step on any cell but continues only from cells
      of colour `x`; the border is the part of another colour. */
  lemma ScanReachesBorder<T>(g: Grid<T>, x: T, s: Cell)
    requires IsRect(g) && InBounds(g, s) && g[s.0][s.1] == x
    ensures Reach(AllCells(|g|, Cols(g)), CellsOf(g, x), s) - CellsOf(g, x) == Border(g, x, s)
  {
    var X := Reach(AllCells(|g|, Cols(g)), CellsOf(g, x), s);
    forall q | q in X - CellsOf(g, x)
      ensures q in Border(g, x, s)
    {
      ScannedIsBorder(g, x, s, q);
    }
    forall q | q in Border(g, x, s)
      ensures q in X - CellsOf(g, x)
    {
      BorderIsScanned(g, x, s, q);
    }
  }

  lemma ScannedIsBorder<T>(g: Grid<T>, x: T, s: Cell, q: Cell)
    requires IsRect(g) && InBounds(g, s) && g[s.0][s.1] == x
    requires q in Reach(AllCells(|g|, Cols(g)), CellsOf(g, x), s) && q !in CellsOf(g, x)
    ensures q in Border(g, x, s)
  {
    var all, mine := AllCells(|g|, Cols(g)), CellsOf(g, x);
    var w :| WalkBetween(all, mine, w, s, q);
    assert |w| > 1;
    ReachBeforeLast(all, mine, w);
    var r := w[|w| - 2];
    AdjacentTouches(Region(g, x, s), r, q);
  }

  lemma BorderIsScanned<T>(g: Grid<T>, x: T, s: Cell, q: Cell)
    requires IsRect(g) && q in Border(g, x, s)
    ensures q in Reach(AllCells(|g|, Cols(g)), CellsOf(g, x), s) && q !in CellsOf(g, x)
  {
    var all, mine := AllCells(|g|, Cols(g)), CellsOf(g, x);
    var r := TouchesWitness(Region(g, x, s), q);
    ReachWiden(mine, mine, all, mine, s);
    ReachStep(all, mine, s, r, q);
    BorderColour(g, x, s, q);
  }

  /** A set of cells that holds one cell of the grid and all in-grid
      neighbours of each of its cells holds every cell of the grid. */
  ghost predicate HoldsNeighbours(rows: int, cols: int, U: set<Cell>) {
    forall q, q' {:trigger Adjacent(q, q')} :: q in U && Adjacent(q, q') && 0 <= q'.0 < rows && 0 <= q'.1 < cols ==> q' in U
  }

  lemma {:induction false} SpreadAlongRow(rows: int, cols: int, U: set<Cell>, i: int, j0: int, j: int)
    requires HoldsNeighbours(rows, cols, U) && (i, j0) in U
    requires 0 <= i < rows && 0 <= j0 < cols && 0 <= j < cols
    ensures (i, j) in U
    decreases if j < j0 then j0 - j else j - j0
  {
    if j < j0 {
      SpreadAlongRow(rows, cols, U, i, j0, j + 1);
      assert Adjacent((i, j + 1), (i, j));
    } else if j > j0 {
      SpreadAlongRow(rows, cols, U, i, j0, j - 1);
      assert Adjacent((i, j - 1), (i, j));
    }
  }

  lemma {:induction false} SpreadAlongColumn(rows: int, cols: int, U: set<Cell>, i0: int, i: int, j: int)
    requires HoldsNeighbours(rows, cols, U) && (i0, j) in U
    requires 0 <= i0 < rows && 0 <= i < rows && 0 <= j < cols
    ensures (i, j) in U
    decreases if i < i0 then i0 - i else i - i0
  {
    if i < i0 {
      SpreadAlongColumn(rows, cols, U, i0, i + 1, j);
      assert Adjacent((i + 1, j), (i, j));
    } else if i > i0 {
      SpreadAlongColumn(rows, cols, U, i0, i - 1, j);
      assert Adjacent((i - 1, j), (i, j));
    }
  }

  /** The grid graph is connected. */
  lemma GridConnected(rows: int, cols: int, U: set<Cell>, s: Cell)
    requires HoldsNeighbours(rows, cols, U) && s in U && 0 <= s.0 < rows && 0 <= s.1 < cols
    ensures AllCells(rows, cols) <= U
  {
    forall p | p in AllCells(rows, cols)
      ensures p in U
    {
      SpreadAlongRow(rows, cols, U, s.0, s.1, p.1);
      SpreadAlongColumn(rows, cols, U, s.0, p.0, p.1);
    }
  }

  /** The border of a region is empty exactly when the region covers the
      whole grid. */
  lemma BorderEmptyIffFull<T>(g: Grid<T>, x: T, s: Cell)
    requires IsRect(g) && InBounds(g, s) && g[s.0][s.1] == x
    ensures Border(g, x, s) == {} <==> Region(g, x, s) == AllCells(|g|, Cols(g))
  {
    var R := Region(g, x, s);
    if Border(g, x, s) == {} {
      forall q, q' | q in R && Adjacent(q, q') && 0 <= q'.0 < |g| && 0 <= q'.1 < Cols(g)
        ensures q' in R
      {
        AdjacentTouches(R, q, q');
        assert q' !in Border(g, x, s);
      }
      InRegion(g, x, s);
      GridConnected(|g|, Cols(g), R, s);
    } else {
      var q :| q in Border(g, x, s);
      assert q !in R;
    }
  }
}

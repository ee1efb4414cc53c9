/**
 * The flood fill: overwrite, in place, the 4-connected region of the
 * initial colour around a seed cell and count the cells overwritten.
 */
module Fill {
  import opened Grids
  import opened Reachability
  import opened Regions

  /** One of the four recursive calls of the fill: with the part `U` of the
      region of `s` in `A` already overwritten, the fill from the `k`-th
      neighbour covers the region of that neighbour among the cells still
      available, which is disjoint from `U`, and the traversal invariant
      carries over to their union. */
  lemma FillStep(A: set<Cell>, s: Cell, U: set<Cell>, k: nat, n: Cell) returns (U': set<Cell>)
    requires k < 4 && n == NeighbourAt(s, k)
    requires Partial(A, A, s, U, PendingFrom(s, k))
    ensures A - U < A
    ensures U !! Reach(A - U, A - U, n)
    ensures U' == U + Reach(A - U, A - U, n)
    ensures |U'| == |U| + |Reach(A - U, A - U, n)|
    ensures Partial(A, A, s, U', PendingFrom(s, k + 1))
  {
    ReachOwn(A - U, A, n);
    U' := PartialNext(A, A, s, U, k, n);
  }

  /** Overwrites with `replacement` every cell 4-connected to (row, col)
      through cells of `initial`, and returns how many cells it overwrote.
      `A` names the cells of `initial` on entry, so that the region can be
      stated as `Reach(A, A, (row, col))`.  With equal colours a written cell
      keeps the initial colour, so on a region of two or more cells the
      recursion comes back to it without end; the model requires the
      colours to differ. */
  method FloodFillHelper(row: int, col: int, board: array2<char>, initial: char, replacement: char,
                         ghost A: set<Cell>)
    returns (numReplaced: nat)
    requires initial != replacement && A == ColourCells(board, initial)
    modifies board
    ensures forall i, j :: 0 <= i < board.Length0 && 0 <= j < board.Length1 ==>
              board[i, j] == if (i, j) in Reach(A, A, (row, col)) then replacement else old(board[i, j])
    ensures ColourCells(board, initial) == A - Reach(A, A, (row, col))
    ensures numReplaced == |Reach(A, A, (row, col))|
    decreases A, 0
  {
    ghost var s := (row, col);
    if row < 0 || row >= board.Length0 || col < 0 || col >= board.Length1 {
      ReachUnavailable(A, A, s);
      return 0;
    }
    if board[row, col] != initial {
      ReachUnavailable(A, A, s);
      return 0;
    }
    board[row, col] := replacement;
    assert ColourCells(board, initial) == A - {s};
    PartialStart(A, A, s);
    PendingStart(s);
    var rest := FillNeighbours(row, col, board, initial, replacement, 0, A, {s});
    numReplaced := 1 + rest;
  }

  /** The calls of the fill on the neighbours of (row, col) from the `k`-th
      on, in the order down, up, right, left, with the part `U` of the region
      already overwritten; returns the number of cells they overwrite. */
  method FillNeighbours(row: int, col: int, board: array2<char>, initial: char, replacement: char,
                        k: nat, ghost A: set<Cell>, ghost U: set<Cell>)
    returns (count: nat)
    requires initial != replacement && k <= 4
    requires Partial(A, A, (row, col), U, PendingFrom((row, col), k))
    requires ColourCells(board, initial) == A - U
    modifies board
    ensures forall i, j :: 0 <= i < board.Length0 && 0 <= j < board.Length1 ==>
              board[i, j] == if (i, j) in Reach(A, A, (row, col)) - U then replacement else old(board[i, j])
    ensures ColourCells(board, initial) == A - Reach(A, A, (row, col))
    ensures |U| + count == |Reach(A, A, (row, col))|
    decreases A - U, 4 - k
  {
    var s := (row, col);
    if k == 4 {
      NothingPending(s);
      PartialDone(A, A, s, U);
      return 0;
    }
    var n := NeighbourAt(s, k);
    ghost var U' := FillStep(A, s, U, k, n);
    var here := FloodFillHelper(n.0, n.1, board, initial, replacement, A - U);
    var rest := FillNeighbours(row, col, board, initial, replacement, k + 1, A, U');
    count := here + rest;
  }

  /** The region of the seed holds the seed and is no larger than the grid. */
  lemma RegionSize(g: Grid<char>, x: char, s: Cell)
    requires IsRect(g) && InBounds(g, s) && g[s.0][s.1] == x
    ensures 1 <= |Region(g, x, s)| <= |g| * Cols(g)
  {
    InRegion(g, x, s);
    SubsetCard({s}, Region(g, x, s));
    SubsetCard(Region(g, x, s), AllCells(|g|, Cols(g)));
    AllCellsCard(|g|, Cols(g));
  }

  /** After a fill with another colour the seed's region of the initial
      colour is empty, so filling again from the same seed with the same
      colours overwrites nothing and returns 0. */
  lemma RefillEmpty(g: Grid<char>, x: char, s: Cell, y: char)
    requires IsRect(g) && x != y
    ensures Region(Filled(g, Region(g, x, s), y), x, s) == {}
  {
    var h := Filled(g, Region(g, x, s), y);
    if InBounds(g, s) && g[s.0][s.1] == x {
      InRegion(g, x, s);
      assert h[s.0][s.1] == y;
    } else if InBounds(g, s) {
      assert s !in CellsOf(g, x);
      ReachUnavailable(CellsOf(g, x), CellsOf(g, x), s);
      assert h[s.0][s.1] == g[s.0][s.1];
    }
    assert s !in CellsOf(h, x);
    ReachUnavailable(CellsOf(h, x), CellsOf(h, x), s);
  }

  /** Flood fills the board from (startRow, startCol): the region of
      `initial` around the seed is overwritten with `replacement`, every other
      cell keeps its colour, and the result is the size of the region, which
      is 0 (and the board unchanged) when the seed lies outside the board or
      has another colour. */
  method FloodFill(startRow: int, startCol: int, board: array2<char>, initial: char, replacement: char)
    returns (n: nat)
    requires initial != replacement
    modifies board
    ensures Snap(board) == Filled(old(Snap(board)), Region(old(Snap(board)), initial, (startRow, startCol)), replacement)
    ensures n == |Region(old(Snap(board)), initial, (startRow, startCol))|
    ensures InBounds(old(Snap(board)), (startRow, startCol)) && old(board[startRow, startCol]) == initial ==>
              1 <= n <= board.Length0 * board.Length1
    ensures !(InBounds(old(Snap(board)), (startRow, startCol)) && old(board[startRow, startCol]) == initial) ==>
              n == 0 && Snap(board) == old(Snap(board))
  {
    ghost var g0 := Snap(board);
    ghost var s := (startRow, startCol);
    SnapCells(board);
    SnapColourCells(board, initial);
    n := FloodFillHelper(startRow, startCol, board, initial, replacement, ColourCells(board, initial));
    SnapCells(board);
    GridExt(Snap(board), Filled(g0, Region(g0, initial, s), replacement));
    if InBounds(g0, s) && g0[s.0][s.1] == initial {
      RegionSize(g0, initial, s);
    } else {
      if InBounds(g0, s) {
        assert s !in CellsOf(g0, initial);
      }
      ReachUnavailable(CellsOf(g0, initial), CellsOf(g0, initial), s);
      FilledNothing(g0, replacement);
    }
  }
}

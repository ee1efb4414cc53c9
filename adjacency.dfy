/**
 * The adjacency scan: a depth-first walk from a seed over the cells of the
 * initial colour that marks every cell it reaches as visited and reports, in
 * the order it meets them, the colours of the reached cells that have
 * another colour.  Those cells end the walk; from the seed's region they are
 * exactly its border.
 */
module Adjacency {
  import opened Grids
  import opened Reachability
  import opened Regions
  import opened Sequences

  predicate InArray<T>(a: array2<T>, p: Cell) {
    0 <= p.0 < a.Length0 && 0 <= p.1 < a.Length1
  }

  /** `colors` lists the colours of `cells` on the board, in order. */
  ghost predicate Spells(board: array2<char>, cells: seq<Cell>, colors: string)
    reads board
  {
    && |colors| == |cells|
    && forall i :: 0 <= i < |cells| ==> InArray(board, cells[i]) && colors[i] == board[cells[i].0, cells[i].1]
  }

  lemma SpellsConcat(board: array2<char>, c1: seq<Cell>, s1: string, c2: seq<Cell>, s2: string)
    requires Spells(board, c1, s1) && Spells(board, c2, s2)
    ensures Spells(board, c1 + c2, s1 + s2)
  {
    forall i | 0 <= i < |c1 + c2|
      ensures InArray(board, (c1 + c2)[i]) && (s1 + s2)[i] == board[(c1 + c2)[i].0, (c1 + c2)[i].1]
    {
      if i >= |c1| {
        assert (c1 + c2)[i] == c2[i - |c1|] && (s1 + s2)[i] == s2[i - |c1|];
      }
    }
  }

  /** Scans from (row, col) over the cells still unvisited, continuing only
      through cells of `initial`.  `V` names the unvisited cells on entry.
      Every cell the walk reaches is marked visited, and the result lists
      the colours of the reached cells of another colour, each cell once. */
  method FindAdjacentColorsHelper(row: int, col: int, board: array2<char>, initial: char,
                                  visited: array2<bool>, ghost V: set<Cell>)
    returns (colors: string, ghost cells: seq<Cell>)
    requires visited.Length0 == board.Length0 && visited.Length1 == board.Length1
    requires V == ColourCells(visited, false)
    modifies visited
    ensures ColourCells(visited, false) == V - Reach(V, ColourCells(board, initial), (row, col))
    ensures Distinct(cells)
    ensures Elems(cells) == Reach(V, ColourCells(board, initial), (row, col)) - ColourCells(board, initial)
    ensures Spells(board, cells, colors)
    decreases V, 0
  {
    ghost var E := ColourCells(board, initial);
    ghost var s := (row, col);
    if row < 0 || row >= board.Length0 || col < 0 || col >= board.Length1 || visited[row, col] {
      ReachUnavailable(V, E, s);
      return "", [];
    }
    visited[row, col] := true;
    var currentColor := board[row, col];
    if currentColor != initial {
      assert ColourCells(visited, false) == V - {s};
      ReachStuck(V, E, s);
      return [currentColor], [s];
    }
    assert ColourCells(visited, false) == V - {s};
    PartialStart(V, E, s);
    PendingStart(s);
    colors, cells := ScanNeighbours(row, col, board, initial, visited, 0, V, {s});
  }

  /** The scans from the neighbours of (row, col) from the `k`-th on, in the
      order down, up, right, left, with the cells `U` already reached;
      their results concatenated. */
  method ScanNeighbours(row: int, col: int, board: array2<char>, initial: char,
                        visited: array2<bool>, k: nat, ghost V: set<Cell>, ghost U: set<Cell>)
    returns (colors: string, ghost cells: seq<Cell>)
    requires visited.Length0 == board.Length0 && visited.Length1 == board.Length1 && k <= 4
    requires Partial(V, ColourCells(board, initial), (row, col), U, PendingFrom((row, col), k))
    requires ColourCells(visited, false) == V - U
    modifies visited
    ensures ColourCells(visited, false) == V - Reach(V, ColourCells(board, initial), (row, col))
    ensures Distinct(cells)
    ensures Elems(cells) == Reach(V, ColourCells(board, initial), (row, col)) - U - ColourCells(board, initial)
    ensures Spells(board, cells, colors)
    decreases V - U, 4 - k
  {
    ghost var E := ColourCells(board, initial);
    var s := (row, col);
    if k == 4 {
      NothingPending(s);
      PartialDone(V, E, s, U);
      return "", [];
    }
    var n := NeighbourAt(s, k);
    ghost var U' := PartialNext(V, E, s, U, k, n);
    var here, hereCells := FindAdjacentColorsHelper(n.0, n.1, board, initial, visited, V - U);
    var rest, restCells := ScanNeighbours(row, col, board, initial, visited, k + 1, V, U');
    DistinctConcat(hereCells, restCells);
    SpellsConcat(board, hereCells, here, restCells, rest);
    colors, cells := here + rest, hereCells + restCells;
  }

  /** Scans from (row, col) with nothing visited yet.  From a seed of colour
      `initial` the reported cells are exactly the border of its region, so
      the result lists the colour of every border cell once, and none of them
      is `initial`. */
  method FindAdjacentColors(row: int, col: int, board: array2<char>, initial: char)
    returns (colors: string, ghost cells: seq<Cell>)
    ensures Distinct(cells)
    ensures Elems(cells) == Reach(AllCells(board.Length0, board.Length1), ColourCells(board, initial), (row, col))
                            - ColourCells(board, initial)
    ensures Spells(board, cells, colors)
    ensures forall i :: 0 <= i < |colors| ==> colors[i] != initial
    ensures InArray(board, (row, col)) && board[row, col] == initial ==>
              Elems(cells) == Border(Snap(board), initial, (row, col))
  {
    var visited := new bool[board.Length0, board.Length1];
    var r := 0;
    while r < board.Length0
      invariant 0 <= r <= board.Length0
      invariant forall i, j :: 0 <= i < r && 0 <= j < board.Length1 ==> !visited[i, j]
    {
      var c := 0;
      while c < board.Length1
        invariant 0 <= c <= board.Length1
        invariant forall i, j :: 0 <= i < r && 0 <= j < board.Length1 ==> !visited[i, j]
        invariant forall j :: 0 <= j < c ==> !visited[r, j]
      {
        visited[r, c] := false;
        c := c + 1;
      }
      r := r + 1;
    }
    assert ColourCells(visited, false) == AllCells(board.Length0, board.Length1);
    colors, cells := FindAdjacentColorsHelper(row, col, board, initial, visited, AllCells(board.Length0, board.Length1));
    forall i | 0 <= i < |colors|
      ensures colors[i] != initial
    {
      assert cells[i] in Elems(cells);
    }
    if InArray(board, (row, col)) && board[row, col] == initial {
      SnapColourCells(board, initial);
      SnapCells(board);
      ScanReachesBorder(Snap(board), initial, (row, col));
    }
  }
}

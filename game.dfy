/**
 * The game: repeatedly recolour the region of the top-left cell with one of
 * the colours next to it, until the board has one colour.  `MinMoves` is the
 * number of moves the program's exhaustive search returns; the lemmas below
 * show it is the least number of such moves that makes the board uniform.
 */
module Game {
  import opened Grids
  import opened Reachability
  import opened Regions
  import opened Sequences
  import opened Fill
  import opened Adjacency
  import opened Filter

  /** Row and column of the cell the game grows from. */
  const TopLeft := 0

  /** A board the game can be played on: rectangular, at least one cell. */
  ghost predicate IsBoard(g: Grid<char>) {
    IsRect(g) && |g| >= 1 && Cols(g) >= 1
  }

  /** The region of the top-left cell. */
  ghost function TopRegion(g: Grid<char>): set<Cell>
    requires IsBoard(g)
  {
    Region(g, g[0][0], (0, 0))
  }

  /** The cells outside the top-left region; each move shrinks this set. */
  ghost function Outside(g: Grid<char>): set<Cell>
    requires IsBoard(g)
  {
    AllCells(|g|, Cols(g)) - TopRegion(g)
  }

  /** The colours of the cells bordering the top-left region: the moves. */
  ghost function AdjColours(g: Grid<char>): set<char>
    requires IsBoard(g)
  {
    ColoursAt(g, Border(g, g[0][0], (0, 0)))
  }

  /** The colours of the cells of `B` that lie in the grid. */
  ghost function ColoursAt(g: Grid<char>, B: set<Cell>): set<char>
    requires IsRect(g)
  {
    set p | p in B && InBounds(g, p) :: g[p.0][p.1]
  }

  /** Grids that agree on the cells of `B` have the same colours there. */
  lemma ColoursAtAgree(g: Grid<char>, h: Grid<char>, B: set<Cell>)
    requires IsRect(g) && IsRect(h)
    requires forall p :: p in B ==> InBounds(g, p) && InBounds(h, p) && h[p.0][p.1] == g[p.0][p.1]
    ensures ColoursAt(h, B) == ColoursAt(g, B)
  {
    forall z | z in ColoursAt(h, B)
      ensures z in ColoursAt(g, B)
    {
      var p :| p in B && InBounds(h, p) && h[p.0][p.1] == z;
    }
    forall z | z in ColoursAt(g, B)
      ensures z in ColoursAt(h, B)
    {
      var p :| p in B && InBounds(g, p) && g[p.0][p.1] == z;
    }
  }

  /** The board after recolouring the top-left region with `c`. */
  ghost function Next(g: Grid<char>, c: char): (h: Grid<char>)
    requires IsBoard(g)
    ensures IsBoard(h)
  {
    Filled(g, TopRegion(g), c)
  }

  ghost predicate Uniform(g: Grid<char>)
    requires IsBoard(g)
  {
    forall i, j :: 0 <= i < |g| && 0 <= j < Cols(g) ==> g[i][j] == g[0][0]
  }

  /** A move with an adjacent colour gives the top-left cell that colour and
      adds at least one bordering cell to its region. */
  lemma NextGrows(g: Grid<char>, c: char)
    requires IsBoard(g) && c in AdjColours(g)
    ensures c != g[0][0] && Next(g, c)[0][0] == c
    ensures TopRegion(g) < TopRegion(Next(g, c))
    ensures Outside(Next(g, c)) < Outside(g)
  {
    var x, s := g[0][0], (0, 0);
    var R, h := TopRegion(g), Next(g, c);
    InRegion(g, x, s);
    var b :| b in Border(g, x, s) && InBounds(g, b) && g[b.0][b.1] == c;
    BorderColour(g, x, s, b);
    var r := TouchesWitness(R, b);
    // The old region keeps its connections in the new colour.
    var A := CellsOf(g, x);
    ReachWithin(A, s);
    assert R <= CellsOf(h, c);
    ReachWiden(R, R, CellsOf(h, c), CellsOf(h, c), s);
    assert R <= TopRegion(h);
    // and gains the bordering cell b.
    RegionClosed(h, c, s, r, b);
    assert b in TopRegion(h) && b !in R;
    assert b in Outside(g) && b !in Outside(h);
  }

  /** The least element of a non-empty set of numbers. */
  ghost function SetMin(S: set<nat>): (m: nat)
    requires S != {}
    ensures m in S && forall x :: x in S ==> m <= x
    decreases |S|
  {
    var x :| x in S;
    if S == {x} then x
    else
      var m' := SetMin(S - {x});
      assert forall y :: y in S ==> y == x || y in S - {x};
      if x <= m' then x else m'
  }

  /** The value the exhaustive search computes: 0 when no colour borders the
      top-left region, otherwise one more than the least value over the
      boards reached by one move. */
  ghost function MinMoves(g: Grid<char>): nat
    requires IsBoard(g)
    decreases Outside(g), 1
  {
    if AdjColours(g) == {} then 0
    else
      var c :| c in AdjColours(g);
      NextGrows(g, c);
      assert MinMoves(Next(g, c)) in Results(g);
      1 + SetMin(Results(g))
  }

  /** The values of MinMoves on the boards one move away. */
  ghost function Results(g: Grid<char>): set<nat>
    requires IsBoard(g)
    decreases Outside(g), 0
  {
    set c | c in AdjColours(g) :: (NextGrows(g, c); MinMoves(Next(g, c)))
  }

  /** No move does better than the value MinMoves assigns. */
  lemma MinMovesStep(g: Grid<char>, c: char)
    requires IsBoard(g) && c in AdjColours(g)
    ensures MinMoves(g) <= 1 + MinMoves(Next(g, c))
  {
    assert MinMoves(Next(g, c)) in Results(g);
  }

  /** Some move attains it. */
  lemma MinMovesBest(g: Grid<char>) returns (c: char)
    requires IsBoard(g) && AdjColours(g) != {}
    ensures c in AdjColours(g) && MinMoves(g) == 1 + MinMoves(Next(g, c))
  {
    var c0 :| c0 in AdjColours(g);
    assert MinMoves(Next(g, c0)) in Results(g);
    var m := SetMin(Results(g));
    c :| c in AdjColours(g) && MinMoves(Next(g, c)) == m;
  }

  /** No move is left exactly when the top-left region is the whole board,
      which is when the board has one colour. */
  lemma MinMovesZero(g: Grid<char>)
    requires IsBoard(g)
    ensures MinMoves(g) == 0 <==> AdjColours(g) == {}
    ensures AdjColours(g) == {} <==> TopRegion(g) == AllCells(|g|, Cols(g))
    ensures AdjColours(g) == {} <==> Uniform(g)
  {
    var x, s := g[0][0], (0, 0);
    InRegion(g, x, s);
    BorderEmptyIffFull(g, x, s);
    if b :| b in Border(g, x, s) {
      BorderColour(g, x, s, b);
      assert g[b.0][b.1] in AdjColours(g);
      assert !Uniform(g);
    } else {
      assert Border(g, x, s) == {};
      assert TopRegion(g) == AllCells(|g|, Cols(g));
      forall i, j | 0 <= i < |g| && 0 <= j < Cols(g)
        ensures g[i][j] == x
      {
        assert (i, j) in TopRegion(g);
      }
    }
  }

  /** The board after playing `moves` in order. */
  ghost function Play(g: Grid<char>, moves: seq<char>): (h: Grid<char>)
    requires IsBoard(g)
    ensures IsBoard(h)
    decreases |moves|
  {
    if moves == [] then g else Play(Next(g, moves[0]), moves[1..])
  }

  /** Every move recolours with a colour bordering the region at that time. */
  ghost predicate Legal(g: Grid<char>, moves: seq<char>)
    requires IsBoard(g)
    decreases |moves|
  {
    moves == [] || (moves[0] in AdjColours(g) && Legal(Next(g, moves[0]), moves[1..]))
  }

  /** Playing a move and then the rest is playing the rest from the board
      the move gives. */
  lemma PlayCons(g: Grid<char>, c: char, rest: seq<char>)
    requires IsBoard(g)
    ensures Play(g, [c] + rest) == Play(Next(g, c), rest)
    ensures Legal(g, [c] + rest) <==> c in AdjColours(g) && Legal(Next(g, c), rest)
  {
    var moves := [c] + rest;
    assert moves[0] == c && moves[1..] == rest;
  }

  /** MinMoves legal moves suffice to make the board uniform. */
  lemma MinMovesAchievable(g: Grid<char>) returns (moves: seq<char>)
    requires IsBoard(g)
    ensures Legal(g, moves) && |moves| == MinMoves(g) && Uniform(Play(g, moves))
    decreases Outside(g)
  {
    if AdjColours(g) == {} {
      MinMovesZero(g);
      moves := [];
    } else {
      var c := MinMovesBest(g);
      NextGrows(g, c);
      var rest := MinMovesAchievable(Next(g, c));
      moves := [c] + rest;
      PlayCons(g, c, rest);
    }
  }

  /** A cell of the border has one of the bordering colours. */
  lemma BorderHasAdjColour(g: Grid<char>, p: Cell)
    requires IsBoard(g)
    ensures p in Border(g, g[0][0], (0, 0)) ==> InBounds(g, p) && g[p.0][p.1] in AdjColours(g)
  {
    if p in Border(g, g[0][0], (0, 0)) {
      BorderColour(g, g[0][0], (0, 0), p);
    }
  }

  /** A move with a colour that borders nothing recolours the top-left
      region without growing it: a neighbour of the region that has the
      move's colour afterwards was already in the region. */
  lemma IdleNeighbour(g: Grid<char>, c: char, q: Cell, q': Cell)
    requires IsBoard(g) && c !in AdjColours(g)
    requires q in TopRegion(g) && q' in CellsOf(Next(g, c), c) && Adjacent(q, q')
    ensures q' in TopRegion(g)
  {
    AdjacentTouches(TopRegion(g), q, q');
    BorderHasAdjColour(g, q');
  }

  /** So the region does not change. */
  lemma IdleRegion(g: Grid<char>, c: char)
    requires IsBoard(g) && c !in AdjColours(g)
    ensures TopRegion(Next(g, c)) == TopRegion(g)
  {
    var x, s := g[0][0], (0, 0);
    var R, h := TopRegion(g), Next(g, c);
    var C := CellsOf(h, c);
    InRegion(g, x, s);
    assert h[0][0] == c;
    assert R <= C;
    ReachWithin(CellsOf(g, x), s);
    ReachWiden(R, R, C, C, s);
    forall q, q' | q in R && q' in C && Adjacent(q, q')
      ensures q' in R
    {
      IdleNeighbour(g, c, q, q');
    }
    ClosedContainsReach(C, C, s, R);
  }

  /** After such a move the region has the same border, on which the board
      is unchanged. */
  lemma IdleBorder(g: Grid<char>, c: char)
    requires IsBoard(g) && c !in AdjColours(g)
    ensures Border(Next(g, c), c, (0, 0)) == Border(g, g[0][0], (0, 0))
    ensures forall p :: p in Border(g, g[0][0], (0, 0)) ==> InBounds(g, p) && Next(g, c)[p.0][p.1] == g[p.0][p.1]
  {
    var h := Next(g, c);
    IdleRegion(g, c);
    InRegion(g, g[0][0], (0, 0));
    assert h[0][0] == c;
    forall p | p in Border(g, g[0][0], (0, 0))
      ensures InBounds(g, p)
    {
      BorderColour(g, g[0][0], (0, 0), p);
    }
  }

  /** So the same colours border the region. */
  lemma IdleColours(g: Grid<char>, c: char)
    requires IsBoard(g) && c !in AdjColours(g)
    ensures AdjColours(Next(g, c)) == AdjColours(g)
  {
    var h := Next(g, c);
    IdleBorder(g, c);
    InRegion(g, g[0][0], (0, 0));
    assert h[0][0] == c;
    ColoursAtAgree(g, h, Border(g, g[0][0], (0, 0)));
  }

  /** and every next move leads to the board it leads to from before. */
  lemma IdleNext(g: Grid<char>, c: char, c': char)
    requires IsBoard(g) && c !in AdjColours(g)
    ensures Next(Next(g, c), c') == Next(g, c')
  {
    IdleRegion(g, c);
    FilledAgain(g, TopRegion(g), c, c');
  }

  /** So a move with a colour that borders nothing changes nothing the
      search looks at. */
  lemma IdleMinMoves(g: Grid<char>, c: char)
    requires IsBoard(g) && c !in AdjColours(g)
    ensures MinMoves(Next(g, c)) == MinMoves(g)
  {
    var h := Next(g, c);
    IdleColours(g, c);
    forall c' | c' in AdjColours(g)
      ensures Next(h, c') == Next(g, c')
    {
      IdleNext(g, c, c');
    }
    assert Results(h) == Results(g);
  }

  /** No shorter sequence of moves, with any colours, makes the board
      uniform. */
  lemma {:induction false} MinMovesOptimal(g: Grid<char>, moves: seq<char>)
    requires IsBoard(g) && Uniform(Play(g, moves))
    ensures MinMoves(g) <= |moves|
    decreases |moves|
  {
    MinMovesZero(g);
    if moves != [] {
      var c := moves[0];
      MinMovesOptimal(Next(g, c), moves[1..]);
      if c in AdjColours(g) {
        MinMovesStep(g, c);
      } else {
        IdleMinMoves(g, c);
      }
    }
  }

  /** The least element of a non-empty sequence (the library minimum of the
      program). */
  method MinElement(xs: seq<nat>) returns (m: nat)
    requires |xs| > 0
    ensures m in xs && forall x :: x in xs ==> m <= x
  {
    m := xs[0];
    var i := 1;
    while i < |xs|
      invariant 1 <= i <= |xs|
      invariant m in xs[..i] && forall k :: 0 <= k < i ==> m <= xs[k]
    {
      if xs[i] < m {
        m := xs[i];
      }
      i := i + 1;
    }
    assert xs[..i] == xs;
  }

  /** A fresh copy of the board. */
  method CopyBoard(board: array2<char>) returns (copy: array2<char>)
    ensures fresh(copy) && copy.Length0 == board.Length0 && copy.Length1 == board.Length1
    ensures Snap(copy) == Snap(board)
  {
    copy := new char[board.Length0, board.Length1]((i, j) reads board =>
      if 0 <= i < board.Length0 && 0 <= j < board.Length1 then board[i, j] else ' ');
    SnapCells(copy);
    SnapCells(board);
    GridExt(Snap(copy), Snap(board));
  }

  /** The colours the program's scan and filter produce are the moves. */
  lemma ScanGivesMoves(board: array2<char>, cells: seq<Cell>, adjcol: string, filtered: string)
    requires board.Length0 >= 1 && board.Length1 >= 1
    requires Spells(board, cells, adjcol)
    requires Elems(cells) == Border(Snap(board), board[0, 0], (0, 0))
    requires Elems(filtered) == Elems(adjcol)
    ensures Elems(filtered) == AdjColours(Snap(board))
    ensures |adjcol| == 0 <==> AdjColours(Snap(board)) == {}
  {
    var g := Snap(board);
    SnapCells(board);
    forall c | c in AdjColours(g)
      ensures c in adjcol
    {
      var p :| p in Border(g, g[0][0], (0, 0)) && InBounds(g, p) && g[p.0][p.1] == c;
      assert p in Elems(cells);
      var i :| 0 <= i < |cells| && cells[i] == p;
      assert adjcol[i] == c;
    }
    forall i | 0 <= i < |adjcol|
      ensures adjcol[i] in AdjColours(g)
    {
      assert cells[i] in Elems(cells);
    }
    ElemsEmpty(adjcol);
  }

  /** The values of MinMoves after each of `moves`, in order: what the loop
      of GameHelper collects. */
  ghost function MoveResults(g: Grid<char>, moves: seq<char>): (r: seq<nat>)
    requires IsBoard(g)
    ensures |r| == |moves|
    decreases |moves|
  {
    if moves == [] then []
    else MoveResults(g, moves[..|moves| - 1]) + [MinMoves(Next(g, moves[|moves| - 1]))]
  }

  /** One more move adds its value at the end. */
  lemma MoveResultsNext(g: Grid<char>, moves: seq<char>, i: int)
    requires IsBoard(g) && 0 <= i < |moves|
    ensures MoveResults(g, moves[..i + 1]) == MoveResults(g, moves[..i]) + [MinMoves(Next(g, moves[i]))]
  {
    assert moves[..i + 1][..i] == moves[..i];
  }

  lemma {:induction false} MoveResultsAt(g: Grid<char>, moves: seq<char>, k: int)
    requires IsBoard(g) && 0 <= k < |moves|
    ensures MoveResults(g, moves)[k] == MinMoves(Next(g, moves[k]))
    decreases |moves|
  {
    if k < |moves| - 1 {
      MoveResultsAt(g, moves[..|moves| - 1], k);
    }
  }

  /** The least of the values the loop collects, one per move, is one less
      than MinMoves. */
  lemma LeastResult(g: Grid<char>, moves: string, m: nat)
    requires IsBoard(g) && Elems(moves) == AdjColours(g) && |moves| > 0
    requires m in MoveResults(g, moves) && forall x :: x in MoveResults(g, moves) ==> m <= x
    ensures MinMoves(g) == m + 1
  {
    var results := MoveResults(g, moves);
    assert moves[0] in Elems(moves);
    forall y | y in Results(g)
      ensures m <= y
    {
      var c :| c in AdjColours(g) && y == MinMoves(Next(g, c));
      var k :| 0 <= k < |moves| && moves[k] == c;
      MoveResultsAt(g, moves, k);
      assert results[k] in results;
    }
    var k :| 0 <= k < |results| && results[k] == m;
    MoveResultsAt(g, moves, k);
    assert moves[k] in Elems(moves) && m in Results(g);
  }

  /** One pass of the loop of GameHelper: plays move `c` on a copy of the
      board and searches on from there.  The board itself is not changed. */
  method PlayMove(board: array2<char>, c: char, ghost g: Grid<char>) returns (steps: nat)
    requires board.Length0 >= 1 && board.Length1 >= 1
    requires g == Snap(board) && c in AdjColours(g)
    ensures steps == MinMoves(Next(g, c))
    decreases Outside(g), 0
  {
    var copy := CopyBoard(board);
    NextGrows(g, c);
    var _ := FloodFill(TopLeft, TopLeft, copy, copy[TopLeft, TopLeft], c);
    steps := GameHelper(TopLeft, TopLeft, copy);
  }

  /** Plays every move from the board in turn, on a copy each, and returns
      one more than the best result, or 0 when no move is left.  The board
      itself is not changed. */
  method GameHelper(row: int, col: int, board: array2<char>) returns (steps: nat)
    requires board.Length0 >= 1 && board.Length1 >= 1
    ensures steps == MinMoves(Snap(board))
    decreases Outside(Snap(board)), 1
  {
    ghost var g := Snap(board);
    SnapCells(board);
    var adjcol, cells := FindAdjacentColors(TopLeft, TopLeft, board, board[TopLeft, TopLeft]);
    var filtered := FilterAdjacentColors(adjcol);
    ScanGivesMoves(board, cells, adjcol, filtered);
    if |adjcol| <= 0 {
      return 0;
    }
    ElemsEmpty(filtered);
    var numSteps: seq<nat> := [];
    var i := 0;
    while i < |filtered|
      invariant 0 <= i <= |filtered| && |numSteps| == i
      invariant Snap(board) == g
      invariant numSteps == MoveResults(g, filtered[..i])
    {
      assert filtered[i] in Elems(filtered);
      var s := PlayMove(board, filtered[i], g);
      numSteps := numSteps + [s];
      MoveResultsNext(g, filtered, i);
      i := i + 1;
    }
    assert filtered[..i] == filtered;
    var m := MinElement(numSteps);
    LeastResult(g, filtered, m);
    steps := m + 1;
  }

  /** The number of moves the game needs from this board. */
  method Game(row: int, col: int, board: array2<char>) returns (steps: nat)
    requires board.Length0 >= 1 && board.Length1 >= 1
    ensures steps == MinMoves(Snap(board))
    ensures steps == 0 <==> Uniform(Snap(board))
  {
    steps := GameHelper(row, col, board);
    MinMovesZero(Snap(board));
  }
}

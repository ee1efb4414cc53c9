# Flood fill, adjacent colours and the fill game

This project models `flood_fill.cpp`, a program that works on a board of colour characters. It does three things:

- **Flood fill.** Starting from a seed cell, it overwrites every cell that is 4-connected to the seed through cells of the initial colour, and counts the cells it overwrote.
- **Adjacent colours.** A depth-first scan with a visited table reports the colours of the cells that border the seed's region.
- **The fill game.** An exhaustive search for the least number of moves that make the board one colour. A move recolours the region of the top-left cell with one of the colours next to it.

The model follows the program's own form:

- The board is an `array2<char>` that the fill updates in place through a `modifies` clause.
- The visited table is an `array2<bool>`.
- The loops of the colour filter and of the game are `while` loops with invariants.
- Each recursive procedure of the program is a recursive method.

Each method is proved against a value-level specification:

- `Snap(a)` is the contents of an array as a sequence of rows.
- `Reach(avail, expand, s)` is the set of cells that a walk from `s` reaches when it steps between 4-neighbours, visits only cells of `avail` and continues only from cells of `expand`.
- `Region(g, x, s)` is the fill region of the seed: `Reach` over the cells of colour `x`.
- `Border(g, x, s)` is the set of in-grid cells outside the region next to one of its cells.
- `Filled(g, S, c)` is `g` with the cells of `S` overwritten by `c`.
- `MinMoves(g)` is the value the game's exhaustive search computes. It is defined by recursion on the number of cells outside the top-left region.

Modules:

- `Grids`: grids, cells, neighbours and the fill of a set of cells.
- `Reachability`: walks and reachable sets, plus the invariant `Partial` shared by both depth-first traversals.
- `Regions`: regions, borders and the connectivity of the grid.
- `Fill`: `flood_fill_helper` and `flood_fill`.
- `Adjacency`: `find_adjacent_colors_helper` and `find_adjacent_colors`.
- `Sequences`: distinctness and sortedness of strings.
- `Filter`: `filter_adjacent_colors`, with the library sort.
- `Game`: `game_helper` and `game`, with the library minimum.

The four calls one after another (down, up, right, left) in `flood_fill_helper` and `find_adjacent_colors_helper` are modelled by a companion method each, `FillNeighbours` and `ScanNeighbours`. The companion handles the `k`-th of the four calls and then the rest, in the same order. Each of these methods takes a ghost set that names the cells still available, such as the cells of the initial colour or the unvisited cells. That set is what proves termination.

## Model

| member | source | states |
|---|---|---|
| Fill.FloodFillHelper | flood_fill.cpp:47-62 | Overwrites with the replacement colour exactly the cells reachable from (row, col) through cells of the initial colour. Every other cell keeps its old value. The cells of the initial colour afterwards are the old ones minus that region. The returned count is the size of the region, and 0 when the seed is out of bounds or has another colour. |
| Fill.FillNeighbours | flood_fill.cpp:56-61 | The four recursive calls in order, with part `U` of the region already overwritten. Together they overwrite the rest of the region, and their counts add up to the region's size minus the size of `U`. |
| Fill.FloodFill | flood_fill.cpp:73-76 | The new board is the old board with the seed's region of the initial colour overwritten. The result is the region's size. That size lies between 1 and rows*cols when the seed is in bounds and has the initial colour. Otherwise the result is 0 and the board is unchanged. |
| Fill.RegionSize | flood_fill.cpp:54-61 | A seed in bounds with the initial colour has a region of at least one cell and at most rows*cols cells. |
| Fill.RefillEmpty | flood_fill.cpp:50-53 | After a fill with a different colour, the seed's region of the initial colour is empty. So a second identical fill overwrites nothing and returns 0. |
| Adjacency.FindAdjacentColorsHelper | flood_fill.cpp:102-123 | Every unvisited cell that the scan reaches gets marked visited, and no other cell does. It steps on unvisited in-bounds cells and continues only through cells of the initial colour. The result lists the colours of the reached cells that have another colour, one per cell and each cell once. |
| Adjacency.ScanNeighbours | flood_fill.cpp:116-122 | The four recursive calls in order. Their concatenated results cover the reached cells not yet reached before, each cell once. |
| Adjacency.FindAdjacentColors | flood_fill.cpp:133-145 | Starts with nothing visited and does not change the board. The reported cells are distinct and none has the initial colour. From a seed of the initial colour, the reported cells are exactly the border of its region. |
| Regions.ScanReachesBorder | flood_fill.cpp:102-123 | The cells of another colour that the scan reaches from a seed of colour `x` are exactly the border of the seed's region. |
| Regions.BorderEmptyIffFull | flood_fill.cpp:189-192 | A region has no border exactly when it covers the whole grid. |
| Filter.Insert | flood_fill.cpp:170 | Inserting into a sorted string keeps it sorted and adds exactly that one character. |
| Filter.Sort | flood_fill.cpp:170 | The result is sorted and a permutation of the input. |
| Filter.FilterAdjacentColors | flood_fill.cpp:152-172 | The result is strictly ascending, so every colour appears once. It holds exactly the characters of the input. |
| Sequences.SortedDistinct | flood_fill.cpp:166-170 | Sorting a string without repeats gives a strictly ascending string with the same characters. |
| Sequences.AscendingUnique | flood_fill.cpp:152-172 | Two strictly ascending strings with the same characters are equal. So the filter's output depends only on the set of colours scanned, not on their order or their repeats. |
| Game.NextGrows | flood_fill.cpp:195-199 | A move with a colour that borders the top-left region gives the top-left cell that colour. It strictly enlarges the top-left region, so strictly fewer cells lie outside it. This is why the recursion of the game ends. |
| Game.SetMin | flood_fill.cpp:205 | The least element of a non-empty set of numbers is in the set and no larger than any element. |
| Game.MinMovesStep | flood_fill.cpp:195-205 | No move is better than the value of the search: for every bordering colour `c`, MinMoves(g) is at most 1 + MinMoves(Next(g, c)). |
| Game.MinMovesBest | flood_fill.cpp:195-205 | Some bordering colour attains that bound. |
| Game.MinMovesZero | flood_fill.cpp:189-192 | The search gives 0 exactly when no colour borders the top-left region. That happens exactly when the region is the whole board, which is exactly when the board has one colour. |
| Game.PlayCons | flood_fill.cpp:195-199 | Playing a move and then a sequence of moves is playing that sequence from the board the move gives. |
| Game.MinMovesAchievable | flood_fill.cpp:181-206 | Some sequence of MinMoves(g) legal moves makes the board one colour. A legal move always uses a colour that borders the top-left region. |
| Game.IdleRegion | flood_fill.cpp:195-199 | A move with a colour that borders nothing recolours the top-left region without growing it: the region afterwards is the region before. |
| Game.IdleColours | flood_fill.cpp:186-190 | After such a move the same colours border the top-left region. |
| Game.IdleNext | flood_fill.cpp:195-199 | After such a move, every further move gives the board it would have given without it. |
| Game.IdleMinMoves | flood_fill.cpp:181-206 | Such a move leaves the value of the search unchanged. |
| Game.MinMovesOptimal | flood_fill.cpp:181-206 | No shorter sequence of moves, with any colours, makes the board one colour. |
| Game.MinElement | flood_fill.cpp:205 | The result is an element of the non-empty sequence and no larger than any of its elements. |
| Game.CopyBoard | flood_fill.cpp:196 | A fresh board with the same contents. |
| Game.ScanGivesMoves | flood_fill.cpp:186-190 | The scan followed by the filter yields exactly the colours that border the top-left region. The scan is empty exactly when there are none. |
| Game.MoveResultsNext | flood_fill.cpp:199 | One more pass of the loop appends the value of the next move. |
| Game.MoveResultsAt | flood_fill.cpp:195-200 | The k-th value collected is MinMoves of the board after the k-th move. |
| Game.LeastResult | flood_fill.cpp:205 | Suppose the moves are exactly the bordering colours. Then the least value collected, plus one, is MinMoves of the board. |
| Game.PlayMove | flood_fill.cpp:196-199 | One pass of the loop: copy the board, fill the copy's top-left region with the move's colour, search on from the copy. The result is MinMoves of the board after that move, and the original board stays as it was. |
| Game.GameHelper | flood_fill.cpp:181-206 | Returns MinMoves of the board, without changing the board (the method has no `modifies` clause). |
| Game.Game | flood_fill.cpp:215-217 | Returns MinMoves of the board. The result is 0 exactly when the board has one colour. |

## Left out

- Reading a board from input (`start_board`), printing a board (`print_board`) and the command loop (`fill`, `adjacent`, `find_min`, `main`): these are input and output around the core.
- `std::sort` and `std::min_element` are library code. They are stood in for by `Filter.Sort` (an insertion sort) and `Game.MinElement` (a linear scan). Only their contracts matter to the rest of the model.
- Colours are assumed to be ASCII characters, which the model orders by their code points. The program reads colours as bytes into a `char`, which is signed on the usual platforms, so `std::sort` would put bytes 0x80 to 0xFF before every ASCII character. Bytes above 0x7F are not modelled.
- The recursion depth of the program, and so running out of call stack on large boards, is not modelled.
- Fill.FloodFillHelper: requires the initial and the replacement colour to differ, and so do Fill.FillNeighbours and Fill.FloodFill. With equal colours the outcome depends on the region's size. If the region has two or more cells, the code never terminates: a written cell still has the initial colour, so the call on a neighbour in the region comes back to it, and so on without end. If the region has at most one cell, the code terminates: it returns the region's size, 0 or 1, and the board is unchanged, because the one write puts the same colour back. The model leaves out the whole equal-colour case, including the case that terminates. A counted no-op write of a larger region, as the intended behaviour is sometimes described, is not what the code does.
- Adjacency.FindAdjacentColors: the program builds the visited table by appending to one growing row, so row `r` has `(r + 1) * cols` entries. Only the first `cols` entries of each row are ever read or written, so the model uses a rows x cols table.
- Game.GameHelper: requires a board of at least one cell, and so do Game.Game and Game.PlayMove. The program's `game_helper` reads `board[0][0]` (flood_fill.cpp:186), which does not exist on an empty board. The fill and the scan need no such requires. They return 0 and the empty string on an empty board, because their bounds test comes before any read of `board[0]`, so the model covers that case.
- Game.GameHelper: the `row` and `col` parameters are unused, as in the program, which always starts at the top-left cell.
- Adjacency.FindAdjacentColorsHelper: the contract does not state the order of the reported colours, only which cells they come from, each once. The order does not matter downstream: the filter sorts the colours, and Sequences.AscendingUnique shows that its output depends only on the set of colours.
- Game.GameHelper: the program keeps every board copy in a vector. The model makes a fresh copy per move and drops it after its search, because no copy is used again.

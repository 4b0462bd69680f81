# Sequencium: a verified model of the two search engines

Sequencium is a two-player game on a square board. Player A starts with a 1
in the top-left corner and player B with a 1 in the bottom-right corner. On
a turn a player fills an empty cell that touches (8-adjacency) one of their
own cells. The new cell gets one more than the largest adjacent value the
player owns. When neither player can move, the player with the larger
maximum value wins.

The repository has two implementations of the same alpha-beta search, and
this project models both:

- **The C++ engine** (`search_engine.cpp`):
  - a `BoardState` of integer cell codes (`player * 100 + value`, 0 for empty) with per-player running maxima;
  - a polynomial board hash, computed mod 2^64;
  - a direct-indexed transposition table with depth-preferred replacement;
  - a `SearchEngine` that generates, orders, makes and unmakes moves on one board in place.

  It is modelled in modules `Encoding`, `Grid`, `Moves`, `Board`, `TTable`, `Scan` and `Engine`. `BoardState`, `TranspositionTable` and `SearchEngine` are classes over arrays. Each method is proved against a function of the board (`Grid`, `Scan`).
- **The Python reference** (`sequencium.py`):
  - a `GameBoard` holding the game rules;
  - a `SequenciumAI` whose `minimax` copies the board for every child.

  It is modelled in modules `Rules` (the rules as functions over a board of `Cell` values), `Games` (class `GameBoard`) and `AI` (class `SequenciumAI`).

The main results:

- **C++ move generation.** `GenerateMoves` returns every destination exactly once, sorted by cell. Each move's value is one more than the value of the *first* owned neighbour in row-major scan order. `CountMobility` is the number of such destinations.
- **C++ make/unmake.** `MakeMove` then `UnmakeMove` restores the board and the max-value array. `Minimax` leaves both unchanged on every return path, cutoffs included.
- **C++ transposition table.** `Store` and `Probe` are proved equal to the functions `StoreSpec` and `ProbeSpec` on `table[..]`, and `StoreThenProbe` is the round trip between them. A probe ignores the bound flag stored with a score.
- **C++ search results.** Every score `evaluate` can give lies within 11000 of zero (`ScoreWithin`), and the engine keeps every stored score within that bound. So the first child always beats the `INT_MIN`/`INT_MAX` start of the loops, and a searched position returns the first child that reaches the maximum (minimum), never the default move. Each `minimax` return, the pass included, states what it writes to the table.
- **Python move generation.** `GetValidMoves` lists every destination once, at the largest adjacent value plus one. `MakeMove` succeeds exactly on those moves.
- **Python search is fail-soft.** `Minimax` is fail-soft against the plain minimax value `MinimaxValue` of the rules:
  - inside the window it returns that value exactly;
  - at or below `alpha` it returns an upper bound of it;
  - at or above `beta` it returns a lower bound of it.

  With the full window the two agree, so `GetBestMove` returns a move of optimal minimax value.

Behaviour that the model reproduces as written:

- **C++ move values.** `generate_moves` marks a destination visited the first time any owned neighbour reaches it (search_engine.cpp:174-179). A move's value therefore comes from the first neighbour in scan order, not the largest one. The later "keep the maximum" sort-and-dedup (search_engine.cpp:187-200) never sees a duplicate; `KeepFirstPerCell` proves it returns its input.
- **C++ pass rule.** When the side to move has no move, `minimax` looks at `generate_moves(board, opponent)`, where `opponent` is taken relative to the root player (search_engine.cpp:336-347). On a minimizing level this is the same side again, so that level is scored as finished and never passes. `Engine.SearchEngine.Expand` states this finished test as the code has it, and `Engine.SearchEngine.Pass` states what a pass returns.
- **C++ pass move.** When the root player cannot move but the opponent can, the level passes, and `minimax` one ply lower fills in the move (search_engine.cpp:346-347). What comes back depends on that level:
  - a probe hit there gives the stored move (search_engine.cpp:321-323);
  - at depth 1 the lower level is depth 0, which evaluates and leaves the move passed in unchanged (search_engine.cpp:330-334), at the root the default move (search_engine.cpp:437);
  - otherwise it is one of the opponent's destinations.

  This is why `FindBestMove` only claims a destination of `player` when `player` has a move.
- **C++ probe flag.** The probe returns the stored score whatever bound flag was stored with it (search_engine.cpp:109-119). So the C++ search is not claimed to equal plain minimax. It is claimed to return a probed score unchanged, and a destination of the side to move as its move.
- **Python `max_depth` of 0.** `get_best_move` with `max_depth == 0` returns `None` even when moves exist, because `minimax` returns no move at depth 0. `GetBestMove` states this.
- **Python board of size 1.** `GameBoard(1)` writes B's starting cell over A's. The board invariant `Valid` therefore needs size 2 or more, and the constructor promises `Valid` only then.

## Model

| member | source | states |
|---|---|---|
| Encoding.Opponent | search_engine.cpp:269 | the opponent is always a player: it is B exactly when the argument is A, and for a player it differs from the argument |
| Encoding.CellPlayer | search_engine.cpp:141-144 | `get_player`: 0 for an empty cell; otherwise the hundreds of the code rounded toward zero, so the code lies within 100 of `player*100` on its own side |
| Encoding.CellValue | search_engine.cpp:147-150 | `get_value`: the code is its owner's hundreds plus the value, the value being 0 for an empty cell, in 0..99 for a positive code and in -99..0 for a negative one |
| Encoding.OwnedMeans | search_engine.cpp:162 | the scans' test `cell > 0 && get_player(cell) == p` holds exactly when the code lies in p*100+1 .. p*100+99 and is positive |
| Encoding.DecodeCode | search_engine.cpp:142-151 | a code written as `player*100 + value`, with value at most 99, is positive, decodes to that owner and that value, and is owned by that player only |
| Encoding.EncodeDecode | search_engine.cpp:142-151 | every valid non-empty code is the encoding of its decoded owner and value |
| Encoding.SentinelDecodes | search_engine.cpp:134-151 | the off-board sentinel -1 decodes as owner 0 and value -1 (C++ truncating `/` and `%`), and it belongs to no player |
| Grid.Place | search_engine.cpp:208 | writing one cell changes that cell to the code and keeps every other cell and the shape |
| Grid.RowMaxIsMax | search_engine.cpp:222-231 | the scan maximum of a row is non-negative, bounds every owned value in the row, and is 0 or attained |
| Grid.GridMaxIsMax | search_engine.cpp:221-232 | the recomputed `player_max_values[p]` is non-negative, bounds every value `p` owns, and is 0 or attained by one of `p`'s cells |
| Grid.RowMaxAfterSet | search_engine.cpp:206-214 | filling an empty cell of a row raises the row maximum to the larger of the old maximum and the new cell's contribution |
| Grid.GridMaxAfterPlace | search_engine.cpp:206-214 | the running update of `make_move` (compare and keep the larger) equals a full rescan after the move |
| Grid.PlaceThenClear | search_engine.cpp:206-218 | playing on an empty cell and then clearing it gives back the same board |
| Grid.PlaceKeepsMaxConsistent | search_engine.cpp:206-214 | if the max array agreed with a full scan before a move, it agrees after `make_move`'s update |
| Grid.FitsAfterPlace | search_engine.cpp:207 | writing a player's value within the bound keeps every cell a valid code within the bound |
| Grid.FitsWeaken | search_engine.cpp:150 | a board whose values fit a bound fits every larger bound up to 99 |
| Grid.HashInRange | search_engine.cpp:52-60 | the board hash is an unsigned 64-bit value |
| Grid.HashRowInRange | search_engine.cpp:55-57 | hashing one row from a 64-bit state stays in 64 bits |
| Grid.ScoreAntisymmetric | search_engine.cpp:268-294 | the evaluation from the opponent's side is the negation of the evaluation from the player's side |
| Grid.ScoreWithin | search_engine.cpp:268-294 | on a board of at most 10 by 10 cells with consistent maxima, `evaluate` lies between -11000 and 11000 |
| Grid.GridMaxBound | search_engine.cpp:221-232 | a recomputed maximum is between 0 and 99 |
| Grid.CellCountBound | search_engine.cpp:275-284 | the cell count of a player is at most the number of cells |
| Grid.CellsBound | search_engine.cpp:236-264 | a set of cells of an n-column board within its first k rows has at most k*n elements, which bounds the mobility |
| Grid.FirstOwnerUnique | search_engine.cpp:174-179 | a destination has at most one first owner in row-major order |
| Moves.Insert | search_engine.cpp:188-193 | inserting into a list adds exactly that element (multiset) and one to the length |
| Moves.InsertSorted | search_engine.cpp:188-193 | inserting into a list sorted by a total preorder keeps it sorted |
| Moves.SortBy | search_engine.cpp:188-193 | `std::sort` gives a sorted permutation of its input |
| Moves.CellOrderIsTotalPreorder | search_engine.cpp:189-193 | the comparator of the dedup sort (row, then column, then larger value) is a total preorder |
| Moves.ScoreOrderIsTotalPreorder | search_engine.cpp:309 | the comparator of `order_moves` (larger score first) is a total preorder |
| Moves.DistinctCellsPermutation | search_engine.cpp:187-200 | a permutation of a list with distinct cells has distinct cells |
| Moves.Scored | search_engine.cpp:298-306 | rescoring keeps the length and gives each move `value*1000 + (size - dist-to-centre)*10`, with row, column and value unchanged |
| Moves.ScoredPermutation | search_engine.cpp:297-310 | every move of a permutation of the rescored list is some input move rescored, and distinct cells stay distinct |
| Board.EncodeRows | search_engine.cpp:415-434 | the grid built from the Python rows is square of the given size and holds `player*100+value` for a filled entry and 0 for an empty one |
| Board.SnapshotFits | search_engine.cpp:426 | when the snapshot's values are within a bound, every encoded cell is a valid code within it |
| Board.Zeros | search_engine.cpp:46-49 | the cleared grid is square of the given size and all zero |
| Board.BoardState.constructor | search_engine.cpp:46-49 | `BoardState(sz)` has size `sz`, an all-zero grid and all-zero maxima |
| Board.BoardState.FromSnapshot | search_engine.cpp:412-434 | the board filled from the rows holds their encoding, and its max array agrees with a full scan for both players |
| Board.BoardState.Load | search_engine.cpp:415-434 | the fill loop writes every row and leaves the maxima consistent with the grid |
| Board.BoardState.LoadRow | search_engine.cpp:417-433 | one row of the fill loop writes that row only and raises each player's maximum to the row's maximum |
| Board.BoardState.LoadCell | search_engine.cpp:418-432 | one cell of the fill loop writes that cell only and keeps the larger of the old maximum and the new value |
| Board.BoardState.Hash | search_engine.cpp:52-60 | `hash()` is the row-major polynomial hash with factor 131 mod 2^64 |
| Board.BoardState.CopyFrom | search_engine.cpp:62-66 | `copy_from` copies the size, every cell and the max array |
| TTable.Slot | search_engine.cpp:96 | `hash % table_size` is an index of the table |
| TTable.StoreSpec | search_engine.cpp:95-107 | a store keeps the length and touches no slot but `hash % size` |
| TTable.StoreThenProbe | search_engine.cpp:95-119 | after a store that replaces its slot, a probe of the same hash at a depth no greater succeeds with the stored score and move, whatever the flag |
| TTable.StoreKeepsDeeper | search_engine.cpp:99-106 | a store into a filled slot holding a deeper entry changes nothing |
| TTable.StoreKeepsOtherProbes | search_engine.cpp:95-119 | a store does not change any probe that maps to another slot |
| TTable.EmptyTableProbe | search_engine.cpp:109-119 | on a cleared table a probe succeeds only for hash 0 at depth 0 or less, returning score 0 and the empty move |
| TTable.StoreKeepsScoresWithin | search_engine.cpp:95-107 | storing a score within a bound keeps every stored score within it |
| TTable.ProbeWithin | search_engine.cpp:109-119 | a successful probe returns a score within the bound the table keeps |
| TTable.TranspositionTable.constructor | search_engine.cpp:87 | a new table has the requested size and every slot empty |
| TTable.TranspositionTable.Resize | search_engine.cpp:89-93 | `resize` gives a fresh table of the new size with every slot empty |
| TTable.TranspositionTable.Store | search_engine.cpp:95-107 | `store` overwrites slot `hash % size` exactly when it is empty or the new depth is at least the stored one |
| TTable.TranspositionTable.Probe | search_engine.cpp:109-119 | `probe` succeeds exactly when the slot holds the same hash at a depth at least the one asked for, and then returns its score and move |
| TTable.TranspositionTable.Clear | search_engine.cpp:121-124 | `clear` empties every slot |
| Scan.FirstOwnerAtScan | search_engine.cpp:174-179 | an owned cell that reaches a destination not yet covered by the scan is that destination's first owner |
| Scan.FrontierCount | search_engine.cpp:236-265 | a duplicate-free list of exactly the destinations has the mobility as its length |
| Scan.MoveListLength | search_engine.cpp:154-203 | a move list has one move per destination, so its length is the mobility |
| Scan.MoveListEmpty | search_engine.cpp:339 | a move list is empty exactly when the player has no destination |
| Scan.ScanDone | search_engine.cpp:159-185 | after the full scan, every listed cell is a destination, every destination is listed, and the list length is the mobility |
| Scan.TakenAppend | search_engine.cpp:176-179 | taking a fresh destination from its first owner, at that owner's value plus one, keeps the list well formed |
| Scan.SortedScanIsMoveList | search_engine.cpp:187-200 | sorting the scan's moves by cell gives the promised move list |
| Scan.VisitsAfterTake | search_engine.cpp:174-180 | one neighbour step that takes a move keeps the scan invariants and appends its cell |
| Scan.VisitsSkipNeighbour | search_engine.cpp:169-176 | one neighbour step that skips (the cell itself, off board, filled or already visited) keeps the scan invariants |
| Engine.Side | search_engine.cpp:326-327 | the side to move is a player, and it is the root player exactly on maximizing levels |
| Engine.MoveListPlayable | search_engine.cpp:336-361 | every generated move is on the board, on an empty cell, with a value that still fits the encoding one ply deeper |
| Engine.MoveListEntry | search_engine.cpp:159-185 | each generated move is an empty cell valued one more than a cell the player owns |
| Engine.OrderedMovesPlayable | search_engine.cpp:351 | ordering keeps every move playable, on its destination and at its first owner's value plus one |
| Engine.OwnerValueFits | search_engine.cpp:150 | on a board that fits a bound, an owned cell's value is between 1 and the bound |
| Engine.MaxTraceStep | search_engine.cpp:362-371 | one child of the max loop, searched before any cutoff, keeps the running maximum and alpha, the first child reaching the maximum, and the no-earlier-cutoff record |
| Engine.MinTraceStep | search_engine.cpp:386-395 | one child of the min loop, searched before any cutoff, keeps the running minimum and beta, the first child reaching the minimum, and the no-earlier-cutoff record |
| Engine.SearchEngine.constructor | search_engine.cpp:405 | a new engine has a fresh, empty table of the default size and has counted no node |
| Engine.SearchEngine.GetCell | search_engine.cpp:134-139 | `get_cell` returns the cell code on the board and -1 off it |
| Engine.SearchEngine.VisitCell | search_engine.cpp:171-180 | one neighbour of the move scan keeps the scan invariants and mirrors `visited` in the move list |
| Engine.SearchEngine.VisitNeighbours | search_engine.cpp:167-182 | the eight neighbours of one owned cell keep the scan invariants |
| Engine.SearchEngine.ScanRow | search_engine.cpp:160-184 | one row of the move scan keeps the scan invariants |
| Engine.SearchEngine.ScanMoves | search_engine.cpp:159-185 | the scan loop lists each destination once, from its first owner, and as many as the mobility |
| Engine.SearchEngine.KeepFirstPerCell | search_engine.cpp:195-200 | the dedup loop returns its sorted input unchanged when the cells are already distinct |
| Engine.SearchEngine.CountCell | search_engine.cpp:249-258 | one neighbour of the mobility scan counts exactly the cells the move scan would list |
| Engine.SearchEngine.CountNeighbours | search_engine.cpp:245-260 | the eight neighbours of one owned cell keep the count equal to the cells listed so far |
| Engine.SearchEngine.CountRow | search_engine.cpp:241-262 | one row of the mobility scan keeps the count equal to the cells listed so far |
| Engine.SearchEngine.CountMobility | search_engine.cpp:236-265 | `count_mobility` is the number of distinct empty cells adjacent to the player |
| Engine.SearchEngine.GenerateMoves | search_engine.cpp:154-203 | `generate_moves` lists every destination once, sorted by cell, valued from its first owner, and as many moves as the mobility |
| Engine.SearchEngine.MakeMove | search_engine.cpp:206-214 | `make_move` writes `player*100+value` into the cell and raises that player's maximum by comparison only |
| Engine.SearchEngine.UnmakeMove | search_engine.cpp:217-233 | `unmake_move` clears the cell and sets that player's maximum to a full rescan |
| Engine.SearchEngine.RecomputeMax | search_engine.cpp:221-232 | the rescan loop sets the player's maximum to the largest value it owns, 0 if none |
| Engine.SearchEngine.RecomputeRow | search_engine.cpp:223-231 | one row of the rescan raises the maximum to that row's maximum |
| Engine.SearchEngine.CountCellsRow | search_engine.cpp:277-286 | one row of the cell count counts each player's cells in that row |
| Engine.SearchEngine.Evaluate | search_engine.cpp:268-294 | `evaluate` is 100 times the max gap, plus 10 times the cell-count gap, plus the mobility gap |
| Engine.SearchEngine.OrderMoves | search_engine.cpp:297-310 | `order_moves` returns the rescored moves as a permutation sorted by non-increasing score, keeping cells distinct |
| Engine.SearchEngine.PlayChild | search_engine.cpp:358-361 | make, search one ply down, unmake: the board and maxima come back unchanged |
| Engine.SearchEngine.MaxChild | search_engine.cpp:357-368 | one pass of the max loop searches the next child, restores the board, and extends the loop's trace: the running maximum and alpha, the first child reaching the maximum (updated only on a strictly higher score), and no cutoff before the last child |
| Engine.SearchEngine.MinChild | search_engine.cpp:381-392 | one pass of the min loop, the mirror of `MaxChild`: running minimum and beta, the first child reaching the minimum (updated only on a strictly lower score) |
| Engine.SearchEngine.SearchMax | search_engine.cpp:353-376 | the max loop returns the running maximum of the child scores, all within the score bound. It stops exactly at the first child after which `beta <= alpha`: no earlier prefix reached the cutoff, and an early stop comes after one. On a non-empty list its move is the first child whose score equals the maximum (every earlier child scored less), and the board is restored |
| Engine.SearchEngine.SearchMin | search_engine.cpp:377-400 | the min loop returns the running minimum of the child scores, all within the score bound. It stops exactly at the first child after which `beta <= alpha`: no earlier prefix reached the cutoff, and an early stop comes after one. On a non-empty list its move is the first child whose score equals the minimum (every earlier child scored more), and the board is restored |
| Engine.SearchEngine.Terminal | search_engine.cpp:330-334 | a leaf is scored by `evaluate`, within the score bound, and stored in its slot as exact with the move passed in |
| Engine.SearchEngine.Minimax | search_engine.cpp:313-402 | the board and maxima are unchanged on every return and the score is within the bound. A probe hit returns the stored score and move and leaves the table alone. At depth 0, and on a finished position, it returns the evaluation and stores it as exact with the incoming move. On a pass it returns the lower level's probe hit with the table unchanged, or at depth 1 the evaluation with the incoming move stored as exact at depth 0, or a move `generate_moves` gives the opponent stored at depth - 1 as exact or upper bound. A searched position returns a move `generate_moves` gives the side to move (its destination at its first owner's value plus one), stored over the table the children left with flag exact or the side's cutoff bound |
| Engine.SearchEngine.Expand | search_engine.cpp:336-401 | at depth > 0, a position counts as finished when the opponent of the root player has no move and, on maximizing levels, the root player has none either; it is then evaluated and stored as exact. A pass returns what `Pass` states. Otherwise, when the side to move has moves, the move is a move `generate_moves` gives that side, destination and value, stored over the table the children left |
| Engine.SearchEngine.Pass | search_engine.cpp:346-347 | a pass searches the same board one ply lower for the opponent and returns that level's probe hit, leaving the table unchanged; or at depth 1 the evaluation with the incoming move, stored as exact at depth 0; or else a move `generate_moves` gives the opponent, destination and value, stored at depth - 1 over the table the children left, as exact or upper bound; the board is restored |
| Engine.SearchEngine.PrepareMoves | search_engine.cpp:350-351 | the ordered moves are as many as the generated ones, each is a generated move with the same cell and value, and each is playable |
| Engine.SearchEngine.SearchChildren | search_engine.cpp:353-401 | the score is the maximum (minimum) of the child scores, the loop stops at the first cutoff, and the move is the first child reaching the score, a move `generate_moves` gives the side to move with its value. The result is stored over the table the children left with flag 1 (2) exactly when the loop ended with `alpha >= beta`, and 0 otherwise; an early stop always gives a bound flag |
| Engine.SearchEngine.FindBestMove | search_engine.cpp:408-445 | returns the node count, at least 1, and keeps the table's scores bounded. On a cleared table, with depth > 0 and a move for `player`, the returned `(row, col, value)` is a move `generate_moves` gives `player`: a destination valued one more than its first owner in row-major order |
| Engine.SearchEngine.ClearTT | search_engine.cpp:447-449 | `clear_tt` empties the table |
| Rules.Initial | sequencium.py:27-43 | the starting board is square of the given size |
| Rules.InitialCells | sequencium.py:34-43 | on a board of size 2 or more, A owns only (0,0) and B only (n-1,n-1), both valued 1 |
| Rules.InitialMoves | sequencium.py:68-96 | on a board of size 3 or more, A's destinations are exactly (0,1), (1,0) and (1,1), three of them, each worth 2 |
| Rules.InitialMove | sequencium.py:68-96 | each of the three cells around A's corner is a destination worth 2 |
| Rules.NearCornerA | sequencium.py:68-96 | on the starting board every destination of A is one of the three cells around A's corner |
| Rules.InitialMovesB | sequencium.py:68-96 | on a board of size 3 or more, B's destinations are exactly (n-2,n-1), (n-1,n-2) and (n-2,n-2), three of them, each worth 2 |
| Rules.InitialMoveB | sequencium.py:68-96 | each of the three cells around B's corner is a destination worth 2 |
| Rules.NearCornerB | sequencium.py:68-96 | on the starting board every destination of B is one of the three cells around B's corner |
| Rules.Play | sequencium.py:51-54 | `set_cell` keeps the board's shape |
| Rules.AdjacentOffset | sequencium.py:56-66 | being 8-adjacent is the same as being reached by one of the eight offsets |
| Rules.BestOverIs | sequencium.py:90-94 | the fold over the offsets is at least every candidate and is 0 or attained |
| Rules.BestValueIs | sequencium.py:78-94 | a move's value is at least one more than every adjacent value of the player, and equals one of them plus one when there is an owned neighbour |
| Rules.RowMaxOwnedIs | sequencium.py:118-122 | a row's maximum owned value bounds every owned value of the row and is 0 or attained |
| Rules.MaxOwnedIs | sequencium.py:116-122 | `get_max_value` bounds every value the player owns and is 0 or attained |
| Rules.EvalAntisymmetric | sequencium.py:189-212 | the evaluation is zero-sum: from the opponent's side it is negated |
| Rules.BestOfUnion | sequencium.py:239-274 | the better of the best values over two sets of destinations is the best value over their union |
| Rules.RowFoldIs | sequencium.py:239-274 | the fold over one row of destinations is their best child value: infinite exactly when there are none, otherwise attained and dominating every other |
| Rules.GridFoldIs | sequencium.py:239-274 | the fold over the first rows is the best child value over their destinations |
| Rules.FoldIsBest | sequencium.py:239-274 | the fold over the whole board is the best child value over all destinations of the side to move |
| Rules.MinimaxIsFold | sequencium.py:228-274 | where the game is not over and the side to move has a move, the minimax value is finite and is the best child value |
| Games.CornerNeighbours | sequencium.py:56-66 | a corner of a board of size 2 or more has exactly the three neighbours (0,1), (1,0), (1,1) |
| Games.GameBoard.constructor | sequencium.py:27-43 | the new board is the starting board, with positions {(0,0)} for A and {(n-1,n-1)} for B, and satisfies the board invariant for size 2 or more |
| Games.GameBoard.GetCell | sequencium.py:45-49 | `get_cell` returns the cell on the board and nothing (an empty cell) off it |
| Games.GameBoard.SetCell | sequencium.py:51-54 | `set_cell` fills the cell and adds it to the player's positions. Filling an empty cell with a positive value keeps positions equal to each player's owned cells |
| Games.GameBoard.GetNeighbors | sequencium.py:56-66 | `get_neighbors` lists each in-bounds 8-neighbour exactly once, without the cell itself |
| Games.GameBoard.CellCandidates | sequencium.py:79-86 | one owned cell yields a candidate for each empty neighbour, at its value plus one |
| Games.GameBoard.CollectFrom | sequencium.py:78-86 | every candidate is an empty cell next to an owned one at that owner's value plus one, and every such pair appears |
| Games.GameBoard.CollectCandidates | sequencium.py:75-86 | the collect loop over the player's positions yields exactly the candidates of all its cells |
| Games.BestPerCell | sequencium.py:90-94 | the dedup dictionary has one key per candidate cell, holds a candidate's value for each, and no candidate there is larger |
| Games.KeepBestPerCell | sequencium.py:90-96 | the listed items have distinct cells, come from the candidates, and for each candidate hold a value at least as large at its cell |
| Games.MovesLegal | sequencium.py:68-96 | every deduplicated move is a legal move at the largest adjacent value plus one |
| Games.MovesComplete | sequencium.py:68-96 | every destination appears among the deduplicated moves at its legal value |
| Games.MovesCount | sequencium.py:68-96 | a list of distinct legal moves covering every destination has one move per destination |
| Games.GameBoard.GetValidMoves | sequencium.py:68-96 | `get_valid_moves` lists each destination exactly once, at the largest adjacent owned value plus one, and nothing else |
| Games.GameBoard.MakeMove | sequencium.py:98-114 | `make_move` succeeds exactly on a legal move. On success the cell is filled and added to the positions, and nothing else changes. On failure, including an occupied cell, nothing changes. Negative indices wrap as in Python |
| Games.MaxOwnedUnique | sequencium.py:116-122 | a non-negative bound of the player's values that is 0 or attained is the maximum owned value |
| Games.GameBoard.MaxFrom | sequencium.py:118-122 | the loop over the positions yields a bound of the player's values that is 0 or attained |
| Games.GameBoard.GetMaxValue | sequencium.py:116-122 | `get_max_value` is the largest value the player owns, 0 if none |
| Games.GameBoard.IsGameOver | sequencium.py:124-128 | `is_game_over` holds exactly when neither player has a destination |
| Games.GameBoard.GetWinner | sequencium.py:130-145 | `get_winner` is A exactly when A's maximum is larger, B exactly when B's is larger, and nobody exactly on a tie |
| Games.GameBoard.Copy | sequencium.py:147-152 | `copy` is a fresh object with equal size, cells and positions, so later moves on it leave the original alone |
| Games.PlayOwnedCells | sequencium.py:51-54 | filling an empty cell adds it to the mover's owned cells and leaves the opponent's unchanged |
| Games.VisitedAll | sequencium.py:59-66 | after both offset loops the cells visited are exactly the in-bounds neighbours |
| AI.ValueDominated | sequencium.py:239-274 | at a position with moves, the minimax value is at least as good for the side to move as every listed child's value |
| AI.ValueAttained | sequencium.py:239-274 | when the list holds all the moves of the side to move, some listed child attains the minimax value |
| AI.MaxStep | sequencium.py:246-256 | one iteration of the max loop keeps the loop state; a cutoff happens only on a score at or above `beta` that bounds its child's true value from below |
| AI.MaxCutoff | sequencium.py:252-254 | a max-loop cutoff returns a score above alpha and at or above beta that is a lower bound of the minimax value, i.e. fail-soft |
| AI.MaxFinish | sequencium.py:239-256 | a max loop that searched every move returns a fail-soft score for the minimax value, exact at the recorded move inside the window |
| AI.MaxDone | sequencium.py:239-256 | when the max loop runs out of moves, `max_eval` is fail-soft for the best child value, and inside the window the recorded move attains it |
| AI.MinStep | sequencium.py:264-274 | one iteration of the min loop keeps the loop state; a cutoff happens only on a score at or below `alpha` that bounds its child's true value from above |
| AI.MinCutoff | sequencium.py:270-272 | a min-loop cutoff returns a score below beta and at or below alpha that is an upper bound of the minimax value, i.e. fail-soft |
| AI.MinFinish | sequencium.py:257-274 | a min loop that searched every move returns a fail-soft score for the minimax value, exact at the recorded move inside the window |
| AI.MinDone | sequencium.py:257-274 | when the min loop runs out of moves, `min_eval` is fail-soft for the worst child value, and inside the window the recorded move attains it |
| AI.SequenciumAI.constructor | sequencium.py:179-187 | a new AI has the given depth and has counted no node |
| AI.SequenciumAI.EvaluatePosition | sequencium.py:189-212 | `evaluate_position` is 100 times the max gap, plus 10 times the cell-count gap, plus the move-count gap |
| AI.SequenciumAI.Minimax | sequencium.py:214-274 | the score is fail-soft against plain minimax and exact with the full window. At depth 0 or a finished game it is the evaluation, with no move. Otherwise, when the side to move has a move, it returns a legal move whose child has the score inside the window |
| AI.SequenciumAI.SearchMoves | sequencium.py:231-274 | with no move the turn passes one ply shallower; otherwise the max or min loop runs. Either way the score is fail-soft for the minimax value |
| AI.SequenciumAI.PlayChild | sequencium.py:243-247 | copying, playing the move and searching one ply down gives a score fail-soft for that child's minimax value |
| AI.SequenciumAI.SearchMax | sequencium.py:239-256 | the max branch returns a score fail-soft for the minimax value, and a listed move whose child has that score inside the window |
| AI.SequenciumAI.SearchMin | sequencium.py:257-274 | the min branch returns a score fail-soft for the minimax value, and a listed move whose child has that score inside the window |
| AI.SequenciumAI.GetBestMove | sequencium.py:276-291 | `get_best_move` returns nothing exactly when the player has no move or the depth is 0. Otherwise it returns a legal move whose child has the optimal minimax value. Nodes are counted exactly when the player has a move |

## Left out

- pybind11 marshalling (`py::list`/`py::tuple` conversion, `PYBIND11_MODULE`, `get_nodes_evaluated`): foreign calls. `FindBestMove` takes the board as a sequence of rows of `Entry` values instead.
- Console and game loop (`play_game`, `main`, `GameBoard.__str__`), benchmark, demo and build files: I/O and rendering.
- Integer overflow of C++ `int`: the model uses unbounded integers. The encoding limit, values below 100, is a precondition (`Fits`, `ValuesWithin`) rather than modelled overflow.
- Engine.SearchEngine.Minimax: not claimed to equal plain minimax, because the probe ignores the bound flag. Hash collisions are not ruled out and the hash is only a function mod 2^64.
- Engine.SearchEngine.FindBestMove: the move is claimed to be one of `player`'s generated moves only on a cleared table, with depth > 0 and a move available. A stale table entry can return any stored move.
- Engine.SearchEngine.FindBestMove: requires `depth >= 0`. With a negative depth the C++ `depth == 0` test never fires and the search runs until neither side can move (search_engine.cpp:330, 336-347). The model's search terminates on the depth, and the encoding bound `ValuesWithin(rows, 99 - depth)` is stated in terms of it, so that case is not followed.
- Engine.SearchEngine.SearchMax, Engine.SearchEngine.SearchMin: the scores are related to the child scores the loop saw, not to a game-theoretic value.
- Engine.SearchEngine.Minimax, Engine.SearchEngine.Expand, Engine.SearchEngine.Pass: the table the children left behind is named (a ghost result) but not described; only the store at this level (one ply lower on a pass) is stated.
- Moves.SortBy: `std::sort` leaves the order of equal scores unspecified. The executable model fixes it with a stable insertion sort (moves.dfy), and the contracts rely only on the result being sorted and a permutation of the input.
- The `float('-inf')`/`float('inf')` and `INT_MIN`/`INT_MAX` window ends: Python uses the extended integers `Bound` (NegInf, Finite, PosInf); C++ uses the two 32-bit limits as integers.
- The order of set and dictionary iteration in Python: `GetValidMoves` promises its list only up to order, with distinct cells.
- Games.GameBoard.MakeMove: requires `-size <= row, col < size`. Python raises `IndexError` outside that range, and exceptions are not modelled.
- Games.GameBoard.constructor: promises the board invariant only for size 2 or more. On size 1, B's starting cell overwrites A's and `player_positions` no longer matches the board.
- AI.SequenciumAI.Minimax: in the pass case the move returned is the one from the next level down, and its contract says nothing about it.
- Games.GameBoard.constructor, AI.SequenciumAI.constructor: the Python default arguments `size=6` (sequencium.py:27) and `max_depth=4` (sequencium.py:179) are not modelled; Dafny constructors have no defaults, so callers pass the size and the depth explicitly.
- AI.SequenciumAI.GetBestMove: requires `max_depth >= 0`. A negative depth makes Python's recursion run until game over, which the model does not follow.
- The node counter of the Python search is only claimed to grow; its exact count depends on pruning.

/**
 * `SearchEngine`: the C++ engine's move generation, make/unmake, evaluation,
 * move ordering and alpha-beta search over a `BoardState`, with its
 * transposition table and node counter as fields.
 */
module Engine {
  import opened Encoding
  import opened Collections
  import opened Grid
  import opened Moves
  import opened Scan
  import opened Board
  import opened TTable

  /** `std::numeric_limits<int>::min()` and `max()`: the window sentinels of the search. */
  const IntMin: int := -0x8000_0000
  const IntMax: int := 0x7fff_ffff

  function Min(x: int, y: int): int
  {
    if x <= y then x else y
  }

  /** The running maximum of a loop that starts from `init` and sees `s` in order. */
  function MaxOf(init: int, s: seq<int>): int
  {
    if s == [] then init else Max(MaxOf(init, s[..|s| - 1]), s[|s| - 1])
  }

  /** The running minimum of a loop that starts from `init` and sees `s` in order. */
  function MinOf(init: int, s: seq<int>): int
  {
    if s == [] then init else Min(MinOf(init, s[..|s| - 1]), s[|s| - 1])
  }

  /**
   * What the maximizing loop knows of the scores `evals` it has seen: the
   * running maximum and alpha, the scores within the bound, `bi` the first
   * child reaching the maximum, and no cutoff before the last child.
   */
  ghost predicate MaxTrace(alpha: int, beta: int, evals: seq<int>, maxEval: int, alpha': int, bi: int)
  {
    maxEval == MaxOf(IntMin, evals) && alpha' == MaxOf(alpha, evals) &&
    (forall i :: 0 <= i < |evals| ==> -ScoreBound <= evals[i] <= ScoreBound && evals[i] <= maxEval) &&
    (|evals| == 0 ==> maxEval == IntMin && bi == 0) &&
    (|evals| > 0 ==> 0 <= bi < |evals| && evals[bi] == maxEval) &&
    (forall i :: 0 <= i < bi ==> evals[i] < maxEval) &&
    (forall i :: 0 < i < |evals| ==> MaxOf(alpha, evals[..i]) < beta)
  }

  /** One child of the maximizing loop, searched when no cutoff has happened yet. */
  lemma MaxTraceStep(alpha: int, beta: int, evals: seq<int>, maxEval: int, alpha': int, bi: int, x: int)
    requires MaxTrace(alpha, beta, evals, maxEval, alpha', bi) && (|evals| > 0 ==> alpha' < beta)
    requires -ScoreBound <= x <= ScoreBound
    ensures MaxTrace(alpha, beta, evals + [x], if x > maxEval then x else maxEval, Max(alpha', x),
                     if x > maxEval then |evals| else bi)
  {
    var e := evals + [x];
    assert e[..|evals|] == evals;
    assert forall i :: 0 <= i <= |evals| ==> e[..i] == evals[..i];
  }

  /** The minimizing loop's counterpart of `MaxTrace`. */
  ghost predicate MinTrace(alpha: int, beta: int, evals: seq<int>, minEval: int, beta': int, bi: int)
  {
    minEval == MinOf(IntMax, evals) && beta' == MinOf(beta, evals) &&
    (forall i :: 0 <= i < |evals| ==> -ScoreBound <= evals[i] <= ScoreBound && evals[i] >= minEval) &&
    (|evals| == 0 ==> minEval == IntMax && bi == 0) &&
    (|evals| > 0 ==> 0 <= bi < |evals| && evals[bi] == minEval) &&
    (forall i :: 0 <= i < bi ==> evals[i] > minEval) &&
    (forall i :: 0 < i < |evals| ==> alpha < MinOf(beta, evals[..i]))
  }

  /** One child of the minimizing loop, searched when no cutoff has happened yet. */
  lemma MinTraceStep(alpha: int, beta: int, evals: seq<int>, minEval: int, beta': int, bi: int, x: int)
    requires MinTrace(alpha, beta, evals, minEval, beta', bi) && (|evals| > 0 ==> alpha < beta')
    requires -ScoreBound <= x <= ScoreBound
    ensures MinTrace(alpha, beta, evals + [x], if x < minEval then x else minEval, Min(beta', x),
                     if x < minEval then |evals| else bi)
  {
    var e := evals + [x];
    assert e[..|evals|] == evals;
    assert forall i :: 0 <= i <= |evals| ==> e[..i] == evals[..i];
  }

  /** The side to move: `player` on maximizing levels, the opponent otherwise. */
  function Side(maximizing: bool, player: int): (s: int)
    requires IsPlayer(player)
    ensures IsPlayer(s) && (s == player <==> maximizing)
  {
    if maximizing then player else Opponent(player)
  }

  /** A move `make_move` may play without leaving the cell encoding: an empty cell, a value in 1..bound. */
  ghost predicate Playable(g: Rows, m: Move, bound: int)
  {
    IsEmptyCell(g, m.row, m.col) && 1 <= m.value <= bound && bound <= MaxValue
  }

  /** The table's answer for a board: `probe` with the board's hash. */
  ghost function Probed(t: seq<TTEntry>, g: Rows, depth: int): Option<(int, Move)>
    requires |t| > 0
  {
    HashInRange(g);
    ProbeSpec(t, HashGrid(g), depth)
  }

  /**
   * While the board's values are at most 99 - depth, every generated move
   * can be played: its cell is empty and its value fits in 1..100 - depth.
   */
  lemma MoveListPlayable(g: Rows, p: int, moves: seq<Move>, depth: int)
    requires MoveList(g, p, moves) && Fits(g, MaxValue - depth) && depth >= 1
    ensures forall k :: 0 <= k < |moves| ==> Playable(g, moves[k], MaxValue - depth + 1)
  {
    forall k | 0 <= k < |moves| ensures Playable(g, moves[k], MaxValue - depth + 1) {
      var a, b := MoveListEntry(g, p, moves, k);
      OwnerValueFits(g, p, a, b, MaxValue - depth);
    }
  }

  /** One move of a move list: its destination and the first owner it is valued from. */
  lemma MoveListEntry(g: Rows, p: int, moves: seq<Move>, k: int) returns (a: int, b: int)
    requires MoveList(g, p, moves) && 0 <= k < |moves|
    ensures IsEmptyCell(g, moves[k].row, moves[k].col) && Owns(g, p, a, b) && moves[k].value == CellValue(g[a][b]) + 1
  {
    var m := moves[k];
    assert exists a, b :: FirstOwner(g, p, a, b, m.row, m.col) && m.value == CellValue(g[a][b]) + 1;
    a, b :| FirstOwner(g, p, a, b, m.row, m.col) && m.value == CellValue(g[a][b]) + 1;
  }

  /** Filling in ordering scores keeps every move playable and on a destination of `p`. */
  lemma OrderedMovesPlayable(g: Rows, p: int, moves: seq<Move>, size: int, ordered: seq<Move>, bound: int)
    requires forall k :: 0 <= k < |moves| ==> Playable(g, moves[k], bound) && Generated(g, p, moves[k].row, moves[k].col, moves[k].value)
    requires multiset(ordered) == multiset(Scored(moves, size))
    ensures forall k :: 0 <= k < |ordered| ==> Playable(g, ordered[k], bound) && Generated(g, p, ordered[k].row, ordered[k].col, ordered[k].value)
  {
    ScoredPermutation(moves, size, ordered);
    forall k | 0 <= k < |ordered| ensures Playable(g, ordered[k], bound) && Generated(g, p, ordered[k].row, ordered[k].col, ordered[k].value) {
      var k' :| 0 <= k' < |moves| && ordered[k] == Rescored(moves[k'], size);
      assert Pos(ordered[k]) == Pos(moves[k']) && ordered[k].value == moves[k'].value;
    }
  }

  /** The value of an owned cell of a fitting board is in 1..bound. */
  lemma OwnerValueFits(g: Rows, p: int, a: int, b: int, bound: int)
    requires Owns(g, p, a, b) && Fits(g, bound)
    ensures 1 <= CellValue(g[a][b]) <= bound <= MaxValue
  {
    assert ValidCode(g[a][b], bound);
  }

  class SearchEngine {
    var tt: TranspositionTable
    var nodesEvaluated: int

    /** The table is well formed and, as in every reachable state, holds only scores `evaluate` can give. */
    ghost predicate Valid()
      reads this, tt, tt.table
    {
      tt.Valid() && ScoresWithin(tt.table[..], ScoreBound)
    }

    /** `SearchEngine()`: a default-sized empty table, no nodes counted. */
    constructor ()
      ensures Valid() && fresh(tt) && fresh(tt.table) && nodesEvaluated == 0
      ensures tt.tableSize == DefaultSize && AllEmpty(tt.table[..])
    {
      tt := new TranspositionTable(DefaultSize);
      nodesEvaluated := 0;
    }

    /** `get_cell`: the code of cell (row, col), or -1 off the board. */
    function GetCell(board: BoardState, row: int, col: int): (v: int)
      reads board, board.cells
      requires board.Valid()
      ensures InBounds(board.size, row, col) ==> v == board.G[row][col]
      ensures !InBounds(board.size, row, col) ==> v == -1
    {
      if row < 0 || row >= board.size || col < 0 || col >= board.size then -1
      else board.cells[row, col]
    }

    /** One offset of the neighbour loop of `generate_moves`. */
    method VisitCell(board: BoardState, visited: array2<bool>, i: int, j: int, dr: int, dc: int,
                     p: int, newValue: int, moves: seq<Move>, ghost from: seq<(int, int)>)
      returns (moves': seq<Move>, ghost from': seq<(int, int)>)
      requires board.Valid() && 0 <= i < board.size && 0 <= j < board.size
      requires Owns(board.G, p, i, j) && newValue == CellValue(board.G[i][j]) + 1
      requires -1 <= dr <= 1 && -1 <= dc <= 1
      requires Taken(board.G, p, moves, from) && Visits(board.G, p, moves, i, j, dr, dc) && Mirrors(visited, moves)
      modifies visited
      ensures Taken(board.G, p, moves', from') && Visits(board.G, p, moves', i, j, dr, dc + 1) && Mirrors(visited, moves')
    {
      moves', from' := moves, from;
      if dr == 0 && dc == 0 {
        VisitsSkipNeighbour(board.G, p, moves, i, j, dr, dc);
        return;
      }
      var nr, nc := i + dr, j + dc;
      if nr >= 0 && nr < board.size && nc >= 0 && nc < board.size && board.cells[nr, nc] == 0 && !visited[nr, nc] {
        ghost var g := board.G;
        assert IsEmptyCell(g, nr, nc) && (nr, nc) !in Positions(moves);
        VisitsAfterTake(g, p, moves, from, i, j, dr, dc);
        visited[nr, nc] := true;
        moves' := moves + [Move(nr, nc, newValue, 0)];
        from' := from + [(i, j)];
        assert Mirrors(visited, moves') by {
          forall r, c | 0 <= r < MaxBoardSize && 0 <= c < MaxBoardSize
            ensures visited[r, c] <==> (r, c) in Positions(moves')
          {
            if (r, c) != (nr, nc) {
              assert visited[r, c] == old(visited[r, c]);
            }
          }
        }
      } else {
        VisitsSkipNeighbour(board.G, p, moves, i, j, dr, dc);
      }
    }

    /** The neighbour loop of `generate_moves` for a cell (i, j) of `p`. */
    method VisitNeighbours(board: BoardState, visited: array2<bool>, i: int, j: int, p: int,
                           moves: seq<Move>, ghost from: seq<(int, int)>)
      returns (moves': seq<Move>, ghost from': seq<(int, int)>)
      requires board.Valid() && 0 <= i < board.size && 0 <= j < board.size && Owns(board.G, p, i, j)
      requires Taken(board.G, p, moves, from) && Visits(board.G, p, moves, i, j, -1, -1) && Mirrors(visited, moves)
      modifies visited
      ensures Taken(board.G, p, moves', from') && Visits(board.G, p, moves', i, j + 1, -1, -1) && Mirrors(visited, moves')
    {
      var newValue := CellValue(board.cells[i, j]) + 1;
      moves', from' := moves, from;
      var dr := -1;
      while dr <= 1
        invariant -1 <= dr <= 2
        invariant Taken(board.G, p, moves', from') && Visits(board.G, p, moves', i, j, dr, -1) && Mirrors(visited, moves')
      {
        var dc := -1;
        while dc <= 1
          invariant -1 <= dc <= 2
          invariant Taken(board.G, p, moves', from') && Visits(board.G, p, moves', i, j, dr, dc) && Mirrors(visited, moves')
        {
          moves', from' := VisitCell(board, visited, i, j, dr, dc, p, newValue, moves', from');
          dc := dc + 1;
        }
        VisitsNextOffsetRow(board.G, p, moves', i, j, dr);
        dr := dr + 1;
      }
      VisitsNextCell(board.G, p, moves', i, j);
    }

    /** One row of the scan loop of `generate_moves`. */
    method ScanRow(board: BoardState, visited: array2<bool>, i: int, player: int,
                   raw: seq<Move>, ghost from: seq<(int, int)>)
      returns (raw': seq<Move>, ghost from': seq<(int, int)>)
      requires board.Valid() && 0 <= i < board.size
      requires Taken(board.G, player, raw, from) && Visits(board.G, player, raw, i, 0, -1, -1) && Mirrors(visited, raw)
      modifies visited
      ensures Taken(board.G, player, raw', from') && Visits(board.G, player, raw', i + 1, 0, -1, -1) && Mirrors(visited, raw')
    {
      raw', from' := raw, from;
      var j := 0;
      while j < board.size
        invariant 0 <= j <= board.size
        invariant Taken(board.G, player, raw', from') && Visits(board.G, player, raw', i, j, -1, -1) && Mirrors(visited, raw')
      {
        var cell := board.cells[i, j];
        OwnedMeans(cell, player);
        if cell > 0 && CellPlayer(cell) == player {
          raw', from' := VisitNeighbours(board, visited, i, j, player, raw', from');
        } else {
          VisitsSkipCell(board.G, player, raw', i, j);
        }
        j := j + 1;
      }
      VisitsNextRow(board.G, player, raw', i);
    }

    /** The scan loop of `generate_moves`: each destination of `player` once, valued from its first owner. */
    method ScanMoves(board: BoardState, player: int) returns (raw: seq<Move>, ghost from: seq<(int, int)>)
      requires board.Valid()
      ensures Taken(board.G, player, raw, from)
      ensures forall k :: 0 <= k < |raw| ==> Frontier(board.G, player, raw[k].row, raw[k].col)
      ensures forall r, c :: Frontier(board.G, player, r, c) ==> exists k :: 0 <= k < |raw| && Pos(raw[k]) == (r, c)
      ensures |raw| == Mobility(board.G, player)
    {
      var visited := new bool[MaxBoardSize, MaxBoardSize]((r, c) => false);
      raw, from := [], [];
      VisitsStart(board.G, player);
      var i := 0;
      while i < board.size
        invariant 0 <= i <= board.size
        invariant Taken(board.G, player, raw, from) && Visits(board.G, player, raw, i, 0, -1, -1) && Mirrors(visited, raw)
      {
        raw, from := ScanRow(board, visited, i, player, raw, from);
        i := i + 1;
      }
      ScanDone(board.G, player, raw, from);
    }

    /**
     * The final pass of `generate_moves`, which keeps the first move of each
     * cell of a list sorted by cell: on moves to distinct cells it keeps them all.
     */
    method KeepFirstPerCell(sorted: seq<Move>) returns (result: seq<Move>)
      requires DistinctCells(sorted)
      ensures result == sorted
    {
      result := [];
      var k := 0;
      while k < |sorted|
        invariant 0 <= k <= |sorted| && result == sorted[..k]
      {
        if k == 0 || sorted[k].row != sorted[k - 1].row || sorted[k].col != sorted[k - 1].col {
          result := result + [sorted[k]];
        }
        assert k == 0 || Pos(sorted[k - 1]) != Pos(sorted[k]);
        assert sorted[..k + 1] == sorted[..k] + [sorted[k]];
        k := k + 1;
      }
      assert sorted[..|sorted|] == sorted;
    }

    /** One offset of the neighbour loop of `count_mobility`; `ms` are the destinations counted so far. */
    method CountCell(board: BoardState, visited: array2<bool>, i: int, j: int, dr: int, dc: int, p: int,
                     count: int, ghost ms: seq<Move>, ghost from: seq<(int, int)>)
      returns (count': int, ghost ms': seq<Move>, ghost from': seq<(int, int)>)
      requires board.Valid() && 0 <= i < board.size && 0 <= j < board.size && Owns(board.G, p, i, j)
      requires -1 <= dr <= 1 && -1 <= dc <= 1
      requires count == |ms| && Taken(board.G, p, ms, from) && Visits(board.G, p, ms, i, j, dr, dc) && Mirrors(visited, ms)
      modifies visited
      ensures count' == |ms'| && Taken(board.G, p, ms', from') && Visits(board.G, p, ms', i, j, dr, dc + 1) && Mirrors(visited, ms')
    {
      count', ms', from' := count, ms, from;
      if dr == 0 && dc == 0 {
        VisitsSkipNeighbour(board.G, p, ms, i, j, dr, dc);
        return;
      }
      var nr, nc := i + dr, j + dc;
      if nr >= 0 && nr < board.size && nc >= 0 && nc < board.size && board.cells[nr, nc] == 0 && !visited[nr, nc] {
        ghost var g := board.G;
        assert IsEmptyCell(g, nr, nc) && (nr, nc) !in Positions(ms);
        VisitsAfterTake(g, p, ms, from, i, j, dr, dc);
        visited[nr, nc] := true;
        count' := count + 1;
        ms' := ms + [Move(nr, nc, CellValue(g[i][j]) + 1, 0)];
        from' := from + [(i, j)];
        assert Mirrors(visited, ms') by {
          forall r, c | 0 <= r < MaxBoardSize && 0 <= c < MaxBoardSize
            ensures visited[r, c] <==> (r, c) in Positions(ms')
          {
            if (r, c) != (nr, nc) {
              assert visited[r, c] == old(visited[r, c]);
            }
          }
        }
      } else {
        VisitsSkipNeighbour(board.G, p, ms, i, j, dr, dc);
      }
    }

    /** The neighbour loop of `count_mobility` for a cell (i, j) of `p`. */
    method CountNeighbours(board: BoardState, visited: array2<bool>, i: int, j: int, p: int,
                           count: int, ghost ms: seq<Move>, ghost from: seq<(int, int)>)
      returns (count': int, ghost ms': seq<Move>, ghost from': seq<(int, int)>)
      requires board.Valid() && 0 <= i < board.size && 0 <= j < board.size && Owns(board.G, p, i, j)
      requires count == |ms| && Taken(board.G, p, ms, from) && Visits(board.G, p, ms, i, j, -1, -1) && Mirrors(visited, ms)
      modifies visited
      ensures count' == |ms'| && Taken(board.G, p, ms', from') && Visits(board.G, p, ms', i, j + 1, -1, -1) && Mirrors(visited, ms')
    {
      count', ms', from' := count, ms, from;
      var dr := -1;
      while dr <= 1
        invariant -1 <= dr <= 2
        invariant count' == |ms'| && Taken(board.G, p, ms', from') && Visits(board.G, p, ms', i, j, dr, -1) && Mirrors(visited, ms')
      {
        var dc := -1;
        while dc <= 1
          invariant -1 <= dc <= 2
          invariant count' == |ms'| && Taken(board.G, p, ms', from') && Visits(board.G, p, ms', i, j, dr, dc) && Mirrors(visited, ms')
        {
          count', ms', from' := CountCell(board, visited, i, j, dr, dc, p, count', ms', from');
          dc := dc + 1;
        }
        VisitsNextOffsetRow(board.G, p, ms', i, j, dr);
        dr := dr + 1;
      }
      VisitsNextCell(board.G, p, ms', i, j);
    }

    /** One row of the scan of `count_mobility`. */
    method CountRow(board: BoardState, visited: array2<bool>, i: int, player: int,
                    count: int, ghost ms: seq<Move>, ghost from: seq<(int, int)>)
      returns (count': int, ghost ms': seq<Move>, ghost from': seq<(int, int)>)
      requires board.Valid() && 0 <= i < board.size
      requires count == |ms| && Taken(board.G, player, ms, from) && Visits(board.G, player, ms, i, 0, -1, -1) && Mirrors(visited, ms)
      modifies visited
      ensures count' == |ms'| && Taken(board.G, player, ms', from') && Visits(board.G, player, ms', i + 1, 0, -1, -1) && Mirrors(visited, ms')
    {
      count', ms', from' := count, ms, from;
      var j := 0;
      while j < board.size
        invariant 0 <= j <= board.size
        invariant count' == |ms'| && Taken(board.G, player, ms', from') && Visits(board.G, player, ms', i, j, -1, -1) && Mirrors(visited, ms')
      {
        var cell := board.cells[i, j];
        OwnedMeans(cell, player);
        if cell > 0 && CellPlayer(cell) == player {
          count', ms', from' := CountNeighbours(board, visited, i, j, player, count', ms', from');
        } else {
          VisitsSkipCell(board.G, player, ms', i, j);
        }
        j := j + 1;
      }
      VisitsNextRow(board.G, player, ms', i);
    }

    /**
     * `count_mobility`: the number of distinct empty cells next to a cell of
     * `player`, each counted once however many of its cells touch it.
     */
    method CountMobility(board: BoardState, player: int) returns (count: int)
      requires board.Valid()
      ensures count == Mobility(board.G, player)
    {
      var visited := new bool[MaxBoardSize, MaxBoardSize]((r, c) => false);
      count := 0;
      ghost var ms: seq<Move>, from: seq<(int, int)> := [], [];
      VisitsStart(board.G, player);
      var i := 0;
      while i < board.size
        invariant 0 <= i <= board.size
        invariant count == |ms| && Taken(board.G, player, ms, from) && Visits(board.G, player, ms, i, 0, -1, -1) && Mirrors(visited, ms)
      {
        count, ms, from := CountRow(board, visited, i, player, count, ms, from);
        i := i + 1;
      }
      ScanDone(board.G, player, ms, from);
    }

    /**
     * `generate_moves`: every empty cell next to a cell of `player`, once,
     * valued one more than its first neighbour of `player` in row-major
     * order, sorted by cell.
     */
    method GenerateMoves(board: BoardState, player: int) returns (moves: seq<Move>)
      requires board.Valid()
      ensures MoveList(board.G, player, moves)
      ensures |moves| == Mobility(board.G, player)
    {
      var raw;
      ghost var from;
      raw, from := ScanMoves(board, player);
      CellOrderIsTotalPreorder();
      var sorted := SortBy(raw, CellOrder);
      SortedScanIsMoveList(board.G, player, raw, from, sorted);
      moves := KeepFirstPerCell(sorted);
    }

    /** `make_move`: writes player * 100 + value into the move's cell and raises the mover's maximum. */
    method MakeMove(board: BoardState, move: Move, player: int)
      requires board.Valid() && InBounds(board.size, move.row, move.col) && IsPlayer(player)
      modifies board`G, board.cells, board.maxv
      ensures board.Valid()
      ensures board.G == Place(old(board.G), move.row, move.col, Code(player, move.value))
      ensures board.maxv[..] == old(board.maxv[..])[player := Max(old(board.maxv[player]), move.value)]
      ensures old(board.G[move.row][move.col]) == 0 && old(MaxConsistent(board.G, board.maxv[..])) && 0 <= move.value <= MaxValue
              ==> MaxConsistent(board.G, board.maxv[..])
    {
      ghost var g, m := board.G, board.maxv[..];
      board.cells[move.row, move.col] := player * 100 + move.value;
      board.G := Place(board.G, move.row, move.col, Code(player, move.value));
      if move.value > board.maxv[player] {
        board.maxv[player] := move.value;
      }
      assert board.maxv[..] == m[player := Max(m[player], move.value)];
      if g[move.row][move.col] == 0 && MaxConsistent(g, m) && 0 <= move.value <= MaxValue {
        PlaceKeepsMaxConsistent(g, m, move.row, move.col, player, move.value);
      }
    }

    /**
     * `unmake_move`: empties the move's cell and recomputes the mover's
     * maximum by a full scan of the board.
     */
    method UnmakeMove(board: BoardState, move: Move, player: int)
      requires board.Valid() && InBounds(board.size, move.row, move.col) && IsPlayer(player)
      modifies board`G, board.cells, board.maxv
      ensures board.Valid()
      ensures board.G == Place(old(board.G), move.row, move.col, 0)
      ensures board.maxv[..] == old(board.maxv[..])[player := GridMax(board.G, player)]
    {
      board.cells[move.row, move.col] := 0;
      board.G := Place(board.G, move.row, move.col, 0);
      RecomputeMax(board, player);
    }

    /** The scan of `unmake_move`: the player's maximum from zero over every cell. */
    method RecomputeMax(board: BoardState, player: int)
      requires board.Valid() && IsPlayer(player)
      modifies board.maxv
      ensures board.maxv[..] == old(board.maxv[..])[player := GridMax(board.G, player)]
    {
      ghost var m := board.maxv[..];
      board.maxv[player] := 0;
      var i := 0;
      while i < board.size
        invariant 0 <= i <= board.size
        invariant board.maxv[..] == m[player := GridMax(board.G[..i], player)]
      {
        GridMaxIsMax(board.G[..i], player);
        RecomputeRow(board, i, player);
        assert board.G[..i + 1][..i] == board.G[..i];
        i := i + 1;
      }
      assert board.G[..board.size] == board.G;
    }

    /** One row of the scan of `unmake_move`. */
    method RecomputeRow(board: BoardState, i: int, player: int)
      requires board.Valid() && 0 <= i < board.size && IsPlayer(player)
      requires board.maxv[player] >= 0
      modifies board.maxv
      ensures board.maxv[..] == old(board.maxv[..])[player := Max(old(board.maxv[player]), RowMax(board.G[i], player))]
      ensures board.maxv[player] >= 0
    {
      ghost var m := board.maxv[..];
      var j := 0;
      while j < board.size
        invariant 0 <= j <= board.size && board.maxv[player] >= 0
        invariant board.maxv[..] == m[player := Max(m[player], RowMax(board.G[i][..j], player))]
      {
        assert board.G[i][..j + 1][..j] == board.G[i][..j];
        var cell := board.cells[i, j];
        OwnedMeans(cell, player);
        if cell > 0 && CellPlayer(cell) == player {
          var val := CellValue(cell);
          if val > board.maxv[player] {
            board.maxv[player] := val;
          }
        }
        j := j + 1;
      }
      assert board.G[i][..board.size] == board.G[i];
    }

    /** One row of the cell count of `evaluate`. */
    method CountCellsRow(board: BoardState, i: int, player: int, opponent: int) returns (pc: int, oc: int)
      requires board.Valid() && 0 <= i < board.size && IsPlayer(player) && opponent == Opponent(player)
      ensures pc == RowCount(board.G[i], player) && oc == RowCount(board.G[i], opponent)
    {
      pc, oc := 0, 0;
      var j := 0;
      while j < board.size
        invariant 0 <= j <= board.size
        invariant pc == RowCount(board.G[i][..j], player) && oc == RowCount(board.G[i][..j], opponent)
      {
        assert board.G[i][..j + 1][..j] == board.G[i][..j];
        var cell := board.cells[i, j];
        OwnedMeans(cell, player);
        OwnedMeans(cell, opponent);
        if cell > 0 {
          if CellPlayer(cell) == player {
            pc := pc + 1;
          } else if CellPlayer(cell) == opponent {
            oc := oc + 1;
          }
        }
        j := j + 1;
      }
      assert board.G[i][..board.size] == board.G[i];
    }

    /**
     * `evaluate`: 100 times the gap in maximum values, plus 10 times the gap
     * in cells held, plus the gap in mobility, from `player`'s side.
     */
    method Evaluate(board: BoardState, player: int) returns (score: int)
      requires board.Valid() && IsPlayer(player)
      ensures score == Score(board.G, board.maxv[..], player)
    {
      var opponent := if player == PlayerA then PlayerB else PlayerA;
      var maxDiff := board.maxv[player] - board.maxv[opponent];
      var playerCells, opponentCells := 0, 0;
      var i := 0;
      while i < board.size
        invariant 0 <= i <= board.size
        invariant playerCells == CellCount(board.G[..i], player) && opponentCells == CellCount(board.G[..i], opponent)
      {
        var pc, oc := CountCellsRow(board, i, player, opponent);
        assert board.G[..i + 1][..i] == board.G[..i];
        playerCells, opponentCells := playerCells + pc, opponentCells + oc;
        i := i + 1;
      }
      assert board.G[..board.size] == board.G;
      var cellDiff := playerCells - opponentCells;
      var mine := CountMobility(board, player);
      var theirs := CountMobility(board, opponent);
      var mobilityDiff := mine - theirs;
      score := maxDiff * 100 + cellDiff * 10 + mobilityDiff;
    }

    /**
     * `order_moves`: each move scored by value * 1000 plus ten times its
     * closeness to the centre, then sorted by descending score.
     */
    method OrderMoves(moves: seq<Move>, board: BoardState) returns (ordered: seq<Move>)
      ensures SortedBy(ordered, ScoreOrder) && multiset(ordered) == multiset(Scored(moves, board.size))
      ensures forall k :: 0 <= k < |ordered| ==>
                exists k' :: 0 <= k' < |moves| && ordered[k] == Rescored(moves[k'], board.size)
      ensures DistinctCells(moves) ==> DistinctCells(ordered)
    {
      var scored := moves;
      var k := 0;
      while k < |scored|
        invariant 0 <= k <= |scored| == |moves|
        invariant forall i :: 0 <= i < k ==> scored[i] == Rescored(moves[i], board.size)
        invariant forall i :: k <= i < |moves| ==> scored[i] == moves[i]
      {
        var move := scored[k];
        var center := board.size / 2;
        var dist := Abs(move.row - center) + Abs(move.col - center);
        scored := scored[k := move.(score := move.value * 1000 + (board.size - dist) * 10)];
        k := k + 1;
      }
      assert scored == Scored(moves, board.size);
      ScoreOrderIsTotalPreorder();
      ordered := SortBy(scored, ScoreOrder);
      ScoredPermutation(moves, board.size, ordered);
    }

    /** The board is one the search may run on at this depth. */
    ghost predicate Searchable(board: BoardState, depth: int)
      reads this, tt, tt.table, board, board.cells, board.maxv
    {
      Valid() && board.Valid() && MaxConsistent(board.G, board.maxv[..]) && depth >= 0 && Fits(board.G, MaxValue - depth)
    }

    /** One child of the search loops: make the move, search below it, unmake it. */
    method PlayChild(board: BoardState, move: Move, side: int, depth: int, alpha: int, beta: int,
                     childMaximizing: bool, player: int)
      returns (eval: int)
      requires Searchable(board, depth) && depth >= 1 && IsPlayer(side) && IsPlayer(player)
      requires Playable(board.G, move, MaxValue - depth + 1)
      modifies this`nodesEvaluated, board`G, board.cells, board.maxv, tt.table
      decreases depth, 0
      ensures Searchable(board, depth) && board.G == old(board.G) && board.maxv[..] == old(board.maxv[..])
      ensures nodesEvaluated > old(nodesEvaluated)
      ensures -ScoreBound <= eval <= ScoreBound
    {
      ghost var g, m := board.G, board.maxv[..];
      MakeMove(board, move, side);
      FitsWeaken(g, MaxValue - depth, MaxValue - depth + 1);
      FitsAfterPlace(g, move.row, move.col, side, move.value, MaxValue - depth + 1);
      var dummy;
      ghost var t, f;
      eval, dummy, t, f := Minimax(board, depth - 1, alpha, beta, childMaximizing, player, NoMove);
      UnmakeMove(board, move, side);
      PlaceThenClear(g, move.row, move.col, Code(side, move.value));
      assert board.maxv[..] == m;
    }

    /**
     * One pass of the maximizing loop: search child `k` with the raised
     * alpha, and keep it as the best move when its score is strictly higher.
     */
    method MaxChild(board: BoardState, ordered: seq<Move>, k: int, depth: int, alpha: int, beta: int, player: int, side: int,
                    maxEval: int, best: Move, alpha': int, ghost evals: seq<int>, ghost bi: int)
      returns (maxEval2: int, best2: Move, alpha2: int, ghost evals2: seq<int>, ghost bi2: int)
      requires Searchable(board, depth) && depth >= 1 && IsPlayer(player) && IsPlayer(side)
      requires 0 <= k < |ordered| && |evals| == k && Playable(board.G, ordered[k], MaxValue - depth + 1)
      requires MaxTrace(alpha, beta, evals, maxEval, alpha', bi) && (k > 0 ==> alpha' < beta)
      requires k > 0 ==> bi < k && best == ordered[bi]
      modifies this`nodesEvaluated, board`G, board.cells, board.maxv, tt.table
      decreases depth, 1
      ensures Searchable(board, depth) && board.G == old(board.G) && board.maxv[..] == old(board.maxv[..])
      ensures nodesEvaluated > old(nodesEvaluated)
      ensures |evals2| == k + 1 && MaxTrace(alpha, beta, evals2, maxEval2, alpha2, bi2)
      ensures bi2 <= k && best2 == ordered[bi2]
    {
      var move := ordered[k];
      var eval := PlayChild(board, move, side, depth, alpha', beta, false, player);
      MaxTraceStep(alpha, beta, evals, maxEval, alpha', bi, eval);
      maxEval2, best2, alpha2, evals2, bi2 := maxEval, best, alpha', evals + [eval], bi;
      if eval > maxEval {
        maxEval2, best2, bi2 := eval, move, k;
      }
      alpha2 := Max(alpha', eval);
    }

    /**
     * One pass of the minimizing loop: search child `k` with the lowered
     * beta, and keep it as the best move when its score is strictly lower.
     */
    method MinChild(board: BoardState, ordered: seq<Move>, k: int, depth: int, alpha: int, beta: int, player: int, side: int,
                    minEval: int, best: Move, beta': int, ghost evals: seq<int>, ghost bi: int)
      returns (minEval2: int, best2: Move, beta2: int, ghost evals2: seq<int>, ghost bi2: int)
      requires Searchable(board, depth) && depth >= 1 && IsPlayer(player) && IsPlayer(side)
      requires 0 <= k < |ordered| && |evals| == k && Playable(board.G, ordered[k], MaxValue - depth + 1)
      requires MinTrace(alpha, beta, evals, minEval, beta', bi) && (k > 0 ==> alpha < beta')
      requires k > 0 ==> bi < k && best == ordered[bi]
      modifies this`nodesEvaluated, board`G, board.cells, board.maxv, tt.table
      decreases depth, 1
      ensures Searchable(board, depth) && board.G == old(board.G) && board.maxv[..] == old(board.maxv[..])
      ensures nodesEvaluated > old(nodesEvaluated)
      ensures |evals2| == k + 1 && MinTrace(alpha, beta, evals2, minEval2, beta2, bi2)
      ensures bi2 <= k && best2 == ordered[bi2]
    {
      var move := ordered[k];
      var eval := PlayChild(board, move, side, depth, alpha, beta', true, player);
      MinTraceStep(alpha, beta, evals, minEval, beta', bi, eval);
      minEval2, best2, beta2, evals2, bi2 := minEval, best, beta', evals + [eval], bi;
      if eval < minEval {
        minEval2, best2, bi2 := eval, move, k;
      }
      beta2 := Min(beta', eval);
    }

    /**
     * The maximizing loop of `minimax`: children are searched in order with
     * a rising alpha until beta <= alpha.  `evals` are the scores of the
     * children searched; the result is their maximum, and `best` is the
     * first child that reached it (the update is on a strict `>`).
     */
    method SearchMax(board: BoardState, ordered: seq<Move>, depth: int, alpha: int, beta: int, player: int, side: int)
      returns (maxEval: int, best: Move, alpha': int, ghost evals: seq<int>, ghost bi: int)
      requires Searchable(board, depth) && depth >= 1 && IsPlayer(player) && IsPlayer(side)
      requires forall k :: 0 <= k < |ordered| ==> Playable(board.G, ordered[k], MaxValue - depth + 1)
      modifies this`nodesEvaluated, board`G, board.cells, board.maxv, tt.table
      decreases depth, 2
      ensures Searchable(board, depth) && board.G == old(board.G) && board.maxv[..] == old(board.maxv[..])
      ensures nodesEvaluated >= old(nodesEvaluated)
      ensures |evals| <= |ordered| && (|ordered| > 0 ==> |evals| > 0)
      ensures forall i :: 0 <= i < |evals| ==> -ScoreBound <= evals[i] <= ScoreBound
      ensures maxEval == MaxOf(IntMin, evals) && alpha' == MaxOf(alpha, evals)
      ensures |evals| < |ordered| ==> beta <= alpha'
      ensures forall i :: 0 < i < |evals| ==> MaxOf(alpha, evals[..i]) < beta
      ensures |ordered| == 0 ==> best == NoMove
      ensures |ordered| > 0 ==>
                0 <= bi < |evals| && best == ordered[bi] && evals[bi] == maxEval &&
                forall i :: 0 <= i < bi ==> evals[i] < maxEval
    {
      maxEval, best, alpha', evals, bi := IntMin, NoMove, alpha, [], 0;
      var k := 0;
      while k < |ordered|
        invariant 0 <= k <= |ordered| && |evals| == k
        invariant Searchable(board, depth) && board.G == old(board.G) && board.maxv[..] == old(board.maxv[..])
        invariant nodesEvaluated >= old(nodesEvaluated)
        invariant MaxTrace(alpha, beta, evals, maxEval, alpha', bi) && (k > 0 ==> alpha' < beta)
        invariant k == 0 ==> best == NoMove
        invariant k > 0 ==> bi < k && best == ordered[bi]
      {
        maxEval, best, alpha', evals, bi := MaxChild(board, ordered, k, depth, alpha, beta, player, side,
                                                     maxEval, best, alpha', evals, bi);
        k := k + 1;
        if beta <= alpha' {
          break;
        }
      }
    }

    /**
     * The minimizing loop of `minimax`: children are searched in order with
     * a falling beta until beta <= alpha; the result is the minimum of the
     * scores of the children searched, and `best` is the first child that
     * reached it (the update is on a strict `<`).
     */
    method SearchMin(board: BoardState, ordered: seq<Move>, depth: int, alpha: int, beta: int, player: int, side: int)
      returns (minEval: int, best: Move, beta': int, ghost evals: seq<int>, ghost bi: int)
      requires Searchable(board, depth) && depth >= 1 && IsPlayer(player) && IsPlayer(side)
      requires forall k :: 0 <= k < |ordered| ==> Playable(board.G, ordered[k], MaxValue - depth + 1)
      modifies this`nodesEvaluated, board`G, board.cells, board.maxv, tt.table
      decreases depth, 2
      ensures Searchable(board, depth) && board.G == old(board.G) && board.maxv[..] == old(board.maxv[..])
      ensures nodesEvaluated >= old(nodesEvaluated)
      ensures |evals| <= |ordered| && (|ordered| > 0 ==> |evals| > 0)
      ensures forall i :: 0 <= i < |evals| ==> -ScoreBound <= evals[i] <= ScoreBound
      ensures minEval == MinOf(IntMax, evals) && beta' == MinOf(beta, evals)
      ensures |evals| < |ordered| ==> beta' <= alpha
      ensures forall i :: 0 < i < |evals| ==> alpha < MinOf(beta, evals[..i])
      ensures |ordered| == 0 ==> best == NoMove
      ensures |ordered| > 0 ==>
                0 <= bi < |evals| && best == ordered[bi] && evals[bi] == minEval &&
                forall i :: 0 <= i < bi ==> evals[i] > minEval
    {
      minEval, best, beta', evals, bi := IntMax, NoMove, beta, [], 0;
      var k := 0;
      while k < |ordered|
        invariant 0 <= k <= |ordered| && |evals| == k
        invariant Searchable(board, depth) && board.G == old(board.G) && board.maxv[..] == old(board.maxv[..])
        invariant nodesEvaluated >= old(nodesEvaluated)
        invariant MinTrace(alpha, beta, evals, minEval, beta', bi) && (k > 0 ==> alpha < beta')
        invariant k == 0 ==> best == NoMove
        invariant k > 0 ==> bi < k && best == ordered[bi]
      {
        minEval, best, beta', evals, bi := MinChild(board, ordered, k, depth, alpha, beta, player, side,
                                                    minEval, best, beta', evals, bi);
        k := k + 1;
        if beta' <= alpha {
          break;
        }
      }
    }

    /** The terminal case of `minimax`: evaluate for `player` and store it as exact with the move passed in. */
    method Terminal(board: BoardState, hash: int, depth: int, player: int, bestIn: Move) returns (score: int)
      requires Valid() && board.Valid() && MaxConsistent(board.G, board.maxv[..]) && IsPlayer(player) && hash >= 0
      modifies tt.table
      ensures Valid()
      ensures score == Score(board.G, board.maxv[..], player) && -ScoreBound <= score <= ScoreBound
      ensures tt.table[..] == StoreSpec(old(tt.table[..]), hash, depth, score, Exact, bestIn)
    {
      score := Evaluate(board, player);
      ScoreWithin(board.G, board.maxv[..], player);
      StoreKeepsScoresWithin(tt.table[..], hash, depth, score, Exact, bestIn, ScoreBound);
      tt.Store(hash, depth, score, Exact, bestIn);
    }

    /**
     * `minimax`: alpha-beta search of `depth` plies on the board in place,
     * consulting and filling the transposition table.  The board and its
     * maxima are restored on every return path, and the score is one
     * `evaluate` can give.
     *  - A probe hit answers with the stored score and move and leaves the
     *    table alone.
     *  - Depth 0, and a position the code takes as finished, are evaluated
     *    for `player` and stored as exact with the move passed in.  The
     *    finished test looks at the opponent's moves on both kinds of level,
     *    so a minimizing side without moves is always finished and never
     *    passes.
     *  - A maximizing side without moves passes to the opponent one ply lower.
     *  - Otherwise the moves of the side to move are searched, the result is
     *    a move `generate_moves` gives that side, and it is stored over the table `t` the
     *    children left, with flag `f`: exact, or the cutoff bound of the side.
     */
    method Minimax(board: BoardState, depth: int, alpha: int, beta: int, maximizing: bool, player: int, bestIn: Move)
      returns (score: int, best: Move, ghost t: seq<TTEntry>, ghost f: int)
      requires Searchable(board, depth) && IsPlayer(player)
      modifies this`nodesEvaluated, board`G, board.cells, board.maxv, tt.table
      decreases depth, 5
      ensures Searchable(board, depth) && board.G == old(board.G) && board.maxv[..] == old(board.maxv[..])
      ensures nodesEvaluated > old(nodesEvaluated)
      ensures -ScoreBound <= score <= ScoreBound
      ensures old(Probed(tt.table[..], board.G, depth)).Some? ==>
                (score, best) == old(Probed(tt.table[..], board.G, depth)).value && tt.table[..] == old(tt.table[..])
      ensures old(Probed(tt.table[..], board.G, depth)).None? && depth == 0 ==>
                score == Score(board.G, board.maxv[..], player) && best == bestIn &&
                tt.table[..] == StoreSpec(old(tt.table[..]), HashGrid(board.G), 0, score, Exact, bestIn)
      ensures old(Probed(tt.table[..], board.G, depth)).None? && depth > 0 &&
              Mobility(board.G, Opponent(player)) == 0 && (!maximizing || Mobility(board.G, player) == 0) ==>
                score == Score(board.G, board.maxv[..], player) && best == bestIn &&
                tt.table[..] == StoreSpec(old(tt.table[..]), HashGrid(board.G), depth, score, Exact, bestIn)
      ensures old(Probed(tt.table[..], board.G, depth)).None? && depth > 0 && Mobility(board.G, Side(maximizing, player)) > 0 ==>
                Generated(board.G, Side(maximizing, player), best.row, best.col, best.value) &&
                |t| == tt.table.Length && tt.table[..] == StoreSpec(t, HashGrid(board.G), depth, score, f, best) &&
                (f == Exact || f == if maximizing then LowerBound else UpperBound)
      ensures old(Probed(tt.table[..], board.G, depth)).None? && depth > 0 &&
              maximizing && Mobility(board.G, player) == 0 && Mobility(board.G, Opponent(player)) > 0 ==>
                (old(Probed(tt.table[..], board.G, depth - 1)).Some? &&
                 (score, best) == old(Probed(tt.table[..], board.G, depth - 1)).value && tt.table[..] == old(tt.table[..])) ||
                (old(Probed(tt.table[..], board.G, depth - 1)).None? && depth == 1 &&
                 score == Score(board.G, board.maxv[..], player) && best == bestIn &&
                  tt.table[..] == StoreSpec(old(tt.table[..]), HashGrid(board.G), 0, score, Exact, bestIn)) ||
                (old(Probed(tt.table[..], board.G, depth - 1)).None? && depth > 1 &&
                 Generated(board.G, Opponent(player), best.row, best.col, best.value) &&
                  |t| == tt.table.Length && tt.table[..] == StoreSpec(t, HashGrid(board.G), depth - 1, score, f, best) &&
                  (f == Exact || f == UpperBound))
    {
      t, f := [], Exact;
      nodesEvaluated := nodesEvaluated + 1;
      var hash := board.Hash();
      var probe := tt.Probe(hash, depth);
      if probe.Some? {
        ProbeWithin(tt.table[..], hash, depth, ScoreBound);
        return probe.value.0, probe.value.1, t, f;
      }
      if depth == 0 {
        score := Terminal(board, hash, depth, player, bestIn);
        return score, bestIn, t, f;
      }
      score, best, t, f := Expand(board, hash, depth, alpha, beta, maximizing, player, bestIn);
    }

    /**
     * The part of `minimax` below a probe miss at depth > 0: a finished
     * position is evaluated and stored, a maximizing side without moves
     * passes, and otherwise the moves of the side to move are searched and
     * the result stored over the table `t` the children left.
     */
    method Expand(board: BoardState, hash: int, depth: int, alpha: int, beta: int, maximizing: bool, player: int, bestIn: Move)
      returns (score: int, best: Move, ghost t: seq<TTEntry>, ghost f: int)
      requires Searchable(board, depth) && IsPlayer(player) && depth >= 1 && hash == HashGrid(board.G) && hash >= 0
      modifies this`nodesEvaluated, board`G, board.cells, board.maxv, tt.table
      decreases depth, 4
      ensures Searchable(board, depth) && board.G == old(board.G) && board.maxv[..] == old(board.maxv[..])
      ensures nodesEvaluated >= old(nodesEvaluated)
      ensures -ScoreBound <= score <= ScoreBound
      ensures Mobility(board.G, Opponent(player)) == 0 && (!maximizing || Mobility(board.G, player) == 0) ==>
                score == Score(board.G, board.maxv[..], player) && best == bestIn &&
                tt.table[..] == StoreSpec(old(tt.table[..]), hash, depth, score, Exact, bestIn)
      ensures Mobility(board.G, Side(maximizing, player)) > 0 ==>
                Generated(board.G, Side(maximizing, player), best.row, best.col, best.value) &&
                |t| == tt.table.Length && tt.table[..] == StoreSpec(t, hash, depth, score, f, best) &&
                (f == Exact || f == if maximizing then LowerBound else UpperBound)
      ensures maximizing && Mobility(board.G, player) == 0 && Mobility(board.G, Opponent(player)) > 0 ==>
                (old(Probed(tt.table[..], board.G, depth - 1)).Some? &&
                 (score, best) == old(Probed(tt.table[..], board.G, depth - 1)).value && tt.table[..] == old(tt.table[..])) ||
                (old(Probed(tt.table[..], board.G, depth - 1)).None? && depth == 1 &&
                 score == Score(board.G, board.maxv[..], player) && best == bestIn &&
                  tt.table[..] == StoreSpec(old(tt.table[..]), HashGrid(board.G), 0, score, Exact, bestIn)) ||
                (old(Probed(tt.table[..], board.G, depth - 1)).None? && depth > 1 &&
                 Generated(board.G, Opponent(player), best.row, best.col, best.value) &&
                  |t| == tt.table.Length && tt.table[..] == StoreSpec(t, HashGrid(board.G), depth - 1, score, f, best) &&
                  (f == Exact || f == UpperBound))
    {
      t, f := [], Exact;
      var opponent := if player == PlayerA then PlayerB else PlayerA;
      var current := if maximizing then player else opponent;
      var moves := GenerateMoves(board, current);
      if |moves| == 0 {
        var opponentMoves := GenerateMoves(board, opponent);
        if |opponentMoves| == 0 {
          score := Terminal(board, hash, depth, player, bestIn);
          return score, bestIn, t, f;
        }
        score, best, t, f := Pass(board, depth, alpha, beta, maximizing, player, bestIn);
        return;
      }
      var ordered := PrepareMoves(board, moves, depth, current);
      ghost var evals, bi;
      score, best, t, f, evals, bi := SearchChildren(board, hash, ordered, depth, alpha, beta, maximizing, player, current);
    }

    /**
     * The pass of `minimax`: the root player has no move but the opponent
     * has, so the same board is searched one ply lower for the opponent.
     * The result is what that level gives: a probe hit, or at depth 0 the
     * evaluation with the move passed in, or else a move `generate_moves`
     * gives the opponent.
     */
    method Pass(board: BoardState, depth: int, alpha: int, beta: int, maximizing: bool, player: int, bestIn: Move)
      returns (score: int, best: Move, ghost t: seq<TTEntry>, ghost f: int)
      requires Searchable(board, depth) && IsPlayer(player) && depth >= 1 && maximizing
      requires Mobility(board.G, Opponent(player)) > 0
      modifies this`nodesEvaluated, board`G, board.cells, board.maxv, tt.table
      decreases depth, 3
      ensures Searchable(board, depth) && board.G == old(board.G) && board.maxv[..] == old(board.maxv[..])
      ensures nodesEvaluated >= old(nodesEvaluated)
      ensures -ScoreBound <= score <= ScoreBound
      ensures (old(Probed(tt.table[..], board.G, depth - 1)).Some? &&
               (score, best) == old(Probed(tt.table[..], board.G, depth - 1)).value && tt.table[..] == old(tt.table[..])) ||
              (old(Probed(tt.table[..], board.G, depth - 1)).None? && depth == 1 &&
               score == Score(board.G, board.maxv[..], player) && best == bestIn &&
                tt.table[..] == StoreSpec(old(tt.table[..]), HashGrid(board.G), 0, score, Exact, bestIn)) ||
              (old(Probed(tt.table[..], board.G, depth - 1)).None? && depth > 1 &&
               Generated(board.G, Opponent(player), best.row, best.col, best.value) &&
                |t| == tt.table.Length && tt.table[..] == StoreSpec(t, HashGrid(board.G), depth - 1, score, f, best) &&
                (f == Exact || f == UpperBound))
    {
      FitsWeaken(board.G, MaxValue - depth, MaxValue - depth + 1);
      score, best, t, f := Minimax(board, depth - 1, alpha, beta, !maximizing, player, bestIn);
    }

    /**
     * `order_moves` on the generated moves: the ordered moves are the
     * generated ones with their ordering scores, so each can be played and
     * keeps its cell and its first owner's value plus one.
     */
    method PrepareMoves(board: BoardState, moves: seq<Move>, depth: int, current: int) returns (ordered: seq<Move>)
      requires board.Valid() && depth >= 1 && Fits(board.G, MaxValue - depth) && MoveList(board.G, current, moves)
      ensures |ordered| == |moves|
      ensures forall k :: 0 <= k < |ordered| ==>
                Playable(board.G, ordered[k], MaxValue - depth + 1) && Generated(board.G, current, ordered[k].row, ordered[k].col, ordered[k].value)
      ensures forall k :: 0 <= k < |ordered| ==>
                exists m :: m in moves && (ordered[k].row, ordered[k].col, ordered[k].value) == (m.row, m.col, m.value)
    {
      ordered := OrderMoves(moves, board);
      assert |ordered| == |multiset(ordered)| == |multiset(Scored(moves, board.size))| == |moves|;
      MoveListPlayable(board.G, current, moves, depth);
      OrderedMovesPlayable(board.G, current, moves, board.size, ordered, MaxValue - depth + 1);
    }

    /**
     * The move loop of `minimax` on a non-empty move list: search the
     * ordered moves on the maximizing or the minimizing side.  `evals` are
     * the scores of the children searched; the result is their maximum
     * (minimum) and the move is the first child that reached it.  The
     * result is stored over the table `t` the children left, with flag
     * `f`: a lower (upper) bound when the loop ended on a cutoff, exact
     * otherwise.
     */
    method SearchChildren(board: BoardState, hash: int, ordered: seq<Move>, depth: int, alpha: int, beta: int,
                          maximizing: bool, player: int, current: int)
      returns (score: int, best: Move, ghost t: seq<TTEntry>, ghost f: int, ghost evals: seq<int>, ghost bi: int)
      requires Searchable(board, depth) && IsPlayer(player) && depth >= 1 && hash >= 0 && |ordered| > 0
      requires current == Side(maximizing, player)
      requires forall k :: 0 <= k < |ordered| ==>
                 Playable(board.G, ordered[k], MaxValue - depth + 1) && Generated(board.G, current, ordered[k].row, ordered[k].col, ordered[k].value)
      modifies this`nodesEvaluated, board`G, board.cells, board.maxv, tt.table
      decreases depth, 3
      ensures Searchable(board, depth) && board.G == old(board.G) && board.maxv[..] == old(board.maxv[..])
      ensures nodesEvaluated >= old(nodesEvaluated)
      ensures 0 < |evals| <= |ordered| && -ScoreBound <= score <= ScoreBound
      ensures maximizing ==> score == MaxOf(IntMin, evals) && (f == if MaxOf(alpha, evals) >= beta then LowerBound else Exact)
      ensures !maximizing ==> score == MinOf(IntMax, evals) && (f == if alpha >= MinOf(beta, evals) then UpperBound else Exact)
      ensures |evals| < |ordered| ==> f != Exact
      ensures maximizing ==> forall i :: 0 < i < |evals| ==> MaxOf(alpha, evals[..i]) < beta
      ensures !maximizing ==> forall i :: 0 < i < |evals| ==> alpha < MinOf(beta, evals[..i])
      ensures 0 <= bi < |evals| && best == ordered[bi] && evals[bi] == score &&
              forall i :: 0 <= i < bi ==> evals[i] != score
      ensures Generated(board.G, current, best.row, best.col, best.value)
      ensures |t| == tt.table.Length && tt.table[..] == StoreSpec(t, hash, depth, score, f, best)
    {
      ghost var g := board.G;
      var flag;
      if maximizing {
        var maxEval, localBest, alpha';
        maxEval, localBest, alpha', evals, bi := SearchMax(board, ordered, depth, alpha, beta, player, current);
        best := localBest;
        flag := if alpha' >= beta then LowerBound else Exact;
        score := maxEval;
      } else {
        var minEval, localBest, beta';
        minEval, localBest, beta', evals, bi := SearchMin(board, ordered, depth, alpha, beta, player, current);
        best := localBest;
        flag := if alpha >= beta' then UpperBound else Exact;
        score := minEval;
      }
      assert Generated(g, current, ordered[bi].row, ordered[bi].col, ordered[bi].value);
      t, f := tt.table[..], flag;
      StoreKeepsScoresWithin(t, hash, depth, score, flag, best, ScoreBound);
      tt.Store(hash, depth, score, flag, best);
    }

    /**
     * `find_best_move` without the Python conversion: load the snapshot,
     * reset the node counter and search from the root as the maximizing
     * `player` with the full window; the table persists between calls.
     * On a cleared table, with depth > 0, a player who can move gets back
     * one of the moves `generate_moves` gives them: a destination valued one
     * more than its first owner.
     */
    method FindBestMove(rows: seq<seq<Entry>>, boardSize: int, player: int, depth: int)
      returns (row: int, col: int, value: int, nodes: int)
      requires Valid() && 0 <= boardSize <= MaxBoardSize && WellFormedSnapshot(rows, boardSize)
      requires IsPlayer(player) && depth >= 0 && ValuesWithin(rows, MaxValue - depth)
      modifies this`nodesEvaluated, tt.table
      ensures Valid() && nodes == nodesEvaluated && nodes >= 1
      ensures AllEmpty(old(tt.table[..])) && depth > 0 && Mobility(EncodeRows(rows, boardSize), player) > 0 ==>
                Generated(EncodeRows(rows, boardSize), player, row, col, value)
    {
      nodesEvaluated := 0;
      var board := new BoardState.FromSnapshot(rows, boardSize);
      SnapshotFits(rows, boardSize, MaxValue - depth);
      HashInRange(board.G);
      if AllEmpty(tt.table[..]) {
        EmptyTableProbe(tt.table[..], HashGrid(board.G), depth);
      }
      var score, best, t, f := Minimax(board, depth, IntMin, IntMax, true, player, NoMove);
      return best.row, best.col, best.value, nodesEvaluated;
    }

    /** `clear_tt`: every slot of the table emptied. */
    method ClearTT()
      requires Valid()
      modifies tt.table
      ensures Valid() && AllEmpty(tt.table[..])
    {
      tt.Clear();
    }
  }
}

/**
 * The Python reference `GameBoard`: the grid as a list of rows whose cells
 * are empty or (player, value), and `player_positions`, the set of cells of
 * each player, kept by the board as moves are made.
 */
module Games {
  import opened Encoding
  import opened Collections
  import opened Grid
  import opened Rules

  /** The cells around (r, c) that lie on a board of side n. */
  function NeighbourSet(n: int, r: int, c: int): set<(int, int)>
  {
    set a, b | r - 1 <= a <= r + 1 && c - 1 <= b <= c + 1 && InBounds(n, a, b) && Adjacent(a, b, r, c) :: (a, b)
  }

  /** A corner cell of a board of side 2 or more has exactly three neighbours. */
  lemma CornerNeighbours(n: int)
    requires n >= 2
    ensures NeighbourSet(n, 0, 0) == {(0, 1), (1, 0), (1, 1)}
    ensures |NeighbourSet(n, 0, 0)| == 3
  {
    assert (0, 1) in NeighbourSet(n, 0, 0) && (1, 0) in NeighbourSet(n, 0, 0) && (1, 1) in NeighbourSet(n, 0, 0);
  }

  /** The board coordinates of a move. */
  function Key(m: (int, int, int)): (int, int)
  {
    (m.0, m.1)
  }

  /** No two moves name the same cell. */
  predicate DistinctKeys(ms: seq<(int, int, int)>)
  {
    forall i, j :: 0 <= i < j < |ms| ==> Key(ms[i]) != Key(ms[j])
  }

  function Keys(ms: seq<(int, int, int)>): (ks: seq<(int, int)>)
    ensures |ks| == |ms| && forall k :: 0 <= k < |ms| ==> ks[k] == Key(ms[k])
  {
    if ms == [] then [] else Keys(ms[..|ms| - 1]) + [Key(ms[|ms| - 1])]
  }

  /** An entry `get_valid_moves` collects before removing duplicates: an empty cell next to a cell of `p`, one above it. */
  ghost predicate CandidateMove(g: Board, p: int, t: (int, int, int))
  {
    EmptyAt(g, t.0, t.1) && exists a, b :: OwnedBy(g, p, a, b) && Adjacent(a, b, t.0, t.1) && t.2 == g[a][b].value + 1
  }

  class GameBoard {
    var size: int
    var board: Board
    var positions: map<int, set<(int, int)>>

    /** The board is square, every value positive, and `player_positions` lists exactly each player's cells. */
    ghost predicate Valid()
      reads this
    {
      size >= 2 && Shaped(board, size) && PositiveValues(board) &&
      positions.Keys == {PlayerA, PlayerB} &&
      positions[PlayerA] == OwnedCells(board, PlayerA) && positions[PlayerB] == OwnedCells(board, PlayerB)
    }

    /** `__init__(size)`: an empty board with A's 1 in the top-left corner and B's 1 in the bottom-right one. */
    constructor (n: int)
      requires n >= 1
      ensures size == n && board == Initial(n)
      ensures positions == map[PlayerA := {(0, 0)}, PlayerB := {(n - 1, n - 1)}]
      ensures n >= 2 ==> Valid()
    {
      size := n;
      var rows: Board := seq(n, i => seq(n, j => Empty));
      rows := rows[0 := rows[0][0 := Filled(PlayerA, 1)]];
      rows := rows[n - 1 := rows[n - 1][n - 1 := Filled(PlayerB, 1)]];
      board := rows;
      positions := map[PlayerA := {(0, 0)}, PlayerB := {(n - 1, n - 1)}];
      new;
      forall i | 0 <= i < n ensures board[i] == Initial(n)[i] {
      }
      if n >= 2 {
        InitialCells(n);
      }
    }

    /** `get_cell`: the cell's content, nothing (`Empty`) off the board. */
    method GetCell(row: int, col: int) returns (v: Cell)
      requires Shaped(board, size)
      ensures InBounds(size, row, col) ==> v == board[row][col]
      ensures !InBounds(size, row, col) ==> v == Empty
    {
      if 0 <= row < size && 0 <= col < size {
        return board[row][col];
      }
      return Empty;
    }

    /**
     * `set_cell`: writes (player, value) and adds the cell to the player's
     * positions.  Writing a positive value into an empty cell keeps the
     * board valid.
     */
    method SetCell(row: int, col: int, player: int, value: int)
      requires Shaped(board, size) && InBounds(size, row, col) && player in positions
      modifies this
      ensures size == old(size)
      ensures board == old(Play(board, (row, col, value), player))
      ensures positions == old(positions[player := positions[player] + {(row, col)}])
      ensures old(Valid()) && old(board[row][col]).Empty? && IsPlayer(player) && value >= 1 ==> Valid()
    {
      ghost var g: Board := board;
      board := board[row := board[row][col := Filled(player, value)]];
      positions := positions[player := positions[player] + {(row, col)}];
      if old(Valid()) && g[row][col].Empty? && IsPlayer(player) && value >= 1 {
        PlayOwnedCells(g, row, col, value, player);
      }
    }

    /** `get_neighbors`: the in-bounds neighbours of (row, col), each once. */
    method GetNeighbors(row: int, col: int) returns (ns: seq<(int, int)>)
      ensures Distinct(ns) && Elements(ns) == NeighbourSet(size, row, col)
    {
      ns := [];
      var dr := -1;
      while dr <= 1
        invariant -1 <= dr <= 2
        invariant Distinct(ns) && Elements(ns) == Visited(size, row, col, dr, -1)
      {
        var dc := -1;
        while dc <= 1
          invariant -1 <= dc <= 2
          invariant Distinct(ns) && Elements(ns) == Visited(size, row, col, dr, dc)
        {
          VisitedStep(size, row, col, dr, dc);
          if !(dr == 0 && dc == 0) {
            var nr, nc := row + dr, col + dc;
            if 0 <= nr < size && 0 <= nc < size {
              assert (nr, nc) !in Elements(ns);
              ns := ns + [(nr, nc)];
            }
          }
          dc := dc + 1;
        }
        VisitedRow(size, row, col, dr);
        dr := dr + 1;
      }
      VisitedAll(size, row, col);
    }

    /**
     * The first half of `get_valid_moves`: for every cell of `player`, in the
     * set's own order, each empty neighbour with the cell's value plus one.
     */
    method CollectCandidates(player: int) returns (valid: seq<(int, int, int)>)
      requires Valid() && IsPlayer(player)
      ensures AllCandidates(board, player, valid)
      ensures Covers(board, player, positions[player], valid)
    {
      valid := CollectFrom(player, positions[player]);
    }

    /**
     * `get_valid_moves`: one move per destination cell of `player`, valued one
     * above the largest adjacent cell of `player`, and so as many moves as
     * destinations.
     */
    method GetValidMoves(player: int) returns (moves: seq<(int, int, int)>)
      requires Valid() && IsPlayer(player)
      ensures DistinctKeys(moves)
      ensures forall m :: m in moves ==> LegalMove(board, player, m)
      ensures forall r, c :: IsDestination(board, player, r, c) ==> (r, c, BestValue(board, player, r, c)) in moves
      ensures |moves| == |Destinations(board, player)|
    {
      var valid := CollectCandidates(player);
      moves := KeepBestPerCell(valid);
      MovesLegal(board, player, valid, moves);
      MovesComplete(board, player, valid, moves);
      MovesCount(board, player, moves);
    }

    /**
     * `make_move`: plays (row, col, value) for `player` exactly when it is one
     * of the player's valid moves, and reports whether it did.  Negative
     * indices down to -size address the board from its far end, as Python
     * indexing does, and are never valid moves.
     */
    method MakeMove(row: int, col: int, player: int, value: int) returns (ok: bool)
      requires Valid() && IsPlayer(player)
      requires -size <= row < size && -size <= col < size
      modifies this
      ensures Valid() && size == old(size)
      ensures ok <==> old(LegalMove(board, player, (row, col, value)))
      ensures ok ==> board == old(Play(board, (row, col, value), player)) &&
                     positions == old(positions[player := positions[player] + {(row, col)}])
      ensures !ok ==> board == old(board) && positions == old(positions)
    {
      var r := if row < 0 then row + size else row;
      var c := if col < 0 then col + size else col;
      if board[r][c].Filled? {
        return false;
      }
      var moves := GetValidMoves(player);
      if (row, col, value) !in moves {
        return false;
      }
      assert LegalMove(board, player, (row, col, value));
      BestValueIs(board, player, row, col);
      SetCell(row, col, player, value);
      return true;
    }

    /** `get_max_value`: the largest value among the cells of `player`, 0 if none. */
    method GetMaxValue(player: int) returns (m: int)
      requires Valid() && IsPlayer(player)
      ensures m == MaxOwned(board, player)
    {
      m := MaxFrom(player, positions[player]);
      MaxOwnedUnique(board, player, m);
    }

    /** The loop of `get_max_value` over the cells `owned` of `player`. */
    method MaxFrom(player: int, owned: set<(int, int)>) returns (m: int)
      requires Shaped(board, size) && owned == OwnedCells(board, player)
      ensures m >= 0
      ensures forall r, c :: OwnedBy(board, player, r, c) ==> board[r][c].value <= m
      ensures m == 0 || exists r, c :: OwnedBy(board, player, r, c) && board[r][c].value == m
    {
      m := 0;
      var remaining := owned;
      while remaining != {}
        invariant remaining <= owned && m >= 0
        invariant forall x :: x in owned - remaining ==> board[x.0][x.1].value <= m
        invariant m == 0 || exists x :: x in owned - remaining && board[x.0][x.1].value == m
        decreases |remaining|
      {
        var pos :| pos in remaining;
        assert OwnedBy(board, player, pos.0, pos.1);
        var value := board[pos.0][pos.1].value;
        assert owned - (remaining - {pos}) == (owned - remaining) + {pos};
        m := Max(m, value);
        remaining := remaining - {pos};
      }
      forall r, c | OwnedBy(board, player, r, c) ensures board[r][c].value <= m {
        assert (r, c) in owned;
      }
      if m != 0 {
        var x :| x in owned && board[x.0][x.1].value == m;
        assert OwnedBy(board, player, x.0, x.1);
      }
    }

    /** `is_game_over`: neither player has a valid move. */
    method IsGameOver() returns (over: bool)
      requires Valid()
      ensures over <==> GameOver(board)
    {
      var movesA := GetValidMoves(PlayerA);
      if |movesA| != 0 {
        return false;
      }
      var movesB := GetValidMoves(PlayerB);
      return |movesB| == 0;
    }

    /** `get_winner`: the player with the strictly larger maximum value, nobody on a tie. */
    method GetWinner() returns (w: Option<int>)
      requires Valid()
      ensures w == Some(PlayerA) <==> MaxOwned(board, PlayerA) > MaxOwned(board, PlayerB)
      ensures w == Some(PlayerB) <==> MaxOwned(board, PlayerB) > MaxOwned(board, PlayerA)
      ensures w == None <==> MaxOwned(board, PlayerA) == MaxOwned(board, PlayerB)
    {
      var maxA := GetMaxValue(PlayerA);
      var maxB := GetMaxValue(PlayerB);
      if maxA > maxB {
        return Some(PlayerA);
      } else if maxB > maxA {
        return Some(PlayerB);
      }
      return None;
    }

    /** `copy`: a new board of the same size holding the same cells and positions. */
    method Copy() returns (b: GameBoard)
      requires Valid()
      ensures fresh(b) && b.Valid()
      ensures b.size == size && b.board == board && b.positions == positions
    {
      b := new GameBoard(size);
      b.board := board;
      b.positions := positions;
    }

    /** The loop over the cells `owned` of `player`. */
    method CollectFrom(player: int, owned: set<(int, int)>) returns (valid: seq<(int, int, int)>)
      requires Shaped(board, size) && forall x :: x in owned ==> OwnedBy(board, player, x.0, x.1)
      ensures AllCandidates(board, player, valid)
      ensures Covers(board, player, owned, valid)
    {
      valid := [];
      var remaining := owned;
      while remaining != {}
        invariant remaining <= owned
        invariant AllCandidates(board, player, valid)
        invariant Covers(board, player, owned - remaining, valid)
        decreases |remaining|
      {
        var pos :| pos in remaining;
        var found := CellCandidates(player, pos);
        CoversStep(board, player, owned - remaining, pos, valid, found);
        assert owned - (remaining - {pos}) == (owned - remaining) + {pos};
        valid := valid + found;
        remaining := remaining - {pos};
      }
    }

    /** The inner loop of `get_valid_moves` for one cell of `player`. */
    method CellCandidates(player: int, pos: (int, int)) returns (found: seq<(int, int, int)>)
      requires Shaped(board, size) && OwnedBy(board, player, pos.0, pos.1)
      ensures AllCandidates(board, player, found)
      ensures CoversCell(board, player, pos, found)
    {
      var newValue := board[pos.0][pos.1].value + 1;
      var ns := GetNeighbors(pos.0, pos.1);
      found := [];
      var j := 0;
      while j < |ns|
        invariant 0 <= j <= |ns|
        invariant AllCandidates(board, player, found)
        invariant forall k :: 0 <= k < j && EmptyAt(board, ns[k].0, ns[k].1) ==> (ns[k].0, ns[k].1, newValue) in found
      {
        var (nr, nc) := ns[j];
        assert ns[j] in Elements(ns);
        if board[nr][nc].Empty? {
          assert Adjacent(pos.0, pos.1, nr, nc);
          found := found + [(nr, nc, newValue)];
        }
        j := j + 1;
      }
      forall r, c | Adjacent(pos.0, pos.1, r, c) && EmptyAt(board, r, c) ensures (r, c, newValue) in found {
        assert (r, c) in Elements(ns);
        var k :| 0 <= k < |ns| && ns[k] == (r, c);
      }
    }
  }

  /** The `move_dict` loop of `get_valid_moves`; `order` lists its keys, each once. */
  method BestPerCell(valid: seq<(int, int, int)>) returns (best: map<(int, int), int>, order: seq<(int, int)>)
    ensures Distinct(order) && Elements(order) == best.Keys
    ensures forall key :: key in best ==> (key.0, key.1, best[key]) in valid
    ensures forall k :: 0 <= k < |valid| ==> Key(valid[k]) in best && valid[k].2 <= best[Key(valid[k])]
  {
    best := map[];
    order := [];
    var i := 0;
    while i < |valid|
      invariant 0 <= i <= |valid|
      invariant Distinct(order) && Elements(order) == best.Keys
      invariant forall key :: key in best ==> (key.0, key.1, best[key]) in valid[..i]
      invariant forall k :: 0 <= k < i ==> Key(valid[k]) in best && valid[k].2 <= best[Key(valid[k])]
    {
      var (row, col, value) := valid[i];
      var key := (row, col);
      if key !in best || value > best[key] {
        if key !in best {
          order := order + [key];
        }
        best := best[key := value];
      }
      assert valid[..i + 1] == valid[..i] + [valid[i]];
      i := i + 1;
    }
    assert valid[..i] == valid;
  }

  /** Every entry collected is a candidate move of `p`. */
  ghost predicate AllCandidates(g: Board, p: int, valid: seq<(int, int, int)>)
  {
    forall t :: t in valid ==> CandidateMove(g, p, t)
  }

  /** Every empty neighbour of every cell in `cells` is collected with that cell's value plus one. */
  ghost predicate Covers(g: Board, p: int, cells: set<(int, int)>, valid: seq<(int, int, int)>)
  {
    forall a, b, r, c {:trigger Candidate(g, p, a, b), Adjacent(a, b, r, c)} ::
      (a, b) in cells && OwnedBy(g, p, a, b) && Adjacent(a, b, r, c) && EmptyAt(g, r, c) ==>
      (r, c, Candidate(g, p, a, b)) in valid
  }

  /** Every empty neighbour of `pos` is collected with the value of `p`'s cell there plus one. */
  ghost predicate CoversCell(g: Board, p: int, pos: (int, int), found: seq<(int, int, int)>)
  {
    forall r, c :: Adjacent(pos.0, pos.1, r, c) && EmptyAt(g, r, c) ==> (r, c, Candidate(g, p, pos.0, pos.1)) in found
  }

  lemma CoversStep(g: Board, p: int, done: set<(int, int)>, pos: (int, int), valid: seq<(int, int, int)>, found: seq<(int, int, int)>)
    requires AllCandidates(g, p, valid) && AllCandidates(g, p, found) && Covers(g, p, done, valid)
    requires OwnedBy(g, p, pos.0, pos.1)
    requires CoversCell(g, p, pos, found)
    ensures AllCandidates(g, p, valid + found) && Covers(g, p, done + {pos}, valid + found)
  {
  }

  /** A value at least every value of `p` and 0 or attained is `get_max_value`'s. */
  lemma MaxOwnedUnique(g: Board, p: int, m: int)
    requires m >= 0
    requires forall r, c :: OwnedBy(g, p, r, c) ==> g[r][c].value <= m
    requires m == 0 || exists r, c :: OwnedBy(g, p, r, c) && g[r][c].value == m
    ensures m == MaxOwned(g, p)
  {
    MaxOwnedIs(g, p);
    if m != 0 {
      var r, c :| OwnedBy(g, p, r, c) && g[r][c].value == m;
    }
    if MaxOwned(g, p) != 0 {
      var r, c :| OwnedBy(g, p, r, c) && g[r][c].value == MaxOwned(g, p);
    }
  }

  /** What the two halves of `get_valid_moves` establish together. */
  ghost predicate Deduplicated(g: Board, p: int, valid: seq<(int, int, int)>, moves: seq<(int, int, int)>)
  {
    Shaped(g, |g|) && PositiveValues(g) &&
    AllCandidates(g, p, valid) && Covers(g, p, OwnedCells(g, p), valid) &&
    DistinctKeys(moves) && (forall m :: m in moves ==> m in valid) &&
    (forall t :: t in valid ==> exists k :: 0 <= k < |moves| && Key(moves[k]) == Key(t) && t.2 <= moves[k].2)
  }

  /** Every move kept carries the largest value offered for its cell, which is the move's value by the rules. */
  lemma MovesLegal(g: Board, p: int, valid: seq<(int, int, int)>, moves: seq<(int, int, int)>)
    requires Deduplicated(g, p, valid, moves)
    ensures forall m :: m in moves ==> LegalMove(g, p, m)
  {
    forall m | m in moves ensures LegalMove(g, p, m) {
      assert CandidateMove(g, p, m);
      var a, b :| OwnedBy(g, p, a, b) && Adjacent(a, b, m.0, m.1) && m.2 == g[a][b].value + 1;
      BestValueIs(g, p, m.0, m.1);
      var a', b' :| OwnedBy(g, p, a', b') && Adjacent(a', b', m.0, m.1) && BestValue(g, p, m.0, m.1) == g[a'][b'].value + 1;
      assert (a', b') in OwnedCells(g, p);
      var t := (m.0, m.1, Candidate(g, p, a', b'));
      assert t in valid;
      var k :| 0 <= k < |moves| && Key(moves[k]) == Key(t) && t.2 <= moves[k].2;
      var i :| 0 <= i < |moves| && moves[i] == m;
      assert Key(moves[i]) == Key(moves[k]);
    }
  }

  /** Every destination of `p` is listed with its value. */
  lemma MovesComplete(g: Board, p: int, valid: seq<(int, int, int)>, moves: seq<(int, int, int)>)
    requires Deduplicated(g, p, valid, moves)
    requires forall m :: m in moves ==> LegalMove(g, p, m)
    ensures forall r, c :: IsDestination(g, p, r, c) ==> (r, c, BestValue(g, p, r, c)) in moves
  {
    forall r, c | IsDestination(g, p, r, c) ensures (r, c, BestValue(g, p, r, c)) in moves {
      var a, b :| OwnedBy(g, p, a, b) && Adjacent(a, b, r, c);
      assert (a, b) in OwnedCells(g, p);
      var t := (r, c, Candidate(g, p, a, b));
      assert t in valid;
      var k :| 0 <= k < |moves| && Key(moves[k]) == Key(t) && t.2 <= moves[k].2;
      assert LegalMove(g, p, moves[k]);
    }
  }

  /** A list of legal moves with distinct cells covering every destination is as long as the set of destinations. */
  lemma MovesCount(g: Board, p: int, moves: seq<(int, int, int)>)
    requires DistinctKeys(moves)
    requires forall m :: m in moves ==> LegalMove(g, p, m)
    requires forall r, c :: IsDestination(g, p, r, c) ==> (r, c, BestValue(g, p, r, c)) in moves
    ensures |moves| == |Destinations(g, p)|
  {
    var ks := Keys(moves);
    forall x | x in Elements(ks) ensures x in Destinations(g, p) {
      var k :| 0 <= k < |ks| && ks[k] == x;
      assert LegalMove(g, p, moves[k]);
    }
    forall x | x in Destinations(g, p) ensures x in Elements(ks) {
      var k :| 0 <= k < |moves| && moves[k] == (x.0, x.1, BestValue(g, p, x.0, x.1));
      assert ks[k] == x;
    }
    assert Elements(ks) == Destinations(g, p);
    DistinctCard(ks);
  }

  /**
   * The second half of `get_valid_moves`: one entry per cell, keeping the
   * largest value offered for it.
   */
  method KeepBestPerCell(valid: seq<(int, int, int)>) returns (moves: seq<(int, int, int)>)
    ensures DistinctKeys(moves)
    ensures forall m :: m in moves ==> m in valid
    ensures forall t :: t in valid ==> exists k :: 0 <= k < |moves| && Key(moves[k]) == Key(t) && t.2 <= moves[k].2
  {
    var best, order := BestPerCell(valid);
    moves := seq(|order|, k requires 0 <= k < |order| => (order[k].0, order[k].1, best[order[k]]));
    forall t | t in valid ensures exists k :: 0 <= k < |moves| && Key(moves[k]) == Key(t) && t.2 <= moves[k].2 {
      var i :| 0 <= i < |valid| && valid[i] == t;
      assert Key(t) in Elements(order);
      var k :| 0 <= k < |order| && order[k] == Key(t);
      assert Key(moves[k]) == Key(t);
    }
    forall m | m in moves ensures m in valid {
      var k :| 0 <= k < |moves| && moves[k] == m;
      assert order[k] in best;
    }
  }

  /** The neighbours `get_neighbors` has met before offset (dr, dc) in its loop order. */
  function Visited(n: int, r: int, c: int, dr: int, dc: int): set<(int, int)>
  {
    set a, b | r - 1 <= a <= r + 1 && c - 1 <= b <= c + 1 && InBounds(n, a, b) && Adjacent(a, b, r, c) &&
               (a - r < dr || (a - r == dr && b - c < dc)) :: (a, b)
  }

  lemma VisitedStep(n: int, r: int, c: int, dr: int, dc: int)
    requires -1 <= dr <= 1 && -1 <= dc <= 1
    ensures Visited(n, r, c, dr, dc + 1) ==
            Visited(n, r, c, dr, dc) + (if !(dr == 0 && dc == 0) && InBounds(n, r + dr, c + dc) then {(r + dr, c + dc)} else {})
    ensures (r + dr, c + dc) !in Visited(n, r, c, dr, dc)
  {
  }

  lemma VisitedRow(n: int, r: int, c: int, dr: int)
    ensures Visited(n, r, c, dr, 2) == Visited(n, r, c, dr + 1, -1)
  {
  }

  lemma VisitedAll(n: int, r: int, c: int)
    ensures Visited(n, r, c, 2, -1) == NeighbourSet(n, r, c)
  {
  }

  /** Filling an empty cell adds exactly that cell to the mover's cells and keeps values positive. */
  lemma PlayOwnedCells(g: Board, r: int, c: int, v: int, p: int)
    requires Shaped(g, |g|) && InBounds(|g|, r, c) && g[r][c].Empty? && IsPlayer(p) && v >= 1 && PositiveValues(g)
    ensures OwnedCells(Play(g, (r, c, v), p), p) == OwnedCells(g, p) + {(r, c)}
    ensures OwnedCells(Play(g, (r, c, v), p), Opponent(p)) == OwnedCells(g, Opponent(p))
    ensures PositiveValues(Play(g, (r, c, v), p))
  {
    var g' := Play(g, (r, c, v), p);
    forall a, b | 0 <= a < |g| && 0 <= b < |g| ensures g'[a][b] == if (a, b) == (r, c) then Filled(p, v) else g[a][b] {
    }
    assert OwnedBy(g', p, r, c);
  }
}

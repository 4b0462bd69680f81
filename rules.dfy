/**
 * The rules of Sequencium as the Python reference `GameBoard` states them,
 * on a board seen as a value: a square list of rows of cells, each empty or
 * holding (owner, value).  A player may fill any empty cell 8-adjacent to
 * one of its cells, with one more than the largest value among its cells
 * adjacent to it.  The plain (cache-free, window-free) minimax value of a
 * position is defined here as the reference the alpha-beta search is
 * proved against.
 */
module Rules {
  import opened Encoding
  import opened Collections
  import opened Grid

  datatype Cell = Empty | Filled(owner: int, value: int)

  type Board = seq<seq<Cell>>

  predicate Shaped(g: Board, n: int)
  {
    |g| == n && forall i :: 0 <= i < n ==> |g[i]| == n
  }

  /** Every filled cell holds a value of at least 1, as the game only ever writes. */
  predicate PositiveValues(g: Board)
  {
    forall r, c :: 0 <= r < |g| && 0 <= c < |g[r]| && g[r][c].Filled? ==> g[r][c].value >= 1
  }

  /** The starting position: A's 1 in the top-left corner, B's 1 in the bottom-right one, written last. */
  function Initial(n: int): (g: Board)
    requires n >= 1
    ensures Shaped(g, n)
  {
    seq(n, i => seq(n, j => if i == n - 1 && j == n - 1 then Filled(PlayerB, 1)
                           else if i == 0 && j == 0 then Filled(PlayerA, 1)
                           else Empty))
  }

  predicate OwnedBy(g: Board, p: int, r: int, c: int)
  {
    0 <= r < |g| && 0 <= c < |g[r]| && g[r][c].Filled? && g[r][c].owner == p
  }

  predicate EmptyAt(g: Board, r: int, c: int)
  {
    0 <= r < |g| && 0 <= c < |g[r]| && g[r][c].Empty?
  }

  /** The cells of `p`, as `player_positions[p]` should hold them. */
  function OwnedCells(g: Board, p: int): set<(int, int)>
  {
    set r, c | 0 <= r < |g| && 0 <= c < |g[r]| && OwnedBy(g, p, r, c) :: (r, c)
  }

  /** The eight offsets of `get_neighbors`, in its loop order. */
  const Offsets: seq<(int, int)> := [(-1, -1), (-1, 0), (-1, 1), (0, -1), (0, 1), (1, -1), (1, 0), (1, 1)]

  /** What an owned cell at (a, b) offers the cells around it: its value plus one, 0 if it is not `p`'s. */
  function Candidate(g: Board, p: int, a: int, b: int): int
  {
    if OwnedBy(g, p, a, b) then g[a][b].value + 1 else 0
  }

  /** The largest candidate among the first k offsets around (r, c), 0 if none. */
  function BestOver(g: Board, p: int, r: int, c: int, k: int): int
    requires 0 <= k <= |Offsets|
  {
    if k == 0 then 0 else Max(BestOver(g, p, r, c, k - 1), Candidate(g, p, r + Offsets[k - 1].0, c + Offsets[k - 1].1))
  }

  /** The value of a move to (r, c): one more than the largest adjacent value of `p`. */
  function BestValue(g: Board, p: int, r: int, c: int): int
  {
    BestOver(g, p, r, c, |Offsets|)
  }

  /** An empty cell next to a cell of `p`. */
  ghost predicate IsDestination(g: Board, p: int, r: int, c: int)
  {
    EmptyAt(g, r, c) && exists a, b :: OwnedBy(g, p, a, b) && Adjacent(a, b, r, c)
  }

  ghost function Destinations(g: Board, p: int): set<(int, int)>
  {
    set r, c | 0 <= r < |g| && 0 <= c < |g[r]| && IsDestination(g, p, r, c) :: (r, c)
  }

  /** A move (row, col, value) that `get_valid_moves(p)` lists. */
  ghost predicate LegalMove(g: Board, p: int, m: (int, int, int))
  {
    IsDestination(g, p, m.0, m.1) && m.2 == BestValue(g, p, m.0, m.1)
  }

  /** The board after `p` fills (row, col) with `value`. */
  function Play(g: Board, m: (int, int, int), p: int): (g': Board)
    requires 0 <= m.0 < |g| && 0 <= m.1 < |g[m.0]|
    ensures |g'| == |g| && forall i :: 0 <= i < |g| ==> |g'[i]| == |g[i]|
  {
    g[m.0 := g[m.0][m.1 := Filled(p, m.2)]]
  }

  function RowMaxOwned(row: seq<Cell>, p: int): int
  {
    if row == [] then 0
    else Max(RowMaxOwned(row[..|row| - 1], p),
             if row[|row| - 1].Filled? && row[|row| - 1].owner == p then row[|row| - 1].value else 0)
  }

  /** `get_max_value`: the largest value of `p`, 0 when it has no cell. */
  function MaxOwned(g: Board, p: int): int
  {
    if g == [] then 0 else Max(MaxOwned(g[..|g| - 1], p), RowMaxOwned(g[|g| - 1], p))
  }

  /** `is_game_over`: neither player has a move. */
  ghost predicate GameOver(g: Board)
  {
    Destinations(g, PlayerA) == {} && Destinations(g, PlayerB) == {}
  }

  /** `evaluate_position`: max-value gap, cell-count gap and mobility gap, with weights 100, 10 and 1. */
  ghost function Eval(g: Board, p: int): int
  {
    var o := Opponent(p);
    100 * (MaxOwned(g, p) - MaxOwned(g, o)) + 10 * (|OwnedCells(g, p)| - |OwnedCells(g, o)|) +
    (|Destinations(g, p)| - |Destinations(g, o)|)
  }

  /** The evaluation is zero-sum: swapping the perspective negates it. */
  lemma EvalAntisymmetric(g: Board, p: int)
    requires IsPlayer(p)
    ensures Eval(g, Opponent(p)) == -Eval(g, p)
  {
  }

  /** A score or one of the two infinite window ends of the search. */
  datatype Bound = NegInf | Finite(n: int) | PosInf

  predicate Below(x: Bound, y: Bound)
  {
    match (x, y)
    case (NegInf, NegInf) => false
    case (NegInf, _) => true
    case (Finite(a), Finite(b)) => a < b
    case (Finite(_), PosInf) => true
    case _ => false
  }

  function BMax(x: Bound, y: Bound): Bound
  {
    if Below(x, y) then y else x
  }

  function BMin(x: Bound, y: Bound): Bound
  {
    if Below(y, x) then y else x
  }

  /** The side to move: `player` on maximizing levels, its opponent on the others. */
  function Mover(maximizing: bool, player: int): int
  {
    if maximizing then player else Opponent(player)
  }

  /** The value of an empty fold: minus infinity when maximizing, plus infinity when minimizing. */
  function Identity(maximizing: bool): Bound
  {
    if maximizing then NegInf else PosInf
  }

  /** The better of two values for the side to move. */
  function Better(maximizing: bool, x: Bound, y: Bound): Bound
  {
    if maximizing then BMax(x, y) else BMin(x, y)
  }

  /** `v` is at least as good as `w` for the side to move. */
  predicate Dominates(maximizing: bool, v: int, w: int)
  {
    if maximizing then w <= v else v <= w
  }

  /**
   * The plain minimax value of a position, `depth` plies deep, from the side
   * of `player`, with the turn passing when the side to move has no move and
   * the depth still dropping, as the Python `minimax` does without pruning.
   */
  ghost function MinimaxValue(g: Board, depth: nat, maximizing: bool, player: int): int
    requires IsPlayer(player) && Shaped(g, |g|)
    decreases depth, 2, 0
  {
    if depth == 0 || GameOver(g) then Eval(g, player)
    else if Destinations(g, Mover(maximizing, player)) == {} then MinimaxValue(g, depth - 1, !maximizing, player)
    else
      match GridFold(g, depth, maximizing, player, |g|)
      case Finite(v) => v
      case _ => 0
  }

  /** The minimax value after the side to move plays `m`. */
  ghost function ChildValue(g: Board, m: (int, int, int), depth: nat, maximizing: bool, player: int): int
    requires IsPlayer(player) && Shaped(g, |g|) && depth >= 1 && InBounds(|g|, m.0, m.1)
    decreases depth, 0, 0
  {
    MinimaxValue(Play(g, m, Mover(maximizing, player)), depth - 1, !maximizing, player)
  }

  /** The best child value over the destinations (r, 0) .. (r, c - 1) of the side to move. */
  ghost function RowFold(g: Board, depth: nat, maximizing: bool, player: int, r: int, c: int): Bound
    requires IsPlayer(player) && Shaped(g, |g|) && depth >= 1 && 0 <= r < |g| && 0 <= c <= |g|
    decreases depth, 0, c
  {
    if c == 0 then Identity(maximizing)
    else
      var side := Mover(maximizing, player);
      var rest := RowFold(g, depth, maximizing, player, r, c - 1);
      if IsDestination(g, side, r, c - 1) then
        Better(maximizing, rest, Finite(ChildValue(g, (r, c - 1, BestValue(g, side, r, c - 1)), depth, maximizing, player)))
      else rest
  }

  /** The best child value over the destinations in rows 0 .. r - 1. */
  ghost function GridFold(g: Board, depth: nat, maximizing: bool, player: int, r: int): Bound
    requires IsPlayer(player) && Shaped(g, |g|) && depth >= 1 && 0 <= r <= |g|
    decreases depth, 1, r
  {
    if r == 0 then Identity(maximizing)
    else Better(maximizing, GridFold(g, depth, maximizing, player, r - 1), RowFold(g, depth, maximizing, player, r - 1, |g|))
  }

  /** The child value of the legal move to destination (r, c). */
  ghost function DestValue(g: Board, depth: nat, maximizing: bool, player: int, r: int, c: int): int
    requires IsPlayer(player) && Shaped(g, |g|) && depth >= 1 && InBounds(|g|, r, c)
  {
    ChildValue(g, (r, c, BestValue(g, Mover(maximizing, player), r, c)), depth, maximizing, player)
  }

  // ---------------------------------------------------------------------
  // Properties of the rules

  lemma {:induction false} BestOverIs(g: Board, p: int, r: int, c: int, k: int)
    requires 0 <= k <= |Offsets|
    ensures BestOver(g, p, r, c, k) >= 0
    ensures forall i :: 0 <= i < k ==> Candidate(g, p, r + Offsets[i].0, c + Offsets[i].1) <= BestOver(g, p, r, c, k)
    ensures BestOver(g, p, r, c, k) == 0 ||
            exists i :: 0 <= i < k && BestOver(g, p, r, c, k) == Candidate(g, p, r + Offsets[i].0, c + Offsets[i].1)
  {
    if k > 0 {
      BestOverIs(g, p, r, c, k - 1);
    }
  }

  /** The offsets enumerate exactly the 8-neighbourhood. */
  lemma AdjacentOffset(a: int, b: int, r: int, c: int)
    ensures Adjacent(a, b, r, c) <==> exists i :: 0 <= i < |Offsets| && a == r + Offsets[i].0 && b == c + Offsets[i].1
  {
    if Adjacent(a, b, r, c) {
      var i := (a - r + 1) * 3 + (b - c + 1);
      var i' := if i > 4 then i - 1 else i;
      assert a == r + Offsets[i'].0 && b == c + Offsets[i'].1;
    }
  }

  /**
   * The value of a move is one more than the largest adjacent value of the
   * mover: no adjacent cell of `p` offers more, and one offers exactly it.
   */
  lemma BestValueIs(g: Board, p: int, r: int, c: int)
    requires PositiveValues(g)
    ensures forall a, b :: OwnedBy(g, p, a, b) && Adjacent(a, b, r, c) ==> g[a][b].value + 1 <= BestValue(g, p, r, c)
    ensures (exists a, b :: OwnedBy(g, p, a, b) && Adjacent(a, b, r, c)) ==>
              exists a, b :: OwnedBy(g, p, a, b) && Adjacent(a, b, r, c) && BestValue(g, p, r, c) == g[a][b].value + 1
  {
    BestOverIs(g, p, r, c, |Offsets|);
    forall a, b | OwnedBy(g, p, a, b) && Adjacent(a, b, r, c) ensures g[a][b].value + 1 <= BestValue(g, p, r, c) {
      AdjacentOffset(a, b, r, c);
      var i :| 0 <= i < |Offsets| && a == r + Offsets[i].0 && b == c + Offsets[i].1;
      assert Candidate(g, p, a, b) == g[a][b].value + 1;
    }
    if exists a, b :: OwnedBy(g, p, a, b) && Adjacent(a, b, r, c) {
      var a0, b0 :| OwnedBy(g, p, a0, b0) && Adjacent(a0, b0, r, c);
      assert BestValue(g, p, r, c) >= g[a0][b0].value + 1 >= 2;
      var i :| 0 <= i < |Offsets| && BestValue(g, p, r, c) == Candidate(g, p, r + Offsets[i].0, c + Offsets[i].1);
      var a, b := r + Offsets[i].0, c + Offsets[i].1;
      AdjacentOffset(a, b, r, c);
      assert OwnedBy(g, p, a, b) && Adjacent(a, b, r, c) && BestValue(g, p, r, c) == g[a][b].value + 1;
    }
  }

  lemma {:induction false} RowMaxOwnedIs(row: seq<Cell>, p: int)
    ensures RowMaxOwned(row, p) >= 0
    ensures forall c :: 0 <= c < |row| && row[c].Filled? && row[c].owner == p ==> row[c].value <= RowMaxOwned(row, p)
    ensures RowMaxOwned(row, p) == 0 ||
            exists c :: 0 <= c < |row| && row[c].Filled? && row[c].owner == p && row[c].value == RowMaxOwned(row, p)
  {
    if row != [] {
      var t := row[..|row| - 1];
      RowMaxOwnedIs(t, p);
      assert forall c :: 0 <= c < |t| ==> row[c] == t[c];
    }
  }

  /**
   * `get_max_value` is the largest value among the cells of `p`, and 0
   * exactly when it has none of positive value.
   */
  lemma {:induction false} MaxOwnedIs(g: Board, p: int)
    ensures MaxOwned(g, p) >= 0
    ensures forall r, c :: OwnedBy(g, p, r, c) ==> g[r][c].value <= MaxOwned(g, p)
    ensures MaxOwned(g, p) == 0 || exists r, c :: OwnedBy(g, p, r, c) && g[r][c].value == MaxOwned(g, p)
  {
    if g != [] {
      var t, last := g[..|g| - 1], g[|g| - 1];
      MaxOwnedIs(t, p);
      RowMaxOwnedIs(last, p);
      assert forall r :: 0 <= r < |t| ==> g[r] == t[r];
      forall r, c | OwnedBy(g, p, r, c) ensures g[r][c].value <= MaxOwned(g, p) {
        if r < |t| {
          assert OwnedBy(t, p, r, c);
        }
      }
      if MaxOwned(g, p) != 0 {
        if MaxOwned(g, p) == MaxOwned(t, p) {
          var r, c :| OwnedBy(t, p, r, c) && t[r][c].value == MaxOwned(t, p);
          assert OwnedBy(g, p, r, c);
        } else {
          var c :| 0 <= c < |last| && last[c].Filled? && last[c].owner == p && last[c].value == RowMaxOwned(last, p);
          assert OwnedBy(g, p, |g| - 1, c);
        }
      }
    }
  }

  /** The starting position holds exactly the two corner cells, both of value 1. */
  lemma InitialCells(n: int)
    requires n >= 2
    ensures OwnedCells(Initial(n), PlayerA) == {(0, 0)}
    ensures OwnedCells(Initial(n), PlayerB) == {(n - 1, n - 1)}
    ensures PositiveValues(Initial(n))
  {
    var g := Initial(n);
    assert OwnedBy(g, PlayerA, 0, 0) && OwnedBy(g, PlayerB, n - 1, n - 1);
  }

  /**
   * On a board of side 3 or more, the first player starts with the three
   * cells around its corner to choose from, each worth 2.
   */
  lemma InitialMoves(n: int)
    requires n >= 3
    ensures Destinations(Initial(n), PlayerA) == {(0, 1), (1, 0), (1, 1)}
    ensures |Destinations(Initial(n), PlayerA)| == 3
    ensures forall m :: m in Destinations(Initial(n), PlayerA) ==> BestValue(Initial(n), PlayerA, m.0, m.1) == 2
  {
    var g := Initial(n);
    forall r, c | IsDestination(g, PlayerA, r, c) ensures (r, c) in {(0, 1), (1, 0), (1, 1)} {
      NearCornerA(n, r, c);
    }
    forall m | m in {(0, 1), (1, 0), (1, 1)}
      ensures IsDestination(g, PlayerA, m.0, m.1) && BestValue(g, PlayerA, m.0, m.1) == 2
    {
      InitialMove(n, m.0, m.1);
    }
  }

  /** A destination of the first player on the starting board touches its corner. */
  lemma NearCornerA(n: int, r: int, c: int)
    requires n >= 3 && IsDestination(Initial(n), PlayerA, r, c)
    ensures (r, c) in {(0, 1), (1, 0), (1, 1)}
  {
    var g := Initial(n);
    InitialCells(n);
    var a, b :| OwnedBy(g, PlayerA, a, b) && Adjacent(a, b, r, c);
    assert (a, b) in OwnedCells(g, PlayerA);
  }

  /** One of the three cells around the first player's corner: a destination worth 2. */
  lemma InitialMove(n: int, r: int, c: int)
    requires n >= 3 && (r, c) in {(0, 1), (1, 0), (1, 1)}
    ensures IsDestination(Initial(n), PlayerA, r, c) && BestValue(Initial(n), PlayerA, r, c) == 2
  {
    var g := Initial(n);
    InitialCells(n);
    assert OwnedBy(g, PlayerA, 0, 0) && Adjacent(0, 0, r, c);
    BestValueIs(g, PlayerA, r, c);
    forall a, b | OwnedBy(g, PlayerA, a, b) ensures g[a][b].value == 1 {
      assert (a, b) in OwnedCells(g, PlayerA);
    }
  }

  /**
   * Likewise the second player starts with the three cells around the
   * opposite corner, each worth 2.
   */
  lemma InitialMovesB(n: int)
    requires n >= 3
    ensures Destinations(Initial(n), PlayerB) == {(n - 2, n - 1), (n - 1, n - 2), (n - 2, n - 2)}
    ensures |Destinations(Initial(n), PlayerB)| == 3
    ensures forall m :: m in Destinations(Initial(n), PlayerB) ==> BestValue(Initial(n), PlayerB, m.0, m.1) == 2
  {
    var g := Initial(n);
    forall r, c | IsDestination(g, PlayerB, r, c) ensures (r, c) in {(n - 2, n - 1), (n - 1, n - 2), (n - 2, n - 2)} {
      NearCornerB(n, r, c);
    }
    forall m | m in {(n - 2, n - 1), (n - 1, n - 2), (n - 2, n - 2)}
      ensures IsDestination(g, PlayerB, m.0, m.1) && BestValue(g, PlayerB, m.0, m.1) == 2
    {
      InitialMoveB(n, m.0, m.1);
    }
  }

  /** A destination of the second player on the starting board touches its corner. */
  lemma NearCornerB(n: int, r: int, c: int)
    requires n >= 3 && IsDestination(Initial(n), PlayerB, r, c)
    ensures (r, c) in {(n - 2, n - 1), (n - 1, n - 2), (n - 2, n - 2)}
  {
    var g := Initial(n);
    InitialCells(n);
    var a, b :| OwnedBy(g, PlayerB, a, b) && Adjacent(a, b, r, c);
    assert (a, b) in OwnedCells(g, PlayerB);
  }

  /** One of the three cells around the second player's corner: a destination worth 2. */
  lemma InitialMoveB(n: int, r: int, c: int)
    requires n >= 3 && (r, c) in {(n - 2, n - 1), (n - 1, n - 2), (n - 2, n - 2)}
    ensures IsDestination(Initial(n), PlayerB, r, c) && BestValue(Initial(n), PlayerB, r, c) == 2
  {
    var g := Initial(n);
    InitialCells(n);
    assert OwnedBy(g, PlayerB, n - 1, n - 1) && Adjacent(n - 1, n - 1, r, c);
    BestValueIs(g, PlayerB, r, c);
    forall a, b | OwnedBy(g, PlayerB, a, b) ensures g[a][b].value == 1 {
      assert (a, b) in OwnedCells(g, PlayerB);
    }
  }

  /** The destinations (r, 0) .. (r, c - 1) of `side`. */
  ghost function RowDests(g: Board, side: int, r: int, c: int): set<(int, int)>
  {
    set c' | 0 <= c' < c && IsDestination(g, side, r, c') :: (r, c')
  }

  /** The destinations of `side` in rows 0 .. r - 1. */
  ghost function GridDests(g: Board, side: int, r: int): set<(int, int)>
  {
    set r', c' | 0 <= r' < r && 0 <= c' < |g| && IsDestination(g, side, r', c') :: (r', c')
  }

  /**
   * `res` is the best child value over the destinations `cells`: infinite
   * exactly when there are none, otherwise the value of one of them and at
   * least as good as every other.
   */
  ghost predicate BestOf(g: Board, depth: nat, maximizing: bool, player: int, cells: set<(int, int)>, res: Bound)
    requires IsPlayer(player) && Shaped(g, |g|) && depth >= 1
  {
    (forall x :: x in cells ==> InBounds(|g|, x.0, x.1)) &&
    (res.Finite? <==> cells != {}) &&
    (!res.Finite? ==> res == Identity(maximizing)) &&
    (res.Finite? ==>
      (forall x :: x in cells ==> Dominates(maximizing, res.n, DestValue(g, depth, maximizing, player, x.0, x.1))) &&
      (exists x :: x in cells && res.n == DestValue(g, depth, maximizing, player, x.0, x.1)))
  }

  lemma BestOfUnion(g: Board, depth: nat, maximizing: bool, player: int, a: set<(int, int)>, x: Bound, b: set<(int, int)>, y: Bound)
    requires IsPlayer(player) && Shaped(g, |g|) && depth >= 1
    requires BestOf(g, depth, maximizing, player, a, x) && BestOf(g, depth, maximizing, player, b, y)
    ensures BestOf(g, depth, maximizing, player, a + b, Better(maximizing, x, y))
  {
    var res := Better(maximizing, x, y);
    if res.Finite? {
      forall z | z in a + b ensures Dominates(maximizing, res.n, DestValue(g, depth, maximizing, player, z.0, z.1)) {
        if z in a {
          assert x.Finite?;
        } else {
          assert y.Finite?;
        }
      }
      if res == x {
        var z :| z in a && x.n == DestValue(g, depth, maximizing, player, z.0, z.1);
        assert z in a + b;
      } else {
        var z :| z in b && y.n == DestValue(g, depth, maximizing, player, z.0, z.1);
        assert z in a + b;
      }
    }
  }

  lemma RowDestsStep(g: Board, side: int, r: int, c: int)
    requires c > 0
    ensures RowDests(g, side, r, c) ==
            RowDests(g, side, r, c - 1) + (if IsDestination(g, side, r, c - 1) then {(r, c - 1)} else {})
  {
  }

  lemma GridDestsStep(g: Board, side: int, r: int)
    requires r > 0
    ensures GridDests(g, side, r) == GridDests(g, side, r - 1) + RowDests(g, side, r - 1, |g|)
  {
  }

  lemma BestOfOne(g: Board, depth: nat, maximizing: bool, player: int, r: int, c: int)
    requires IsPlayer(player) && Shaped(g, |g|) && depth >= 1 && InBounds(|g|, r, c)
    ensures BestOf(g, depth, maximizing, player, {(r, c)}, Finite(DestValue(g, depth, maximizing, player, r, c)))
  {
  }

  lemma {:induction false} RowFoldIs(g: Board, depth: nat, maximizing: bool, player: int, r: int, c: int)
    requires IsPlayer(player) && Shaped(g, |g|) && depth >= 1 && 0 <= r < |g| && 0 <= c <= |g|
    ensures BestOf(g, depth, maximizing, player, RowDests(g, Mover(maximizing, player), r, c), RowFold(g, depth, maximizing, player, r, c))
  {
    var side := Mover(maximizing, player);
    if c == 0 {
      assert RowDests(g, side, r, c) == {};
    } else {
      RowFoldIs(g, depth, maximizing, player, r, c - 1);
      RowDestsStep(g, side, r, c);
      if IsDestination(g, side, r, c - 1) {
        BestOfOne(g, depth, maximizing, player, r, c - 1);
        BestOfUnion(g, depth, maximizing, player, RowDests(g, side, r, c - 1), RowFold(g, depth, maximizing, player, r, c - 1),
                    {(r, c - 1)}, Finite(DestValue(g, depth, maximizing, player, r, c - 1)));
      }
    }
  }

  lemma {:induction false} GridFoldIs(g: Board, depth: nat, maximizing: bool, player: int, r: int)
    requires IsPlayer(player) && Shaped(g, |g|) && depth >= 1 && 0 <= r <= |g|
    ensures BestOf(g, depth, maximizing, player, GridDests(g, Mover(maximizing, player), r), GridFold(g, depth, maximizing, player, r))
  {
    var side := Mover(maximizing, player);
    if r == 0 {
      assert GridDests(g, side, r) == {};
    } else {
      GridFoldIs(g, depth, maximizing, player, r - 1);
      RowFoldIs(g, depth, maximizing, player, r - 1, |g|);
      GridDestsStep(g, side, r);
      BestOfUnion(g, depth, maximizing, player, GridDests(g, side, r - 1), GridFold(g, depth, maximizing, player, r - 1),
                  RowDests(g, side, r - 1, |g|), RowFold(g, depth, maximizing, player, r - 1, |g|));
    }
  }

  /**
   * Over the whole board the fold is the best child value over all the
   * destinations of the side to move.
   */
  lemma FoldIsBest(g: Board, depth: nat, maximizing: bool, player: int)
    requires IsPlayer(player) && Shaped(g, |g|) && depth >= 1
    ensures BestOf(g, depth, maximizing, player, Destinations(g, Mover(maximizing, player)), GridFold(g, depth, maximizing, player, |g|))
  {
    GridFoldIs(g, depth, maximizing, player, |g|);
    assert GridDests(g, Mover(maximizing, player), |g|) == Destinations(g, Mover(maximizing, player));
  }

  /** Where the side to move has a move, the minimax value is the fold over its destinations. */
  lemma MinimaxIsFold(g: Board, depth: nat, maximizing: bool, player: int)
    requires IsPlayer(player) && Shaped(g, |g|) && depth >= 1 && !GameOver(g)
    requires Destinations(g, Mover(maximizing, player)) != {}
    ensures GridFold(g, depth, maximizing, player, |g|).Finite?
    ensures MinimaxValue(g, depth, maximizing, player) == GridFold(g, depth, maximizing, player, |g|).n
    ensures BestOf(g, depth, maximizing, player, Destinations(g, Mover(maximizing, player)), GridFold(g, depth, maximizing, player, |g|))
  {
    FoldIsBest(g, depth, maximizing, player);
  }
}

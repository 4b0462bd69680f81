/**
 * The Python reference `SequenciumAI`: a static evaluation and a
 * minimax search with alpha-beta pruning over copies of the board.  The
 * search is proved fail-soft against the plain minimax value of the rules:
 * inside the window it returns that value exactly, at or below `alpha` an
 * upper bound of it, at or above `beta` a lower bound of it.
 */
module AI {
  import opened Encoding
  import opened Collections
  import opened Grid
  import opened Rules
  import opened Games

  /**
   * `s`, returned for the window (alpha, beta), is exact inside the window,
   * an upper bound of the true value `v` when it fails low and a lower
   * bound when it fails high.
   */
  predicate FailSoft(s: int, v: int, alpha: Bound, beta: Bound)
  {
    (Below(alpha, Finite(s)) && Below(Finite(s), beta) ==> s == v) &&
    (!Below(alpha, Finite(s)) ==> v <= s) &&
    (!Below(Finite(s), beta) ==> s <= v)
  }

  /** The moves `get_valid_moves` returns for `side`: all legal, covering every destination. */
  ghost predicate AllMoves(g: Board, side: int, moves: seq<(int, int, int)>)
  {
    (forall m :: m in moves ==> InBounds(|g|, m.0, m.1) && LegalMove(g, side, m)) &&
    (forall r, c :: IsDestination(g, side, r, c) ==> (r, c, BestValue(g, side, r, c)) in moves)
  }

  /**
   * `vs` holds, in list order, the child values of the first `|vs|` moves.
   * Stated one element at a time so that only the last link is in view.
   */
  ghost predicate ValuesMatch(g: Board, depth: nat, maximizing: bool, player: int, moves: seq<(int, int, int)>, vs: seq<int>)
    decreases |vs|
  {
    IsPlayer(player) && Shaped(g, |g|) && depth >= 1 && |vs| <= |moves| &&
    (vs == [] ||
      (ValuesMatch(g, depth, maximizing, player, moves, vs[..|vs| - 1]) &&
       InBounds(|g|, moves[|vs| - 1].0, moves[|vs| - 1].1) &&
       vs[|vs| - 1] == ChildValue(g, moves[|vs| - 1], depth, maximizing, player)))
  }

  lemma {:induction false} ValuesMatchAt(g: Board, depth: nat, maximizing: bool, player: int, moves: seq<(int, int, int)>, vs: seq<int>, j: int)
    requires ValuesMatch(g, depth, maximizing, player, moves, vs) && 0 <= j < |vs|
    ensures IsPlayer(player) && Shaped(g, |g|) && depth >= 1 && InBounds(|g|, moves[j].0, moves[j].1)
    ensures vs[j] == ChildValue(g, moves[j], depth, maximizing, player)
    decreases |vs|
  {
    if j < |vs| - 1 {
      ValuesMatchAt(g, depth, maximizing, player, moves, vs[..|vs| - 1], j);
    }
  }

  lemma ValuesExtend(g: Board, depth: nat, maximizing: bool, player: int, moves: seq<(int, int, int)>, vs: seq<int>, v: int)
    requires ValuesMatch(g, depth, maximizing, player, moves, vs) && |vs| < |moves|
    requires InBounds(|g|, moves[|vs|].0, moves[|vs|].1)
    requires v == ChildValue(g, moves[|vs|], depth, maximizing, player)
    ensures ValuesMatch(g, depth, maximizing, player, moves, vs + [v])
  {
    assert (vs + [v])[..|vs|] == vs;
  }

  /** At a position with moves, the minimax value is at least as good as every listed child's. */
  lemma ValueDominated(g: Board, depth: nat, maximizing: bool, player: int, moves: seq<(int, int, int)>, vs: seq<int>, j: int)
    requires ValuesMatch(g, depth, maximizing, player, moves, vs) && 0 <= j < |vs|
    requires !GameOver(g) && AllMoves(g, Mover(maximizing, player), moves)
    ensures Dominates(maximizing, MinimaxValue(g, depth, maximizing, player), vs[j])
  {
    ValuesMatchAt(g, depth, maximizing, player, moves, vs, j);
    var side := Mover(maximizing, player);
    var m := moves[j];
    assert m in moves;
    assert (m.0, m.1) in Destinations(g, side);
    FoldIsBest(g, depth, maximizing, player);
  }

  /** When the list holds all the moves of the side to move, some child attains the minimax value. */
  lemma ValueAttained(g: Board, depth: nat, maximizing: bool, player: int, moves: seq<(int, int, int)>, vs: seq<int>) returns (k: int)
    requires ValuesMatch(g, depth, maximizing, player, moves, vs) && |vs| == |moves| > 0
    requires !GameOver(g) && AllMoves(g, Mover(maximizing, player), moves)
    ensures 0 <= k < |moves| && vs[k] == MinimaxValue(g, depth, maximizing, player)
  {
    var side := Mover(maximizing, player);
    var m := moves[0];
    assert m in moves;
    assert (m.0, m.1) in Destinations(g, side);
    MinimaxIsFold(g, depth, maximizing, player);
    var res := GridFold(g, depth, maximizing, player, |g|);
    var x :| x in Destinations(g, side) && res.n == DestValue(g, depth, maximizing, player, x.0, x.1);
    var mx := (x.0, x.1, BestValue(g, side, x.0, x.1));
    assert mx in moves;
    k :| 0 <= k < |moves| && moves[k] == mx;
    ValuesMatchAt(g, depth, maximizing, player, moves, vs, k);
  }

  /**
   * The state of the maximizing loop after the children `vs`: `a` is the
   * raised window bound, `maxEval` the best returned score, `trueMax` the
   * best true child value (at `at`), and inside the window the two agree.
   */
  predicate MaxScan(alpha: Bound, beta: Bound, a: Bound, maxEval: Bound, vs: seq<int>, trueMax: int, at: int, bi: int)
  {
    a == BMax(alpha, maxEval) && Below(a, beta) &&
    (|vs| == 0 ==> maxEval == NegInf) &&
    (|vs| > 0 ==>
      maxEval.Finite? && 0 <= bi < |vs| && 0 <= at < |vs| && trueMax == vs[at] && trueMax <= maxEval.n &&
      (forall j :: 0 <= j < |vs| ==> vs[j] <= trueMax) &&
      (Below(alpha, maxEval) ==> trueMax == maxEval.n && vs[bi] == maxEval.n))
  }

  /** One child of the maximizing loop, with fail-soft score `e` and true value `v`. */
  lemma MaxStep(alpha: Bound, beta: Bound, a: Bound, maxEval: Bound, vs: seq<int>, trueMax: int, at: int, bi: int, e: int, v: int,
                maxEval': Bound, a': Bound, trueMax': int, at': int, bi': int)
    requires MaxScan(alpha, beta, a, maxEval, vs, trueMax, at, bi) && FailSoft(e, v, a, beta)
    requires maxEval' == (if Below(maxEval, Finite(e)) then Finite(e) else maxEval)
    requires bi' == (if Below(maxEval, Finite(e)) then |vs| else bi)
    requires (trueMax', at') == (if |vs| == 0 || v > trueMax then (v, |vs|) else (trueMax, at))
    requires a' == BMax(a, Finite(e))
    ensures Below(a', beta) ==> MaxScan(alpha, beta, a', maxEval', vs + [v], trueMax', at', bi')
    ensures !Below(a', beta) ==> maxEval' == Finite(e) && Below(alpha, Finite(e)) && !Below(Finite(e), beta) && e <= v
  {
  }

  /** After every child: the best score is fail-soft for the minimax value `mv`. */
  lemma MaxDone(alpha: Bound, beta: Bound, a: Bound, maxEval: Bound, vs: seq<int>, trueMax: int, at: int, bi: int, mv: int, k: int)
    requires MaxScan(alpha, beta, a, maxEval, vs, trueMax, at, bi) && 0 <= k < |vs| && vs[k] == mv && vs[at] <= mv
    ensures maxEval.Finite? && FailSoft(maxEval.n, mv, alpha, beta)
    ensures Below(alpha, maxEval) && Below(maxEval, beta) ==> vs[bi] == maxEval.n
  {
  }

  /** The state of the minimizing loop, the mirror image of `MaxScan`. */
  predicate MinScan(alpha: Bound, beta: Bound, b: Bound, minEval: Bound, vs: seq<int>, trueMin: int, at: int, bi: int)
  {
    b == BMin(beta, minEval) && Below(alpha, b) &&
    (|vs| == 0 ==> minEval == PosInf) &&
    (|vs| > 0 ==>
      minEval.Finite? && 0 <= bi < |vs| && 0 <= at < |vs| && trueMin == vs[at] && minEval.n <= trueMin &&
      (forall j :: 0 <= j < |vs| ==> trueMin <= vs[j]) &&
      (Below(minEval, beta) ==> trueMin == minEval.n && vs[bi] == minEval.n))
  }

  lemma MinStep(alpha: Bound, beta: Bound, b: Bound, minEval: Bound, vs: seq<int>, trueMin: int, at: int, bi: int, e: int, v: int,
                minEval': Bound, b': Bound, trueMin': int, at': int, bi': int)
    requires MinScan(alpha, beta, b, minEval, vs, trueMin, at, bi) && FailSoft(e, v, alpha, b)
    requires minEval' == (if Below(Finite(e), minEval) then Finite(e) else minEval)
    requires bi' == (if Below(Finite(e), minEval) then |vs| else bi)
    requires (trueMin', at') == (if |vs| == 0 || v < trueMin then (v, |vs|) else (trueMin, at))
    requires b' == BMin(b, Finite(e))
    ensures Below(alpha, b') ==> MinScan(alpha, beta, b', minEval', vs + [v], trueMin', at', bi')
    ensures !Below(alpha, b') ==> minEval' == Finite(e) && Below(Finite(e), beta) && !Below(alpha, Finite(e)) && v <= e
  {
  }

  lemma MinDone(alpha: Bound, beta: Bound, b: Bound, minEval: Bound, vs: seq<int>, trueMin: int, at: int, bi: int, mv: int, k: int)
    requires MinScan(alpha, beta, b, minEval, vs, trueMin, at, bi) && 0 <= k < |vs| && vs[k] == mv && mv <= vs[at]
    ensures minEval.Finite? && FailSoft(minEval.n, mv, alpha, beta)
    ensures Below(alpha, minEval) && Below(minEval, beta) ==> vs[bi] == minEval.n
  {
  }

  /** A maximizing loop stopped by a cutoff at child `i`: its score is a fail-high bound of the minimax value. */
  lemma MaxCutoff(g: Board, depth: nat, player: int, moves: seq<(int, int, int)>, vs: seq<int>, i: int,
                  alpha: Bound, beta: Bound, e: int)
    requires ValuesMatch(g, depth, true, player, moves, vs) && 0 <= i < |vs|
    requires !GameOver(g) && AllMoves(g, player, moves)
    requires e <= vs[i] && Below(alpha, Finite(e)) && !Below(Finite(e), beta)
    ensures FailSoft(e, MinimaxValue(g, depth, true, player), alpha, beta)
  {
    ValueDominated(g, depth, true, player, moves, vs, i);
  }

  /** A maximizing loop that searched every child: its score is fail-soft, and exact at child `bi` inside the window. */
  lemma MaxFinish(g: Board, depth: nat, player: int, moves: seq<(int, int, int)>, vs: seq<int>,
                  alpha: Bound, beta: Bound, a: Bound, maxEval: Bound, trueMax: int, at: int, bi: int)
    requires ValuesMatch(g, depth, true, player, moves, vs) && |vs| == |moves| > 0
    requires !GameOver(g) && AllMoves(g, player, moves)
    requires MaxScan(alpha, beta, a, maxEval, vs, trueMax, at, bi)
    ensures maxEval.Finite? && 0 <= bi < |moves| && FailSoft(maxEval.n, MinimaxValue(g, depth, true, player), alpha, beta)
    ensures Below(alpha, maxEval) && Below(maxEval, beta) ==> ChildValue(g, moves[bi], depth, true, player) == maxEval.n
  {
    var k := ValueAttained(g, depth, true, player, moves, vs);
    ValueDominated(g, depth, true, player, moves, vs, at);
    ValuesMatchAt(g, depth, true, player, moves, vs, bi);
    MaxDone(alpha, beta, a, maxEval, vs, trueMax, at, bi, MinimaxValue(g, depth, true, player), k);
  }

  /** A minimizing loop stopped by a cutoff at child `i`: its score is a fail-low bound of the minimax value. */
  lemma MinCutoff(g: Board, depth: nat, player: int, moves: seq<(int, int, int)>, vs: seq<int>, i: int,
                  alpha: Bound, beta: Bound, e: int)
    requires ValuesMatch(g, depth, false, player, moves, vs) && 0 <= i < |vs|
    requires !GameOver(g) && AllMoves(g, Opponent(player), moves)
    requires vs[i] <= e && Below(Finite(e), beta) && !Below(alpha, Finite(e))
    ensures FailSoft(e, MinimaxValue(g, depth, false, player), alpha, beta)
  {
    ValueDominated(g, depth, false, player, moves, vs, i);
  }

  /** A minimizing loop that searched every child: its score is fail-soft, and exact at child `bi` inside the window. */
  lemma MinFinish(g: Board, depth: nat, player: int, moves: seq<(int, int, int)>, vs: seq<int>,
                  alpha: Bound, beta: Bound, b: Bound, minEval: Bound, trueMin: int, at: int, bi: int)
    requires ValuesMatch(g, depth, false, player, moves, vs) && |vs| == |moves| > 0
    requires !GameOver(g) && AllMoves(g, Opponent(player), moves)
    requires MinScan(alpha, beta, b, minEval, vs, trueMin, at, bi)
    ensures minEval.Finite? && 0 <= bi < |moves| && FailSoft(minEval.n, MinimaxValue(g, depth, false, player), alpha, beta)
    ensures Below(alpha, minEval) && Below(minEval, beta) ==> ChildValue(g, moves[bi], depth, false, player) == minEval.n
  {
    var k := ValueAttained(g, depth, false, player, moves, vs);
    ValueDominated(g, depth, false, player, moves, vs, at);
    ValuesMatchAt(g, depth, false, player, moves, vs, bi);
    MinDone(alpha, beta, b, minEval, vs, trueMin, at, bi, MinimaxValue(g, depth, false, player), k);
  }

  class SequenciumAI {
    var maxDepth: int
    var nodesEvaluated: int

    /** `__init__(max_depth)`. */
    constructor (depth: int)
      ensures maxDepth == depth && nodesEvaluated == 0
    {
      maxDepth := depth;
      nodesEvaluated := 0;
    }

    /** `evaluate_position`: 100 times the max-value gap, plus 10 times the cell-count gap, plus the mobility gap. */
    method EvaluatePosition(board: GameBoard, player: int) returns (score: int)
      requires board.Valid() && IsPlayer(player)
      ensures score == Eval(board.board, player)
    {
      var opponent := if player == PlayerA then PlayerB else PlayerA;
      var maxP := board.GetMaxValue(player);
      var maxO := board.GetMaxValue(opponent);
      var maxDiff := maxP - maxO;
      var cellDiff := |board.positions[player]| - |board.positions[opponent]|;
      var movesP := board.GetValidMoves(player);
      var movesO := board.GetValidMoves(opponent);
      var mobilityDiff := |movesP| - |movesO|;
      score := maxDiff * 100 + cellDiff * 10 + mobilityDiff;
    }

    /**
     * `minimax`: the fail-soft alpha-beta value of the position, and the move
     * that reached it when the side to move had one.  Inside the window the
     * move's child has exactly the returned value.
     */
    method Minimax(board: GameBoard, depth: int, alpha: Bound, beta: Bound, maximizing: bool, player: int)
      returns (score: int, best: Option<(int, int, int)>)
      requires board.Valid() && IsPlayer(player) && depth >= 0 && Below(alpha, beta)
      modifies this`nodesEvaluated
      decreases depth, 3
      ensures nodesEvaluated > old(nodesEvaluated)
      ensures FailSoft(score, MinimaxValue(board.board, depth, maximizing, player), alpha, beta)
      ensures alpha == NegInf && beta == PosInf ==> score == MinimaxValue(board.board, depth, maximizing, player)
      ensures depth == 0 || GameOver(board.board) ==> score == Eval(board.board, player) && best == None
      ensures depth > 0 && !GameOver(board.board) && Destinations(board.board, Mover(maximizing, player)) != {} ==>
                best.Some? && LegalMove(board.board, Mover(maximizing, player), best.value) &&
                (Below(alpha, Finite(score)) && Below(Finite(score), beta) ==>
                   ChildValue(board.board, best.value, depth, maximizing, player) == score)
    {
      nodesEvaluated := nodesEvaluated + 1;
      var over := false;
      if depth != 0 {
        over := board.IsGameOver();
      }
      if depth == 0 || over {
        score := EvaluatePosition(board, player);
        return score, None;
      }
      score, best := SearchMoves(board, depth, alpha, beta, maximizing, player);
    }

    /**
     * The non-terminal part of `minimax`: pass the turn when the side to move
     * has no move, otherwise search its moves in the direction it prefers.
     */
    method SearchMoves(board: GameBoard, depth: int, alpha: Bound, beta: Bound, maximizing: bool, player: int)
      returns (score: int, best: Option<(int, int, int)>)
      requires board.Valid() && IsPlayer(player) && depth >= 1 && Below(alpha, beta) && !GameOver(board.board)
      modifies this`nodesEvaluated
      decreases depth, 2
      ensures nodesEvaluated >= old(nodesEvaluated)
      ensures FailSoft(score, MinimaxValue(board.board, depth, maximizing, player), alpha, beta)
      ensures Destinations(board.board, Mover(maximizing, player)) != {} ==>
                best.Some? && LegalMove(board.board, Mover(maximizing, player), best.value) &&
                (Below(alpha, Finite(score)) && Below(Finite(score), beta) ==>
                   ChildValue(board.board, best.value, depth, maximizing, player) == score)
    {
      var current := Mover(maximizing, player);
      var moves := board.GetValidMoves(current);
      if |moves| == 0 {
        score, best := Minimax(board, depth - 1, alpha, beta, !maximizing, player);
        return;
      }
      var move;
      if maximizing {
        score, move := SearchMax(board, depth, alpha, beta, player, moves);
      } else {
        score, move := SearchMin(board, depth, alpha, beta, player, moves);
      }
      best := Some(move);
    }

    /**
     * One iteration's child: copy the board, play move `i` for the side to
     * move, search one ply shallower.  `v` is that child's minimax value.
     */
    method PlayChild(board: GameBoard, moves: seq<(int, int, int)>, i: int, depth: int, alpha: Bound, beta: Bound,
                     maximizing: bool, player: int, ghost vs: seq<int>)
      returns (s: int, ghost v: int)
      requires board.Valid() && IsPlayer(player) && depth >= 1 && Below(alpha, beta)
      requires AllMoves(board.board, Mover(maximizing, player), moves) && 0 <= i < |moves|
      requires ValuesMatch(board.board, depth, maximizing, player, moves, vs) && |vs| == i
      modifies this`nodesEvaluated
      decreases depth, 0
      ensures nodesEvaluated > old(nodesEvaluated)
      ensures ValuesMatch(board.board, depth, maximizing, player, moves, vs + [v])
      ensures FailSoft(s, v, alpha, beta)
    {
      ghost var g := board.board;
      var move := moves[i];
      assert move in moves;
      var child := board.Copy();
      var ok := child.MakeMove(move.0, move.1, Mover(maximizing, player), move.2);
      assert child.board == Play(g, move, Mover(maximizing, player));
      v := ChildValue(g, move, depth, maximizing, player);
      assert v == MinimaxValue(child.board, depth - 1, !maximizing, player);
      ValuesExtend(g, depth, maximizing, player, moves, vs, v);
      var childBest;
      s, childBest := Minimax(child, depth - 1, alpha, beta, !maximizing, player);
    }

    /** The maximizing branch of `minimax`: raise `alpha` child by child, stop once it reaches `beta`. */
    method SearchMax(board: GameBoard, depth: int, alpha: Bound, beta: Bound, player: int, moves: seq<(int, int, int)>)
      returns (score: int, best: (int, int, int))
      requires board.Valid() && IsPlayer(player) && depth >= 1 && Below(alpha, beta) && !GameOver(board.board)
      requires |moves| > 0 && AllMoves(board.board, player, moves)
      modifies this`nodesEvaluated
      decreases depth, 1
      ensures nodesEvaluated > old(nodesEvaluated)
      ensures FailSoft(score, MinimaxValue(board.board, depth, true, player), alpha, beta)
      ensures best in moves
      ensures Below(alpha, Finite(score)) && Below(Finite(score), beta) ==> ChildValue(board.board, best, depth, true, player) == score
    {
      ghost var g := board.board;
      var maxEval: Bound := NegInf;
      var bestMove: Option<(int, int, int)> := None;
      var a := alpha;
      ghost var vs: seq<int> := [];
      ghost var trueMax, at, bi := 0, 0, 0;
      var i := 0;
      while i < |moves|
        invariant 0 <= i <= |moves| && |vs| == i
        invariant ValuesMatch(g, depth, true, player, moves, vs)
        invariant MaxScan(alpha, beta, a, maxEval, vs, trueMax, at, bi)
        invariant i == 0 ==> bestMove == None && nodesEvaluated == old(nodesEvaluated)
        invariant i > 0 ==> bestMove == Some(moves[bi]) && nodesEvaluated > old(nodesEvaluated)
      {
        var evalScore;
        ghost var v;
        evalScore, v := PlayChild(board, moves, i, depth, a, beta, true, player, vs);
        ghost var vs0, maxEval0, a0, trueMax0, at0, bi0 := vs, maxEval, a, trueMax, at, bi;
        vs := vs + [v];
        if Below(maxEval, Finite(evalScore)) {
          maxEval := Finite(evalScore);
          bestMove := Some(moves[i]);
          bi := i;
        }
        if i == 0 || v > trueMax {
          trueMax, at := v, i;
        }
        a := BMax(a, Finite(evalScore));
        MaxStep(alpha, beta, a0, maxEval0, vs0, trueMax0, at0, bi0, evalScore, v, maxEval, a, trueMax, at, bi);
        if !Below(a, beta) {
          MaxCutoff(g, depth, player, moves, vs, i, alpha, beta, evalScore);
          return maxEval.n, bestMove.value;
        }
        i := i + 1;
      }
      MaxFinish(g, depth, player, moves, vs, alpha, beta, a, maxEval, trueMax, at, bi);
      return maxEval.n, bestMove.value;
    }

    /** The minimizing branch of `minimax`: lower `beta` child by child, stop once it reaches `alpha`. */
    method SearchMin(board: GameBoard, depth: int, alpha: Bound, beta: Bound, player: int, moves: seq<(int, int, int)>)
      returns (score: int, best: (int, int, int))
      requires board.Valid() && IsPlayer(player) && depth >= 1 && Below(alpha, beta) && !GameOver(board.board)
      requires |moves| > 0 && AllMoves(board.board, Opponent(player), moves)
      modifies this`nodesEvaluated
      decreases depth, 1
      ensures nodesEvaluated > old(nodesEvaluated)
      ensures FailSoft(score, MinimaxValue(board.board, depth, false, player), alpha, beta)
      ensures best in moves
      ensures Below(alpha, Finite(score)) && Below(Finite(score), beta) ==> ChildValue(board.board, best, depth, false, player) == score
    {
      ghost var g := board.board;
      var minEval: Bound := PosInf;
      var bestMove: Option<(int, int, int)> := None;
      var b := beta;
      ghost var vs: seq<int> := [];
      ghost var trueMin, at, bi := 0, 0, 0;
      var i := 0;
      while i < |moves|
        invariant 0 <= i <= |moves| && |vs| == i
        invariant ValuesMatch(g, depth, false, player, moves, vs)
        invariant MinScan(alpha, beta, b, minEval, vs, trueMin, at, bi)
        invariant i == 0 ==> bestMove == None && nodesEvaluated == old(nodesEvaluated)
        invariant i > 0 ==> bestMove == Some(moves[bi]) && nodesEvaluated > old(nodesEvaluated)
      {
        var evalScore;
        ghost var v;
        evalScore, v := PlayChild(board, moves, i, depth, alpha, b, false, player, vs);
        ghost var vs0, minEval0, b0, trueMin0, at0, bi0 := vs, minEval, b, trueMin, at, bi;
        vs := vs + [v];
        if Below(Finite(evalScore), minEval) {
          minEval := Finite(evalScore);
          bestMove := Some(moves[i]);
          bi := i;
        }
        if i == 0 || v < trueMin {
          trueMin, at := v, i;
        }
        b := BMin(b, Finite(evalScore));
        MinStep(alpha, beta, b0, minEval0, vs0, trueMin0, at0, bi0, evalScore, v, minEval, b, trueMin, at, bi);
        if !Below(alpha, b) {
          MinCutoff(g, depth, player, moves, vs, i, alpha, beta, evalScore);
          return minEval.n, bestMove.value;
        }
        i := i + 1;
      }
      MinFinish(g, depth, player, moves, vs, alpha, beta, b, minEval, trueMin, at, bi);
      return minEval.n, bestMove.value;
    }

    /**
     * `get_best_move`: nothing when `player` has no move or the depth is 0;
     * otherwise a legal move whose child has the position's minimax value,
     * that is, a best move of the plain minimax search.
     */
    method GetBestMove(board: GameBoard, player: int) returns (move: Option<(int, int, int)>)
      requires board.Valid() && IsPlayer(player) && maxDepth >= 0
      modifies this`nodesEvaluated
      ensures move.None? <==> Destinations(board.board, player) == {} || maxDepth == 0
      ensures move.Some? ==> LegalMove(board.board, player, move.value)
      ensures move.Some? ==> ChildValue(board.board, move.value, maxDepth, true, player) == MinimaxValue(board.board, maxDepth, true, player)
      ensures Destinations(board.board, player) == {} <==> nodesEvaluated == 0
    {
      nodesEvaluated := 0;
      var validMoves := board.GetValidMoves(player);
      if |validMoves| == 0 {
        return None;
      }
      assert validMoves[0] in validMoves;
      assert (validMoves[0].0, validMoves[0].1) in Destinations(board.board, player);
      var score, best := Minimax(board, maxDepth, NegInf, PosInf, true, player);
      return best;
    }
  }
}

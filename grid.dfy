/**
 * The C++ engine's board seen as a value: a square sequence of rows of cell
 * codes (row-major, as `BoardState::board` is scanned).  The scans of the
 * engine, running maximum, cell count, frontier, hash and evaluation, are
 * given here as functions, and the methods of the engine are proved against
 * them.
 */
module Grid {
  import opened Encoding
  import opened Collections

  type Rows = seq<seq<int>>

  /** 2^64: the engine's hash is an unsigned 64-bit integer. */
  const U64: int := 0x1_0000_0000_0000_0000

  predicate Square(g: Rows)
  {
    forall i :: 0 <= i < |g| ==> |g[i]| == |g|
  }

  predicate InBounds(n: int, r: int, c: int)
  {
    0 <= r < n && 0 <= c < n
  }

  /** 8-adjacency: distinct cells at most one step apart in both directions. */
  predicate Adjacent(a: int, b: int, r: int, c: int)
  {
    (a != r || b != c) && -1 <= a - r <= 1 && -1 <= b - c <= 1
  }

  /** (a, b) comes strictly before (i, j) in the row-major scan. */
  predicate RowMajorBefore(a: int, b: int, i: int, j: int)
  {
    a < i || (a == i && b < j)
  }

  function Max(x: int, y: int): int
  {
    if x >= y then x else y
  }

  /** Cell (a, b) is on the board and the scans count it as `p`'s. */
  predicate Owns(g: Rows, p: int, a: int, b: int)
  {
    0 <= a < |g| && 0 <= b < |g[a]| && Owned(g[a][b], p)
  }

  predicate IsEmptyCell(g: Rows, r: int, c: int)
  {
    0 <= r < |g| && 0 <= c < |g| && c < |g[r]| && g[r][c] == 0
  }

  /** An empty cell 8-adjacent to a cell of `p`: a destination of the move scan. */
  ghost predicate Frontier(g: Rows, p: int, r: int, c: int)
  {
    IsEmptyCell(g, r, c) && exists a, b :: Owns(g, p, a, b) && Adjacent(a, b, r, c)
  }

  /** (a, b) is the first cell of `p`, in row-major order, that is adjacent to (r, c). */
  ghost predicate FirstOwner(g: Rows, p: int, a: int, b: int, r: int, c: int)
  {
    Owns(g, p, a, b) && Adjacent(a, b, r, c) &&
    forall a', b' {:trigger Adjacent(a', b', r, c)} :: Owns(g, p, a', b') && Adjacent(a', b', r, c) ==> !RowMajorBefore(a', b', a, b)
  }

  /** The destinations of `p`: every empty cell next to one of `p`'s cells. */
  ghost function FrontierSet(g: Rows, p: int): set<(int, int)>
  {
    set r, c | 0 <= r < |g| && 0 <= c < |g| && Frontier(g, p, r, c) :: (r, c)
  }

  /** The engine's mobility: how many distinct destinations `p` has. */
  ghost function Mobility(g: Rows, p: int): nat
  {
    |FrontierSet(g, p)|
  }

  /** What one cell adds to the running maximum of `p` in the scan of `unmake_move`. */
  function Contribution(code: int, p: int): int
  {
    if Owned(code, p) then CellValue(code) else 0
  }

  function RowMax(row: seq<int>, p: int): int
  {
    if row == [] then 0 else Max(RowMax(row[..|row| - 1], p), Contribution(row[|row| - 1], p))
  }

  /** The recomputed `player_max_values[p]`: the scan maximum, starting from 0. */
  function GridMax(g: Rows, p: int): int
  {
    if g == [] then 0 else Max(GridMax(g[..|g| - 1], p), RowMax(g[|g| - 1], p))
  }

  function RowCount(row: seq<int>, p: int): nat
  {
    if row == [] then 0 else RowCount(row[..|row| - 1], p) + (if Owned(row[|row| - 1], p) then 1 else 0)
  }

  /** The number of cells counted as `p`'s by `evaluate`. */
  function CellCount(g: Rows, p: int): nat
  {
    if g == [] then 0 else CellCount(g[..|g| - 1], p) + RowCount(g[|g| - 1], p)
  }

  /** One step of the polynomial hash, computed in uint64 arithmetic. */
  function HashStep(h: int, code: int): int
  {
    (h * 131 + code) % U64
  }

  function HashRow(h: int, row: seq<int>): int
  {
    if row == [] then h else HashStep(HashRow(h, row[..|row| - 1]), row[|row| - 1])
  }

  /** `BoardState::hash`: h = h * 131 + cell over the cells in row-major order, mod 2^64. */
  function HashGrid(g: Rows): int
  {
    if g == [] then 0 else HashRow(HashGrid(g[..|g| - 1]), g[|g| - 1])
  }

  /** Every cell is a code the engine can write, with values at most `bound`. */
  predicate Fits(g: Rows, bound: int)
  {
    forall a, b :: 0 <= a < |g| && 0 <= b < |g[a]| ==> ValidCode(g[a][b], bound)
  }

  /** `player_max_values` agrees with a full scan for both players. */
  predicate MaxConsistent(g: Rows, maxv: seq<int>)
  {
    |maxv| == 3 && maxv[PlayerA] == GridMax(g, PlayerA) && maxv[PlayerB] == GridMax(g, PlayerB)
  }

  /** The board after writing `code` into cell (r, c). */
  function Place(g: Rows, r: int, c: int, code: int): (g': Rows)
    requires 0 <= r < |g| && 0 <= c < |g[r]|
    ensures |g'| == |g| && (forall a :: 0 <= a < |g| ==> |g'[a]| == |g[a]|) && g'[r][c] == code
    ensures forall a, b :: 0 <= a < |g| && 0 <= b < |g[a]| && (a != r || b != c) ==> g'[a][b] == g[a][b]
  {
    g[r := g[r][c := code]]
  }

  /** `evaluate`: max-value gap, then cell-count gap, then mobility gap, with weights 100, 10 and 1. */
  ghost function Score(g: Rows, maxv: seq<int>, p: int): int
    requires |maxv| == 3 && IsPlayer(p)
  {
    var o := Opponent(p);
    100 * (maxv[p] - maxv[o]) + 10 * (CellCount(g, p) - CellCount(g, o)) + (Mobility(g, p) - Mobility(g, o))
  }

  // ---------------------------------------------------------------------
  // Properties of the scans

  lemma {:induction false} RowMaxIsMax(row: seq<int>, p: int)
    ensures RowMax(row, p) >= 0
    ensures forall b :: 0 <= b < |row| && Owned(row[b], p) ==> CellValue(row[b]) <= RowMax(row, p)
    ensures RowMax(row, p) == 0 || exists b :: 0 <= b < |row| && Owned(row[b], p) && CellValue(row[b]) == RowMax(row, p)
  {
    if row != [] {
      var t := row[..|row| - 1];
      RowMaxIsMax(t, p);
      assert forall b :: 0 <= b < |t| ==> row[b] == t[b];
      if RowMax(row, p) != RowMax(t, p) {
        assert RowMax(row, p) == Contribution(row[|row| - 1], p);
      }
    }
  }

  /**
   * `unmake_move`'s recomputed maximum is the largest value among the cells
   * of `p`, and 0 exactly when `p` has no cell of positive value.
   */
  lemma {:induction false} GridMaxIsMax(g: Rows, p: int)
    ensures GridMax(g, p) >= 0
    ensures forall a, b :: Owns(g, p, a, b) ==> CellValue(g[a][b]) <= GridMax(g, p)
    ensures GridMax(g, p) == 0 || exists a, b :: Owns(g, p, a, b) && CellValue(g[a][b]) == GridMax(g, p)
  {
    if g != [] {
      var t := g[..|g| - 1];
      var last := g[|g| - 1];
      GridMaxIsMax(t, p);
      RowMaxIsMax(last, p);
      assert forall a :: 0 <= a < |t| ==> g[a] == t[a];
      forall a, b | Owns(g, p, a, b) ensures CellValue(g[a][b]) <= GridMax(g, p) {
        if a < |t| {
          assert Owns(t, p, a, b);
        }
      }
      if GridMax(g, p) != 0 {
        if GridMax(g, p) == GridMax(t, p) {
          var a, b :| Owns(t, p, a, b) && CellValue(t[a][b]) == GridMax(t, p);
          assert Owns(g, p, a, b);
        } else {
          var b :| 0 <= b < |last| && Owned(last[b], p) && CellValue(last[b]) == RowMax(last, p);
          assert Owns(g, p, |g| - 1, b);
        }
      }
    }
  }

  lemma {:induction false} RowMaxAfterSet(row: seq<int>, c: int, code: int, p: int)
    requires 0 <= c < |row| && row[c] == 0
    ensures RowMax(row[c := code], p) == Max(RowMax(row, p), Contribution(code, p))
  {
    var row' := row[c := code];
    var t, t' := row[..|row| - 1], row'[..|row| - 1];
    if c == |row| - 1 {
      assert t' == t;
      RowMaxIsMax(t, p);
    } else {
      assert t' == t[c := code];
      RowMaxAfterSet(t, c, code, p);
    }
  }

  /**
   * Writing `code` into an empty cell raises `p`'s scan maximum to the new
   * value when the code is `p`'s and leaves it alone otherwise.
   */
  lemma {:induction false} GridMaxAfterPlace(g: Rows, r: int, c: int, code: int, p: int)
    requires 0 <= r < |g| && 0 <= c < |g[r]| && g[r][c] == 0
    ensures GridMax(Place(g, r, c, code), p) == Max(GridMax(g, p), Contribution(code, p))
  {
    var g' := Place(g, r, c, code);
    var t, t' := g[..|g| - 1], g'[..|g| - 1];
    GridMaxIsMax(t, p);
    RowMaxIsMax(g[|g| - 1], p);
    if r == |g| - 1 {
      assert t' == t;
      RowMaxAfterSet(g[r], c, code, p);
    } else {
      assert t' == Place(t, r, c, code);
      GridMaxAfterPlace(t, r, c, code, p);
    }
  }

  /** Clearing a cell that was just written gives the board back. */
  lemma PlaceThenClear(g: Rows, r: int, c: int, code: int)
    requires 0 <= r < |g| && 0 <= c < |g[r]| && g[r][c] == 0
    ensures Place(Place(g, r, c, code), r, c, 0) == g
  {
    assert Place(g, r, c, code)[r][c := 0] == g[r];
  }

  /**
   * `make_move` on an empty cell keeps `player_max_values` in step with the
   * board: the mover's maximum becomes the larger of the old maximum and the
   * new value, and the other player's is unchanged.
   */
  lemma PlaceKeepsMaxConsistent(g: Rows, maxv: seq<int>, r: int, c: int, p: int, v: int)
    requires MaxConsistent(g, maxv) && IsPlayer(p) && 0 <= v <= MaxValue
    requires 0 <= r < |g| && 0 <= c < |g[r]| && g[r][c] == 0
    ensures MaxConsistent(Place(g, r, c, Code(p, v)),
                          maxv[p := if v > maxv[p] then v else maxv[p]])
  {
    var g' := Place(g, r, c, Code(p, v));
    var m := maxv[p := if v > maxv[p] then v else maxv[p]];
    DecodeCode(p, v);
    GridMaxAfterPlace(g, r, c, Code(p, v), PlayerA);
    GridMaxAfterPlace(g, r, c, Code(p, v), PlayerB);
    assert Contribution(Code(p, v), p) == v;
    assert Contribution(Code(p, v), Opponent(p)) == 0;
    assert m[p] == GridMax(g', p);
    assert m[Opponent(p)] == GridMax(g', Opponent(p));
  }

  lemma FitsWeaken(g: Rows, k: int, k': int)
    requires Fits(g, k) && k <= k' <= MaxValue
    ensures Fits(g, k')
  {
  }

  /** Writing a valid code into a fitting board keeps it fitting. */
  lemma FitsAfterPlace(g: Rows, r: int, c: int, p: int, v: int, bound: int)
    requires Fits(g, bound) && IsPlayer(p) && 1 <= v <= bound <= MaxValue
    requires 0 <= r < |g| && 0 <= c < |g[r]|
    ensures Fits(Place(g, r, c, Code(p, v)), bound)
  {
    DecodeCode(p, v);
  }

  /** The hash is an unsigned 64-bit value. */
  lemma {:induction false} HashInRange(g: Rows)
    ensures 0 <= HashGrid(g) < U64
  {
    if g != [] {
      HashInRange(g[..|g| - 1]);
      HashRowInRange(HashGrid(g[..|g| - 1]), g[|g| - 1]);
    }
  }

  lemma {:induction false} HashRowInRange(h: int, row: seq<int>)
    requires 0 <= h < U64
    ensures 0 <= HashRow(h, row) < U64
  {
    if row != [] {
      HashRowInRange(h, row[..|row| - 1]);
    }
  }

  /**
   * The evaluation is antisymmetric: each of its three terms is a difference
   * between the two players, so swapping the perspective negates the score.
   */
  lemma ScoreAntisymmetric(g: Rows, maxv: seq<int>, p: int)
    requires |maxv| == 3 && IsPlayer(p)
    ensures Score(g, maxv, Opponent(p)) == -Score(g, maxv, p)
  {
  }

  /** The largest size of `evaluate`: 100 * 99 + 10 * 100 + 100 on a board of at most 10 by 10 cells. */
  const ScoreBound: int := 100 * MaxValue + 11 * MaxBoardSize * MaxBoardSize

  /** A set of cells of row `r` with columns below `j` has at most `j` elements. */
  lemma {:induction false} RowCellsBound(s: set<(int, int)>, r: int, j: nat)
    requires forall x :: x in s ==> x.0 == r && 0 <= x.1 < j
    ensures |s| <= j
  {
    if j == 0 {
      assert s == {};
    } else {
      RowCellsBound(s - {(r, j - 1)}, r, j - 1);
    }
  }

  /** A set of cells in the first `k` rows of an `n`-column board has at most `k * n` elements. */
  lemma {:induction false} CellsBound(s: set<(int, int)>, n: nat, k: nat)
    requires forall x :: x in s ==> 0 <= x.0 < k && 0 <= x.1 < n
    ensures |s| <= k * n
  {
    if k == 0 {
      assert s == {};
    } else {
      var last := set x | x in s && x.0 == k - 1;
      RowCellsBound(last, k - 1, n);
      CellsBound(s - last, n, k - 1);
      assert s == (s - last) + last;
      assert (k - 1) * n + n == k * n;
    }
  }

  lemma {:induction false} RowCountBound(row: seq<int>, p: int)
    ensures RowCount(row, p) <= |row|
  {
    if row != [] {
      RowCountBound(row[..|row| - 1], p);
    }
  }

  lemma {:induction false} CellCountBound(g: Rows, p: int, n: nat)
    requires forall i :: 0 <= i < |g| ==> |g[i]| == n
    ensures CellCount(g, p) <= |g| * n
  {
    if g != [] {
      var t := g[..|g| - 1];
      CellCountBound(t, p, n);
      RowCountBound(g[|g| - 1], p);
      assert CellCount(g, p) <= |t| * n + n;
      assert |t| * n + n == |g| * n;
    }
  }

  /** A scan maximum is a cell value, so it never exceeds 99. */
  lemma GridMaxBound(g: Rows, p: int)
    ensures 0 <= GridMax(g, p) <= MaxValue
  {
    GridMaxIsMax(g, p);
  }

  /**
   * On a board of at most 10 by 10 cells whose max array agrees with a scan,
   * `evaluate` lies within 11000 of zero, far inside the `int` range the
   * search starts its window from.
   */
  lemma ScoreWithin(g: Rows, maxv: seq<int>, p: int)
    requires Square(g) && |g| <= MaxBoardSize && MaxConsistent(g, maxv) && IsPlayer(p)
    ensures -ScoreBound <= Score(g, maxv, p) <= ScoreBound
  {
    var n := |g|;
    var o := Opponent(p);
    SquareAtMost(n);
    GridMaxBound(g, p);
    GridMaxBound(g, o);
    CellCountBound(g, p, n);
    CellCountBound(g, o, n);
    CellsBound(FrontierSet(g, p), n, n);
    CellsBound(FrontierSet(g, o), n, n);
    var dm, dc, dx := maxv[p] - maxv[o], CellCount(g, p) - CellCount(g, o), Mobility(g, p) - Mobility(g, o);
    assert -MaxValue <= dm <= MaxValue && -100 <= dc <= 100 && -100 <= dx <= 100;
    assert Score(g, maxv, p) == 100 * dm + 10 * dc + dx;
  }

  lemma SquareAtMost(n: nat)
    requires n <= MaxBoardSize
    ensures n * n <= MaxBoardSize * MaxBoardSize
  {
    assert n * n <= n * MaxBoardSize;
  }

  /** The first owner of a destination is determined: there is only one. */
  lemma FirstOwnerUnique(g: Rows, p: int, a: int, b: int, a': int, b': int, r: int, c: int)
    requires FirstOwner(g, p, a, b, r, c) && FirstOwner(g, p, a', b', r, c)
    ensures a == a' && b == b'
  {
  }
}

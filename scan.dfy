/**
 * The row-major neighbour scan shared by `generate_moves` and
 * `count_mobility`: cells of the player are visited in row-major order, the
 * eight neighbours of each in row-major order too, and an empty neighbour is
 * taken the first time it is seen.  `Covered` is what the scan has taken
 * before reaching a cell; `MoveList` is what `generate_moves` returns.
 */
module Scan {
  import opened Encoding
  import opened Collections
  import opened Grid
  import opened Moves

  /** (a, b) is a cell of `p` that the scan reaches before (i, j). */
  predicate OwnsBefore(g: Rows, p: int, a: int, b: int, i: int, j: int)
  {
    Owns(g, p, a, b) && RowMajorBefore(a, b, i, j)
  }

  /**
   * An empty cell that some cell of `p` scanned before (i, j) is adjacent
   * to, written out over the eight neighbours of (r, c).
   */
  predicate Covered(g: Rows, p: int, i: int, j: int, r: int, c: int)
  {
    IsEmptyCell(g, r, c) &&
    (OwnsBefore(g, p, r - 1, c - 1, i, j) || OwnsBefore(g, p, r - 1, c, i, j) || OwnsBefore(g, p, r - 1, c + 1, i, j) ||
     OwnsBefore(g, p, r, c - 1, i, j) || OwnsBefore(g, p, r, c + 1, i, j) ||
     OwnsBefore(g, p, r + 1, c - 1, i, j) || OwnsBefore(g, p, r + 1, c, i, j) || OwnsBefore(g, p, r + 1, c + 1, i, j))
  }

  /** `Covered` is the empty cells next to a cell of `p` before (i, j). */
  lemma CoveredMeans(g: Rows, p: int, i: int, j: int, r: int, c: int)
    ensures Covered(g, p, i, j, r, c) <==>
      IsEmptyCell(g, r, c) && exists a, b :: Owns(g, p, a, b) && Adjacent(a, b, r, c) && RowMajorBefore(a, b, i, j)
  {
    if IsEmptyCell(g, r, c) && exists a, b :: Owns(g, p, a, b) && Adjacent(a, b, r, c) && RowMajorBefore(a, b, i, j) {
      var a, b :| Owns(g, p, a, b) && Adjacent(a, b, r, c) && RowMajorBefore(a, b, i, j);
      assert OwnsBefore(g, p, a, b, i, j);
    }
  }

  /** (r, c) is a neighbour of (i, j) whose offset comes before (dr, dc) in the scan of the offsets. */
  predicate NearDone(i: int, j: int, dr: int, dc: int, r: int, c: int)
  {
    Adjacent(i, j, r, c) && (r - i < dr || (r - i == dr && c - j < dc))
  }

  /**
   * The moves taken so far: distinct cells, each empty, each with score 0
   * and one more than the value of its first owner, recorded in `from`.
   */
  ghost predicate Taken(g: Rows, p: int, ms: seq<Move>, from: seq<(int, int)>)
  {
    |from| == |ms| && DistinctCells(ms) &&
    forall k :: 0 <= k < |ms| ==>
      ms[k].score == 0 && FirstOwner(g, p, from[k].0, from[k].1, ms[k].row, ms[k].col) &&
      ms[k].value == CellValue(g[from[k].0][from[k].1]) + 1
  }

  /** A move `generate_moves` can return for `p`: a destination at one more than its first owner's value. */
  ghost predicate Generated(g: Rows, p: int, r: int, c: int, v: int)
  {
    Frontier(g, p, r, c) && exists a, b :: FirstOwner(g, p, a, b, r, c) && v == CellValue(g[a][b]) + 1
  }

  /** What `generate_moves` promises: every destination of `p` once, with its first owner's value plus one, sorted by cell. */
  ghost predicate MoveList(g: Rows, p: int, ms: seq<Move>)
  {
    DistinctCells(ms) && SortedBy(ms, CellOrder) &&
    (forall k :: 0 <= k < |ms| ==> ms[k].score == 0 && Generated(g, p, ms[k].row, ms[k].col, ms[k].value)) &&
    (forall r, c :: Frontier(g, p, r, c) ==> (r, c) in Positions(ms))
  }

  lemma CoveredStep(g: Rows, p: int, i: int, j: int)
    requires Square(g) && 0 <= i < |g| && 0 <= j < |g|
    ensures forall r, c :: Covered(g, p, i, j + 1, r, c) <==>
      Covered(g, p, i, j, r, c) || (Owns(g, p, i, j) && IsEmptyCell(g, r, c) && Adjacent(i, j, r, c))
  {
  }

  lemma CoveredRowEnd(g: Rows, p: int, i: int)
    requires Square(g) && 0 <= i < |g|
    ensures forall r, c :: Covered(g, p, i, |g|, r, c) <==> Covered(g, p, i + 1, 0, r, c)
  {
  }

  lemma CoveredAll(g: Rows, p: int, r: int, c: int)
    ensures Covered(g, p, |g|, 0, r, c) <==> Frontier(g, p, r, c)
  {
    CoveredMeans(g, p, |g|, 0, r, c);
  }

  /** A cell the scan has not yet covered takes (i, j) as its first owner. */
  lemma FirstOwnerAtScan(g: Rows, p: int, i: int, j: int, r: int, c: int)
    requires Owns(g, p, i, j) && Adjacent(i, j, r, c) && IsEmptyCell(g, r, c) && !Covered(g, p, i, j, r, c)
    ensures FirstOwner(g, p, i, j, r, c)
  {
    CoveredMeans(g, p, i, j, r, c);
  }

  /** A list of distinct destinations that names every destination has `Mobility` elements. */
  lemma {:induction false} FrontierCount(g: Rows, p: int, s: seq<(int, int)>)
    requires Distinct(s)
    requires forall k :: 0 <= k < |s| ==> Frontier(g, p, s[k].0, s[k].1)
    requires forall r, c :: Frontier(g, p, r, c) ==> (r, c) in s
    ensures |s| == Mobility(g, p)
  {
    assert Elements(s) == FrontierSet(g, p) by {
      forall x | x in Elements(s) ensures x in FrontierSet(g, p) {
        var k :| 0 <= k < |s| && s[k] == x;
        assert Frontier(g, p, x.0, x.1);
      }
    }
    DistinctCard(s);
  }

  function Positions(ms: seq<Move>): (s: seq<(int, int)>)
    ensures |s| == |ms| && forall k :: 0 <= k < |ms| ==> s[k] == Pos(ms[k])
  {
    seq(|ms|, k requires 0 <= k < |ms| => Pos(ms[k]))
  }

  /** `generate_moves` returns one move per unit of mobility, as `count_mobility` counts them. */
  lemma MoveListLength(g: Rows, p: int, ms: seq<Move>)
    requires MoveList(g, p, ms)
    ensures |ms| == Mobility(g, p)
  {
    var s := Positions(ms);
    forall r, c | Frontier(g, p, r, c) ensures (r, c) in s {
      var k :| 0 <= k < |ms| && Pos(ms[k]) == (r, c);
      assert s[k] == (r, c);
    }
    FrontierCount(g, p, s);
  }

  /** A player without a destination has no move, and one with a destination has one. */
  lemma MoveListEmpty(g: Rows, p: int, ms: seq<Move>)
    requires MoveList(g, p, ms)
    ensures ms == [] <==> FrontierSet(g, p) == {}
  {
    MoveListLength(g, p, ms);
  }

  /** (r, c) has been taken once the scan has tried the offsets before (dr, dc) of (i, j). */
  predicate Reached(g: Rows, p: int, i: int, j: int, dr: int, dc: int, r: int, c: int)
  {
    Covered(g, p, i, j, r, c) || (IsEmptyCell(g, r, c) && NearDone(i, j, dr, dc, r, c))
  }

  /**
   * The state of the scan while the neighbours of (i, j) are being tried,
   * the offsets before (dr, dc) done: the cells of the moves taken are
   * exactly the cells reached.
   */
  ghost predicate Visits(g: Rows, p: int, ms: seq<Move>, i: int, j: int, dr: int, dc: int)
  {
    forall r, c {:trigger Reached(g, p, i, j, dr, dc, r, c)} :: (r, c) in Positions(ms) <==> Reached(g, p, i, j, dr, dc, r, c)
  }

  /** The `visited` array marks exactly the cells of the moves taken. */
  ghost predicate Mirrors(visited: array2<bool>, ms: seq<Move>)
    reads visited
  {
    visited.Length0 == MaxBoardSize && visited.Length1 == MaxBoardSize &&
    forall r, c :: 0 <= r < MaxBoardSize && 0 <= c < MaxBoardSize ==> (visited[r, c] <==> (r, c) in Positions(ms))
  }

  /** The end of one row of offsets is the start of the next. */
  lemma VisitsNextOffsetRow(g: Rows, p: int, ms: seq<Move>, i: int, j: int, dr: int)
    requires Visits(g, p, ms, i, j, dr, 2)
    ensures Visits(g, p, ms, i, j, dr + 1, -1)
  {
    forall r, c ensures (r, c) in Positions(ms) <==> Reached(g, p, i, j, dr + 1, -1, r, c) {
      assert Reached(g, p, i, j, dr, 2, r, c) <==> Reached(g, p, i, j, dr + 1, -1, r, c);
    }
  }

  /** After all eight neighbours of a cell of `p`, the scan moves on to the next cell. */
  lemma VisitsNextCell(g: Rows, p: int, ms: seq<Move>, i: int, j: int)
    requires Square(g) && 0 <= i < |g| && 0 <= j < |g|
    requires Visits(g, p, ms, i, j, 2, -1) && Owns(g, p, i, j)
    ensures Visits(g, p, ms, i, j + 1, -1, -1)
  {
    CoveredStep(g, p, i, j);
    forall r, c ensures (r, c) in Positions(ms) <==> Reached(g, p, i, j + 1, -1, -1, r, c) {
      assert Reached(g, p, i, j, 2, -1, r, c) <==> Reached(g, p, i, j + 1, -1, -1, r, c);
    }
  }

  /** A cell that is not `p`'s adds nothing to the scan. */
  lemma VisitsSkipCell(g: Rows, p: int, ms: seq<Move>, i: int, j: int)
    requires Square(g) && 0 <= i < |g| && 0 <= j < |g|
    requires Visits(g, p, ms, i, j, -1, -1) && !Owns(g, p, i, j)
    ensures Visits(g, p, ms, i, j + 1, -1, -1)
  {
    CoveredStep(g, p, i, j);
    forall r, c ensures (r, c) in Positions(ms) <==> Reached(g, p, i, j + 1, -1, -1, r, c) {
      assert Reached(g, p, i, j, -1, -1, r, c) <==> Reached(g, p, i, j + 1, -1, -1, r, c);
    }
  }

  lemma VisitsNextRow(g: Rows, p: int, ms: seq<Move>, i: int)
    requires Square(g) && 0 <= i < |g|
    requires Visits(g, p, ms, i, |g|, -1, -1)
    ensures Visits(g, p, ms, i + 1, 0, -1, -1)
  {
    CoveredRowEnd(g, p, i);
    forall r, c ensures (r, c) in Positions(ms) <==> Reached(g, p, i + 1, 0, -1, -1, r, c) {
      assert Reached(g, p, i, |g|, -1, -1, r, c) <==> Reached(g, p, i + 1, 0, -1, -1, r, c);
    }
  }

  /**
   * At the end of the scan the moves taken are exactly the destinations of
   * `p`, one each, and there are `Mobility` of them.
   */
  lemma ScanDone(g: Rows, p: int, ms: seq<Move>, from: seq<(int, int)>)
    requires Visits(g, p, ms, |g|, 0, -1, -1) && Taken(g, p, ms, from)
    ensures forall k :: 0 <= k < |ms| ==> Frontier(g, p, ms[k].row, ms[k].col)
    ensures forall r, c :: Frontier(g, p, r, c) ==> exists k :: 0 <= k < |ms| && Pos(ms[k]) == (r, c)
    ensures |ms| == Mobility(g, p)
  {
    var s := Positions(ms);
    forall k | 0 <= k < |ms| ensures Frontier(g, p, ms[k].row, ms[k].col) {
      assert s[k] in s;
      assert Reached(g, p, |g|, 0, -1, -1, ms[k].row, ms[k].col);
      CoveredAll(g, p, ms[k].row, ms[k].col);
    }
    forall r, c | Frontier(g, p, r, c) ensures exists k :: 0 <= k < |ms| && Pos(ms[k]) == (r, c) {
      CoveredAll(g, p, r, c);
      assert Reached(g, p, |g|, 0, -1, -1, r, c);
      assert (r, c) in s;
      var k :| 0 <= k < |s| && s[k] == (r, c);
      assert Pos(ms[k]) == (r, c);
    }
    assert Distinct(s) by {
      forall a, b | 0 <= a < b < |s| ensures s[a] != s[b] {
        assert Pos(ms[a]) != Pos(ms[b]);
      }
    }
    forall r, c | Frontier(g, p, r, c) ensures (r, c) in s {
      CoveredAll(g, p, r, c);
      assert Reached(g, p, |g|, 0, -1, -1, r, c);
    }
    FrontierCount(g, p, s);
  }

  /** Taking a fresh cell from its first owner keeps the move list well formed. */
  lemma TakenAppend(g: Rows, p: int, ms: seq<Move>, from: seq<(int, int)>, a: int, b: int, r: int, c: int)
    requires Taken(g, p, ms, from) && FirstOwner(g, p, a, b, r, c)
    requires forall k :: 0 <= k < |ms| ==> Pos(ms[k]) != (r, c)
    ensures Taken(g, p, ms + [Move(r, c, CellValue(g[a][b]) + 1, 0)], from + [(a, b)])
  {
  }

  /** Sorting the moves of a finished scan by cell gives the promised move list. */
  lemma SortedScanIsMoveList(g: Rows, p: int, raw: seq<Move>, from: seq<(int, int)>, sorted: seq<Move>)
    requires Taken(g, p, raw, from)
    requires forall k :: 0 <= k < |raw| ==> Frontier(g, p, raw[k].row, raw[k].col)
    requires forall r, c :: Frontier(g, p, r, c) ==> exists k :: 0 <= k < |raw| && Pos(raw[k]) == (r, c)
    requires multiset(sorted) == multiset(raw) && SortedBy(sorted, CellOrder)
    ensures MoveList(g, p, sorted)
  {
    DistinctCellsPermutation(raw, sorted);
    forall k | 0 <= k < |sorted|
      ensures sorted[k].score == 0 && Frontier(g, p, sorted[k].row, sorted[k].col) &&
        exists a, b :: FirstOwner(g, p, a, b, sorted[k].row, sorted[k].col) && sorted[k].value == CellValue(g[a][b]) + 1
    {
      assert sorted[k] in multiset(raw);
      var t :| 0 <= t < |raw| && raw[t] == sorted[k];
      assert FirstOwner(g, p, from[t].0, from[t].1, raw[t].row, raw[t].col);
    }
    forall r, c | Frontier(g, p, r, c) ensures (r, c) in Positions(sorted) {
      var t :| 0 <= t < |raw| && Pos(raw[t]) == (r, c);
      assert raw[t] in multiset(sorted);
      var k :| 0 <= k < |sorted| && sorted[k] == raw[t];
      assert Positions(sorted)[k] == (r, c);
    }
  }

  /**
   * Taking the empty, not yet taken neighbour (i + dr, j + dc) of a cell
   * (i, j) of `p` as a move valued one more than (i, j).
   */
  lemma VisitsAfterTake(g: Rows, p: int, ms: seq<Move>, from: seq<(int, int)>, i: int, j: int, dr: int, dc: int)
    requires Owns(g, p, i, j)
    requires -1 <= dr <= 1 && -1 <= dc <= 1 && (dr != 0 || dc != 0)
    requires IsEmptyCell(g, i + dr, j + dc) && (i + dr, j + dc) !in Positions(ms)
    requires Taken(g, p, ms, from) && Visits(g, p, ms, i, j, dr, dc)
    ensures Taken(g, p, ms + [Move(i + dr, j + dc, CellValue(g[i][j]) + 1, 0)], from + [(i, j)])
    ensures Visits(g, p, ms + [Move(i + dr, j + dc, CellValue(g[i][j]) + 1, 0)], i, j, dr, dc + 1)
    ensures Positions(ms + [Move(i + dr, j + dc, CellValue(g[i][j]) + 1, 0)]) == Positions(ms) + [(i + dr, j + dc)]
  {
    var nr, nc := i + dr, j + dc;
    var ms' := ms + [Move(nr, nc, CellValue(g[i][j]) + 1, 0)];
    assert !Reached(g, p, i, j, dr, dc, nr, nc);
    FirstOwnerAtScan(g, p, i, j, nr, nc);
    forall k | 0 <= k < |ms| ensures Pos(ms[k]) != (nr, nc) {
      assert Positions(ms)[k] == Pos(ms[k]);
    }
    TakenAppend(g, p, ms, from, i, j, nr, nc);
    assert Positions(ms') == Positions(ms) + [(nr, nc)];
    forall r, c ensures (r, c) in Positions(ms') <==> Reached(g, p, i, j, dr, dc + 1, r, c) {
      assert NearDone(i, j, dr, dc + 1, r, c) <==> NearDone(i, j, dr, dc, r, c) || (r, c) == (nr, nc);
      assert (r, c) in Positions(ms) <==> Reached(g, p, i, j, dr, dc, r, c);
    }
  }

  /** A neighbour that is off the board, occupied, already taken or (i, j) itself adds nothing. */
  lemma VisitsSkipNeighbour(g: Rows, p: int, ms: seq<Move>, i: int, j: int, dr: int, dc: int)
    requires -1 <= dr <= 1 && -1 <= dc <= 1 && Visits(g, p, ms, i, j, dr, dc)
    requires (dr == 0 && dc == 0) || !IsEmptyCell(g, i + dr, j + dc) || (i + dr, j + dc) in Positions(ms)
    ensures Visits(g, p, ms, i, j, dr, dc + 1)
  {
    forall r, c ensures (r, c) in Positions(ms) <==> Reached(g, p, i, j, dr, dc + 1, r, c) {
      assert NearDone(i, j, dr, dc + 1, r, c) <==> NearDone(i, j, dr, dc, r, c) || ((r, c) == (i + dr, j + dc) && (dr != 0 || dc != 0));
      assert (r, c) in Positions(ms) <==> Reached(g, p, i, j, dr, dc, r, c);
    }
  }

  /** The scan starts with nothing taken. */
  lemma VisitsStart(g: Rows, p: int)
    ensures Visits(g, p, [], 0, 0, -1, -1) && Taken(g, p, [], [])
  {
  }
}

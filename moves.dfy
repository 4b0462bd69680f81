/**
 * The C++ engine's `Move` and the two orderings it sorts moves by: by cell
 * (row, then column, then larger value first) in `generate_moves`, and by
 * descending ordering score in `order_moves`.  `std::sort` is a library call;
 * it is modelled by an insertion sort that is proved to return a sorted
 * permutation of its input, which is all `std::sort` promises.
 */
module Moves {

  datatype Move = Move(row: int, col: int, value: int, score: int)

  /** `Move()`: the default-constructed move, all fields 0. */
  const NoMove: Move := Move(0, 0, 0, 0)

  function Pos(m: Move): (int, int)
  {
    (m.row, m.col)
  }

  /** No two moves share a destination cell. */
  predicate DistinctCells(ms: seq<Move>)
  {
    forall i, j :: 0 <= i < j < |ms| ==> Pos(ms[i]) != Pos(ms[j])
  }

  /** The comparator of the sort in `generate_moves`. */
  predicate CellOrder(a: Move, b: Move)
  {
    a.row < b.row || (a.row == b.row && (a.col < b.col || (a.col == b.col && a.value >= b.value)))
  }

  /** The comparator of the sort in `order_moves`: larger scores first. */
  predicate ScoreOrder(a: Move, b: Move)
  {
    a.score >= b.score
  }

  ghost predicate TotalPreorder(le: (Move, Move) -> bool)
  {
    (forall a, b :: le(a, b) || le(b, a)) &&
    (forall a, b, c :: le(a, b) && le(b, c) ==> le(a, c))
  }

  predicate SortedBy(s: seq<Move>, le: (Move, Move) -> bool)
  {
    forall i, j :: 0 <= i < j < |s| ==> le(s[i], s[j])
  }

  function Insert(x: Move, s: seq<Move>, le: (Move, Move) -> bool): (r: seq<Move>)
    ensures multiset(r) == multiset(s) + multiset{x} && |r| == |s| + 1
  {
    if s == [] then [x]
    else if le(x, s[0]) then [x] + s
    else
      assert s == [s[0]] + s[1..];
      [s[0]] + Insert(x, s[1..], le)
  }

  lemma {:induction false} InsertSorted(x: Move, s: seq<Move>, le: (Move, Move) -> bool)
    requires TotalPreorder(le) && SortedBy(s, le)
    ensures SortedBy(Insert(x, s, le), le)
  {
    if s != [] && !le(x, s[0]) {
      var rest := Insert(x, s[1..], le);
      assert SortedBy(s[1..], le);
      InsertSorted(x, s[1..], le);
      assert le(s[0], x);
      forall k | 0 <= k < |rest| ensures le(s[0], rest[k]) {
        assert rest[k] in multiset(s[1..]) + multiset{x};
        if rest[k] != x {
          assert rest[k] in s[1..];
        }
      }
    }
  }

  /** A sorted permutation of `s` with respect to `le`. */
  function SortBy(s: seq<Move>, le: (Move, Move) -> bool): (r: seq<Move>)
    requires TotalPreorder(le)
    ensures SortedBy(r, le) && multiset(r) == multiset(s) && |r| == |s|
  {
    if s == [] then []
    else
      assert s == [s[0]] + s[1..];
      var rest := SortBy(s[1..], le);
      InsertSorted(s[0], rest, le);
      Insert(s[0], rest, le)
  }

  lemma CellOrderIsTotalPreorder()
    ensures TotalPreorder(CellOrder)
  {
  }

  lemma ScoreOrderIsTotalPreorder()
    ensures TotalPreorder(ScoreOrder)
  {
  }

  /** A move list with distinct cells holds no move twice. */
  lemma {:induction false} DistinctCellsCount(a: seq<Move>, x: Move)
    requires DistinctCells(a)
    ensures multiset(a)[x] <= 1
  {
    if a != [] {
      var a', y := a[..|a| - 1], a[|a| - 1];
      assert a == a' + [y];
      assert DistinctCells(a') by {
        forall i, j | 0 <= i < j < |a'| ensures Pos(a'[i]) != Pos(a'[j]) {
          assert a'[i] == a[i] && a'[j] == a[j];
        }
      }
      DistinctCellsCount(a', x);
      if x == y {
        assert x !in a' by {
          forall i | 0 <= i < |a'| ensures a'[i] != y {
            assert Pos(a[i]) != Pos(a[|a| - 1]);
          }
        }
      }
    }
  }

  /** A value at two indices is counted twice. */
  lemma TwiceCounted(b: seq<Move>, i: int, j: int)
    requires 0 <= i < j < |b| && b[i] == b[j]
    ensures multiset(b)[b[i]] >= 2
  {
    assert b == b[..j] + [b[j]] + b[j + 1..];
    assert b[..j][i] == b[i];
  }

  /** Reordering moves cannot make two of them share a cell. */
  lemma DistinctCellsPermutation(a: seq<Move>, b: seq<Move>)
    requires multiset(a) == multiset(b) && DistinctCells(a)
    ensures DistinctCells(b)
  {
    forall i, j | 0 <= i < j < |b| ensures Pos(b[i]) != Pos(b[j]) {
      assert b[i] != b[j] by {
        DistinctCellsCount(a, b[i]);
        if b[i] == b[j] {
          TwiceCounted(b, i, j);
        }
      }
      assert b[i] in multiset(a) && b[j] in multiset(a);
      var ki :| 0 <= ki < |a| && a[ki] == b[i];
      var kj :| 0 <= kj < |a| && a[kj] == b[j];
      if ki < kj {
        assert Pos(a[ki]) != Pos(a[kj]);
      } else {
        assert Pos(a[kj]) != Pos(a[ki]);
      }
    }
  }

  function Abs(x: int): int
  {
    if x < 0 then -x else x
  }

  /** The ordering score of `order_moves`: value first, then closeness to the centre. */
  function MoveScore(m: Move, size: int): int
  {
    var center := size / 2;
    m.value * 1000 + (size - (Abs(m.row - center) + Abs(m.col - center))) * 10
  }

  /** A move with its ordering score filled in. */
  function Rescored(m: Move, size: int): Move
  {
    m.(score := MoveScore(m, size))
  }

  /** The moves with their ordering scores filled in, as the first loop of `order_moves` leaves them. */
  function Scored(ms: seq<Move>, size: int): (r: seq<Move>)
    ensures |r| == |ms|
    ensures forall k :: 0 <= k < |ms| ==> r[k] == Rescored(ms[k], size)
  {
    seq(|ms|, k requires 0 <= k < |ms| => Rescored(ms[k], size))
  }

  /**
   * A reordering of the scored moves holds only the input moves, each with
   * its ordering score filled in, and no two to the same cell when the input
   * had none.
   */
  lemma ScoredPermutation(ms: seq<Move>, size: int, r: seq<Move>)
    requires multiset(r) == multiset(Scored(ms, size))
    ensures forall k :: 0 <= k < |r| ==>
              exists k' :: 0 <= k' < |ms| && r[k] == Rescored(ms[k'], size)
    ensures DistinctCells(ms) ==> DistinctCells(r)
  {
    var s := Scored(ms, size);
    if DistinctCells(ms) {
      assert DistinctCells(s) by {
        forall i, j | 0 <= i < j < |s| ensures Pos(s[i]) != Pos(s[j]) {
          assert Pos(s[i]) == Pos(ms[i]) && Pos(s[j]) == Pos(ms[j]);
        }
      }
      DistinctCellsPermutation(s, r);
    }
    forall k | 0 <= k < |r|
      ensures exists k' :: 0 <= k' < |ms| && r[k] == Rescored(ms[k'], size)
    {
      assert r[k] in multiset(s);
      var k' :| 0 <= k' < |s| && s[k'] == r[k];
      assert r[k] == Rescored(ms[k'], size);
    }
  }
}

/**
 * `BoardState`: the engine's working board, a fixed 10 x 10 array of cell
 * codes of which the top-left `size` x `size` part is in use, and the
 * per-player running maxima `player_max_values` (index 0 unused).  The ghost
 * field `G` is the board as a value; `Valid()` ties it to the array.
 */
module Board {
  import opened Encoding
  import opened Grid

  /** One cell of the snapshot handed to `find_best_move`: absent, or (player, value). */
  datatype Entry = Absent | Present(player: int, value: int)

  function EntryCode(e: Entry): int
  {
    match e
    case Absent => 0
    case Present(p, v) => Code(p, v)
  }

  predicate WellFormedSnapshot(rows: seq<seq<Entry>>, n: int)
  {
    |rows| == n && (forall i :: 0 <= i < n ==> |rows[i]| == n) &&
    forall i, j :: 0 <= i < n && 0 <= j < |rows[i]| && rows[i][j].Present? ==>
      IsPlayer(rows[i][j].player) && 1 <= rows[i][j].value <= MaxValue
  }

  /** The snapshot as the engine's codes. */
  function EncodeRows(rows: seq<seq<Entry>>, n: int): (g: Rows)
    requires WellFormedSnapshot(rows, n)
    ensures |g| == n && Square(g)
    ensures forall i, j :: 0 <= i < n && 0 <= j < n ==> g[i][j] == EntryCode(rows[i][j])
  {
    seq(n, i requires 0 <= i < n => seq(n, j requires 0 <= j < n => EntryCode(rows[i][j])))
  }

  /** Every value of the snapshot is at most `bound`. */
  predicate ValuesWithin(rows: seq<seq<Entry>>, bound: int)
  {
    forall i, j :: 0 <= i < |rows| && 0 <= j < |rows[i]| && rows[i][j].Present? ==> rows[i][j].value <= bound
  }

  /** The encoded snapshot holds only codes the engine can write, with values up to the snapshot's largest. */
  lemma SnapshotFits(rows: seq<seq<Entry>>, n: int, bound: int)
    requires WellFormedSnapshot(rows, n) && ValuesWithin(rows, bound) && bound <= MaxValue
    ensures Fits(EncodeRows(rows, n), bound)
  {
    var g := EncodeRows(rows, n);
    forall a, b | 0 <= a < |g| && 0 <= b < |g[a]| ensures ValidCode(g[a][b], bound) {
      if rows[a][b].Present? {
        DecodeCode(rows[a][b].player, rows[a][b].value);
      }
    }
  }

  function Zeros(n: nat): (g: Rows)
    ensures |g| == n && Square(g)
    ensures forall i, j :: 0 <= i < n && 0 <= j < n ==> g[i][j] == 0
  {
    seq(n, i => seq(n, j => 0))
  }

  class BoardState {
    var size: int
    const cells: array2<int>
    const maxv: array<int>
    ghost var G: Rows

    ghost predicate Valid()
      reads this, cells
    {
      cells.Length0 == MaxBoardSize && cells.Length1 == MaxBoardSize && maxv.Length == 3 &&
      0 <= size <= MaxBoardSize && |G| == size && Square(G) &&
      forall i, j :: 0 <= i < size && 0 <= j < size ==> cells[i, j] == G[i][j]
    }

    /** `BoardState(int sz)`: an all-empty board of the given size, all maxima 0. */
    constructor (sz: int)
      requires 0 <= sz <= MaxBoardSize
      ensures Valid() && size == sz && G == Zeros(sz) && maxv[..] == [0, 0, 0]
      ensures fresh(cells) && fresh(maxv)
    {
      size := sz;
      cells := new int[MaxBoardSize, MaxBoardSize]((i, j) => 0);
      maxv := new int[3](i => 0);
      G := Zeros(sz);
      new;
      assert maxv[..] == [maxv[0], maxv[1], maxv[2]];
    }

    /** The board of `find_best_move`: a board of the snapshot's size, loaded from the snapshot. */
    constructor FromSnapshot(rows: seq<seq<Entry>>, boardSize: int)
      requires 0 <= boardSize <= MaxBoardSize && WellFormedSnapshot(rows, boardSize)
      ensures Valid() && size == boardSize && G == EncodeRows(rows, boardSize)
      ensures MaxConsistent(G, maxv[..]) && maxv[0] == 0
      ensures fresh(cells) && fresh(maxv)
    {
      size := boardSize;
      cells := new int[MaxBoardSize, MaxBoardSize]((i, j) => 0);
      maxv := new int[3](i => 0);
      G := EncodeRows(rows, boardSize);
      new;
      Load(rows);
    }

    /**
     * The board-building loop of `find_best_move`: every snapshot cell is
     * written as player * 100 + value, and each player's maximum is tracked by
     * comparison as the cells are written, starting from zeroed maxima.
     */
    method Load(rows: seq<seq<Entry>>)
      requires WellFormedSnapshot(rows, size) && 0 <= size <= MaxBoardSize
      requires cells.Length0 == MaxBoardSize && cells.Length1 == MaxBoardSize && maxv.Length == 3
      requires G == EncodeRows(rows, size) && maxv[..] == [0, 0, 0]
      modifies cells, maxv
      ensures Valid() && MaxConsistent(G, maxv[..]) && maxv[0] == 0
    {
      assert maxv[0] == 0 && maxv[1] == 0 && maxv[2] == 0;
      var i := 0;
      while i < size
        invariant 0 <= i <= size
        invariant forall a, b :: 0 <= a < i && 0 <= b < size ==> cells[a, b] == G[a][b]
        invariant maxv[0] == 0 && maxv[PlayerA] >= 0 && maxv[PlayerB] >= 0
        invariant maxv[PlayerA] == GridMax(G[..i], PlayerA) && maxv[PlayerB] == GridMax(G[..i], PlayerB)
      {
        LoadRow(rows, i);
        assert G[..i + 1][..i] == G[..i];
        i := i + 1;
      }
      assert G[..size] == G;
    }

    /** One row of the loop of `Load`. */
    method LoadRow(rows: seq<seq<Entry>>, i: int)
      requires WellFormedSnapshot(rows, size) && 0 <= i < size <= MaxBoardSize
      requires cells.Length0 == MaxBoardSize && cells.Length1 == MaxBoardSize && maxv.Length == 3
      requires G == EncodeRows(rows, size) && maxv[PlayerA] >= 0 && maxv[PlayerB] >= 0
      modifies cells, maxv
      ensures forall b :: 0 <= b < size ==> cells[i, b] == G[i][b]
      ensures forall a, b :: 0 <= a < MaxBoardSize && 0 <= b < MaxBoardSize && a != i ==> cells[a, b] == old(cells[a, b])
      ensures maxv[0] == old(maxv[0]) && maxv[PlayerA] >= 0 && maxv[PlayerB] >= 0
      ensures maxv[PlayerA] == Max(old(maxv[PlayerA]), RowMax(G[i], PlayerA))
      ensures maxv[PlayerB] == Max(old(maxv[PlayerB]), RowMax(G[i], PlayerB))
    {
      var j := 0;
      while j < size
        invariant 0 <= j <= size
        invariant forall b :: 0 <= b < j ==> cells[i, b] == G[i][b]
        invariant forall a, b :: 0 <= a < MaxBoardSize && 0 <= b < MaxBoardSize && a != i ==> cells[a, b] == old(cells[a, b])
        invariant maxv[0] == old(maxv[0]) && maxv[PlayerA] >= 0 && maxv[PlayerB] >= 0
        invariant maxv[PlayerA] == Max(old(maxv[PlayerA]), RowMax(G[i][..j], PlayerA))
        invariant maxv[PlayerB] == Max(old(maxv[PlayerB]), RowMax(G[i][..j], PlayerB))
      {
        assert G[i][..j + 1][..j] == G[i][..j];
        LoadCell(rows[i][j], i, j);
        j := j + 1;
      }
      assert G[i][..size] == G[i];
    }

    /** One step of the loop of `Load`: write cell (i, j) and raise its owner's maximum. */
    method LoadCell(entry: Entry, i: int, j: int)
      requires 0 <= i < MaxBoardSize && 0 <= j < MaxBoardSize
      requires cells.Length0 == MaxBoardSize && cells.Length1 == MaxBoardSize && maxv.Length == 3
      requires entry.Present? ==> IsPlayer(entry.player) && 1 <= entry.value <= MaxValue
      requires maxv[PlayerA] >= 0 && maxv[PlayerB] >= 0
      modifies cells, maxv
      ensures cells[i, j] == EntryCode(entry)
      ensures forall a, b :: 0 <= a < MaxBoardSize && 0 <= b < MaxBoardSize && (a != i || b != j) ==> cells[a, b] == old(cells[a, b])
      ensures maxv[0] == old(maxv[0])
      ensures forall p :: IsPlayer(p) ==> maxv[p] == Max(old(maxv[p]), Contribution(EntryCode(entry), p))
      ensures maxv[PlayerA] >= 0 && maxv[PlayerB] >= 0
    {
      if entry.Absent? {
        cells[i, j] := 0;
      } else {
        var playerId, value := entry.player, entry.value;
        DecodeCode(playerId, value);
        cells[i, j] := playerId * 100 + value;
        if value > maxv[playerId] {
          maxv[playerId] := value;
        }
      }
    }

    /** `BoardState::hash`. */
    method Hash() returns (h: int)
      requires Valid()
      ensures h == HashGrid(G) && 0 <= h < U64
    {
      HashInRange(G);
      h := 0;
      var i := 0;
      while i < size
        invariant 0 <= i <= size
        invariant h == HashGrid(G[..i])
      {
        var j := 0;
        while j < size
          invariant 0 <= j <= size
          invariant h == HashRow(HashGrid(G[..i]), G[i][..j])
        {
          assert G[i][..j + 1][..j] == G[i][..j];
          h := (h * 131 + cells[i, j]) % U64;
          j := j + 1;
        }
        assert G[i][..size] == G[i];
        assert G[..i + 1][..i] == G[..i];
        i := i + 1;
      }
      assert G[..size] == G;
    }

    /** `BoardState::copy_from`: size, the whole cell array and the maxima are copied. */
    method CopyFrom(other: BoardState)
      requires Valid() && other.Valid()
      modifies this, cells, maxv
      ensures Valid() && size == old(other.size) && G == old(other.G)
      ensures forall i, j :: 0 <= i < MaxBoardSize && 0 <= j < MaxBoardSize ==> cells[i, j] == old(other.cells[i, j])
      ensures maxv[..] == old(other.maxv[..])
    {
      size := other.size;
      G := other.G;
      forall i, j | 0 <= i < MaxBoardSize && 0 <= j < MaxBoardSize {
        cells[i, j] := other.cells[i, j];
      }
      forall i | 0 <= i < 3 {
        maxv[i] := other.maxv[i];
      }
    }
  }
}

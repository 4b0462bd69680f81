/**
 * The C++ engine's transposition table: a fixed number of slots indexed by
 * `hash % table_size`, one entry per slot, replaced when the slot is empty
 * (stored hash 0) or the new entry was searched at least as deep.  A probe
 * hits when the slot holds the same hash at least as deep as asked; the
 * bound flag is stored but never consulted.
 */
module TTable {
  import opened Collections
  import opened Moves

  /** The `flag` values written by `minimax`. */
  const Exact: int := 0
  const LowerBound: int := 1
  const UpperBound: int := 2

  /** `TranspositionTable(size_t size = 1048576)`. */
  const DefaultSize: int := 1048576

  datatype TTEntry = TTEntry(hash: int, depth: int, score: int, flag: int, bestMove: Move)

  /** `TTEntry()`: a default-constructed, empty slot. */
  const EmptyEntry: TTEntry := TTEntry(0, 0, 0, 0, NoMove)

  predicate AllEmpty(t: seq<TTEntry>)
  {
    forall k :: 0 <= k < |t| ==> t[k] == EmptyEntry
  }

  /** The slot a hash lives in. */
  function Slot(hash: int, n: int): (k: int)
    requires hash >= 0 && n > 0
    ensures 0 <= k < n
  {
    hash % n
  }

  /** The replacement rule of `store`: the slot is empty or the new search is at least as deep. */
  predicate Replaces(e: TTEntry, depth: int)
  {
    e.hash == 0 || depth >= e.depth
  }

  /** The table after `store`. */
  function StoreSpec(t: seq<TTEntry>, hash: int, depth: int, score: int, flag: int, move: Move): (t': seq<TTEntry>)
    requires |t| > 0 && hash >= 0
    ensures |t'| == |t|
    ensures forall k :: 0 <= k < |t| && k != Slot(hash, |t|) ==> t'[k] == t[k]
  {
    var k := Slot(hash, |t|);
    if Replaces(t[k], depth) then t[k := TTEntry(hash, depth, score, flag, move)] else t
  }

  /** The answer of `probe`: the stored score and move, or nothing. */
  function ProbeSpec(t: seq<TTEntry>, hash: int, depth: int): Option<(int, Move)>
    requires |t| > 0 && hash >= 0
  {
    var e := t[Slot(hash, |t|)];
    if e.hash == hash && e.depth >= depth then Some((e.score, e.bestMove)) else None
  }

  /** Every stored score lies within `bound` of zero. */
  predicate ScoresWithin(t: seq<TTEntry>, bound: int)
  {
    forall k :: 0 <= k < |t| ==> -bound <= t[k].score <= bound
  }

  /**
   * A store that replaces its slot is answered by every later probe of the
   * same hash at that depth or shallower, with the stored score and move,
   * whatever flag was stored with them.
   */
  lemma StoreThenProbe(t: seq<TTEntry>, hash: int, depth: int, score: int, flag: int, move: Move, depth': int)
    requires |t| > 0 && hash >= 0 && Replaces(t[Slot(hash, |t|)], depth) && depth' <= depth
    ensures ProbeSpec(StoreSpec(t, hash, depth, score, flag, move), hash, depth') == Some((score, move))
  {
  }

  /** A store that does not replace leaves the whole table as it was. */
  lemma StoreKeepsDeeper(t: seq<TTEntry>, hash: int, depth: int, score: int, flag: int, move: Move)
    requires |t| > 0 && hash >= 0 && !Replaces(t[Slot(hash, |t|)], depth)
    ensures StoreSpec(t, hash, depth, score, flag, move) == t
    ensures t[Slot(hash, |t|)].hash != 0 && t[Slot(hash, |t|)].depth > depth
  {
  }

  /** Storing into a slot never hides the entries of other slots from their probes. */
  lemma StoreKeepsOtherProbes(t: seq<TTEntry>, hash: int, depth: int, score: int, flag: int, move: Move, h: int, d: int)
    requires |t| > 0 && hash >= 0 && h >= 0 && Slot(h, |t|) != Slot(hash, |t|)
    ensures ProbeSpec(StoreSpec(t, hash, depth, score, flag, move), h, d) == ProbeSpec(t, h, d)
  {
  }

  /**
   * An empty table misses every probe except one for hash 0 at depth 0 or
   * less, which the default entries (hash 0, depth 0, score 0) answer.
   */
  lemma EmptyTableProbe(t: seq<TTEntry>, hash: int, depth: int)
    requires |t| > 0 && hash >= 0 && AllEmpty(t)
    ensures ProbeSpec(t, hash, depth).Some? <==> hash == 0 && depth <= 0
    ensures ProbeSpec(t, hash, depth).Some? ==> ProbeSpec(t, hash, depth).value == (0, NoMove)
  {
    assert t[Slot(hash, |t|)] == EmptyEntry;
  }

  /** Storing a score within the bound keeps every stored score within it. */
  lemma StoreKeepsScoresWithin(t: seq<TTEntry>, hash: int, depth: int, score: int, flag: int, move: Move, bound: int)
    requires |t| > 0 && hash >= 0 && ScoresWithin(t, bound) && -bound <= score <= bound
    ensures ScoresWithin(StoreSpec(t, hash, depth, score, flag, move), bound)
  {
  }

  /** A probe that hits returns one of the stored scores. */
  lemma ProbeWithin(t: seq<TTEntry>, hash: int, depth: int, bound: int)
    requires |t| > 0 && hash >= 0 && ScoresWithin(t, bound) && ProbeSpec(t, hash, depth).Some?
    ensures -bound <= ProbeSpec(t, hash, depth).value.0 <= bound
  {
    var k := Slot(hash, |t|);
    assert -bound <= t[k].score <= bound;
  }

  class TranspositionTable {
    var tableSize: int
    var table: array<TTEntry>

    ghost predicate Valid()
      reads this
    {
      tableSize == table.Length && tableSize > 0
    }

    /** `TranspositionTable(size_t size)`: `size` empty slots. */
    constructor (size: int)
      requires size > 0
      ensures Valid() && tableSize == size && AllEmpty(table[..])
      ensures fresh(table)
    {
      tableSize := size;
      table := new TTEntry[size](k => EmptyEntry);
    }

    /** `resize`: `newSize` empty slots; every stored entry is dropped. */
    method Resize(newSize: int)
      requires newSize > 0
      modifies this
      ensures Valid() && tableSize == newSize && AllEmpty(table[..])
      ensures fresh(table)
    {
      tableSize := newSize;
      table := new TTEntry[newSize](k => EmptyEntry);
    }

    /** `store`: depth-preferred replacement of the hash's slot. */
    method Store(hash: int, depth: int, score: int, flag: int, move: Move)
      requires Valid() && hash >= 0
      modifies table
      ensures table[..] == StoreSpec(old(table[..]), hash, depth, score, flag, move)
    {
      var index := hash % tableSize;
      var entry := table[index];
      if entry.hash == 0 || depth >= entry.depth {
        table[index] := TTEntry(hash, depth, score, flag, move);
      }
    }

    /** `probe`: the score and move stored for this hash at this depth or deeper. */
    method Probe(hash: int, depth: int) returns (r: Option<(int, Move)>)
      requires Valid() && hash >= 0
      ensures r == ProbeSpec(table[..], hash, depth)
    {
      var index := hash % tableSize;
      var entry := table[index];
      if entry.hash == hash && entry.depth >= depth {
        return Some((entry.score, entry.bestMove));
      }
      return None;
    }

    /** `clear`: every slot back to the default entry, the size unchanged. */
    method Clear()
      requires Valid()
      modifies table
      ensures AllEmpty(table[..])
    {
      forall k | 0 <= k < table.Length {
        table[k] := EmptyEntry;
      }
    }
  }
}

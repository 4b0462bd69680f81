/**
 * The C++ engine's integer cell encoding: 0 is an empty cell, otherwise a
 * cell holds player * 100 + value.  The engine decodes with C++ `/` and `%`,
 * which truncate toward zero; both are written out here because Dafny's
 * operators are Euclidean and the engine's -1 out-of-bounds sentinel is
 * negative.
 */
module Encoding {

  const MaxBoardSize: int := 10
  const PlayerA: int := 1
  const PlayerB: int := 2
  const Empty: int := 0
  /** Largest value the encoding can hold: a value of 100 would read back as the next player. */
  const MaxValue: int := 99

  predicate IsPlayer(p: int) { p == PlayerA || p == PlayerB }

  /** The other player, as the engine computes it: anything but A counts as B. */
  function Opponent(p: int): (o: int)
    ensures IsPlayer(o)
    ensures IsPlayer(p) ==> o != p && (o == PlayerA <==> p == PlayerB)
  {
    if p == PlayerA then PlayerB else PlayerA
  }

  /** C++ integer division for a positive divisor (rounds toward zero). */
  function TruncDiv(a: int, b: int): int
    requires b > 0
  {
    if a >= 0 then a / b else -((-a) / b)
  }

  /** C++ remainder for a positive divisor (takes the sign of the dividend). */
  function TruncMod(a: int, b: int): int
    requires b > 0
  {
    a - b * TruncDiv(a, b)
  }

  /** The code the engine writes for a cell that `player` fills with `value`. */
  function Code(player: int, value: int): int
  {
    player * 100 + value
  }

  /**
   * `get_player`: the owner of a cell code, 0 for an empty cell.  The
   * hundreds of the code, rounded toward zero.
   */
  function CellPlayer(code: int): (p: int)
    ensures code == 0 ==> p == 0
    ensures code > 0 ==> 0 <= code - p * 100 < 100
    ensures code < 0 ==> -100 < code - p * 100 <= 0
  {
    if code == 0 then 0 else TruncDiv(code, 100)
  }

  /**
   * `get_value`: the value of a cell code, 0 for an empty cell.  What is
   * left of the code after its owner's hundreds, with the code's sign.
   */
  function CellValue(code: int): (v: int)
    ensures code == CellPlayer(code) * 100 + v
    ensures code > 0 ==> 0 <= v < 100
    ensures code < 0 ==> -100 < v <= 0
  {
    if code == 0 then 0 else TruncMod(code, 100)
  }

  /**
   * A cell that the engine's scans treat as belonging to `p`: a positive
   * code whose hundreds are `p` (see `OwnedMeans`).
   */
  predicate Owned(code: int, p: int)
  {
    code > 0 && p * 100 <= code < p * 100 + 100
  }

  /** The scans' test `cell > 0 && get_player(cell) == p` is `Owned`. */
  lemma OwnedMeans(code: int, p: int)
    ensures Owned(code, p) <==> code > 0 && CellPlayer(code) == p
  {
    if code > 0 && CellPlayer(code) == p {
      assert code / 100 == p;
    }
  }

  /** A code the engine can have written: empty, or a player's value in 1..bound. */
  predicate ValidCode(code: int, bound: int)
  {
    code == 0 || (IsPlayer(CellPlayer(code)) && 1 <= CellValue(code) <= bound && bound <= MaxValue)
  }

  /** Decoding a freshly encoded cell gives back its owner and value. */
  lemma DecodeCode(p: int, v: int)
    requires IsPlayer(p) && 0 <= v <= MaxValue
    ensures Code(p, v) > 0
    ensures CellPlayer(Code(p, v)) == p && CellValue(Code(p, v)) == v
    ensures forall q :: Owned(Code(p, v), q) <==> q == p
  {
    var c := Code(p, v);
    assert c == p * 100 + v;
    assert c / 100 == p by {
      assert p * 100 <= c < (p + 1) * 100;
    }
  }

  /** Every valid non-empty code is the encoding of its own owner and value. */
  lemma EncodeDecode(code: int, bound: int)
    requires ValidCode(code, bound) && code != 0
    ensures code > 0 && Code(CellPlayer(code), CellValue(code)) == code
  {
  }

  /** The -1 sentinel that `get_cell` returns off the board decodes as owner 0, value -1. */
  lemma SentinelDecodes()
    ensures CellPlayer(-1) == 0 && CellValue(-1) == -1
    ensures forall p :: !Owned(-1, p)
  {
  }
}

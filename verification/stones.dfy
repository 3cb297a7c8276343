/**
 * The four cell states of a NoGo board and the colour swap between the two
 * players. The source stores them as unsigned bytes 0..3 and computes the
 * opponent as `WHITE + BLACK - color` in 8-bit arithmetic, so the swap is
 * total: it exchanges BLACK and WHITE, and also EMPTY and BORDER.
 */
module Stones {

  datatype Cell = Empty | Black | White | Border

  /** Largest supported board size. */
  const MaxSize: nat := 25

  /** The byte the source stores for each cell state. */
  function Code(c: Cell): (k: nat)
    ensures k < 4
  {
    match c
    case Empty => 0
    case Black => 1
    case White => 2
    case Border => 3
  }

  /** The cell state whose byte is `k`. */
  function FromCode(k: nat): (c: Cell)
    requires k < 4
    ensures Code(c) == k
  {
    if k == 0 then Empty else if k == 1 then Black else if k == 2 then White else Border
  }

  /**
   * `WHITE + BLACK - color`, computed on bytes (3 - c never wraps for c in
   * 0..3): BLACK and WHITE trade places, EMPTY and BORDER trade places, and
   * no cell state is its own opponent.
   */
  function Opponent(c: Cell): (o: Cell)
    ensures c == Black <==> o == White
    ensures c == White <==> o == Black
    ensures c == Empty <==> o == Border
    ensures o != c
  {
    FromCode(3 - Code(c))
  }

  predicate IsPlayer(c: Cell) {
    c == Black || c == White
  }

  /** The two players are swapped, and a player never maps to a non-player. */
  lemma OpponentSwapsPlayers(c: Cell)
    ensures c == Black <==> Opponent(c) == White
    ensures c == White <==> Opponent(c) == Black
    ensures IsPlayer(c) <==> IsPlayer(Opponent(c))
    ensures Opponent(c) != c
  {
  }

  /** Swapping twice gives back the original cell state. */
  lemma OpponentInvolution(c: Cell)
    ensures Opponent(Opponent(c)) == c
  {
  }
}

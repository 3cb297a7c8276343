/**
 * Random playouts to the end of the game (`_simulate` in
 * `jackrabbit/engine.py`, the first half of `Node.simulate` in
 * `nogo4/engine.py`): repeatedly play a random legal move for the side to
 * move and swap sides, until the side to move has no legal move. That side
 * has lost.
 *
 * Randomness is an explicit argument: `shuffle(k, xs)` is the k-th shuffle
 * drawn from the generator, and the model only assumes that it permutes
 * `xs`. The number of shuffles drawn so far is threaded through.
 */
module Rollouts {
  import opened Options
  import opened Stones
  import opened Boards
  import opened Groups
  import opened Rules

  /** Every shuffle the generator produces is a permutation of its input. */
  ghost predicate Permutes(shuffle: (nat, seq<int>) -> seq<int>) {
    forall k: nat, xs: seq<int> :: multiset(shuffle(k, xs)) == multiset(xs)
  }

  /** `get_random_move_for` with the k-th shuffle of the empty points. */
  function DrawMove(b: Board, c: Cell, shuffle: (nat, seq<int>) -> seq<int>, k: nat): (r: Option<int>)
    requires WellIndexed(b) && Permutes(shuffle)
    ensures r.None? <==> LegalMovesFor(b, c) == []
    ensures r.Some? ==> 0 <= r.value < |b.cells| && LegalMove(b, r.value, c)
  {
    RandomMoveFor(b, c, shuffle(k, EmptyPoints(b)))
  }

  /** Where a playout stopped: the final cells, the side left without a move. */
  datatype RolloutEnd = RolloutEnd(board: Board, loser: Cell, draws: nat)

  /** The measure that a random playout decreases: filling a cell, or an EMPTY "move". */
  function Remaining(b: Board, player: Cell): nat {
    2 * |EmptyPoints(b)| + (if player == Empty then 1 else 0)
  }

  /**
   * One random move and its consequences for the measure: an EMPTY "move"
   * rewrites an EMPTY cell, any other colour fills one.
   */
  lemma RandomMoveProgress(b: Board, m: int, player: Cell)
    requires WellIndexed(b) && 0 <= m < |b.cells| && LegalMove(b, m, player)
    ensures Remaining(PlayLegalMove(b, m, player), Opponent(player)) < Remaining(b, player)
  {
    if player == Empty {
      assert PlayLegalMove(b, m, player).cells == b.cells;
    } else {
      LegalMoveFillsEmpty(b, m, player);
    }
  }

  /** The NoGo invariant across one random move, when it holds before it. */
  lemma RandomMoveKeepsGroupsAlive(b: Board, m: int, player: Cell)
    requires WellIndexed(b) && 0 <= m < |b.cells| && LegalMove(b, m, player)
    ensures SymmetricTable(b) && IsPlayer(player) && AllGroupsAlive(b) ==>
              SymmetricTable(PlayLegalMove(b, m, player)) && AllGroupsAlive(PlayLegalMove(b, m, player))
  {
    if SymmetricTable(b) && IsPlayer(player) && AllGroupsAlive(b) {
      LegalMoveKeepsGroupsAlive(b, m, player);
    }
  }

  /**
   * The playout loop. It stops with a side that has no legal move, never
   * removes or changes a stone, and keeps every group alive when the
   * players are the two real colours.
   */
  function Rollout(b: Board, player: Cell, shuffle: (nat, seq<int>) -> seq<int>, draws: nat): (r: RolloutEnd)
    requires WellIndexed(b) && Permutes(shuffle)
    ensures r.board.size == b.size && r.board.neighbors == b.neighbors
    ensures |r.board.cells| == |b.cells| && WellIndexed(r.board)
    ensures LegalMovesFor(r.board, r.loser) == []
    ensures forall q :: 0 <= q < |b.cells| && b.cells[q] != Empty ==> r.board.cells[q] == b.cells[q]
    ensures r.loser == player || r.loser == Opponent(player)
    ensures r.draws > draws
    ensures SymmetricTable(b) && IsPlayer(player) && AllGroupsAlive(b) ==> AllGroupsAlive(r.board)
    decreases Remaining(b, player)
  {
    match DrawMove(b, player, shuffle, draws)
    case None => RolloutEnd(b, player, draws + 1)
    case Some(m) =>
      var next := PlayLegalMove(b, m, player);
      RandomMoveProgress(b, m, player);
      RandomMoveKeepsGroupsAlive(b, m, player);
      OpponentSwapsPlayers(player);
      OpponentInvolution(player);
      Rollout(next, Opponent(player), shuffle, draws + 1)
  }
}

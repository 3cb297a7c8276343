/**
 * The engine session of `jackrabbit/engine.py` (the same commands appear
 * in `nogo4/engine.py`): the position and the colour to move, the
 * commands that reset them or play a move, and `generate_move`, which
 * searches and commits the chosen move.
 */
module Sessions {
  import opened Options
  import opened Stones
  import opened Boards
  import opened Groups
  import opened Rules
  import opened Rollouts
  import opened Search

  datatype Engine = Engine(board: Board, current: Cell)

  /** A board as the program builds it: laid out and with its border ring. */
  predicate Settled(e: Engine) {
    Shaped(e.board) && BorderIntact(e.board)
  }

  /** `Engine()`: a 7x7 board and BLACK to move. */
  function NewEngine(): (e: Engine)
    ensures e.board.size == 7 && e.current == Black && Settled(e)
  {
    Engine(NewBoard(7), Black)
  }

  /** `set_board_size(size)`: a fresh board of that size, BLACK to move. No size check happens here. */
  function SetBoardSize(e: Engine, size: nat): (r: Engine)
    ensures r.board.size == size && r.current == Black && Settled(r)
    ensures forall p :: 0 <= p < |r.board.cells| ==> (r.board.cells[p] == Empty <==> Playable(size, p))
  {
    Engine(NewBoard(size), Black)
  }

  /** `clear_board()`: a fresh board of the same size, BLACK to move. */
  function ClearBoard(e: Engine): (r: Engine)
    ensures r.board.size == e.board.size && r.current == Black && Settled(r)
    ensures forall p :: 0 <= p < |r.board.cells| ==> (r.board.cells[p] == Empty <==> Playable(e.board.size, p))
  {
    Engine(NewBoard(e.board.size), Black)
  }

  /** Clearing twice is clearing once, and clearing is resizing to the current size. */
  lemma ClearBoardIdempotent(e: Engine)
    ensures ClearBoard(ClearBoard(e)) == ClearBoard(e)
    ensures ClearBoard(e) == SetBoardSize(e, e.board.size)
  {
  }

  /** What `play_move` answers, with the session it leaves. */
  datatype Answer = Answer(legal: bool, engine: Engine)

  /**
   * `play_move(point, color)`: play when legal, and only then hand the
   * move to the opponent of `color`.
   */
  function PlayMove(e: Engine, point: int, color: Cell): (r: Answer)
    requires WellIndexed(e.board) && 0 <= point < |e.board.cells|
    ensures r.legal <==> LegalMove(e.board, point, color)
    ensures !r.legal ==> r.engine == e
    ensures r.legal ==> r.engine == Engine(PlayLegalMove(e.board, point, color), Opponent(color))
  {
    var played := PlayFor(e.board, point, color);
    if played.ok then Answer(true, Engine(played.board, Opponent(color)))
    else Answer(false, e.(board := played.board))
  }

  /** A legal move keeps the board laid out and, for a real colour, its border ring. */
  lemma PlayMoveKeepsSettled(e: Engine, point: int, color: Cell)
    requires Settled(e) && 0 <= point < |e.board.cells| && color != Border
    ensures WellIndexed(e.board)
    ensures Settled(PlayMove(e, point, color).engine)
  {
    ShapedIsWellIndexed(e.board);
    var r := PlayMove(e, point, color);
    if r.legal {
      LegalMoveKeepsBorder(e.board, point, color);
    }
  }

  /**
   * The move a search of at least one playout from a fresh root chooses:
   * none exactly when `color` has no legal move, and a legal one otherwise.
   */
  lemma SearchedMoveIsLegal(b: Board, color: Cell, bonus: (nat, nat) -> real,
                            shuffle: (nat, seq<int>) -> seq<int>, draws: nat, count: nat)
    requires WellIndexed(b) && Permutes(shuffle) && count > 0
    ensures var t := Playouts(NewTree(), b, color, bonus, shuffle, draws, count).tree;
      && |t| > 0 && (forall k :: 0 <= k < |t[0].children| ==> t[0].children[k].child < |t|)
      && (ChooseMove(t).None? <==> LegalMovesFor(b, color) == [])
      && (ChooseMove(t).Some? ==> 0 <= ChooseMove(t).value < |b.cells| && LegalMove(b, ChooseMove(t).value, color))
  {
    NewTreeInvariants(b, color);
    var t := Playouts(NewTree(), b, color, bonus, shuffle, draws, count).tree;
    ChosenMoveIsLegal(t, b, color);
  }

  /** What `generate_move` answers, with the session it leaves. */
  datatype Generated = Generated(move: Option<int>, engine: Engine, draws: nat)

  /**
   * `generate_move(color)`: search from a fresh root for `count` playouts
   * on copies of the position, then commit the robust child's move for
   * `color` and hand the move to its opponent. After at least one playout
   * there is a move exactly when `color` has a legal move, and the move is
   * legal.
   */
  function GenerateMove(e: Engine, color: Cell, bonus: (nat, nat) -> real,
                        shuffle: (nat, seq<int>) -> seq<int>, draws: nat, count: nat): (r: Generated)
    requires WellIndexed(e.board) && Permutes(shuffle)
    ensures r.move.None? ==> r.engine == e
    ensures r.move.None? <==> count == 0 || LegalMovesFor(e.board, color) == []
    ensures r.move.Some? ==> 0 <= r.move.value < |e.board.cells| && LegalMove(e.board, r.move.value, color)
    ensures r.move.Some? ==> r.engine == Engine(PlayLegalMove(e.board, r.move.value, color), Opponent(color))
  {
    NewTreeInvariants(e.board, color);
    var searched := Playouts(NewTree(), e.board, color, bonus, shuffle, draws, count);
    var t := searched.tree;
    if count > 0 then
      SearchedMoveIsLegal(e.board, color, bonus, shuffle, draws, count);
      match ChooseMove(t)
      case None => Generated(None, e, searched.draws)
      case Some(m) =>
        Generated(Some(m), Engine(PlayLegalMove(e.board, m, color), Opponent(color)), searched.draws)
    else
      assert ChooseMove(t).None?;
      Generated(None, e, searched.draws)
  }
}

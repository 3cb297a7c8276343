/**
 * The earlier tree search of `nogo4/engine.py`. Every node keeps its own
 * position and side to move; selection descends while a node has been
 * visited more than `SIM_T` times, expansion adds one random child, and a
 * random game from the new node is counted on the path back to the root
 * with a win value that alternates from level to level.
 *
 * Nodes live in an arena indexed by node number; the root is node 0.
 */
module EarlySearch {
  import opened Options
  import opened Stones
  import opened Boards
  import opened Groups
  import opened Rules
  import opened Rollouts
  import opened Scores

  /** `SIM_T`: the visits a node needs before selection looks below it. */
  const SimT: nat := 3

  datatype Node = Node(board: Board, player: Cell, parent: Option<nat>, wins: int, visits: nat, children: seq<nat>)

  type Arena = seq<Node>

  /** `Node(board, player, parent)`. */
  function NewNode(b: Board, player: Cell, parent: Option<nat>): Node {
    Node(b, player, parent, 0, 0, [])
  }

  // ---------------------------------------------------------------------
  // Invariants
  // ---------------------------------------------------------------------

  /**
   * Node 0 is the root, a parent precedes its children, child lists and
   * parent links agree, and every position is a board with the root's
   * neighbour table.
   */
  ghost predicate Shaped4(t: Arena) {
    && |t| > 0 && t[0].parent.None? && WellIndexed(t[0].board)
    && (forall i :: 0 < i < |t| ==> t[i].parent.Some? && t[i].parent.value < i)
    && (forall i, k :: 0 <= i < |t| && 0 <= k < |t[i].children| ==>
          i < t[i].children[k] < |t| && t[t[i].children[k]].parent == Some(i))
    && (forall i :: 0 <= i < |t| ==>
          t[i].board.neighbors == t[0].board.neighbors && |t[i].board.cells| == |t[0].board.cells|)
  }

  /** A child's position is its parent's after a legal move of the parent's side, with the other side to move. */
  ghost predicate Follows(parent: Node, child: Node)
    requires WellIndexed(parent.board)
  {
    && child.player == Opponent(parent.player)
    && exists m :: 0 <= m < |parent.board.cells| && LegalMove(parent.board, m, parent.player) &&
         child.board == PlayLegalMove(parent.board, m, parent.player)
  }

  /** Every node but the root follows its parent. */
  ghost predicate MovesFollow(t: Arena)
    requires Shaped4(t)
  {
    forall i :: 0 < i < |t| ==> Follows(t[t[i].parent.value], t[i])
  }

  /** Every node but the root has been visited, so a UCT score never divides by zero. */
  ghost predicate Visited(t: Arena) {
    forall i :: 0 < i < |t| ==> t[i].visits > 0
  }

  ghost predicate StatsSound4(t: Arena) {
    forall i :: 0 <= i < |t| ==> 0 <= t[i].wins <= t[i].visits
  }

  /** The invariant of the search between iterations. */
  ghost predicate Good(t: Arena) {
    Shaped4(t) && MovesFollow(t) && Visited(t) && StatsSound4(t)
  }

  /**
   * The root `generate_move` builds: a lone node holding a copy of the
   * position, with the side to move and no statistics. The search
   * invariant holds from the start.
   */
  function FreshArena(b: Board, player: Cell): (r: Arena)
    requires WellIndexed(b)
    ensures |r| == 1 && r[0].board == b && r[0].player == player && r[0].parent.None?
    ensures r[0].visits == 0 && r[0].wins == 0 && r[0].children == []
    ensures Good(r)
  {
    [Node(b, player, None, 0, 0, [])]
  }

  lemma ShapedWellIndexed(t: Arena, i: nat)
    requires Shaped4(t) && i < |t|
    ensures WellIndexed(t[i].board)
  {
  }

  /** Node `j` is `x` or one of its ancestors. */
  ghost predicate Above(t: Arena, x: nat, j: nat)
    requires Shaped4(t) && x < |t|
    decreases x
  {
    j == x || (x > 0 && Above(t, t[x].parent.value, j))
  }

  /** How many levels node `j` is above node `x`. */
  ghost function Depth(t: Arena, x: nat, j: nat): nat
    requires Shaped4(t) && x < |t| && Above(t, x, j)
    decreases x
  {
    if j == x then 0 else 1 + Depth(t, t[x].parent.value, j)
  }

  lemma {:induction false} AboveBelow(t: Arena, x: nat, j: nat)
    requires Shaped4(t) && x < |t| && Above(t, x, j)
    ensures j <= x
    decreases x
  {
    if j != x {
      AboveBelow(t, t[x].parent.value, j);
    }
  }

  lemma {:induction false} RootAbove(t: Arena, x: nat)
    requires Shaped4(t) && x < |t|
    ensures Above(t, x, 0)
    decreases x
  {
    if x != 0 {
      RootAbove(t, t[x].parent.value);
    }
  }

  lemma {:induction false} AboveTrans(t: Arena, x: nat, y: nat, z: nat)
    requires Shaped4(t) && x < |t| && y < |t| && Above(t, x, y) && Above(t, y, z)
    ensures Above(t, x, z)
    decreases x
  {
    if x != y {
      AboveTrans(t, t[x].parent.value, y, z);
    }
  }

  // ---------------------------------------------------------------------
  // select
  // ---------------------------------------------------------------------

  /**
   * `Node._uct_score`: the child's win rate plus an exploration bonus.
   * The bonus `SIM_C * sqrt(log(parent.visits) / visits)` is
   * floating-point arithmetic and enters as `bonus(parent visits, visits)`.
   */
  function UctScore4(parentVisits: nat, child: Node, bonus: (nat, nat) -> real): (s: Score)
    requires child.visits > 0
    ensures s.Finite?
    ensures 0 <= child.wins ==> bonus(parentVisits, child.visits) <= s.value
    ensures child.wins <= child.visits ==> s.value <= 1.0 + bonus(parentVisits, child.visits)
    ensures child.wins == child.visits ==> s.value == 1.0 + bonus(parentVisits, child.visits)
    ensures child.wins == 0 ==> s.value == bonus(parentVisits, child.visits)
  {
    RateBounds(child.wins, child.visits);
    Finite(child.wins as real / child.visits as real + bonus(parentVisits, child.visits))
  }

  /** Every node on the way from `node` down to `r`, except `r`, was passable. */
  ghost predicate PassableDown(t: Arena, r: nat, node: nat)
    requires Shaped4(t) && r < |t|
  {
    forall j: nat :: j < |t| && j != r && Above(t, r, j) && Above(t, j, node) ==>
      t[j].visits > SimT && t[j].children != []
  }

  /**
   * `Node.select`: from `node`, move to the first child with the highest
   * score while the current node has more than `SIM_T` visits and has
   * children. It ends below `node` at a node that fails that test, and
   * every node it passed through met it.
   */
  function Select4(t: Arena, node: nat, bonus: (nat, nat) -> real): (r: nat)
    requires Shaped4(t) && Visited(t) && node < |t|
    ensures r < |t| && Above(t, r, node)
    ensures t[r].visits <= SimT || t[r].children == []
    ensures PassableDown(t, r, node)
    decreases |t| - node
  {
    if t[node].visits > SimT && t[node].children != [] then
      var cs := t[node].children;
      var scores := seq(|cs|, k requires 0 <= k < |cs| => UctScore4(t[node].visits, t[cs[k]], bonus));
      var next := cs[FirstMax(scores)];
      var r := Select4(t, next, bonus);
      assert Above(t, next, node);
      AboveTrans(t, r, next, node);
      SelectPath(t, r, next, node);
      r
    else
      AboveAntisym(t, node);
      node
  }

  /** Extending a passable path by one passable step at the top. */
  lemma SelectPath(t: Arena, r: nat, next: nat, node: nat)
    requires Shaped4(t) && r < |t| && next < |t| && node < |t|
    requires t[next].parent == Some(node) && Above(t, r, next) && PassableDown(t, r, next)
    requires t[node].visits > SimT && t[node].children != []
    ensures PassableDown(t, r, node)
  {
    forall j: nat | j < |t| && j != r && Above(t, r, j) && Above(t, j, node)
      ensures t[j].visits > SimT && t[j].children != []
    {
      if j != node {
        AboveSplit(t, r, next, j);
        if Above(t, next, j) {
          ParentStep(t, next, node, j);
        }
        assert Above(t, j, next);
      }
    }
  }

  /** Only `x` itself is both above and below `x`. */
  lemma AboveAntisym(t: Arena, x: nat)
    requires Shaped4(t) && x < |t|
    ensures forall j: nat :: j < |t| && Above(t, x, j) && Above(t, j, x) ==> j == x
  {
    forall j: nat | j < |t| && Above(t, x, j) && Above(t, j, x)
      ensures j == x
    {
      AboveBelow(t, x, j);
      AboveBelow(t, j, x);
    }
  }

  /** Between a node and its parent there is nothing else. */
  lemma ParentStep(t: Arena, next: nat, node: nat, j: nat)
    requires Shaped4(t) && next < |t| && node < |t| && j < |t| && t[next].parent == Some(node)
    requires Above(t, next, j) && Above(t, j, node)
    ensures j == next || j == node
  {
    if j != next {
      AboveAntisym(t, node);
    }
  }

  /** Two ancestors of `r` are ordered: one is above the other. */
  lemma {:induction false} AboveSplit(t: Arena, r: nat, a: nat, j: nat)
    requires Shaped4(t) && r < |t| && a < |t| && j < |t| && Above(t, r, a) && Above(t, r, j)
    ensures Above(t, a, j) || Above(t, j, a)
    decreases r
  {
    if r != a && r != j {
      AboveSplit(t, t[r].parent.value, a, j);
    }
  }

  // ---------------------------------------------------------------------
  // expand
  // ---------------------------------------------------------------------

  /** Append `child` to the arena as a new child of node `i`. */
  function Adopt(t: Arena, i: nat, child: Node): (r: Arena)
    requires i < |t|
    ensures |r| == |t| + 1 && r[|t|] == child
    ensures forall j :: 0 <= j < |t| && j != i ==> r[j] == t[j]
    ensures r[i] == t[i].(children := t[i].children + [|t|])
  {
    t[i := t[i].(children := t[i].children + [|t|])] + [child]
  }

  /** The arena after `expand`, the node it returned, and the generator's draw count. */
  datatype Expanded = Expanded(arena: Arena, node: nat, draws: nat)

  /**
   * `Node.expand`: draw a random legal move for the node's side; if there
   * is none, return the node itself and change nothing, otherwise append
   * one unvisited child holding the position after the move and the other
   * side to move, and return it.
   */
  function Expand4(t: Arena, i: nat, shuffle: (nat, seq<int>) -> seq<int>, draws: nat): (r: Expanded)
    requires Shaped4(t) && i < |t| && Permutes(shuffle)
    ensures WellIndexed(t[i].board)
    ensures r.draws == draws + 1
    ensures r.node == i <==> LegalMovesFor(t[i].board, t[i].player) == []
    ensures r.node == i ==> r.arena == t
    ensures r.node != i ==> r.node == |t| && |r.arena| > |t| && r.arena == Adopt(t, i, r.arena[|t|])
    ensures r.node != i ==> r.arena[|t|].parent == Some(i) && r.arena[|t|].visits == 0
    ensures r.node != i ==> r.arena[|t|].wins == 0 && r.arena[|t|].children == []
    ensures r.node != i ==> r.arena[|t|].board.neighbors == t[i].board.neighbors
    ensures r.node != i ==> |r.arena[|t|].board.cells| == |t[i].board.cells|
    ensures r.node != i ==> Follows(t[i], r.arena[|t|])
  {
    ShapedWellIndexed(t, i);
    var n := t[i];
    match DrawMove(n.board, n.player, shuffle, draws)
    case None => Expanded(t, i, draws + 1)
    case Some(m) =>
      var played := PlayFor(n.board, m, n.player);
      var child := NewNode(played.board, Opponent(n.player), Some(i));
      assert played.board == PlayLegalMove(n.board, m, n.player);
      assert Follows(n, child);
      Expanded(Adopt(t, i, child), |t|, draws + 1)
  }

  /** Adopting a child that follows its parent keeps the arena's shape. */
  lemma AdoptKeepsShape(t: Arena, i: nat, child: Node)
    requires Shaped4(t) && MovesFollow(t) && i < |t|
    requires child.parent == Some(i) && child.children == []
    requires WellIndexed(t[i].board) && Follows(t[i], child)
    ensures Shaped4(Adopt(t, i, child)) && MovesFollow(Adopt(t, i, child))
  {
    var a := Adopt(t, i, child);
    AdoptShaped(t, i, child);
    forall j | 0 < j < |a|
      ensures Follows(a[a[j].parent.value], a[j])
    {
      if j < |t| {
        var p := t[j].parent.value;
        assert a[p].board == t[p].board && a[p].player == t[p].player;
        assert Follows(t[p], t[j]);
      }
    }
  }

  lemma AdoptShaped(t: Arena, i: nat, child: Node)
    requires Shaped4(t) && i < |t| && child.parent == Some(i) && child.children == []
    requires child.board.neighbors == t[0].board.neighbors && |child.board.cells| == |t[0].board.cells|
    ensures Shaped4(Adopt(t, i, child))
  {
    var a := Adopt(t, i, child);
    forall j, k | 0 <= j < |a| && 0 <= k < |a[j].children|
      ensures j < a[j].children[k] < |a| && a[a[j].children[k]].parent == Some(j)
    {
      if j != i || k < |t[i].children| {
        assert a[j].children[k] == t[j].children[k];
      }
    }
  }

  lemma ExpandShaped(t: Arena, i: nat, shuffle: (nat, seq<int>) -> seq<int>, draws: nat)
    requires Shaped4(t) && i < |t| && Permutes(shuffle)
    ensures var r := Expand4(t, i, shuffle, draws);
      r.node < |r.arena| && Shaped4(r.arena)
  {
    var r := Expand4(t, i, shuffle, draws);
    if r.node != i {
      AdoptShaped(t, i, r.arena[|t|]);
    }
  }

  lemma ExpandKeepsShape(t: Arena, i: nat, shuffle: (nat, seq<int>) -> seq<int>, draws: nat)
    requires Shaped4(t) && MovesFollow(t) && i < |t| && Permutes(shuffle)
    ensures var r := Expand4(t, i, shuffle, draws);
      r.node < |r.arena| && Shaped4(r.arena) && MovesFollow(r.arena)
  {
    var r := Expand4(t, i, shuffle, draws);
    if r.node != i {
      AdoptKeepsShape(t, i, r.arena[|t|]);
    }
  }

  // ---------------------------------------------------------------------
  // simulate
  // ---------------------------------------------------------------------

  /** The win value one level up: `1 - value`. */
  function Flip(value: int): int {
    1 - value
  }

  /**
   * The back-propagation loop of `Node.simulate`: count the playout on the
   * node with `value` and on each ancestor, alternating `value` and
   * `1 - value` level by level, up to the root. Only visits and wins
   * change, exactly on the path.
   */
  function Backprop(t: Arena, x: nat, value: int): (r: Arena)
    requires Shaped4(t) && x < |t|
    ensures |r| == |t|
    ensures forall j :: 0 <= j < |t| && !Above(t, x, j) ==> r[j] == t[j]
    ensures forall j :: 0 <= j < |t| && Above(t, x, j) ==>
              r[j] == t[j].(visits := t[j].visits + 1,
                            wins := t[j].wins + if Depth(t, x, j) % 2 == 0 then value else Flip(value))
    decreases x
  {
    var up := if x == 0 then t else Backprop(t, t[x].parent.value, Flip(value));
    NotAboveParent(t, x);
    up[x := up[x].(wins := up[x].wins + value, visits := up[x].visits + 1)]
  }

  /** A node is never among its parent's ancestors. */
  lemma NotAboveParent(t: Arena, x: nat)
    requires Shaped4(t) && x < |t|
    ensures x > 0 ==> !Above(t, t[x].parent.value, x)
  {
    if x > 0 {
      var p := t[x].parent.value;
      forall j: nat | Above(t, p, j)
        ensures j <= p
      {
        AboveBelow(t, p, j);
      }
    }
  }

  /** A 0/1 value stays 0/1 when flipped, so every count stays below the visits. */
  lemma BackpropStats(t: Arena, x: nat, value: int)
    requires Shaped4(t) && x < |t| && (value == 0 || value == 1)
    ensures StatsSound4(t) ==> StatsSound4(Backprop(t, x, value))
  {
  }

  /** What `simulate` leaves: the arena and the generator's draw count. */
  datatype Simulated4 = Simulated4(arena: Arena, draws: nat)

  /** The random game `simulate` plays, from a copy of node `x`'s position. */
  function GameFrom(t: Arena, x: nat, shuffle: (nat, seq<int>) -> seq<int>, draws: nat): (r: RolloutEnd)
    requires Shaped4(t) && x < |t| && Permutes(shuffle)
    ensures r.board.size == t[x].board.size && r.board.neighbors == t[x].board.neighbors
    ensures |r.board.cells| == |t[x].board.cells|
    ensures forall q :: 0 <= q < |t[x].board.cells| && t[x].board.cells[q] != Empty ==>
              r.board.cells[q] == t[x].board.cells[q]
    ensures LegalMovesFor(r.board, r.loser) == []
    ensures r.loser == t[x].player || r.loser == Opponent(t[x].player)
    ensures r.draws > draws
  {
    ShapedWellIndexed(t, x);
    Rollout(t[x].board, t[x].player, shuffle, draws)
  }

  /**
   * The value `simulate` starts back-propagation with, as written: 1 when
   * the winner (the opponent of the side left without a move) is the
   * node's own side to move.
   */
  function FirstValueAsWritten(loser: Cell, player: Cell): int {
    if Opponent(loser) == player then 1 else 0
  }

  /**
   * The value UCT selection needs: 1 when the side that moved into the
   * node won, which is when the node's own side to move lost.
   */
  function FirstValue(loser: Cell, player: Cell): int {
    if loser == player then 1 else 0
  }

  /**
   * `Node.simulate` with the corrected first value: a random game from a
   * copy of the node's position, then back-propagation. Positions, sides,
   * and links stay as they were; exactly the node and its ancestors gain a
   * visit.
   */
  function Simulate4(t: Arena, x: nat, shuffle: (nat, seq<int>) -> seq<int>, draws: nat): (r: Simulated4)
    requires Shaped4(t) && x < |t| && Permutes(shuffle)
    ensures |r.arena| == |t|
    ensures forall j :: 0 <= j < |t| ==>
              r.arena[j].board == t[j].board && r.arena[j].player == t[j].player &&
              r.arena[j].parent == t[j].parent && r.arena[j].children == t[j].children
    ensures forall j :: 0 <= j < |t| ==> r.arena[j].visits == t[j].visits + (if Above(t, x, j) then 1 else 0)
    ensures StatsSound4(t) ==> StatsSound4(r.arena)
    ensures r.draws > draws
  {
    var end := GameFrom(t, x, shuffle, draws);
    var value := FirstValue(end.loser, t[x].player);
    BackpropStats(t, x, value);
    Simulated4(Backprop(t, x, value), end.draws)
  }

  /** `Node.simulate` exactly as written, with its first value. */
  function Simulate4AsWritten(t: Arena, x: nat, shuffle: (nat, seq<int>) -> seq<int>, draws: nat): (r: Simulated4)
    requires Shaped4(t) && x < |t| && Permutes(shuffle)
    ensures |r.arena| == |t|
    ensures forall j :: 0 <= j < |t| ==>
              r.arena[j].board == t[j].board && r.arena[j].player == t[j].player &&
              r.arena[j].parent == t[j].parent && r.arena[j].children == t[j].children
    ensures forall j :: 0 <= j < |t| ==> r.arena[j].visits == t[j].visits + (if Above(t, x, j) then 1 else 0)
    ensures StatsSound4(t) ==> StatsSound4(r.arena)
    ensures r.draws > draws
  {
    var end := GameFrom(t, x, shuffle, draws);
    var value := FirstValueAsWritten(end.loser, t[x].player);
    BackpropStats(t, x, value);
    Simulated4(Backprop(t, x, value), end.draws)
  }

  /**
   * The written and the corrected `simulate` credit complementary wins:
   * on every node of the path, a win under one is no win under the other.
   */
  lemma AsWrittenComplementsCorrected(t: Arena, x: nat, shuffle: (nat, seq<int>) -> seq<int>, draws: nat, j: nat)
    requires Shaped4(t) && x < |t| && Permutes(shuffle) && j < |t| && Above(t, x, j)
    ensures Simulate4AsWritten(t, x, shuffle, draws).arena[j].wins - t[j].wins
              == 1 - (Simulate4(t, x, shuffle, draws).arena[j].wins - t[j].wins)
  {
    var end := GameFrom(t, x, shuffle, draws);
    var player := t[x].player;
    OpponentInvolution(player);
    assert FirstValueAsWritten(end.loser, player) == 1 - FirstValue(end.loser, player);
  }

  /** Every node's side to move is the opponent of its parent's. */
  ghost predicate Alternating(t: Arena)
    requires Shaped4(t)
  {
    forall i :: 0 < i < |t| ==> t[i].player == Opponent(t[t[i].parent.value].player)
  }

  /** Nodes that follow their parents by a move alternate sides. */
  lemma SidesAlternate(t: Arena)
    requires Shaped4(t) && MovesFollow(t)
    ensures Alternating(t)
  {
    forall i | 0 < i < |t|
      ensures t[i].player == Opponent(t[t[i].parent.value].player)
    {
      assert Follows(t[t[i].parent.value], t[i]);
    }
  }

  /** Sides alternate along a path: a node an even number of levels up has the same side to move. */
  lemma {:induction false} PlayerAtDepth(t: Arena, x: nat, j: nat)
    requires Shaped4(t) && Alternating(t) && x < |t| && j < |t| && Above(t, x, j)
    ensures t[j].player == if Depth(t, x, j) % 2 == 0 then t[x].player else Opponent(t[x].player)
    decreases x
  {
    if j != x {
      var p := t[x].parent.value;
      assert Above(t, p, j) && Depth(t, x, j) == 1 + Depth(t, p, j);
      PlayerAtDepth(t, p, j);
      OpponentInvolution(t[p].player);
      if Depth(t, p, j) % 2 == 0 {
        assert t[j].player == t[p].player == Opponent(t[x].player);
      } else {
        assert t[j].player == Opponent(t[p].player) == t[x].player;
      }
    }
  }

  /** The wins one back-propagation adds to node `j`, given the side that won. */
  lemma CreditAt(t: Arena, x: nat, j: nat, value: int, loser: Cell)
    requires Shaped4(t) && Alternating(t) && x < |t| && IsPlayer(t[x].player)
    requires 0 < j < |t| && Above(t, x, j)
    requires loser == t[x].player || loser == Opponent(t[x].player)
    ensures value == FirstValue(loser, t[x].player) ==>
              Backprop(t, x, value)[j].wins ==
                t[j].wins + (if Opponent(loser) == t[t[j].parent.value].player then 1 else 0)
    ensures value == FirstValueAsWritten(loser, t[x].player) ==>
              Backprop(t, x, value)[j].wins ==
                t[j].wins + (if Opponent(loser) == t[t[j].parent.value].player then 0 else 1)
  {
    var d := Depth(t, x, j);
    assert Backprop(t, x, value)[j].wins == t[j].wins + if d % 2 == 0 then value else Flip(value);
    PlayerAtDepth(t, x, j);
    OpponentSwapsPlayers(t[x].player);
    OpponentInvolution(t[x].player);
  }

  /**
   * With the corrected value, a node below the root gains a win exactly
   * when the side that chose it, its parent's side to move, won the random
   * game, so the parent's selection maximises its own side's win rate.
   */
  lemma WinsForChooser(t: Arena, x: nat, shuffle: (nat, seq<int>) -> seq<int>, draws: nat, j: nat)
    requires Shaped4(t) && MovesFollow(t) && Permutes(shuffle) && x < |t| && IsPlayer(t[x].player)
    requires 0 < j < |t| && Above(t, x, j)
    ensures var winner := Opponent(GameFrom(t, x, shuffle, draws).loser);
      Simulate4(t, x, shuffle, draws).arena[j].wins ==
        t[j].wins + (if winner == t[t[j].parent.value].player then 1 else 0)
  {
    var end := GameFrom(t, x, shuffle, draws);
    SidesAlternate(t);
    CreditAt(t, x, j, FirstValue(end.loser, t[x].player), end.loser);
  }

  /**
   * As written, a node below the root gains a win exactly when the side
   * that chose it lost the random game: the parent's selection maximises
   * its opponent's win rate.
   */
  lemma WinsAgainstChooser(t: Arena, x: nat, shuffle: (nat, seq<int>) -> seq<int>, draws: nat, j: nat)
    requires Shaped4(t) && MovesFollow(t) && Permutes(shuffle) && x < |t| && IsPlayer(t[x].player)
    requires 0 < j < |t| && Above(t, x, j)
    ensures var winner := Opponent(GameFrom(t, x, shuffle, draws).loser);
      Simulate4AsWritten(t, x, shuffle, draws).arena[j].wins ==
        t[j].wins + (if winner == t[t[j].parent.value].player then 0 else 1)
  {
    var end := GameFrom(t, x, shuffle, draws);
    SidesAlternate(t);
    CreditAt(t, x, j, FirstValueAsWritten(end.loser, t[x].player), end.loser);
  }

  /**
   * Two arenas whose nodes have the same positions, sides and links are
   * shaped, and follow their parents, alike: the statistics play no part.
   */
  lemma SameLinksKeepShape(t: Arena, a: Arena)
    requires Shaped4(t) && MovesFollow(t) && |a| == |t|
    requires forall j :: 0 <= j < |t| ==>
               a[j].board == t[j].board && a[j].player == t[j].player &&
               a[j].parent == t[j].parent && a[j].children == t[j].children
    ensures Shaped4(a) && MovesFollow(a)
  {
    assert Shaped4(a);
    forall j | 0 < j < |a|
      ensures Follows(a[a[j].parent.value], a[j])
    {
      var p := t[j].parent.value;
      assert Follows(t[p], t[j]);
    }
  }

  /** Back-propagation keeps the invariant's shape parts. */
  lemma SimulateKeepsShape(t: Arena, x: nat, shuffle: (nat, seq<int>) -> seq<int>, draws: nat)
    requires Shaped4(t) && MovesFollow(t) && x < |t| && Permutes(shuffle)
    ensures Shaped4(Simulate4(t, x, shuffle, draws).arena)
    ensures MovesFollow(Simulate4(t, x, shuffle, draws).arena)
  {
    SameLinksKeepShape(t, Simulate4(t, x, shuffle, draws).arena);
  }

  // ---------------------------------------------------------------------
  // One iteration of the search loop
  // ---------------------------------------------------------------------

  /** `node = root.select().expand(); node.simulate()`. */
  function Iterate(t: Arena, bonus: (nat, nat) -> real, shuffle: (nat, seq<int>) -> seq<int>, draws: nat): (r: Simulated4)
    requires Shaped4(t) && Visited(t) && Permutes(shuffle)
    ensures r.draws > draws
  {
    var leaf := Select4(t, 0, bonus);
    var ex := Expand4(t, leaf, shuffle, draws);
    ExpandShaped(t, leaf, shuffle, draws);
    Simulate4(ex.arena, ex.node, shuffle, ex.draws)
  }

  /** What `expand` does to the statistics: none change, and a new node starts at zero. */
  lemma ExpandStats4(t: Arena, i: nat, shuffle: (nat, seq<int>) -> seq<int>, draws: nat)
    requires Shaped4(t) && i < |t| && Permutes(shuffle)
    ensures var r := Expand4(t, i, shuffle, draws);
      && (r.node == i || (r.node == |t| && |r.arena| == |t| + 1))
      && |r.arena| >= |t| && r.node < |r.arena|
      && (forall j :: 0 <= j < |t| ==> r.arena[j].visits == t[j].visits && r.arena[j].wins == t[j].wins)
      && (r.node == |t| ==> r.arena[r.node].visits == 0 && r.arena[r.node].wins == 0)
  {
  }

  /** One iteration keeps the arena shaped and every child following its parent. */
  lemma IterateShape(t: Arena, bonus: (nat, nat) -> real, shuffle: (nat, seq<int>) -> seq<int>, draws: nat)
    requires Shaped4(t) && MovesFollow(t) && Visited(t) && Permutes(shuffle)
    ensures var r := Iterate(t, bonus, shuffle, draws).arena;
      Shaped4(r) && MovesFollow(r) && (|r| == |t| || |r| == |t| + 1)
  {
    var leaf := Select4(t, 0, bonus);
    var ex := Expand4(t, leaf, shuffle, draws);
    ExpandKeepsShape(t, leaf, shuffle, draws);
    ExpandStats4(t, leaf, shuffle, draws);
    SimulateKeepsShape(ex.arena, ex.node, shuffle, ex.draws);
  }

  /** One iteration adds a visit to the root and keeps every other node visited. */
  lemma IterateVisits(t: Arena, bonus: (nat, nat) -> real, shuffle: (nat, seq<int>) -> seq<int>, draws: nat)
    requires Shaped4(t) && Visited(t) && Permutes(shuffle)
    ensures var r := Iterate(t, bonus, shuffle, draws).arena;
      |r| > 0 && Visited(r) && r[0].visits == t[0].visits + 1
  {
    var leaf := Select4(t, 0, bonus);
    var ex := Expand4(t, leaf, shuffle, draws);
    ExpandShaped(t, leaf, shuffle, draws);
    ExpandStats4(t, leaf, shuffle, draws);
    assert Iterate(t, bonus, shuffle, draws) == Simulate4(ex.arena, ex.node, shuffle, ex.draws);
    SimulateVisits(ex.arena, ex.node, shuffle, ex.draws);
  }

  /** Simulating from a node visits it and the root, so only that node may be unvisited beforehand. */
  lemma SimulateVisits(a: Arena, x: nat, shuffle: (nat, seq<int>) -> seq<int>, draws: nat)
    requires Shaped4(a) && x < |a| && Permutes(shuffle)
    requires forall j :: 0 < j < |a| && j != x ==> a[j].visits > 0
    ensures var r := Simulate4(a, x, shuffle, draws).arena;
      |r| > 0 && Visited(r) && r[0].visits == a[0].visits + 1
  {
    RootAbove(a, x);
  }

  /** One iteration keeps `0 <= wins <= visits` at every node. */
  lemma IterateStats(t: Arena, bonus: (nat, nat) -> real, shuffle: (nat, seq<int>) -> seq<int>, draws: nat)
    requires Shaped4(t) && Visited(t) && StatsSound4(t) && Permutes(shuffle)
    ensures StatsSound4(Iterate(t, bonus, shuffle, draws).arena)
  {
    var leaf := Select4(t, 0, bonus);
    var ex := Expand4(t, leaf, shuffle, draws);
    ExpandShaped(t, leaf, shuffle, draws);
    ExpandStats4(t, leaf, shuffle, draws);
    assert StatsSound4(ex.arena) by {
      forall j | 0 <= j < |ex.arena|
        ensures 0 <= ex.arena[j].wins <= ex.arena[j].visits
      {
        if j >= |t| {
          assert j == |t| == ex.node;
        }
      }
    }
    assert Iterate(t, bonus, shuffle, draws) == Simulate4(ex.arena, ex.node, shuffle, ex.draws);
  }

  /**
   * One iteration keeps the invariant: in particular every node but the
   * root stays visited, so the next selection never scores an unvisited
   * child. The root gains one visit, and the arena at most one node.
   */
  lemma IterateKeepsGood(t: Arena, bonus: (nat, nat) -> real, shuffle: (nat, seq<int>) -> seq<int>, draws: nat)
    requires Good(t) && Permutes(shuffle)
    ensures var r := Iterate(t, bonus, shuffle, draws).arena;
      && Good(r)
      && (|r| == |t| || |r| == |t| + 1)
      && r[0].visits == t[0].visits + 1
  {
    IterateShape(t, bonus, shuffle, draws);
    IterateVisits(t, bonus, shuffle, draws);
    IterateStats(t, bonus, shuffle, draws);
  }
}
